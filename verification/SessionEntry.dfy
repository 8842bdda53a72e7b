/**
The session entry points the TA macros generate, for a TA with a session context:
a box is leaked into `*sess_ctx` when a session opens, borrowed back and leaked
again by every invoke, and dropped when the session closes. The framework calls
them for any number of sessions, in any order.
*/
module SessionEntry {
  import opened Base
  import opened Ledger

  type Address = nat
  type SessionId = nat

  const NULL: Address := 0
  const TEE_SUCCESS: u32 := 0
  const TEE_ERROR_SECURITY: u32 := 0xFFFF_000F

  /** What parameter decoding or a handler answers; an error carries its raw code. */
  datatype Answer = Fine | Fault(code: u32) {
    function Code(): u32 { if Fine? then TEE_SUCCESS else code }
  }

  /** The TA's boxes and what has been done to them. */
  datatype Boxes<Ctx> = Boxes(heap: map<Address, Ctx>, log: seq<Event<Address>>)

  type Handler<!Ctx> = Ctx -> (Ctx, Answer)

  // -------------------------------------------------------------- entry points

  ghost function OpenStep<Ctx>(
    b: Boxes<Ctx>, slot: Address, initial: Ctx, decode: Answer, handler: Handler<Ctx>, address: Address)
    : (Boxes<Ctx>, Address, u32)
  {
    if decode.Fault? then (b, slot, decode.code) else
    var (ctx, answer) := handler(initial);
    if answer.Fault? then (b, slot, answer.code)
    else (Boxes(b.heap[address := ctx], b.log + [Acquire(address)]), address, TEE_SUCCESS)
  }

  ghost function InvokeStep<Ctx>(b: Boxes<Ctx>, slot: Address, decode: Answer, handler: Handler<Ctx>): (Boxes<Ctx>, u32)
    requires slot == NULL || slot in b.heap
  {
    if slot == NULL then (b, TEE_ERROR_SECURITY)
    else if decode.Fault? then (b, decode.code) else
    var (ctx, answer) := handler(b.heap[slot]);
    (Boxes(b.heap[slot := ctx], b.log + [Use(slot)]), answer.Code())
  }

  /** `None` is the panic on a null context. */
  ghost function CloseStep<Ctx>(b: Boxes<Ctx>, slot: Address): Option<Boxes<Ctx>>
    requires slot == NULL || slot in b.heap
  {
    if slot == NULL then None
    else Some(Boxes(b.heap - {slot}, b.log + [Use(slot), Release(slot)]))
  }

  class Slot {
    var pointer: Address
    constructor () ensures pointer == NULL { pointer := NULL; }
  }

  /** A box held on the stack, freed at the end of its scope unless it has been forgotten by then. */
  class LocalBox {
    const pointer: Address
    var forgotten: bool

    constructor FromRaw(pointer: Address)
      ensures this.pointer == pointer && !forgotten
    {
      this.pointer, forgotten := pointer, false;
    }

    method Forget()
      modifies this
      ensures forgotten
    {
      forgotten := true;
    }
  }

  class EntryPoints<Ctx> {
    const initial: Ctx
    var heap: map<Address, Ctx>
    ghost var log: seq<Event<Address>>

    ghost function Now(): Boxes<Ctx>
      reads this
    {
      Boxes(heap, log)
    }

    constructor (initial: Ctx)
      ensures this.initial == initial && Now() == Boxes(map[], [])
    {
      this.initial, heap, log := initial, map[], [];
    }

    method NewBox(ctx: Ctx, address: Address) returns (b: LocalBox)
      modifies this
      ensures fresh(b) && b.pointer == address && !b.forgotten
      ensures Now() == Boxes(old(heap)[address := ctx], old(log) + [Acquire(address)])
    {
      heap, log := heap[address := ctx], log + [Acquire(address)];
      b := new LocalBox.FromRaw(address);
    }

    method EndOfScope(b: LocalBox)
      modifies this
      ensures Now() == if b.forgotten then old(Now())
                       else Boxes(old(heap) - {b.pointer}, old(log) + [Release(b.pointer)])
    {
      if !b.forgotten {
        heap, log := heap - {b.pointer}, log + [Release(b.pointer)];
      }
    }

    /** `address` is where the allocator puts the box. */
    method OpenSession(slot: Slot, decode: Answer, handler: Handler<Ctx>, address: Address) returns (code: u32)
      requires address != NULL && address !in heap
      modifies this, slot
      ensures (Now(), slot.pointer, code) == OpenStep(old(Now()), old(slot.pointer), initial, decode, handler, address)
    {
      if decode.Fault? { return decode.code; }
      var (ctx, answer) := handler(initial);
      match answer {
        case Fine =>
          var b := NewBox(ctx, address);
          b.Forget();
          slot.pointer := b.pointer;
          EndOfScope(b);
          code := TEE_SUCCESS;
        case Fault(c) => code := c;
      }
    }

    method InvokeCommand(pointer: Address, decode: Answer, handler: Handler<Ctx>) returns (code: u32)
      requires pointer == NULL || pointer in heap
      modifies this
      ensures (Now(), code) == InvokeStep(old(Now()), pointer, decode, handler)
    {
      if pointer == NULL { return TEE_ERROR_SECURITY; }
      if decode.Fault? { return decode.code; }
      var b := new LocalBox.FromRaw(pointer);
      var (ctx, answer) := handler(heap[b.pointer]);
      heap, log := heap[b.pointer := ctx], log + [Use(b.pointer)];
      match answer {
        case Fine =>
          b.Forget();
          code := TEE_SUCCESS;
        case Fault(c) =>
          b.Forget();
          code := c;
      }
      EndOfScope(b);
    }

    method CloseSession(pointer: Address, handler: Ctx -> Ctx) returns (panicked: bool)
      requires pointer == NULL || pointer in heap
      modifies this
      ensures match CloseStep(old(Now()), pointer)
              case Some(b) => !panicked && Now() == b
              case None => panicked && Now() == old(Now())
    {
      if pointer == NULL { return true; }
      var b := new LocalBox.FromRaw(pointer);
      heap, log := heap[b.pointer := handler(heap[b.pointer])], log + [Use(b.pointer)];
      EndOfScope(b);
      panicked := false;
    }
  }

  // ---------------------------------------------------------------------- runs

  datatype Call<!Ctx> =
    | Open(session: SessionId, decode: Answer, handler: Handler<Ctx>, address: Address)
    | Invoke(session: SessionId, decode: Answer, handler: Handler<Ctx>)
    | Close(session: SessionId)

  /** The framework's view: a slot per open session. After a panic nothing runs any more. */
  datatype World<Ctx> = World(boxes: Boxes<Ctx>, slots: map<SessionId, Address>, panicked: bool)

  /** The framework opens unused session ids and calls into open sessions; the allocator returns unused addresses. */
  ghost predicate Enabled<Ctx>(w: World<Ctx>, c: Call<Ctx>) {
    && !w.panicked
    && (c.Open? ==> c.session !in w.slots && c.address != NULL && c.address !in w.boxes.heap)
    && (!c.Open? ==> c.session in w.slots && (w.slots[c.session] == NULL || w.slots[c.session] in w.boxes.heap))
  }

  ghost function Step<Ctx>(initial: Ctx, w: World<Ctx>, c: Call<Ctx>): World<Ctx>
    requires Enabled(w, c)
  {
    match c
    case Open(session, decode, handler, address) =>
      var (boxes, slot, code) := OpenStep(w.boxes, NULL, initial, decode, handler, address);
      World(boxes, if code == TEE_SUCCESS then w.slots[session := slot] else w.slots, false)
    case Invoke(session, decode, handler) => w.(boxes := InvokeStep(w.boxes, w.slots[session], decode, handler).0)
    case Close(session) =>
      match CloseStep(w.boxes, w.slots[session])
      case Some(boxes) => World(boxes, w.slots - {session}, false)
      case None => w.(panicked := true)
  }

  /** The world after a run of calls; `None` if the framework would not make some of them. */
  ghost function Run<Ctx>(initial: Ctx, calls: seq<Call<Ctx>>): Option<World<Ctx>> {
    if calls == [] then Some(World(Boxes(map[], []), map[], false)) else
    match Run(initial, calls[..|calls| - 1])
    case Some(w) => if Enabled(w, calls[|calls| - 1]) then Some(Step(initial, w, calls[|calls| - 1])) else None
    case None => None
  }

  /** The log is legal and says the same about what is live as the heap. */
  ghost predicate LogMatches<Ctx>(b: Boxes<Ctx>) {
    Legal(b.log) && Live(b.log) == b.heap.Keys
  }

  ghost predicate Holds(slots: map<SessionId, Address>, a: Address) {
    exists s :: s in slots && slots[s] == a
  }

  /** The boxes are exactly those of the open sessions, one each. */
  ghost predicate OnePerSession(slots: map<SessionId, Address>, boxes: set<Address>) {
    && NULL !in boxes
    && (forall s :: s in slots && slots[s] != NULL ==> slots[s] in boxes)
    && (forall a :: a in boxes ==> Holds(slots, a))
    && (forall s, t :: s in slots && t in slots && slots[s] == slots[t] && slots[s] != NULL ==> s == t)
  }

  ghost predicate Owned<Ctx>(w: World<Ctx>) {
    LogMatches(w.boxes) && OnePerSession(w.slots, w.boxes.heap.Keys)
  }

  lemma AddSession(slots: map<SessionId, Address>, boxes: set<Address>, s: SessionId, a: Address)
    requires OnePerSession(slots, boxes) && s !in slots && a != NULL && a !in boxes
    ensures OnePerSession(slots[s := a], boxes + {a})
  {
    var slots' := slots[s := a];
    forall x | x in boxes + {a} ensures Holds(slots', x) {
      if x == a {
        assert slots'[s] == a;
      } else {
        var t :| t in slots && slots[t] == x;
        assert slots'[t] == x;
      }
    }
  }

  lemma RemoveSession(slots: map<SessionId, Address>, boxes: set<Address>, s: SessionId)
    requires OnePerSession(slots, boxes) && s in slots && slots[s] != NULL
    ensures OnePerSession(slots - {s}, boxes - {slots[s]})
  {
    forall x | x in boxes - {slots[s]} ensures Holds(slots - {s}, x) {
      var t :| t in slots && slots[t] == x;
      assert (slots - {s})[t] == x;
    }
  }

  lemma EmptySlot(slots: map<SessionId, Address>, boxes: set<Address>, s: SessionId)
    requires OnePerSession(slots, boxes) && s !in slots
    ensures OnePerSession(slots[s := NULL], boxes)
  {
    forall x | x in boxes ensures Holds(slots[s := NULL], x) {
      var t :| t in slots && slots[t] == x;
      assert slots[s := NULL][t] == x;
    }
  }

  lemma OpenLog<Ctx>(b: Boxes<Ctx>, initial: Ctx, decode: Answer, handler: Handler<Ctx>, address: Address)
    requires LogMatches(b) && address !in b.heap
    ensures LogMatches(OpenStep(b, NULL, initial, decode, handler, address).0)
  {
    Append(b.log, Acquire(address));
  }

  lemma InvokeLog<Ctx>(b: Boxes<Ctx>, slot: Address, decode: Answer, handler: Handler<Ctx>)
    requires LogMatches(b) && (slot == NULL || slot in b.heap)
    ensures LogMatches(InvokeStep(b, slot, decode, handler).0)
  {
    Append(b.log, Use(slot));
  }

  lemma CloseLog<Ctx>(b: Boxes<Ctx>, slot: Address)
    requires LogMatches(b) && slot != NULL && slot in b.heap
    ensures LogMatches(CloseStep(b, slot).value)
  {
    Append(b.log, Use(slot));
    Append(b.log + [Use(slot)], Release(slot));
    assert b.log + [Use(slot), Release(slot)] == b.log + [Use(slot)] + [Release(slot)];
  }

  lemma StepLog<Ctx>(initial: Ctx, w: World<Ctx>, c: Call<Ctx>)
    requires LogMatches(w.boxes) && Enabled(w, c)
    ensures LogMatches(Step(initial, w, c).boxes)
  {
    match c
    case Open(_, decode, handler, address) => OpenLog(w.boxes, initial, decode, handler, address);
    case Invoke(session, decode, handler) => InvokeLog(w.boxes, w.slots[session], decode, handler);
    case Close(session) => if w.slots[session] != NULL { CloseLog(w.boxes, w.slots[session]); }
  }

  lemma StepOwned<Ctx>(initial: Ctx, w: World<Ctx>, c: Call<Ctx>)
    requires Owned(w) && Enabled(w, c)
    ensures Owned(Step(initial, w, c))
  {
    StepLog(initial, w, c);
    var v := Step(initial, w, c);
    match c
    case Open(session, _, _, address) =>
      if v.boxes != w.boxes {
        AddSession(w.slots, w.boxes.heap.Keys, session, address);
        assert v.boxes.heap.Keys == w.boxes.heap.Keys + {address};
      } else {
        EmptySlot(w.slots, w.boxes.heap.Keys, session);
      }
    case Invoke(_, _, _) =>
      assert v.boxes.heap.Keys == w.boxes.heap.Keys;
    case Close(session) =>
      if !v.panicked {
        RemoveSession(w.slots, w.boxes.heap.Keys, session);
        assert v.boxes.heap.Keys == w.boxes.heap.Keys - {w.slots[session]};
      }
  }

  /** What one session's own calls, run alone, would leave as its context. */
  ghost function Alone<Ctx>(initial: Ctx, calls: seq<Call<Ctx>>, session: SessionId): Option<Ctx> {
    if calls == [] then None else
    var before := Alone(initial, calls[..|calls| - 1], session);
    var c := calls[|calls| - 1];
    if c.session == session then Leaves(initial, c, before) else before
  }

  ghost function ContextOf<Ctx>(w: World<Ctx>, session: SessionId): Option<Ctx> {
    if session in w.slots && w.slots[session] in w.boxes.heap then Some(w.boxes.heap[w.slots[session]]) else None
  }

  /** What one call leaves as its session's context, given what it found. */
  ghost function Leaves<Ctx>(initial: Ctx, c: Call<Ctx>, found: Option<Ctx>): Option<Ctx> {
    match c
    case Open(_, decode, handler, _) =>
      if decode.Fine? && handler(initial).1.Fine? then Some(handler(initial).0) else None
    case Invoke(_, decode, handler) => if found.Some? && decode.Fine? then Some(handler(found.value).0) else found
    case Close(_) => None
  }

  lemma StepContext<Ctx>(initial: Ctx, w: World<Ctx>, c: Call<Ctx>, s: SessionId)
    requires Owned(w) && Enabled(w, c) && !Step(initial, w, c).panicked
    ensures ContextOf(Step(initial, w, c), s)
            == if s == c.session then Leaves(initial, c, ContextOf(w, s)) else ContextOf(w, s)
  {
  }

  /**
  Over every interleaving of calls on any number of sessions: the live boxes are
  exactly those of the open sessions, every box is released at most once and never
  used afterwards, and each session's context is what its own calls alone would have
  left, whatever other sessions did in between and whichever calls answered an error.
  */
  lemma {:induction false} RunOwned<Ctx>(initial: Ctx, calls: seq<Call<Ctx>>, w: World<Ctx>)
    requires Run(initial, calls) == Some(w)
    ensures Owned(w)
    ensures !w.panicked ==> forall s :: ContextOf(w, s) == Alone(initial, calls, s)
    decreases |calls|
  {
    if calls != [] {
      var n := |calls| - 1;
      var v := Run(initial, calls[..n]).value;
      RunOwned(initial, calls[..n], v);
      StepOwned(initial, v, calls[n]);
      if !w.panicked {
        forall s ensures ContextOf(w, s) == Alone(initial, calls, s) {
          StepContext(initial, v, calls[n], s);
        }
      }
    }
  }

  /** After every run that has not panicked, every invoke and every close of an open session finds its box, or null. */
  lemma OpenSessionIsEnabled<Ctx>(
    initial: Ctx, calls: seq<Call<Ctx>>, w: World<Ctx>, session: SessionId, decode: Answer, handler: Handler<Ctx>)
    requires Run(initial, calls) == Some(w) && !w.panicked && session in w.slots
    ensures Enabled(w, Invoke(session, decode, handler)) && Enabled(w, Close(session))
  {
    RunOwned(initial, calls, w);
  }

  // ------------------------------------------------------------ what calls answer

  /** The code a call answers the framework with; a close answers none. */
  ghost function Answered<Ctx>(initial: Ctx, w: World<Ctx>, c: Call<Ctx>): u32
    requires Enabled(w, c) && !c.Close?
  {
    match c
    case Open(_, decode, handler, address) => OpenStep(w.boxes, NULL, initial, decode, handler, address).2
    case Invoke(session, decode, handler) => InvokeStep(w.boxes, w.slots[session], decode, handler).1
  }

  /**
  Over every run, an invoke of an open session with a context answers the code of a
  failed decoding; otherwise zero, or the fault code the handler gives on what the
  session's own calls alone have left as its context.
  */
  lemma InvokeAnswers<Ctx>(
    initial: Ctx, calls: seq<Call<Ctx>>, w: World<Ctx>, session: SessionId, decode: Answer, handler: Handler<Ctx>)
    requires Run(initial, calls) == Some(w) && !w.panicked && session in w.slots
    ensures Enabled(w, Invoke(session, decode, handler))
    ensures var code := Answered(initial, w, Invoke(session, decode, handler));
            match Alone(initial, calls, session)
            case None => code == 0xFFFF_000F
            case Some(ctx) =>
              match decode
              case Fault(c) => code == c
              case Fine =>
                match handler(ctx).1
                case Fault(c) => code == c
                case Fine => code == 0
  {
    OpenSessionIsEnabled(initial, calls, w, session, decode, handler);
    RunOwned(initial, calls, w);
    assert ContextOf(w, session) == Alone(initial, calls, session);
  }

  /**
  An open answers the code of a failed decoding, or the fault code the handler gives on
  the initial context, leaving boxes and slot alone; or zero, with the handler's context
  in a new box and its address in the slot.
  */
  lemma OpenAnswers<Ctx>(
    b: Boxes<Ctx>, slot: Address, initial: Ctx, decode: Answer, handler: Handler<Ctx>, address: Address)
    ensures var (b', slot', code) := OpenStep(b, slot, initial, decode, handler, address);
            match decode
            case Fault(c) => b' == b && slot' == slot && code == c
            case Fine =>
              match handler(initial).1
              case Fault(c) => b' == b && slot' == slot && code == c
              case Fine => b'.heap == b.heap[address := handler(initial).0] && slot' == address && code == 0
  {
  }

  /** Opens that give a session its context. */
  ghost predicate Opens<Ctx>(initial: Ctx, c: Call<Ctx>) {
    c.Open? && c.decode.Fine? && c.handler(initial).1.Fine?
  }

  ghost function OpensIn<Ctx>(initial: Ctx, calls: seq<Call<Ctx>>): nat {
    if calls == [] then 0
    else OpensIn(initial, calls[..|calls| - 1]) + if Opens(initial, calls[|calls| - 1]) then 1 else 0
  }

  ghost function ClosesIn<Ctx>(calls: seq<Call<Ctx>>): nat {
    if calls == [] then 0 else ClosesIn(calls[..|calls| - 1]) + if calls[|calls| - 1].Close? then 1 else 0
  }

  ghost function Acquisitions(log: seq<Event<Address>>): nat {
    if log == [] then 0 else Acquisitions(log[..|log| - 1]) + if log[|log| - 1].Acquire? then 1 else 0
  }

  /** Invokes that reach the handler: of a session with a context, with parameters that decode. */
  ghost function HandledIn<Ctx>(initial: Ctx, calls: seq<Call<Ctx>>): nat {
    if calls == [] then 0 else
    var before, c := calls[..|calls| - 1], calls[|calls| - 1];
    HandledIn(initial, before)
    + if c.Invoke? && c.decode.Fine? && Alone(initial, before, c.session).Some? then 1 else 0
  }

  ghost function Uses(log: seq<Event<Address>>): nat {
    if log == [] then 0 else Uses(log[..|log| - 1]) + if log[|log| - 1].Use? then 1 else 0
  }

  ghost function Releases(log: seq<Event<Address>>): nat {
    if log == [] then 0 else Releases(log[..|log| - 1]) + if log[|log| - 1].Release? then 1 else 0
  }

  lemma AppendCounts(log: seq<Event<Address>>, e: Event<Address>)
    ensures Acquisitions(log + [e]) == Acquisitions(log) + if e.Acquire? then 1 else 0
    ensures Releases(log + [e]) == Releases(log) + if e.Release? then 1 else 0
    ensures Uses(log + [e]) == Uses(log) + if e.Use? then 1 else 0
  {
  }

  lemma StepCountsLog<Ctx>(initial: Ctx, w: World<Ctx>, c: Call<Ctx>)
    requires Enabled(w, c) && !Step(initial, w, c).panicked
    ensures var v := Step(initial, w, c);
            && Acquisitions(v.boxes.log) == Acquisitions(w.boxes.log) + (if Opens(initial, c) then 1 else 0)
            && Releases(v.boxes.log) == Releases(w.boxes.log) + (if c.Close? then 1 else 0)
  {
    var log, v := w.boxes.log, Step(initial, w, c);
    match c
    case Open(_, _, _, address) => AppendCounts(log, Acquire(address));
    case Invoke(session, _, _) => AppendCounts(log, Use(w.slots[session]));
    case Close(session) =>
      var a := w.slots[session];
      AppendCounts(log, Use(a));
      AppendCounts(log + [Use(a)], Release(a));
      assert v.boxes.log == log + [Use(a)] + [Release(a)];
  }

  lemma OpenUses<Ctx>(b: Boxes<Ctx>, initial: Ctx, decode: Answer, handler: Handler<Ctx>, address: Address)
    ensures Uses(OpenStep(b, NULL, initial, decode, handler, address).0.log) == Uses(b.log)
  {
    AppendCounts(b.log, Acquire(address));
  }

  lemma InvokeUses<Ctx>(b: Boxes<Ctx>, slot: Address, decode: Answer, handler: Handler<Ctx>)
    requires slot == NULL || slot in b.heap
    ensures Uses(InvokeStep(b, slot, decode, handler).0.log) ==
            Uses(b.log) + if slot != NULL && decode.Fine? then 1 else 0
  {
    AppendCounts(b.log, Use(slot));
  }

  lemma CloseUses<Ctx>(b: Boxes<Ctx>, slot: Address)
    requires slot != NULL && slot in b.heap
    ensures Uses(CloseStep(b, slot).value.log) == Uses(b.log) + 1
  {
    AppendCounts(b.log, Use(slot));
    AppendCounts(b.log + [Use(slot)], Release(slot));
    assert b.log + [Use(slot), Release(slot)] == b.log + [Use(slot)] + [Release(slot)];
  }

  lemma StepCountsUses<Ctx>(initial: Ctx, w: World<Ctx>, c: Call<Ctx>)
    requires Owned(w) && Enabled(w, c) && !Step(initial, w, c).panicked
    ensures Uses(Step(initial, w, c).boxes.log) ==
            Uses(w.boxes.log)
            + (if c.Close? || (c.Invoke? && c.decode.Fine? && ContextOf(w, c.session).Some?) then 1 else 0)
  {
    match c
    case Open(_, decode, handler, address) => OpenUses(w.boxes, initial, decode, handler, address);
    case Invoke(session, decode, handler) => InvokeUses(w.boxes, w.slots[session], decode, handler);
    case Close(session) => CloseUses(w.boxes, w.slots[session]);
  }

  lemma StepCountsBoxes<Ctx>(initial: Ctx, w: World<Ctx>, c: Call<Ctx>)
    requires Enabled(w, c) && !Step(initial, w, c).panicked
    ensures |Step(initial, w, c).boxes.heap.Keys|
            == |w.boxes.heap.Keys| + (if Opens(initial, c) then 1 else 0) - (if c.Close? then 1 else 0)
  {
  }

  /**
  Nothing but a successful open acquires a box, nothing but a close releases one, and
  nothing but an invoke that reaches its handler and a close hands one to a handler: over
  every run the numbers agree, and the difference of the first two is what is live.
  */
  lemma {:induction false} BoxesConserved<Ctx>(initial: Ctx, calls: seq<Call<Ctx>>, w: World<Ctx>)
    requires Run(initial, calls) == Some(w) && !w.panicked
    ensures Acquisitions(w.boxes.log) == OpensIn(initial, calls) && Releases(w.boxes.log) == ClosesIn(calls)
    ensures Uses(w.boxes.log) == HandledIn(initial, calls) + ClosesIn(calls)
    ensures |w.boxes.heap.Keys| == OpensIn(initial, calls) - ClosesIn(calls)
    decreases |calls|
  {
    if calls != [] {
      var n := |calls| - 1;
      var v := Run(initial, calls[..n]).value;
      BoxesConserved(initial, calls[..n], v);
      StepCountsLog(initial, v, calls[n]);
      RunOwned(initial, calls[..n], v);
      StepCountsUses(initial, v, calls[n]);
      StepCountsBoxes(initial, v, calls[n]);
    }
  }

  /** An open call whose failure is reported with the raw code of success. */
  ghost predicate FailsAsSuccess<Ctx>(initial: Ctx, c: Call<Ctx>) {
    c.Open? && ((c.decode.Fault? && c.decode.code == TEE_SUCCESS)
                || (c.decode.Fine? && c.handler(initial).1.Fault? && c.handler(initial).1.code == TEE_SUCCESS))
  }

  /**
  An open session has a context unless it was opened by a failure carrying code 0,
  and only closing such a session can panic: both happen if and only if a failing
  open reported the raw code of success.
  */
  lemma OpenSessionHasContextIff<Ctx>(initial: Ctx, w: World<Ctx>, c: Call<Ctx>)
    requires Owned(w) && Enabled(w, c) && c.Open? && c.session in Step(initial, w, c).slots
    ensures ContextOf(Step(initial, w, c), c.session).Some? <==> !FailsAsSuccess(initial, c)
    ensures FailsAsSuccess(initial, c) ==>
              && Enabled(Step(initial, w, c), Close(c.session))
              && Step(initial, Step(initial, w, c), Close(c.session)).panicked
  {
  }

  /** The latest open call on a session. */
  ghost function LatestOpen<Ctx>(calls: seq<Call<Ctx>>, session: SessionId): Option<Call<Ctx>> {
    if calls == [] then None else
    var c := calls[|calls| - 1];
    if c.Open? && c.session == session then Some(c) else LatestOpen(calls[..|calls| - 1], session)
  }

  /** The latest open on this session failed and was reported as a success. */
  ghost predicate OpenedByFailure<Ctx>(initial: Ctx, calls: seq<Call<Ctx>>, session: SessionId) {
    var o := LatestOpen(calls, session);
    o.Some? && FailsAsSuccess(initial, o.value)
  }

  /** Over every run, an open session lacks a context if and only if its latest open failed with code 0. */
  lemma {:induction false} SlotIsNullIff<Ctx>(initial: Ctx, calls: seq<Call<Ctx>>, w: World<Ctx>, session: SessionId)
    requires Run(initial, calls) == Some(w) && session in w.slots
    ensures w.slots[session] == NULL <==> OpenedByFailure(initial, calls, session)
    decreases |calls|
  {
    var n := |calls| - 1;
    var v := Run(initial, calls[..n]).value;
    if session in v.slots {
      SlotIsNullIff(initial, calls[..n], v, session);
    }
  }

  /** Such a session answers every invoke with a security error, without touching anything. */
  lemma InvokeWithoutContext<Ctx>(
    initial: Ctx, calls: seq<Call<Ctx>>, w: World<Ctx>, session: SessionId, decode: Answer, handler: Handler<Ctx>)
    requires Run(initial, calls) == Some(w) && session in w.slots && OpenedByFailure(initial, calls, session)
    ensures w.slots[session] == NULL
    ensures InvokeStep(w.boxes, w.slots[session], decode, handler) == (w.boxes, TEE_ERROR_SECURITY)
  {
    SlotIsNullIff(initial, calls, w, session);
  }

  /**
  A run has panicked if and only if its last call closes a session whose latest open
  failed with the raw code of success.
  */
  lemma PanicsIff<Ctx>(initial: Ctx, calls: seq<Call<Ctx>>, w: World<Ctx>)
    requires Run(initial, calls) == Some(w)
    ensures w.panicked <==>
            calls != []
            && var n := |calls| - 1; calls[n].Close? && OpenedByFailure(initial, calls[..n], calls[n].session)
  {
    if calls != [] {
      var n := |calls| - 1;
      var v := Run(initial, calls[..n]).value;
      if calls[n].Close? {
        SlotIsNullIff(initial, calls[..n], v, calls[n].session);
      }
    }
  }

  lemma {:induction false} NoPanicWithoutZeroCode<Ctx>(initial: Ctx, calls: seq<Call<Ctx>>, w: World<Ctx>)
    requires Run(initial, calls) == Some(w)
    requires forall i :: 0 <= i < |calls| ==> !FailsAsSuccess(initial, calls[i])
    ensures !w.panicked && forall s :: s in w.slots ==> w.slots[s] in w.boxes.heap
    decreases |calls|
  {
    RunOwned(initial, calls, w);
    if calls != [] {
      var n := |calls| - 1;
      var v := Run(initial, calls[..n]).value;
      NoPanicWithoutZeroCode(initial, calls[..n], v);
      RunOwned(initial, calls[..n], v);
    }
  }
}
