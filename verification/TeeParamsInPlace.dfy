/** `TeeParams` over real buffers, and the calls of `ta_session` that use it. */
module TeeParamsInPlace {
  import opened Base
  import opened Ledger
  import P = TeeParams
  import H = Handles

  /** `ParamContent`. */
  datatype Content =
    | Nothing
    | MemrefInput(buffer: array<u8>)
    | MemrefOutput(buffer: array<u8>, written: nat)
    | MemrefInout(buffer: array<u8>, written: nat)
    | ValueInput(a: u32, b: u32)
    | ValueOutput(a: u32, b: u32)
    | ValueInout(a: u32, b: u32)
  {
    predicate HasBuffer() { MemrefInput? || MemrefOutput? || MemrefInout? }

    ghost function Footprint(): set<array<u8>> { if HasBuffer() then {buffer} else {} }

    ghost function View(): P.Slot
      reads Footprint()
    {
      match this
      case Nothing => P.Empty
      case MemrefInput(buffer) => P.MemrefInput(buffer[..])
      case MemrefOutput(buffer, written) => P.MemrefOutput(buffer[..], written)
      case MemrefInout(buffer, written) => P.MemrefInout(buffer[..], written)
      case ValueInput(a, b) => P.ValueInput(a, b)
      case ValueOutput(a, b) => P.ValueOutput(a, b)
      case ValueInout(a, b) => P.ValueInout(a, b)
    }

    function Type(): P.ParamType {
      match this
      case Nothing => P.NoneType
      case MemrefInput(_) => P.MemrefInputType
      case MemrefOutput(_, _) => P.MemrefOutputType
      case MemrefInout(_, _) => P.MemrefInoutType
      case ValueInput(_, _) => P.ValueInputType
      case ValueOutput(_, _) => P.ValueOutputType
      case ValueInout(_, _) => P.ValueInoutType
    }
  }

  ghost function BuffersOf(slots: seq<Content>): set<array<u8>> {
    set i, b | 0 <= i < |slots| && b in slots[i].Footprint() :: b
  }

  ghost function SlotViews(slots: seq<Content>): (views: seq<P.Slot>)
    reads BuffersOf(slots)
    ensures |views| == |slots| && forall i :: 0 <= i < |slots| ==> views[i] == slots[i].View()
  {
    seq(|slots|, i requires 0 <= i < |slots| reads BuffersOf(slots) => slots[i].View())
  }

  /** `TEE_Param`, the memref side pointing at a real buffer. */
  datatype Raw = Memref(buffer: array?<u8>, size: nat) | Value(a: u32, b: u32) {
    ghost function View(): P.RawParam
      reads if Memref? && buffer != null then {buffer} else {}
    {
      match this
      case Memref(buffer, size) => P.Memref(buffer == null, if buffer == null then [] else buffer[..], size)
      case Value(a, b) => P.Value(a, b)
    }
  }

  ghost function Pointees(raws: seq<Raw>): set<array<u8>> {
    set i | 0 <= i < |raws| && raws[i].Memref? && raws[i].buffer != null :: raws[i].buffer
  }

  ghost function RawViews(raws: seq<Raw>): (views: seq<P.RawParam>)
    reads Pointees(raws)
    ensures |views| == |raws| && forall i :: 0 <= i < |raws| ==> views[i] == raws[i].View()
  {
    seq(|raws|, i requires 0 <= i < |raws| reads Pointees(raws) => raws[i].View())
  }

  /** The raw slot still points at the buffer the slot was set with. */
  predicate PointsBack(c: Content, r: Raw) {
    match c
    case Nothing => r.Memref? && r.buffer == null
    case MemrefInput(buffer) => r.Memref? && r.buffer == buffer
    case MemrefOutput(buffer, _) => r.Memref? && r.buffer == buffer
    case MemrefInout(buffer, _) => r.Memref? && r.buffer == buffer
    case ValueInput(_, _) => r.Value?
    case ValueOutput(_, _) => r.Value?
    case ValueInout(_, _) => r.Value?
  }

  class Params {
    const slots: array<Content>

    ghost predicate Valid()
    {
      slots.Length == P.PARAM_COUNT
    }

    ghost function Buffers(): set<array<u8>>
      reads slots
    {
      BuffersOf(slots[..])
    }

    ghost function Views(): (views: seq<P.Slot>)
      reads slots, Buffers()
      ensures |views| == slots.Length && forall i :: 0 <= i < slots.Length ==> views[i] == slots[i].View()
    {
      SlotViews(slots[..])
    }

    constructor ()
      ensures Valid() && fresh(slots) && forall i :: 0 <= i < slots.Length ==> slots[i] == Nothing
    {
      slots := new Content[P.PARAM_COUNT](_ => Nothing);
    }

    /** The `set_` and `with_` methods: an output starts with nothing written. */
    method Set(i: nat, content: Content)
      requires Valid() && i < P.PARAM_COUNT && (content.MemrefOutput? || content.MemrefInout? ==> content.written == 0)
      modifies slots
      ensures slots[..] == old(slots[..])[i := content]
    {
      slots[i] := content;
    }

    method RawParamTypes() returns (types: bv32)
      requires Valid()
      ensures types == P.Packed(Views()) && P.TypesIn(types) == P.TypesOf(Views())
    {
      var codes := seq(P.PARAM_COUNT, i requires 0 <= i < P.PARAM_COUNT reads slots => P.CodeOf(slots[i].Type()));
      types := PackTypes(codes);
      assert forall i :: 0 <= i < P.PARAM_COUNT ==> Views()[i].Type() == slots[i].Type();
      P.TypesRoundTrip(Views());
    }

    /** The accumulating loop of `raw_param_types`, over the slots' type codes. */
    static method PackTypes(codes: seq<bv32>) returns (types: bv32)
      requires |codes| == P.PARAM_COUNT
      ensures types == P.ParamTypes(codes[0], codes[1], codes[2], codes[3])
    {
      types := 0;
      var i := 0;
      while i < P.PARAM_COUNT
        invariant 0 <= i <= P.PARAM_COUNT
        invariant i == 0 ==> types == 0
        invariant i == 1 ==> types == codes[0]
        invariant i == 2 ==> types == codes[0] | (codes[1] << 4)
        invariant i == 3 ==> types == codes[0] | (codes[1] << 4) | (codes[2] << 8)
        invariant i == 4 ==> types == P.ParamTypes(codes[0], codes[1], codes[2], codes[3])
      {
        types := types | P.ShiftedTo(codes[i], i);
        i := i + 1;
      }
    }

    method AsRaw() returns (raws: array<Raw>)
      requires Valid()
      ensures fresh(raws) && raws.Length == P.PARAM_COUNT
      ensures forall i :: 0 <= i < P.PARAM_COUNT ==>
                            PointsBack(slots[i], raws[i]) && raws[i].View() == Views()[i].AsRaw()
    {
      raws := new Raw[P.PARAM_COUNT](_ => Memref(null, 0));
      for i := 0 to P.PARAM_COUNT
        invariant forall j :: 0 <= j < i ==> PointsBack(slots[j], raws[j]) && raws[j].View() == Views()[j].AsRaw()
      {
        raws[i] := match slots[i]
          case Nothing => Memref(null, 0)
          case MemrefInput(buffer) => Memref(buffer, buffer.Length)
          case MemrefOutput(buffer, _) => Memref(buffer, buffer.Length)
          case MemrefInout(buffer, _) => Memref(buffer, buffer.Length)
          case ValueInput(a, b) => Value(a, b)
          case ValueOutput(a, b) => Value(a, b)
          case ValueInout(a, b) => Value(a, b);
      }
    }

    /** `update_size_from_raw` or `update_value_from_raw`, as the slot has it. */
    method UpdateSlotFromRaw(i: nat, raw: Raw) returns (ok: bool)
      requires Valid() && i < P.PARAM_COUNT && PointsBack(slots[i], raw)
      modifies slots
      ensures match Updated(old(slots[i]), raw)
              case Some(c) => ok && slots[..] == old(slots[..])[i := c]
              case None => !ok && slots[..] == old(slots[..])
    {
      match slots[i] {
        case MemrefOutput(buffer, _) =>
          if raw.size > buffer.Length { return false; }
          slots[i] := MemrefOutput(buffer, raw.size);
        case MemrefInout(buffer, _) =>
          if raw.size > buffer.Length { return false; }
          slots[i] := MemrefInout(buffer, raw.size);
        case ValueOutput(_, _) => slots[i] := ValueOutput(raw.a, raw.b);
        case ValueInout(_, _) => slots[i] := ValueInout(raw.a, raw.b);
        case _ =>
      }
      ok := true;
    }

    /**
    In place what the copy-back on values does: slots before the first rejected size are
    updated, that one and the later ones are left alone, and each slot keeps its buffer.
    */
    method UpdateFromRaw(raws: array<Raw>) returns (ok: bool)
      requires Valid() && raws.Length == P.PARAM_COUNT
      requires forall i :: 0 <= i < P.PARAM_COUNT ==> PointsBack(slots[i], raws[i])
      modifies slots
      ensures P.ConsistentAll(P.TypesOf(SlotViews(old(slots[..]))), RawViews(raws[..]))
      ensures (SlotViews(slots[..]), ok) == P.UpdateFromRaw(SlotViews(old(slots[..])), RawViews(raws[..]), 0)
      ensures forall j :: 0 <= j < P.PARAM_COUNT ==> slots[j].Footprint() == old(slots[j]).Footprint()
    {
      ghost var was := slots[..];
      var i := 0;
      while i < P.PARAM_COUNT
        invariant 0 <= i <= P.PARAM_COUNT
        invariant forall j :: 0 <= j < i ==> Updated(was[j], raws[j]) == Some(slots[j])
        invariant forall j :: i <= j < P.PARAM_COUNT ==> slots[j] == was[j]
      {
        ok := UpdateSlotFromRaw(i, raws[i]);
        if !ok {
          InPlaceIsOnValues(was, slots[..], raws[..], i, false);
          return;
        }
        i := i + 1;
      }
      ok := true;
      InPlaceIsOnValues(was, slots[..], raws[..], i, true);
    }
  }

  /** A raw parameter that may come back for a slot: memory of the buffer's length, or values. */
  predicate ReturnedTo(c: Content, after: P.RawParam) {
    if c.HasBuffer() then after.Memref? && !after.isNull && |after.memory| == c.buffer.Length
    else if c.Nothing? then after.Memref? && after.isNull && after.memory == []
    else after.Value?
  }

  /** What a call may leave in the raw parameters: any sizes and values, and any bytes in the same buffers. */
  ghost predicate MayReturn(slots: seq<Content>, after: seq<P.RawParam>) {
    && |slots| == |after|
    && (forall i :: 0 <= i < |slots| ==> ReturnedTo(slots[i], after[i]))
    && (forall i, j :: 0 <= i < j < |slots| && SameBuffer(slots[i], slots[j]) ==> after[i].memory == after[j].memory)
  }

  predicate SameBuffer(c: Content, d: Content) { c.HasBuffer() && d.HasBuffer() && c.buffer == d.buffer }

  /** The slot's value up to the bytes in its buffer. */
  ghost predicate Describes(c: Content, v: P.Slot) {
    match c
    case Nothing => v == P.Empty
    case MemrefInput(_) => v.MemrefInput?
    case MemrefOutput(_, written) => v.MemrefOutput? && v.written == written
    case MemrefInout(_, written) => v.MemrefInout? && v.written == written
    case ValueInput(a, b) => v == P.ValueInput(a, b)
    case ValueOutput(a, b) => v == P.ValueOutput(a, b)
    case ValueInout(a, b) => v == P.ValueInout(a, b)
  }

  /** Slots whose raw parameters are `after` hold the bytes found there. */
  lemma CallShares(slots: seq<Content>, raws: seq<Raw>, views: seq<P.Slot>, after: seq<P.RawParam>)
    requires |slots| == |raws| == |views| == |after| && MayReturn(slots, after)
    requires forall i :: 0 <= i < |slots| ==>
                           PointsBack(slots[i], raws[i]) && raws[i].View() == after[i] && Describes(slots[i], views[i])
    ensures SlotViews(slots) == P.SharedAll(views, after) && RawViews(raws) == after
  {
    forall i | 0 <= i < |slots| ensures slots[i].View() == P.Shared(views[i], after[i]) {
      UpdatedViews(slots[i], raws[i]);
    }
  }

  /** The TEE's side of a call: bytes into the buffers, sizes and values into the raw parameters. */
  method TeeCall(ghost slots: seq<Content>, raws: array<Raw>, after: seq<P.RawParam>)
    requires |slots| == raws.Length && MayReturn(slots, after)
    requires forall i :: 0 <= i < |slots| ==> PointsBack(slots[i], raws[i])
    modifies raws, BuffersOf(slots)
    ensures forall i :: 0 <= i < |slots| ==> PointsBack(slots[i], raws[i]) && raws[i].View() == after[i]
  {
    var i := 0;
    while i < raws.Length
      invariant 0 <= i <= raws.Length
      invariant forall j :: i <= j < raws.Length ==> raws[j] == old(raws[j])
      invariant forall j :: 0 <= j < i ==> PointsBack(slots[j], raws[j]) && raws[j].View() == after[j]
    {
      match raws[i] {
        case Memref(buffer, _) =>
          if buffer != null {
            assert slots[i].HasBuffer() && buffer in slots[i].Footprint();
            forall n | 0 <= n < buffer.Length {
              buffer[n] := after[i].memory[n];
            }
            assert buffer[..] == after[i].memory;
          }
          raws[i] := Memref(buffer, after[i].size);
        case Value(_, _) => raws[i] := Value(after[i].a, after[i].b);
      }
      i := i + 1;
    }
  }

  /** Handing raw parameters to the TEE, seen from the slots: they hold the bytes the call left. */
  method Exchange(ghost slots: seq<Content>, ghost views: seq<P.Slot>, raws: array<Raw>, after: seq<P.RawParam>)
    requires |slots| == |views| == raws.Length && MayReturn(slots, after)
    requires forall i :: 0 <= i < |slots| ==> PointsBack(slots[i], raws[i]) && Describes(slots[i], views[i])
    modifies raws, BuffersOf(slots)
    ensures forall i :: 0 <= i < |slots| ==> PointsBack(slots[i], raws[i])
    ensures SlotViews(slots) == P.SharedAll(views, after) && RawViews(raws[..]) == after
  {
    TeeCall(slots, raws, after);
    CallShares(slots, raws[..], views, after);
  }

  /** What copy-back makes of one slot; `None` is a size beyond the buffer. */
  ghost function Updated(c: Content, r: Raw): Option<Content>
    requires PointsBack(c, r)
  {
    match c
    case MemrefOutput(buffer, _) => if r.size > buffer.Length then None else Some(MemrefOutput(buffer, r.size))
    case MemrefInout(buffer, _) => if r.size > buffer.Length then None else Some(MemrefInout(buffer, r.size))
    case ValueOutput(_, _) => Some(ValueOutput(r.a, r.b))
    case ValueInout(_, _) => Some(ValueInout(r.a, r.b))
    case _ => Some(c)
  }

  /** Copy-back in place is copy-back on the slots' values, the shared buffer being one and the same. */
  lemma UpdatedViews(c: Content, r: Raw)
    requires PointsBack(c, r)
    ensures P.Consistent(c.View().Type(), r.View()) && P.Shared(c.View(), r.View()) == c.View()
    ensures match Updated(c, r)
            case None => P.UpdateSlot(c.View(), r.View()) == None
            case Some(c') => P.UpdateSlot(c.View(), r.View()) == Some(c'.View())
  {
  }

  /** The slots before `n` are updated and the others as they were; slot `n`, if there is one, had a size too large. */
  ghost predicate UpdatedUpTo(before: seq<Content>, after: seq<Content>, raws: seq<Raw>, n: nat) {
    && |before| == |after| == |raws| && n <= |raws|
    && (forall j :: 0 <= j < |raws| ==> PointsBack(before[j], raws[j]))
    && (forall j :: 0 <= j < n ==> Updated(before[j], raws[j]) == Some(after[j]))
    && (forall j :: n <= j < |raws| ==> after[j] == before[j])
    && (n < |raws| ==> Updated(before[n], raws[n]) == None)
  }

  lemma InPlaceIsOnValues(before: seq<Content>, after: seq<Content>, raws: seq<Raw>, n: nat, ok: bool)
    requires UpdatedUpTo(before, after, raws, n) && (ok <==> n == |raws|)
    ensures P.ConsistentAll(P.TypesOf(SlotViews(before)), RawViews(raws))
    ensures (SlotViews(after), ok) == P.UpdateFromRaw(SlotViews(before), RawViews(raws), 0)
    ensures forall j :: 0 <= j < |raws| ==> after[j].Footprint() == before[j].Footprint()
  {
    var views, rawViews := SlotViews(before), RawViews(raws);
    forall j | 0 <= j < |raws|
      ensures P.Consistent(views[j].Type(), rawViews[j])
      ensures P.UpdateSlot(views[j], rawViews[j])
              == match Updated(before[j], raws[j]) case Some(c) => Some(c.View()) case None => None
    {
      UpdatedViews(before[j], raws[j]);
    }
    P.UpdateEffect(views, rawViews, 0);
    var (slots, done) := P.UpdateFromRaw(views, rawViews, 0);
    forall j | 0 <= j < |raws| ensures slots[j] == after[j].View() {
      if j >= n { assert P.UpdateSlot(views[n], rawViews[n]) == None; }
    }
    assert slots == SlotViews(after);
  }

  // ------------------------------------------------------------------ TA sessions

  lemma ComesBack(slots: seq<Content>, after: seq<P.RawParam>)
    requires MayReturn(slots, after)
    ensures forall i :: 0 <= i < |slots| ==> P.MayComeBack(SlotViews(slots)[i], after[i])
  {
  }

  /** The parameters are packed and handed to the TEE, which leaves `after` in them. */
  method Send(params: Params, after: seq<P.RawParam>) returns (raws: array<Raw>)
    requires params.Valid() && MayReturn(params.slots[..], after)
    modifies params.Buffers()
    ensures fresh(raws) && raws.Length == P.PARAM_COUNT && RawViews(raws[..]) == after
    ensures forall i :: 0 <= i < P.PARAM_COUNT ==> PointsBack(params.slots[i], raws[i])
    ensures SlotViews(params.slots[..]) == P.SharedAll(old(params.Views()), after)
    ensures forall i :: 0 <= i < P.PARAM_COUNT ==> P.MayComeBack(old(params.Views())[i], after[i])
  {
    ComesBack(params.slots[..], after);
    ghost var slots, views := params.slots[..], params.Views();
    assert forall i :: 0 <= i < |slots| ==> Describes(slots[i], views[i]);
    var types := params.RawParamTypes();
    raws := params.AsRaw();
    Exchange(slots, views, raws, after);
  }

  method Receive(params: Params, raws: array<Raw>, ghost views: seq<P.Slot>, ghost after: seq<P.RawParam>)
    returns (ok: bool)
    requires params.Valid() && raws.Length == |views| == |after| == P.PARAM_COUNT && RawViews(raws[..]) == after
    requires forall i :: 0 <= i < P.PARAM_COUNT ==> PointsBack(params.slots[i], raws[i])
    requires SlotViews(params.slots[..]) == P.SharedAll(views, after)
    requires forall i :: 0 <= i < P.PARAM_COUNT ==> P.MayComeBack(views[i], after[i])
    modifies params.slots
    ensures (SlotViews(params.slots[..]), ok) == P.CopiedBack(views, after)
    ensures ok <==> P.SizesFit(views, after)
  {
    P.CopyBackAcceptsIff(views, after);
    ghost var contents := params.slots[..];
    ok := params.UpdateFromRaw(raws);
    assert SlotViews(contents) == P.SharedAll(views, after) && RawViews(raws[..]) == after;
  }

  /** A session with another TA: `raw` is its handle. */
  class TaSession {
    const raw: nat

    constructor (raw: nat) ensures this.raw == raw { this.raw := raw; }

    static ghost function Contents(s: TaSession?): Option<H.Native> {
      if s == null then None else Some(H.TaSession(s.raw))
    }

    method Drop(tee: H.Tee)
      modifies tee
      ensures tee.log == old(tee.log) + [Release(H.TaSession(raw))]
      ensures forall v :: H.Performs(H.Action.Drop(v), map[v := H.TaSession(raw)], map[], old(tee.log), tee.log)
    {
      tee.log := tee.log + [Release(H.TaSession(raw))];
    }

    /** `works` is what TEE_InvokeTACommand answers and `after` what it leaves in the parameters. */
    method InvokeCommand(tee: H.Tee, params: Params, works: bool, after: seq<P.RawParam>) returns (ok: bool)
      requires params.Valid() && MayReturn(params.slots[..], after)
      modifies tee, params.slots, params.Buffers()
      ensures tee.log == old(tee.log) + [Use(H.TaSession(raw))]
      ensures forall v :: H.Performs(H.Action.InvokeCommand(v), map[v := H.TaSession(raw)], map[v := H.TaSession(raw)],
                                     old(tee.log), tee.log)
      ensures ok <==> works && P.SizesFit(old(params.Views()), after)
      ensures ok <==> works && P.CopiedBack(old(params.Views()), after).1
      ensures works ==> SlotViews(params.slots[..]) == P.CopiedBack(old(params.Views()), after).0
      ensures !works ==> SlotViews(params.slots[..]) == P.SharedAll(old(params.Views()), after)
    {
      ghost var views := params.Views();
      var raws := Send(params, after);
      H.InvokePerforms(raw, tee.log);
      tee.log := tee.log + [Use(H.TaSession(raw))];
      if !works { return false; }
      ok := Receive(params, raws, views, after);
    }
  }

  /** The session value around a handle the TEE has just opened. */
  method Opened(tee: H.Tee, raw: nat) returns (s: TaSession)
    modifies tee
    ensures fresh(s) && s.raw == raw && tee.log == old(tee.log) + [Acquire(H.TaSession(raw))]
  {
    tee.log := tee.log + [Acquire(H.TaSession(raw))];
    s := new TaSession(raw);
  }

  /** Dropping a session touches no parameter. */
  method DropKeeping(tee: H.Tee, s: TaSession, ghost slots: seq<Content>)
    modifies tee
    ensures tee.log == old(tee.log) + [Release(H.TaSession(s.raw))]
    ensures SlotViews(slots) == old(SlotViews(slots))
  {
    s.Drop(tee);
  }

  /** With parameters: a copy-back that is rejected closes the session again. */
  method BuildWithParams(tee: H.Tee, params: Params, opens: bool, raw: nat, after: seq<P.RawParam>)
    returns (session: TaSession?)
    requires params.Valid() && MayReturn(params.slots[..], after)
    modifies tee, params.slots, params.Buffers()
    ensures session != null ==> fresh(session) && session.raw == raw
    ensures session != null <==> opens && P.SizesFit(old(params.Views()), after)
    ensures session != null <==> opens && P.CopiedBack(old(params.Views()), after).1
    ensures opens ==> SlotViews(params.slots[..]) == P.CopiedBack(old(params.Views()), after).0
    ensures !opens ==> SlotViews(params.slots[..]) == P.SharedAll(old(params.Views()), after)
    ensures tee.log == old(tee.log)
                       + (if opens then [Acquire(H.TaSession(raw))] else [])
                       + (if opens && session == null then [Release(H.TaSession(raw))] else [])
  {
    ghost var views := params.Views();
    session := null;
    var raws := Send(params, after);
    if !opens { return; }
    var s := Opened(tee, raw);
    var ok := Receive(params, raws, views, after);
    if ok {
      session := s;
    } else {
      DropKeeping(tee, s, params.slots[..]);
    }
  }

  /**
  `TaSessionBuilder::build`. `opens` and `raw` are what TEE_OpenTASession answers and
  `after` is what it leaves in the parameters, if there are any. It performs the run's
  action, the session being kept exactly if every size that came back is accepted.
  */
  method Build(tee: H.Tee, params: Params?, opens: bool, raw: nat, after: seq<P.RawParam>) returns (session: TaSession?)
    requires params != null ==> params.Valid() && MayReturn(params.slots[..], after)
    modifies tee, if params == null then {} else {params.slots}, if params == null then {} else params.Buffers()
    ensures session != null ==> fresh(session) && session.raw == raw
    ensures params != null && opens ==> SlotViews(params.slots[..]) == P.CopiedBack(old(params.Views()), after).0
    ensures params != null && !opens ==> SlotViews(params.slots[..]) == P.SharedAll(old(params.Views()), after)
    ensures var accepted := params == null || P.SizesFit(old(params.Views()), after);
            && (session != null <==> opens && accepted)
            && forall v :: H.Performs(H.Action.BuildSession(v, opens, raw, accepted), map[],
                                      H.Left(v, TaSession.Contents(session)), old(tee.log), tee.log)
  {
    H.BuildPerforms(opens, raw, tee.log);
    session := null;
    if params != null {
      session := BuildWithParams(tee, params, opens, raw, after);
    } else if opens {
      session := Opened(tee, raw);
    }
  }
}
