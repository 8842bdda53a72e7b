/**
Ownership of TEE handles: objects obtained by open or create and released by a
drop or by close-and-delete, and sessions with other TAs, closed by a drop. A
handle may also be let go with `forget` and picked up again with `from_raw`.
*/
module Handles {
  import opened Base
  import opened Ledger

  datatype Native = Object(raw: nat) | TaSession(raw: nat)

  const NULL := 0

  type Variable = nat

  datatype World = World(
    owners: map<Variable, Native>, // Rust values holding a handle
    outside: set<Native>,          // handles let go with `forget`, controlled elsewhere
    log: seq<Event<Native>>)

  datatype Action =
    | Open(v: Variable, ok: bool, raw: nat)
    | Create(v: Variable, attributes: Option<Variable>, ok: bool, raw: nat)
    | CloseAndDelete(v: Variable, ok: bool)
    | Drop(v: Variable)
    | Forget(v: Variable)
    | FromRaw(v: Variable, raw: nat)
    | BuildSession(v: Variable, ok: bool, raw: nat, copiedBack: bool)
    | InvokeCommand(v: Variable)

  ghost predicate Known(w: World, n: Native) {
    n in w.outside || exists v :: v in w.owners && w.owners[v] == n
  }

  /** Values are used only while owned; the TEE hands out handles that are not in use. */
  ghost predicate Enabled(w: World, a: Action) {
    match a
    case Open(v, ok, raw) => v !in w.owners && (ok && raw != NULL ==> !Known(w, Object(raw)))
    case Create(v, attributes, ok, raw) =>
      && v !in w.owners && (ok && raw != NULL ==> !Known(w, Object(raw)))
      && (attributes.Some? ==> attributes.value in w.owners && w.owners[attributes.value].Object?)
    case CloseAndDelete(v, _) => v in w.owners && w.owners[v].Object?
    case Drop(v) => v in w.owners
    case Forget(v) => v in w.owners && w.owners[v].Object?
    case FromRaw(v, raw) => v !in w.owners && (raw != NULL ==> Object(raw) in w.outside)
    case BuildSession(v, ok, raw, _) => v !in w.owners && (ok ==> !Known(w, TaSession(raw)))
    case InvokeCommand(v) => v in w.owners && w.owners[v].TaSession?
  }

  ghost function Gain(w: World, v: Variable, n: Native): World {
    w.(owners := w.owners[v := n], log := w.log + [Acquire(n)])
  }

  ghost function Lose(w: World, v: Variable): World
    requires v in w.owners
  {
    w.(owners := w.owners - {v}, log := w.log + [Release(w.owners[v])])
  }

  ghost function Step(w: World, a: Action): World
    requires Enabled(w, a)
  {
    match a
    case Open(v, ok, raw) => if ok && raw != NULL then Gain(w, v, Object(raw)) else w
    case Create(v, attributes, ok, raw) =>
      var w1 := if attributes.Some? then w.(log := w.log + [Use(w.owners[attributes.value])]) else w;
      var w2 := if ok && raw != NULL then Gain(w1, v, Object(raw)) else w1;
      if attributes.Some? then Lose(w2, attributes.value) else w2
    case CloseAndDelete(v, _) => Lose(w, v)
    case Drop(v) => Lose(w, v)
    case Forget(v) => w.(owners := w.owners - {v}, outside := w.outside + {w.owners[v]})
    case FromRaw(v, raw) =>
      if raw == NULL then w else w.(owners := w.owners[v := Object(raw)], outside := w.outside - {Object(raw)})
    case BuildSession(v, ok, raw, copiedBack) =>
      if !ok then w
      else if copiedBack then Gain(w, v, TaSession(raw))
      else Lose(Gain(w, v, TaSession(raw)), v)
    case InvokeCommand(v) => w.(log := w.log + [Use(w.owners[v])])
  }

  // ------------------------------------------ what an action takes and what it leaves

  /** The values a call takes by value: they are gone afterwards, whatever it answers. */
  ghost function Consumed(a: Action): set<Variable> {
    match a
    case Create(_, Some(attributes), _, _) => {attributes}
    case CloseAndDelete(v, _) => {v}
    case Drop(v) => {v}
    case Forget(v) => {v}
    case _ => {}
  }

  /** The value a call returns, if it succeeds: a handle not null, a session whose parameters came back sound. */
  ghost function Returned(a: Action): map<Variable, Native> {
    match a
    case Open(v, true, raw) => if raw == 0 then map[] else map[v := Object(raw)]
    case Create(v, _, true, raw) => if raw == 0 then map[] else map[v := Object(raw)]
    case FromRaw(v, raw) => if raw == 0 then map[] else map[v := Object(raw)]
    case BuildSession(v, true, raw, true) => map[v := TaSession(raw)]
    case _ => map[]
  }

  lemma ValuesMove(w: World, a: Action)
    requires Enabled(w, a)
    ensures Step(w, a).owners == w.owners - Consumed(a) + Returned(a)
  {
  }

  ghost predicate Obtains(a: Action, n: Native) {
    match a
    case Open(_, ok, raw) => ok && raw != 0 && n == Object(raw)
    case Create(_, _, ok, raw) => ok && raw != 0 && n == Object(raw)
    case BuildSession(_, ok, raw, _) => ok && n == TaSession(raw)
    case _ => false
  }

  /** The handle is closed: dropped, deleted, used up as attributes, or that of a session that was rejected. */
  ghost predicate Closes(w: World, a: Action, n: Native)
    requires Enabled(w, a)
  {
    match a
    case Create(_, Some(attributes), _, _) => w.owners[attributes] == n
    case CloseAndDelete(v, _) => w.owners[v] == n
    case Drop(v) => w.owners[v] == n
    case BuildSession(_, ok, raw, copiedBack) => ok && !copiedBack && n == TaSession(raw)
    case _ => false
  }

  ghost predicate UsesHandle(w: World, a: Action, n: Native)
    requires Enabled(w, a)
  {
    match a
    case Create(_, Some(attributes), _, _) => w.owners[attributes] == n
    case InvokeCommand(v) => w.owners[v] == n
    case _ => false
  }

  function One(b: bool): nat { if b then 1 else 0 }

  lemma Logged(log: seq<Event<Native>>, e: Event<Native>, x: Event<Native>)
    ensures Count(log + [e], x) == Count(log, x) + One(x == e)
  {
    Append(log, e);
  }

  lemma CreateCounts(w: World, v: Variable, attributes: Option<Variable>, ok: bool, raw: nat, x: Event<Native>)
    requires Enabled(w, Create(v, attributes, ok, raw))
    ensures Count(Step(w, Create(v, attributes, ok, raw)).log, x) ==
            Count(w.log, x) + One(ok && raw != 0 && x == Acquire(Object(raw)))
            + (if attributes.None? then 0
               else One(x == Use(w.owners[attributes.value])) + One(x == Release(w.owners[attributes.value])))
  {
    if attributes.Some? {
      var n := w.owners[attributes.value];
      var used := w.log + [Use(n)];
      Logged(w.log, Use(n), x);
      Logged(used, Acquire(Object(raw)), x);
      Logged(used, Release(n), x);
      Logged(used + [Acquire(Object(raw))], Release(n), x);
    } else {
      Logged(w.log, Acquire(Object(raw)), x);
    }
  }

  lemma BuildCounts(w: World, v: Variable, ok: bool, raw: nat, copiedBack: bool, x: Event<Native>)
    requires Enabled(w, BuildSession(v, ok, raw, copiedBack))
    ensures Count(Step(w, BuildSession(v, ok, raw, copiedBack)).log, x) ==
            Count(w.log, x) + One(ok && x == Acquire(TaSession(raw)))
            + One(ok && !copiedBack && x == Release(TaSession(raw)))
  {
    Logged(w.log, Acquire(TaSession(raw)), x);
    Logged(w.log + [Acquire(TaSession(raw))], Release(TaSession(raw)), x);
  }

  ghost predicate Makes(w: World, a: Action, x: Event<Native>)
    requires Enabled(w, a)
  {
    match x
    case Acquire(n) => Obtains(a, n)
    case Release(n) => Closes(w, a, n)
    case Use(n) => UsesHandle(w, a, n)
  }

  /** The TEE calls an action makes: handles obtained, closed and used, one call each and no other. */
  lemma CallsMade(w: World, a: Action, x: Event<Native>)
    requires Enabled(w, a)
    ensures Count(Step(w, a).log, x) == Count(w.log, x) + One(Makes(w, a, x))
  {
    match a
    case Open(_, _, raw) => Logged(w.log, Acquire(Object(raw)), x);
    case Create(v, attributes, ok, raw) => CreateCounts(w, v, attributes, ok, raw, x);
    case CloseAndDelete(v, _) => Logged(w.log, Release(w.owners[v]), x);
    case Drop(v) => Logged(w.log, Release(w.owners[v]), x);
    case BuildSession(v, ok, raw, copiedBack) => BuildCounts(w, v, ok, raw, copiedBack, x);
    case InvokeCommand(v) => Logged(w.log, Use(w.owners[v]), x);
    case _ =>
  }

  /** Every live handle is controlled from exactly one place. */
  ghost predicate Owned(w: World) {
    && Legal(w.log)
    && (forall n :: n in Live(w.log) <==> Known(w, n))
    && (forall v, u :: v in w.owners && u in w.owners && w.owners[v] == w.owners[u] ==> v == u)
    && (forall v :: v in w.owners ==> w.owners[v] !in w.outside)
  }

  lemma GainOwned(w: World, v: Variable, n: Native)
    requires Owned(w) && v !in w.owners && !Known(w, n)
    ensures Owned(Gain(w, v, n))
  {
    var w' := Gain(w, v, n);
    Append(w.log, Acquire(n));
    forall m ensures m in Live(w'.log) <==> Known(w', m) {
      if m == n {
        assert w'.owners[v] == m;
      } else if Known(w, m) && m !in w.outside {
        var u :| u in w.owners && w.owners[u] == m;
        assert w'.owners[u] == m;
      }
    }
  }

  lemma LoseOwned(w: World, v: Variable)
    requires Owned(w) && v in w.owners
    ensures Owned(Lose(w, v))
  {
    var w' := Lose(w, v);
    assert Known(w, w.owners[v]);
    Append(w.log, Release(w.owners[v]));
    forall m ensures m in Live(w'.log) <==> Known(w', m) {
      if m != w.owners[v] && Known(w, m) && m !in w.outside {
        var u :| u in w.owners && w.owners[u] == m;
        assert w'.owners[u] == m;
      }
    }
  }

  lemma UseOwned(w: World, v: Variable)
    requires Owned(w) && v in w.owners
    ensures Owned(w.(log := w.log + [Use(w.owners[v])]))
  {
  }

  lemma ForgetOwned(w: World, v: Variable)
    requires Owned(w) && Enabled(w, Forget(v))
    ensures Owned(Step(w, Forget(v)))
  {
    var w' := Step(w, Forget(v));
    forall m ensures Known(w, m) <==> Known(w', m) {
      if Known(w, m) && m !in w.outside && m != w.owners[v] {
        var u :| u in w.owners && w.owners[u] == m;
        assert w'.owners[u] == m;
      }
    }
  }

  lemma FromRawOwned(w: World, v: Variable, raw: nat)
    requires Owned(w) && Enabled(w, FromRaw(v, raw))
    ensures Owned(Step(w, FromRaw(v, raw)))
  {
    var w' := Step(w, FromRaw(v, raw));
    forall m ensures Known(w, m) <==> Known(w', m) {
      if raw != NULL && m == Object(raw) {
        assert w'.owners[v] == m;
      } else if Known(w, m) && m !in w.outside {
        var u :| u in w.owners && w.owners[u] == m;
        assert w'.owners[u] == m;
      }
    }
  }

  lemma StepOwned(w: World, a: Action)
    requires Owned(w) && Enabled(w, a)
    ensures Owned(Step(w, a))
  {
    match a
    case Open(v, ok, raw) => if ok && raw != NULL { GainOwned(w, v, Object(raw)); }
    case Create(v, attributes, ok, raw) =>
      var w1 := w;
      if attributes.Some? {
        UseOwned(w, attributes.value);
        w1 := w.(log := w.log + [Use(w.owners[attributes.value])]);
      }
      var w2 := w1;
      if ok && raw != NULL {
        assert !Known(w1, Object(raw));
        GainOwned(w1, v, Object(raw));
        w2 := Gain(w1, v, Object(raw));
      }
      if attributes.Some? { LoseOwned(w2, attributes.value); }
    case CloseAndDelete(v, _) => LoseOwned(w, v);
    case Drop(v) => LoseOwned(w, v);
    case Forget(v) => ForgetOwned(w, v);
    case FromRaw(v, raw) => FromRawOwned(w, v, raw);
    case BuildSession(v, ok, raw, copiedBack) =>
      if ok {
        GainOwned(w, v, TaSession(raw));
        if !copiedBack { LoseOwned(Gain(w, v, TaSession(raw)), v); }
      }
    case InvokeCommand(v) => UseOwned(w, v);
  }

  const START := World(map[], {}, [])

  ghost predicate CanRun(w: World, actions: seq<Action>)
    decreases |actions|
  {
    actions != [] ==> Enabled(w, actions[0]) && CanRun(Step(w, actions[0]), actions[1..])
  }

  ghost function Run(w: World, actions: seq<Action>): World
    requires CanRun(w, actions)
    decreases |actions|
  {
    if actions == [] then w else Run(Step(w, actions[0]), actions[1..])
  }

  lemma {:induction false} RunOwned(w: World, actions: seq<Action>)
    requires Owned(w) && CanRun(w, actions)
    ensures Owned(Run(w, actions))
    decreases |actions|
  {
    if actions != [] {
      StepOwned(w, actions[0]);
      RunOwned(Step(w, actions[0]), actions[1..]);
    }
  }

  /**
  Over every run: no handle is used or released after its release (the log is
  legal), every live handle is controlled from one place, and once every value has
  been dropped and nothing is controlled elsewhere, each handle ever obtained has been
  released exactly once, whatever calls reported errors on the way.
  */
  lemma EveryHandleReleasedOnce(actions: seq<Action>)
    requires CanRun(START, actions)
    ensures var w := Run(START, actions);
            && Owned(w)
            && (w.owners == map[] && w.outside == {} ==>
                  forall n :: Count(w.log, Acquire(n)) == Count(w.log, Release(n)))
  {
    RunOwned(START, actions);
    var w := Run(START, actions);
    if w.owners == map[] && w.outside == {} {
      forall n ensures Count(w.log, Acquire(n)) == Count(w.log, Release(n)) {
        Balance(w.log, n);
        assert !Known(w, n);
      }
    }
  }

  // ------------------------------------------------------------------- in place

  type Log = seq<Event<Native>>

  ghost predicate Holding(w: World, found: map<Variable, Native>) {
    forall u :: u in found ==> u in w.owners && w.owners[u] == found[u]
  }

  /**
  Code that took the log from `before` to `after`, consuming the values `found` and
  leaving the values `left`, did what action `a` does: in every world with that log in
  which the action is possible and those values hold those handles.
  */
  ghost predicate Performs(
    a: Action, found: map<Variable, Native>, left: map<Variable, Native>, before: Log, after: Log)
  {
    forall w :: Enabled(w, a) && w.log == before && Holding(w, found) ==>
                  Step(w, a).log == after && Step(w, a).owners == w.owners - found.Keys + left
  }

  /** The value `v`, if there is one. */
  ghost function Left(v: Variable, n: Option<Native>): map<Variable, Native> {
    match n
    case Some(native) => map[v := native]
    case None => map[]
  }

  lemma InvokePerforms(raw: nat, log: Log)
    ensures forall v :: Performs(InvokeCommand(v), map[v := TaSession(raw)], map[v := TaSession(raw)],
                                 log, log + [Use(TaSession(raw))])
  {
  }

  /** What building a session does to the log, and whether a session is left. */
  lemma BuildPerforms(ok: bool, raw: nat, log: Log)
    ensures !ok ==>
              forall v, copiedBack :: Performs(BuildSession(v, ok, raw, copiedBack), map[], Left(v, None), log, log)
    ensures ok ==> forall v :: Performs(BuildSession(v, ok, raw, true), map[], Left(v, Some(TaSession(raw))),
                                        log, log + [Acquire(TaSession(raw))])
    ensures ok ==> forall v :: Performs(BuildSession(v, ok, raw, false), map[], Left(v, None), log,
                                        log + [Acquire(TaSession(raw))] + [Release(TaSession(raw))])
  {
  }

  /** What the TEE has been asked to do with handles. */
  class Tee {
    ghost var log: seq<Event<Native>>
    constructor () ensures log == [] { log := []; }
  }

  class ObjectHandle {
    var raw: nat

    constructor (raw: nat) ensures this.raw == raw { this.raw := raw; }

    static ghost function Contents(h: ObjectHandle?): Option<Native>
      reads h
    {
      if h == null then None else Some(Object(h.raw))
    }

    static method FromRaw(raw: nat) returns (h: ObjectHandle?)
      ensures (h == null <==> raw == NULL) && (h != null ==> fresh(h) && h.raw == raw)
      ensures forall v, log :: Performs(Action.FromRaw(v, raw), map[], Left(v, Contents(h)), log, log)
    {
      h := null;
      if raw != NULL {
        h := new ObjectHandle(raw);
      }
    }

    method Drop(tee: Tee)
      modifies tee
      ensures tee.log == old(tee.log) + if raw == NULL then [] else [Release(Object(raw))]
      ensures raw != NULL ==> forall v :: Performs(Action.Drop(v), map[v := Object(raw)], map[], old(tee.log), tee.log)
    {
      if raw != NULL {
        tee.log := tee.log + [Release(Object(raw))];
      }
    }

    /** Consumes the handle: its drop, at the end, finds nothing to close. */
    method Forget(tee: Tee)
      modifies this, tee
      ensures raw == NULL && tee.log == old(tee.log)
      ensures old(raw) != NULL ==>
                forall v :: Performs(Action.Forget(v), map[v := Object(old(raw))], map[], old(tee.log), tee.log)
    {
      raw := NULL;
      Drop(tee);
    }
  }

  class PersistentObject {
    var handle: ObjectHandle

    constructor (handle: ObjectHandle) ensures this.handle == handle { this.handle := handle; }

    static ghost function Contents(o: PersistentObject?): Option<Native>
      reads o, if o == null then {} else {o.handle}
    {
      if o == null then None else Some(Object(o.handle.raw))
    }

    /** `ok` and `raw` are what TEE_OpenPersistentObject answers. */
    static method Open(tee: Tee, ok: bool, raw: nat) returns (o: PersistentObject?)
      modifies tee
      ensures o != null <==> ok && raw != NULL
      ensures o != null ==> fresh(o) && fresh(o.handle) && o.handle.raw == raw
      ensures tee.log == old(tee.log) + if o != null then [Acquire(Object(raw))] else []
      ensures forall v :: Performs(Action.Open(v, ok, raw), map[], Left(v, Contents(o)), old(tee.log), tee.log)
    {
      o := null;
      if !ok { return; }
      if raw != NULL { tee.log := tee.log + [Acquire(Object(raw))]; }
      var h := ObjectHandle.FromRaw(raw);
      if h != null {
        o := new PersistentObject(h);
      }
    }

    /** The attributes' handle is consumed, and closed after the create call, on every path. */
    static method Create(tee: Tee, attributes: ObjectHandle?, ok: bool, raw: nat) returns (o: PersistentObject?)
      requires attributes != null ==> attributes.raw != NULL
      modifies tee
      ensures o != null <==> ok && raw != NULL
      ensures o != null ==> fresh(o) && fresh(o.handle) && o.handle.raw == raw
      ensures tee.log == old(tee.log)
                         + (if attributes != null then [Use(Object(attributes.raw))] else [])
                         + (if o != null then [Acquire(Object(raw))] else [])
                         + (if attributes != null then [Release(Object(attributes.raw))] else [])
      ensures attributes == null ==>
                forall v :: Performs(Action.Create(v, None, ok, raw), map[], Left(v, Contents(o)),
                                     old(tee.log), tee.log)
      ensures attributes != null ==>
                forall v, u :: Performs(Action.Create(v, Some(u), ok, raw), map[u := Object(attributes.raw)],
                                        Left(v, Contents(o)), old(tee.log), tee.log)
    {
      o := null;
      if attributes != null { tee.log := tee.log + [Use(Object(attributes.raw))]; }
      if ok {
        if raw != NULL { tee.log := tee.log + [Acquire(Object(raw))]; }
        var h := ObjectHandle.FromRaw(raw);
        if h != null {
          o := new PersistentObject(h);
        }
      }
      if attributes != null { attributes.Drop(tee); }
    }

    /** The handle is released once by the TEE, and not closed again, whatever the call reports. */
    method CloseAndDelete(tee: Tee, ok: bool) returns (r: bool)
      requires handle.raw != NULL
      modifies handle, tee
      ensures r == ok && handle.raw == NULL && tee.log == old(tee.log) + [Release(Object(old(handle.raw)))]
      ensures forall v :: Performs(Action.CloseAndDelete(v, ok), map[v := Object(old(handle.raw))], map[],
                                   old(tee.log), tee.log)
    {
      tee.log := tee.log + [Release(Object(handle.raw))];
      r := ok;
      handle.Forget(tee);
    }
  }
}
