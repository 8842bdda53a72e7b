/**
The client side: a `Context` and its `Session`s share one reference-counted
`TEEC_Context`, finalised when the last holder is dropped. The steps below are the
single actions of `Session::new`, the two drops and `invoke_command`, so that
threads may interleave between them; `&mut Context` keeps a second open, or the
drop of the context value itself, from running while an open is in progress.
*/
module TeecContext {
  import opened Ledger

  type Id = nat

  /** Native resources: what TEEC_InitializeContext and TEEC_OpenSession hand out. */
  datatype Native = Context(id: Id) | Session(id: Id)

  datatype Opening = Cloned | Called
  datatype Held = Held(context: Id, closed: bool)

  datatype World = World(
    strong: map<Id, nat>,      // reference counts of the unfinalised contexts
    handles: set<Id>,          // `Context` values alive
    opening: map<Id, Opening>, // contexts an open is in progress on
    sessions: map<Id, Held>,   // `Session` values alive, `closed` once their drop has run
    log: seq<Event<Native>>)

  datatype Action =
    | NewContext(context: Id, initialized: bool)
    | CloneForOpen(context: Id)
    | CallOpen(context: Id, session: Id, success: bool)
    | ReturnFromOpen(context: Id)
    | Invoke(session: Id)
    | CloseSession(session: Id)
    | ReleaseSession(session: Id)
    | DropContext(context: Id)

  /** What ownership and borrowing allow; ids of new native resources are unused ones. */
  ghost predicate Enabled(w: World, a: Action) {
    match a
    case NewContext(c, initialized) => c !in w.strong
    case CloneForOpen(c) => c in w.handles && c !in w.opening
    case CallOpen(c, s, success) => c in w.opening && w.opening[c] == Cloned && s !in w.sessions
    case ReturnFromOpen(c) => c in w.opening && w.opening[c] == Called
    case Invoke(s) => s in w.sessions && !w.sessions[s].closed
    case CloseSession(s) => s in w.sessions && !w.sessions[s].closed
    case ReleaseSession(s) => s in w.sessions && w.sessions[s].closed
    case DropContext(c) => c in w.handles && c !in w.opening
  }

  ghost function Strong(w: World, c: Id): nat {
    if c in w.strong then w.strong[c] else 0
  }

  ghost function Clone(w: World, c: Id): World {
    w.(strong := w.strong[c := Strong(w, c) + 1])
  }

  /** Dropping one reference; the last one finalises. */
  ghost function Unref(w: World, c: Id): World {
    if Strong(w, c) > 1 then w.(strong := w.strong[c := w.strong[c] - 1])
    else w.(strong := w.strong - {c}, log := w.log + [Release(Context(c))])
  }

  ghost function Step(w: World, a: Action): World
    requires Enabled(w, a)
  {
    match a
    case NewContext(c, initialized) =>
      if !initialized then w
      else w.(strong := w.strong[c := 1], handles := w.handles + {c}, log := w.log + [Acquire(Context(c))])
    case CloneForOpen(c) => Clone(w, c).(opening := w.opening[c := Cloned])
    case CallOpen(c, s, success) =>
      var called := w.(opening := w.opening[c := Called], log := w.log + [Use(Context(c))]);
      if !success then called
      else Clone(called, c).(sessions := w.sessions[s := Held(c, false)], log := called.log + [Acquire(Session(s))])
    case ReturnFromOpen(c) => Unref(w.(opening := w.opening - {c}), c)
    case Invoke(s) => w.(log := w.log + [Use(Context(w.sessions[s].context)), Use(Session(s))])
    case CloseSession(s) =>
      w.(sessions := w.sessions[s := Held(w.sessions[s].context, true)],
         log := w.log + [Use(Context(w.sessions[s].context)), Release(Session(s))])
    case ReleaseSession(s) => Unref(w.(sessions := w.sessions - {s}), w.sessions[s].context)
    case DropContext(c) => Unref(w.(handles := w.handles - {c}), c)
  }

  // ----------------------------------------------------------------- invariant

  ghost function SessionsOf(w: World, c: Id): set<Id> {
    set s | s in w.sessions && w.sessions[s].context == c
  }

  /** Everyone entitled to a reference on `c`. */
  ghost function Holders(w: World, c: Id): nat {
    (if c in w.handles then 1 else 0) + (if c in w.opening then 1 else 0) + |SessionsOf(w, c)|
  }

  /** The count is the number of holders, and a context is unfinalised exactly while it has one. */
  ghost predicate Counted(w: World) {
    && (forall c :: Strong(w, c) == Holders(w, c))
    && (forall c :: c in w.strong ==> w.strong[c] > 0)
    && (forall c :: c in w.opening ==> c in w.handles)
  }

  ghost predicate IsLive(w: World, n: Native) {
    match n
    case Context(c) => c in w.strong
    case Session(s) => s in w.sessions && !w.sessions[s].closed
  }

  ghost predicate LogMatches(w: World) {
    Legal(w.log) && forall n :: n in Live(w.log) <==> IsLive(w, n)
  }

  lemma HolderIsLive(w: World, c: Id)
    requires Counted(w) && (c in w.handles || c in w.opening || SessionsOf(w, c) != {})
    ensures c in w.strong
  {
    assert Holders(w, c) > 0;
  }

  lemma SessionIsLive(w: World, s: Id)
    requires Counted(w) && s in w.sessions
    ensures w.sessions[s].context in w.strong
  {
    assert s in SessionsOf(w, w.sessions[s].context);
    HolderIsLive(w, w.sessions[s].context);
  }

  lemma UnrefCount(w: World, c: Id, d: Id)
    requires Strong(w, c) > 0
    ensures Strong(Unref(w, c), d) == Strong(w, d) - if c == d then 1 else 0
    ensures SessionsOf(Unref(w, c), d) == SessionsOf(w, d)
  {
  }

  lemma SessionsStep(w: World, a: Action, c: Id)
    requires Enabled(w, a)
    ensures SessionsOf(Step(w, a), c) ==
            if a.CallOpen? && a.success && a.context == c then SessionsOf(w, c) + {a.session}
            else if a.ReleaseSession? then SessionsOf(w, c) - {a.session}
            else SessionsOf(w, c)
  {
  }

  /** What an action does to the number of references on `c`. */
  ghost function Change(w: World, a: Action, c: Id): int
    requires Enabled(w, a)
  {
    match a
    case NewContext(d, initialized) => if initialized && d == c then 1 else 0
    case CloneForOpen(d) => if d == c then 1 else 0
    case CallOpen(d, _, success) => if success && d == c then 1 else 0
    case ReturnFromOpen(d) => if d == c then -1 else 0
    case ReleaseSession(s) => if w.sessions[s].context == c then -1 else 0
    case DropContext(d) => if d == c then -1 else 0
    case _ => 0
  }

  lemma StrongChange(w: World, a: Action, c: Id)
    requires Counted(w) && Enabled(w, a)
    ensures Strong(Step(w, a), c) == Strong(w, c) + Change(w, a, c)
  {
    match a
    case ReturnFromOpen(d) =>
      HolderIsLive(w, d);
      UnrefCount(w.(opening := w.opening - {d}), d, c);
    case ReleaseSession(s) =>
      SessionIsLive(w, s);
      UnrefCount(w.(sessions := w.sessions - {s}), w.sessions[s].context, c);
    case DropContext(d) =>
      HolderIsLive(w, d);
      UnrefCount(w.(handles := w.handles - {d}), d, c);
    case _ =>
  }

  /** A session is added to or taken from at most the one context of the action. */
  lemma SessionCountChange(w: World, a: Action, c: Id)
    requires Enabled(w, a)
    ensures |SessionsOf(Step(w, a), c)| ==
            |SessionsOf(w, c)| + if a.CallOpen? || a.ReleaseSession? then Change(w, a, c) else 0
  {
    SessionsStep(w, a, c);
  }

  lemma HoldersChange(w: World, a: Action, c: Id)
    requires Counted(w) && Enabled(w, a)
    ensures Holders(Step(w, a), c) == Holders(w, c) + Change(w, a, c)
  {
    SessionCountChange(w, a, c);
    if a.NewContext? && a.context == c { assert Strong(w, c) == Holders(w, c) == 0; }
  }

  lemma StepCount(w: World, a: Action, c: Id)
    requires Counted(w) && Enabled(w, a)
    ensures Strong(Step(w, a), c) == Holders(Step(w, a), c)
  {
    assert Strong(w, c) == Holders(w, c);
    StrongChange(w, a, c);
    HoldersChange(w, a, c);
  }

  lemma StepCounted(w: World, a: Action)
    requires Counted(w) && Enabled(w, a)
    ensures Counted(Step(w, a))
  {
    forall c ensures Strong(Step(w, a), c) == Holders(Step(w, a), c) {
      StepCount(w, a, c);
    }
    match a
    case NewContext(c, _) => assert Strong(w, c) == Holders(w, c);
    case _ =>
  }

  lemma Append2(log: seq<Event<Native>>, e: Event<Native>, f: Event<Native>)
    ensures Live(log + [e, f]) == After(After(Live(log), e), f)
    ensures Legal(log + [e, f]) <==>
              && Legal(log) && (e.Acquire? <==> e.r !in Live(log))
              && (f.Acquire? <==> f.r !in After(Live(log), e))
  {
    Append(log, e);
    Append(log + [e], f);
    assert log + [e, f] == log + [e] + [f];
  }

  lemma UnrefLog(w: World, c: Id)
    requires LogMatches(w) && c in w.strong
    ensures LogMatches(Unref(w, c))
  {
  }

  lemma CallOpenLog(w: World, c: Id, s: Id, success: bool)
    requires LogMatches(w) && c in w.strong && Enabled(w, CallOpen(c, s, success))
    ensures LogMatches(Step(w, CallOpen(c, s, success)))
  {
    assert IsLive(w, Context(c)) && !IsLive(w, Session(s));
    Append(w.log, Use(Context(c)));
    Append(w.log + [Use(Context(c))], Acquire(Session(s)));
  }

  lemma StepLog(w: World, a: Action)
    requires Counted(w) && LogMatches(w) && Enabled(w, a)
    ensures LogMatches(Step(w, a))
  {
    match a
    case NewContext(c, _) =>
      Append(w.log, Acquire(Context(c)));
      assert !IsLive(w, Context(c));
    case CloneForOpen(c) =>
      HolderIsLive(w, c);
    case CallOpen(c, s, success) =>
      HolderIsLive(w, c);
      CallOpenLog(w, c, s, success);
    case ReturnFromOpen(c) =>
      HolderIsLive(w, c);
      UnrefLog(w.(opening := w.opening - {c}), c);
    case Invoke(s) =>
      SessionIsLive(w, s);
      assert IsLive(w, Context(w.sessions[s].context)) && IsLive(w, Session(s));
      Append2(w.log, Use(Context(w.sessions[s].context)), Use(Session(s)));
    case CloseSession(s) =>
      SessionIsLive(w, s);
      assert IsLive(w, Context(w.sessions[s].context)) && IsLive(w, Session(s));
      Append2(w.log, Use(Context(w.sessions[s].context)), Release(Session(s)));
    case ReleaseSession(s) =>
      SessionIsLive(w, s);
      UnrefLog(w.(sessions := w.sessions - {s}), w.sessions[s].context);
    case DropContext(c) =>
      HolderIsLive(w, c);
      UnrefLog(w.(handles := w.handles - {c}), c);
  }

  // ------------------------------------------------------- the native calls made

  function One(b: bool): nat { if b then 1 else 0 }

  /** The session's context, if it is alive. */
  ghost predicate On(w: World, s: Id, c: Id) { s in w.sessions && w.sessions[s].context == c }

  /** The action gives up a reference on `c`: an open returns, a closed session or the context value goes. */
  ghost predicate GivesUp(w: World, a: Action, c: Id) {
    match a
    case ReturnFromOpen(d) => d == c
    case ReleaseSession(s) => On(w, s, c)
    case DropContext(d) => d == c
    case _ => false
  }

  /**
  The native calls an action makes: a context is initialised and a session opened as
  reported, an open, invoke or close uses its context, an invoke uses and a close
  releases its session, and giving up the only reference finalises the context.
  */
  ghost predicate Makes(w: World, a: Action, x: Event<Native>) {
    match x
    case Acquire(Context(c)) => a == NewContext(c, true)
    case Acquire(Session(s)) => a.CallOpen? && a.session == s && a.success
    case Use(Context(c)) =>
      (a.CallOpen? && a.context == c) || ((a.Invoke? || a.CloseSession?) && On(w, a.session, c))
    case Use(Session(s)) => a == Invoke(s)
    case Release(Session(s)) => a == CloseSession(s)
    case Release(Context(c)) => GivesUp(w, a, c) && Holders(w, c) == 1
  }

  lemma Logged(log: seq<Event<Native>>, e: Event<Native>, x: Event<Native>)
    ensures Count(log + [e], x) == Count(log, x) + One(x == e)
  {
    Append(log, e);
  }

  lemma Logged2(log: seq<Event<Native>>, e: Event<Native>, f: Event<Native>, x: Event<Native>)
    ensures Count(log + [e, f], x) == Count(log, x) + One(x == e) + One(x == f)
  {
    Logged(log, e, x);
    Logged(log + [e], f, x);
    assert log + [e, f] == log + [e] + [f];
  }

  lemma UnrefCalls(w: World, c: Id, x: Event<Native>)
    requires c in w.strong && w.strong[c] > 0
    ensures Count(Unref(w, c).log, x) == Count(w.log, x) + One(w.strong[c] == 1 && x == Release(Context(c)))
  {
    Logged(w.log, Release(Context(c)), x);
  }

  ghost predicate LogsExactly(w: World, a: Action, x: Event<Native>)
    requires Enabled(w, a)
  {
    Count(Step(w, a).log, x) == Count(w.log, x) + One(Makes(w, a, x))
  }

  lemma OpenLogged(log: seq<Event<Native>>, c: Id, s: Id, success: bool, x: Event<Native>)
    ensures Count(if success then log + [Use(Context(c))] + [Acquire(Session(s))] else log + [Use(Context(c))], x)
            == Count(log, x) + One(x == Use(Context(c))) + One(success && x == Acquire(Session(s)))
  {
    Logged(log, Use(Context(c)), x);
    Logged(log + [Use(Context(c))], Acquire(Session(s)), x);
  }

  lemma OpenMakes(w: World, c: Id, s: Id, success: bool, x: Event<Native>)
    ensures One(Makes(w, CallOpen(c, s, success), x))
            == One(x == Use(Context(c))) + One(success && x == Acquire(Session(s)))
  {
  }

  lemma OpenCalls(w: World, c: Id, s: Id, success: bool, x: Event<Native>)
    requires Enabled(w, CallOpen(c, s, success))
    ensures LogsExactly(w, CallOpen(c, s, success), x)
  {
    OpenLogged(w.log, c, s, success, x);
    OpenMakes(w, c, s, success, x);
  }

  lemma InvokeCalls(w: World, s: Id, x: Event<Native>)
    requires Enabled(w, Invoke(s))
    ensures LogsExactly(w, Invoke(s), x)
  {
    Logged2(w.log, Use(Context(w.sessions[s].context)), Use(Session(s)), x);
  }

  lemma CloseCalls(w: World, s: Id, x: Event<Native>)
    requires Enabled(w, CloseSession(s))
    ensures LogsExactly(w, CloseSession(s), x)
  {
    Logged2(w.log, Use(Context(w.sessions[s].context)), Release(Session(s)), x);
  }

  /** An action that gives up a reference: nothing is called but the finaliser, by the last holder. */
  lemma GivingUpCalls(w: World, a: Action, c: Id, x: Event<Native>)
    requires Counted(w) && Enabled(w, a) && GivesUp(w, a, c)
    ensures LogsExactly(w, a, x)
  {
    if a.ReleaseSession? { SessionIsLive(w, a.session); } else { HolderIsLive(w, c); }
    assert Strong(w, c) == Holders(w, c);
    var rest := match a
      case ReturnFromOpen(_) => w.(opening := w.opening - {c})
      case ReleaseSession(s) => w.(sessions := w.sessions - {s})
      case _ => w.(handles := w.handles - {c});
    assert Step(w, a) == Unref(rest, c);
    UnrefCalls(rest, c, x);
  }

  lemma CallsMade(w: World, a: Action, x: Event<Native>)
    requires Counted(w) && Enabled(w, a)
    ensures LogsExactly(w, a, x)
  {
    match a
    case NewContext(c, _) => Logged(w.log, Acquire(Context(c)), x);
    case CloneForOpen(_) =>
    case CallOpen(c, s, success) => OpenCalls(w, c, s, success, x);
    case Invoke(s) => InvokeCalls(w, s, x);
    case CloseSession(s) => CloseCalls(w, s, x);
    case ReturnFromOpen(c) => GivingUpCalls(w, a, c, x);
    case ReleaseSession(s) => GivingUpCalls(w, a, w.sessions[s].context, x);
    case DropContext(c) => GivingUpCalls(w, a, c, x);
  }

  // ---------------------------------------------------------------------- runs

  const START := World(map[], {}, map[], map[], [])

  ghost predicate CanRun(w: World, actions: seq<Action>)
    decreases |actions|
  {
    actions != [] ==> Enabled(w, actions[0]) && CanRun(Step(w, actions[0]), actions[1..])
  }

  ghost function Run(w: World, actions: seq<Action>): World
    requires CanRun(w, actions)
    decreases |actions|
  {
    if actions == [] then w else Run(Step(w, actions[0]), actions[1..])
  }

  lemma {:induction false} RunCounted(w: World, actions: seq<Action>)
    requires Counted(w) && LogMatches(w) && CanRun(w, actions)
    ensures Counted(Run(w, actions)) && LogMatches(Run(w, actions))
    decreases |actions|
  {
    if actions != [] {
      StepCounted(w, actions[0]);
      StepLog(w, actions[0]);
      RunCounted(Step(w, actions[0]), actions[1..]);
    }
  }

  /**
  Over every interleaving from the start: every open, invoke and close acted on a
  context not yet finalised (the log is legal), the count is the number of holders,
  and once no `Context` value, session or open remains, every context ever
  initialised has been finalised exactly once and every session closed exactly once.
  */
  lemma EveryRunIsSafe(actions: seq<Action>)
    requires CanRun(START, actions)
    ensures var w := Run(START, actions);
            && Legal(w.log) && Counted(w)
            && (w.handles == {} && w.opening == map[] && w.sessions == map[] ==>
                  forall n :: Count(w.log, Acquire(n)) == Count(w.log, Release(n)))
  {
    assert forall c :: SessionsOf(START, c) == {};
    RunCounted(START, actions);
    var w := Run(START, actions);
    if w.handles == {} && w.opening == map[] && w.sessions == map[] {
      forall n ensures Count(w.log, Acquire(n)) == Count(w.log, Release(n)) {
        Balance(w.log, n);
        if n.Context? {
          assert SessionsOf(w, n.id) == {};
          assert Strong(w, n.id) == Holders(w, n.id) == 0;
        }
        assert !IsLive(w, n);
      }
    }
  }

  /** A context is finalised only once nobody holds it: no context value, no open in progress, no session. */
  lemma FinalizedLast(w: World, a: Action, c: Id)
    requires Counted(w) && Enabled(w, a) && c in w.strong && c !in Step(w, a).strong
    ensures var v := Step(w, a);
            c !in v.handles && c !in v.opening && forall s :: s in v.sessions ==> v.sessions[s].context != c
  {
    var v := Step(w, a);
    StepCounted(w, a);
    assert Strong(v, c) == Holders(v, c) == 0;
    forall s | s in v.sessions ensures v.sessions[s].context != c {
      assert s !in SessionsOf(v, c);
    }
  }

  /** An open that fails takes one reference and gives it back: nothing but the log has changed. */
  lemma FailedOpenKeepsCount(w: World, c: Id, s: Id)
    requires Counted(w) && Enabled(w, CloneForOpen(c)) && s !in w.sessions
    ensures CanRun(w, OpenActions(c, s, false))
    ensures var v := Run(w, OpenActions(c, s, false));
            v == w.(log := w.log + [Use(Context(c))])
  {
    HolderIsLive(w, c);
    RunOpen(w, c, s, false);
    FailedSteps(w, c, s);
  }

  lemma FailedSteps(w: World, c: Id, s: Id)
    requires c in w.strong && w.strong[c] > 0 && Enabled(w, CloneForOpen(c)) && s !in w.sessions
    ensures Step(Step(Step(w, CloneForOpen(c)), CallOpen(c, s, false)), ReturnFromOpen(c))
            == w.(log := w.log + [Use(Context(c))])
  {
    assert w.strong[c := w.strong[c] + 1][c := w.strong[c]] == w.strong;
    assert w.opening[c := Cloned][c := Called] - {c} == w.opening;
  }

  // ---------------------------------------------- the calls, one after another

  function OpenActions(c: Id, s: Id, success: bool): seq<Action> {
    [CloneForOpen(c), CallOpen(c, s, success), ReturnFromOpen(c)]
  }

  lemma RunOpen(w: World, c: Id, s: Id, success: bool)
    requires Counted(w) && c in w.handles && c !in w.opening && s !in w.sessions
    ensures CanRun(w, OpenActions(c, s, success))
    ensures Run(w, OpenActions(c, s, success)) ==
            Step(Step(Step(w, CloneForOpen(c)), CallOpen(c, s, success)), ReturnFromOpen(c))
  {
    var w1 := Step(w, CloneForOpen(c));
    var w2 := Step(w1, CallOpen(c, s, success));
    var w3 := Step(w2, ReturnFromOpen(c));
    var rest := [CallOpen(c, s, success), ReturnFromOpen(c)];
    assert OpenActions(c, s, success)[1..] == rest && rest[1..] == [ReturnFromOpen(c)];
    assert CanRun(w3, []) && Run(w3, []) == w3;
    assert CanRun(w2, [ReturnFromOpen(c)]) && Run(w2, [ReturnFromOpen(c)]) == w3;
    assert CanRun(w1, rest) && Run(w1, rest) == w3;
  }

  /** `Context` and `Session` in place. */
  class Process {
    var strong: map<Id, nat>
    var handles: set<Id>
    var opening: map<Id, Opening>
    var sessions: map<Id, Held>
    ghost var log: seq<Event<Native>>

    ghost function Now(): World
      reads this
    {
      World(strong, handles, opening, sessions, log)
    }

    ghost predicate Valid()
      reads this
    {
      Counted(Now()) && LogMatches(Now())
    }

    constructor ()
      ensures Now() == START && Valid()
    {
      strong, handles, opening, sessions, log := map[], {}, map[], map[], [];
      new;
      assert forall c :: SessionsOf(START, c) == {};
    }

    method CloneRef(c: Id)
      requires c in strong
      modifies this`strong
      ensures strong == old(strong)[c := old(strong)[c] + 1]
    {
      strong := strong[c := strong[c] + 1];
    }

    method DropRef(c: Id)
      requires c in strong && strong[c] > 0
      modifies this`strong, this`log
      ensures Now() == Unref(old(Now()), c)
    {
      if strong[c] > 1 {
        strong := strong[c := strong[c] - 1];
      } else {
        strong := strong - {c};
        log := log + [Release(Context(c))];
      }
    }

    method NewContext(c: Id, initialized: bool) returns (ok: bool)
      requires Valid() && c !in strong
      modifies this
      ensures Valid() && ok == initialized && Now() == Step(old(Now()), Action.NewContext(c, initialized))
    {
      StepCounted(Now(), Action.NewContext(c, initialized));
      StepLog(Now(), Action.NewContext(c, initialized));
      ok := initialized;
      if !initialized { return; }
      strong, handles, log := strong[c := 1], handles + {c}, log + [Acquire(Context(c))];
    }

    /** The clone `Session::new` locks for the time of the call. */
    method BeginOpen(c: Id)
      requires Valid() && c in handles && c !in opening
      modifies this
      ensures Valid() && Now() == Step(old(Now()), CloneForOpen(c))
    {
      StepCounted(Now(), CloneForOpen(c));
      StepLog(Now(), CloneForOpen(c));
      HolderIsLive(Now(), c);
      CloneRef(c);
      opening := opening[c := Cloned];
    }

    /** TEEC_OpenSession and, on success, the new session's own clone. */
    method CallOpenSession(c: Id, s: Id, success: bool)
      requires Valid() && c in opening && opening[c] == Cloned && s !in sessions
      modifies this
      ensures Valid() && Now() == Step(old(Now()), CallOpen(c, s, success))
    {
      StepCounted(Now(), CallOpen(c, s, success));
      StepLog(Now(), CallOpen(c, s, success));
      HolderIsLive(Now(), c);
      opening := opening[c := Called];
      log := log + [Use(Context(c))];
      if success {
        CloneRef(c);
        sessions := sessions[s := Held(c, false)];
        log := log + [Acquire(Session(s))];
      }
    }

    /** The locked clone goes out of scope. */
    method EndOpen(c: Id)
      requires Valid() && c in opening && opening[c] == Called
      modifies this
      ensures Valid() && Now() == Step(old(Now()), ReturnFromOpen(c))
    {
      StepCounted(Now(), ReturnFromOpen(c));
      StepLog(Now(), ReturnFromOpen(c));
      HolderIsLive(Now(), c);
      opening := opening - {c};
      DropRef(c);
    }

    method OpenSession(c: Id, s: Id, success: bool) returns (ok: bool)
      requires Valid() && c in handles && c !in opening && s !in sessions
      modifies this
      ensures Valid() && ok == success
      ensures CanRun(old(Now()), OpenActions(c, s, success)) && Now() == Run(old(Now()), OpenActions(c, s, success))
    {
      RunOpen(Now(), c, s, success);
      BeginOpen(c);
      CallOpenSession(c, s, success);
      EndOpen(c);
      ok := success;
    }

    method InvokeCommand(s: Id)
      requires Valid() && s in sessions && !sessions[s].closed
      modifies this`log
      ensures Valid() && Now() == Step(old(Now()), Invoke(s))
    {
      StepCounted(Now(), Invoke(s));
      StepLog(Now(), Invoke(s));
      log := log + [Use(Context(sessions[s].context)), Use(Session(s))];
    }

    method DropSession(s: Id)
      requires Valid() && s in sessions && !sessions[s].closed
      modifies this
      ensures Valid() && Now() == Step(Step(old(Now()), CloseSession(s)), ReleaseSession(s))
    {
      ghost var w := Now();
      StepCounted(w, CloseSession(s));
      StepLog(w, CloseSession(s));
      ghost var w1 := Step(w, CloseSession(s));
      StepCounted(w1, ReleaseSession(s));
      StepLog(w1, ReleaseSession(s));
      SessionIsLive(w, s);
      var c := sessions[s].context;
      log := log + [Use(Context(c)), Release(Session(s))];
      sessions := sessions - {s};
      DropRef(c);
      assert Now().sessions == Step(w1, ReleaseSession(s)).sessions;
    }

    method DropContext(c: Id)
      requires Valid() && c in handles && c !in opening
      modifies this
      ensures Valid() && Now() == Step(old(Now()), Action.DropContext(c))
    {
      StepCounted(Now(), Action.DropContext(c));
      StepLog(Now(), Action.DropContext(c));
      HolderIsLive(Now(), c);
      handles := handles - {c};
      DropRef(c);
    }
  }
}
