/** The handler chain of gin: Next and Abort share an int8 cursor, and a handler may call both. What
    else a handler does leaves the cursor alone. */
module HandlerChain {

  newtype int8 = x: int | -0x80 <= x < 0x80

  const ABORT_INDEX: int8 := 63

  datatype Action = Next | Abort

  type Handler = seq<Action>

  /** combineHandlers lets through chains shorter than the abort index. */
  type Chain = hs: seq<Handler> | |hs| < 63

  datatype Event = Start(handler: nat) | Aborted

  /** The cursor and the most it has been, what has happened, and whether an index was out of range. */
  datatype State = State(index: int8, peak: int8, log: seq<Event>, panicked: bool) {
    function Increment(): State {
      this.To(if index == 127 then -128 else index + 1)
    }

    function To(i: int8): State { this.(index := i, peak := if i > peak then i else peak) }

    predicate IsAborted() { index >= ABORT_INDEX }

    function Log(e: Event): State { this.(log := log + [e]) }
  }

  /** How far the cursor is from the end of the chain. */
  function Left(hs: Chain, s: State): nat {
    if 0 <= s.index as int < |hs| then |hs| - s.index as int else 0
  }

  /** The loop of Next. */
  function Loop(hs: Chain, s: State): (r: State)
    requires !s.panicked
    ensures r.panicked || s.index <= r.index || (0 <= s.index && r.index as int >= |hs|)
    decreases Left(hs, s), if Left(hs, s) > 0 then 1 else 0, 0
  {
    if s.index as int >= |hs| then s
    else if s.index < 0 then s.(panicked := true)
    else
      var after := Run(hs, hs[s.index], s.Log(Start(s.index as nat)));
      if after.panicked then after else Loop(hs, after.Increment())
  }

  /** The rest of a handler. */
  function Run(hs: Chain, rest: Handler, s: State): (r: State)
    requires !s.panicked && s.index >= 0
    ensures r.panicked || (r.index >= 0 && (s.index <= r.index || r.index as int >= |hs|))
    decreases Left(hs, s), 0, |rest| + 1
  {
    if rest == [] then s
    else
      var next := match rest[0]
                  case Next => Loop(hs, s.Increment())
                  case Abort => s.To(ABORT_INDEX).Log(Aborted);
      if next.panicked then next else Run(hs, rest[1..], next)
  }

  /** A request: reset, then Next. */
  function Serve(hs: Chain): State {
    Loop(hs, State(-1, -1, [], false).Increment())
  }

  // ----- order -----

  /** The handlers started, in order. */
  function Starts(log: seq<Event>): seq<nat> {
    if log == [] then []
    else
      var before := Starts(log[..|log| - 1]);
      match log[|log| - 1]
      case Start(i) => before + [i]
      case Aborted => before
  }

  /** Handlers start in the order of the chain, each once, and none after an abort. */
  ghost predicate Orderly(log: seq<Event>) {
    && (forall j | 0 <= j < |Starts(log)| :: Starts(log)[j] == j)
    && (forall i, j | 0 <= i < j < |log| && log[i].Aborted? :: log[j].Aborted?)
  }

  function Min(a: int, b: int): int { if a <= b then a else b }

  /** At the loop the handlers before the cursor have been started; within a handler it has been, too. */
  ghost predicate Kept(hs: Chain, s: State, within: int) {
    && Orderly(s.log)
    && (!s.panicked ==>
          if Aborted in s.log then s.index < 0 || s.index as int >= |hs|
          else s.index < 0 || |Starts(s.log)| == Min(s.index as int + within, |hs|))
  }

  lemma LogStarts(log: seq<Event>, e: Event)
    ensures Starts(log + [e]) == if e.Start? then Starts(log) + [e.handler] else Starts(log)
  {
    assert (log + [e])[..|log|] == log;
  }

  lemma StartKeeps(hs: Chain, s: State)
    requires Kept(hs, s, 0) && !s.panicked && 0 <= s.index as int < |hs|
    ensures Kept(hs, s.Log(Start(s.index as nat)), 1)
  {
    LogStarts(s.log, Start(s.index as nat));
  }

  lemma AbortKeeps(hs: Chain, s: State)
    requires Kept(hs, s, 1)
    ensures Kept(hs, s.To(ABORT_INDEX).Log(Aborted), 1)
  {
    LogStarts(s.log, Aborted);
  }

  lemma IncrementKeeps(hs: Chain, s: State)
    requires Kept(hs, s, 1) && !s.panicked && s.index >= 0
    ensures Kept(hs, s.Increment(), 0)
  {}

  lemma {:induction false} LoopKeeps(hs: Chain, s: State)
    requires !s.panicked && Kept(hs, s, 0)
    ensures Kept(hs, Loop(hs, s), 1) && (!Loop(hs, s).panicked ==> Loop(hs, s).index as int >= |hs|)
    decreases Left(hs, s), if Left(hs, s) > 0 then 1 else 0, 0
  {
    if 0 <= s.index as int < |hs| {
      StartKeeps(hs, s);
      RunKeeps(hs, hs[s.index], s.Log(Start(s.index as nat)));
      var after := Run(hs, hs[s.index], s.Log(Start(s.index as nat)));
      if !after.panicked {
        IncrementKeeps(hs, after);
        LoopKeeps(hs, after.Increment());
      }
    }
  }

  lemma {:induction false} RunKeeps(hs: Chain, rest: Handler, s: State)
    requires !s.panicked && s.index >= 0 && Kept(hs, s, 1)
    ensures Kept(hs, Run(hs, rest, s), 1)
    decreases Left(hs, s), 0, |rest| + 1
  {
    if rest != [] {
      var next := match rest[0]
                  case Next => Loop(hs, s.Increment())
                  case Abort => s.To(ABORT_INDEX).Log(Aborted);
      match rest[0] {
        case Next =>
          IncrementKeeps(hs, s);
          LoopKeeps(hs, s.Increment());
        case Abort => AbortKeeps(hs, s);
      }
      if !next.panicked {
        RunKeeps(hs, rest[1..], next);
      }
    }
  }

  /** Whatever the handlers do: they start in order, each at most once, none after an abort; and all of
      them start unless one aborts or the cursor runs out of its range. */
  lemma ServesInOrder(hs: Chain)
    ensures Orderly(Serve(hs).log)
    ensures !Serve(hs).panicked && Aborted !in Serve(hs).log ==> |Starts(Serve(hs).log)| == |hs|
  {
    LoopKeeps(hs, State(-1, -1, [], false).Increment());
  }

  // ----- the range of the cursor -----

  function Nexts(h: Handler): nat {
    if h == [] then 0 else Nexts(h[1..]) + if h[0].Next? then 1 else 0
  }

  /** What the cursor is at most when the loop that starts handler i ends. */
  function Bound(hs: Chain, i: int): int { 64 + |hs| - i }

  ghost predicate Within(s: State, r: State, bound: int) {
    !r.panicked && r.index as int <= bound && (r.peak <= s.peak || r.peak as int <= bound)
  }

  lemma {:induction false} LoopBounded(hs: Chain, s: State)
    requires !s.panicked && 0 <= s.index as int <= |hs| && forall h | h in hs :: Nexts(h) <= 1
    ensures Within(s, Loop(hs, s), Bound(hs, s.index as int))
    decreases Left(hs, s), if Left(hs, s) > 0 then 1 else 0, 0
  {
    if s.index as int < |hs| {
      var i, h := s.index as int, hs[s.index];
      RunBounded(hs, h, s.Log(Start(i)), i, Nexts(h) == 0);
      var after := Run(hs, h, s.Log(Start(i)));
      if after.Increment().index as int < |hs| {
        LoopBounded(hs, after.Increment());
      }
    }
  }

  /** Handler i before its call of Next leaves the cursor at i, or at the abort index; afterwards it is
      below the bound of the loop that runs it. */
  lemma {:induction false} RunBounded(hs: Chain, rest: Handler, s: State, i: nat, called: bool)
    requires !s.panicked && i < |hs| && (forall h | h in hs :: Nexts(h) <= 1) && Nexts(rest) <= 1
    requires if called then Nexts(rest) == 0 && i <= s.index as int < Bound(hs, i)
             else s.index as int == i || s.index == ABORT_INDEX
    ensures i <= Run(hs, rest, s).index as int && Within(s, Run(hs, rest, s), Bound(hs, i) - 1)
    decreases Left(hs, s), 0, |rest| + 1
  {
    if rest != [] {
      match rest[0] {
        case Next =>
          if s.index as int == i {
            LoopBounded(hs, s.Increment());
          }
          RunBounded(hs, rest[1..], Loop(hs, s.Increment()), i, true);
        case Abort =>
          RunBounded(hs, rest[1..], s.To(ABORT_INDEX).Log(Aborted), i, called);
      }
    }
  }

  /** When every handler calls Next at most once the cursor never exceeds 126, so it never wraps around,
      and all handlers start unless one aborts. */
  lemma CursorStaysInRange(hs: Chain)
    requires forall h | h in hs :: Nexts(h) <= 1
    ensures !Serve(hs).panicked && Serve(hs).peak <= 126
    ensures Aborted !in Serve(hs).log ==> |Starts(Serve(hs).log)| == |hs|
  {
    LoopBounded(hs, State(-1, -1, [], false).Increment());
    ServesInOrder(hs);
  }

  /** The chain that takes the cursor furthest: all call Next, and the last aborts before it does. */
  function Furthest(n: nat): seq<Handler> {
    seq(n, i => if i == n - 1 then [Abort, Next] else [Next])
  }

  lemma {:induction false} FurthestLoop(n: nat, s: State)
    requires n < 63 && !s.panicked && 0 <= s.index as int < n
    ensures var r := Loop(Furthest(n), s);
            !r.panicked && r.index as int == Bound(Furthest(n), s.index as int) && r.peak >= r.index
    decreases n - s.index as int
  {
    var hs: Chain := Furthest(n);
    var started := s.Log(Start(s.index as nat));
    if s.index as int == n - 1 {
      assert hs[s.index] == [Abort, Next] && [Abort, Next][1..] == [Next] && [Next][1..] == [];
      var aborted := started.To(ABORT_INDEX).Log(Aborted);
      assert Run(hs, [Next], aborted) == aborted.Increment();
      assert Run(hs, [Abort, Next], started) == aborted.Increment();
    } else {
      assert hs[s.index] == [Next] && [Next][1..] == [];
      FurthestLoop(n, started.Increment());
      assert Run(hs, [Next], started) == Loop(hs, started.Increment());
    }
  }

  /** The bound is met. */
  lemma FurthestReaches126()
    ensures Serve(Furthest(62)).peak == 126 && forall h | h in Furthest(62) :: Nexts(h) <= 1
  {
    FurthestLoop(62, State(-1, -1, [], false).Increment());
    forall h | h in Furthest(62) ensures Nexts(h) <= 1 {
      assert [Abort, Next][1..] == [Next] && [Next][1..] == [];
    }
    CursorStaysInRange(Furthest(62));
  }

  // ----- where the cursor ends, for any handlers -----

  /** Beyond the end of the chain a handler moves the cursor by its own actions alone: one up for each
      call of Next, back to the abort index for each Abort. Past 127 it is lost. */
  function Unwind(rest: Handler, x: int): int {
    if rest == [] || x > 127 then x else Unwind(rest[1..], if rest[0].Next? then x + 1 else ABORT_INDEX as int)
  }

  /** Where the loop that starts handler i leaves the cursor. The first Next of a handler runs all the
      later ones, and its first Abort none of them; whatever else it does comes on top. */
  function End(hs: Chain, i: nat): int
    requires i <= |hs|
    decreases |hs| - i
  {
    if i == |hs| then i
    else if hs[i] == [] then End(hs, i + 1)
    else
      var x := Unwind(hs[i][1..], if hs[i][0].Next? then End(hs, i + 1) else ABORT_INDEX as int);
      if x > 127 then x else x + 1
  }

  predicate AbortsFrom(hs: Chain, i: nat) {
    exists j | i <= j < |hs| :: Abort in hs[j]
  }

  /** The run ended with the cursor at x, or panicked because x is out of range. */
  ghost predicate EndsAt(r: State, x: int, aborted: bool) {
    (r.panicked <==> x > 127) && (!r.panicked ==> r.index as int == x && (Aborted in r.log <==> aborted))
  }

  lemma {:induction false} UnwindRuns(hs: Chain, rest: Handler, s: State)
    requires !s.panicked && s.index as int >= |hs|
    ensures EndsAt(Run(hs, rest, s), Unwind(rest, s.index as int), Aborted in s.log || Abort in rest)
    ensures Unwind(rest, s.index as int) >= |hs|
    decreases |rest|
  {
    if rest != [] {
      assert rest == [rest[0]] + rest[1..];
      match rest[0] {
        case Next =>
          if s.index < 127 {
            assert Loop(hs, s.Increment()) == s.Increment();
            UnwindRuns(hs, rest[1..], s.Increment());
          } else {
            assert Unwind(rest[1..], 128) == 128;
          }
        case Abort =>
          UnwindRuns(hs, rest[1..], s.To(ABORT_INDEX).Log(Aborted));
      }
    }
  }

  lemma {:induction false} LoopEndsAt(hs: Chain, i: nat, s: State)
    requires i <= |hs| && !s.panicked && s.index as int == i && Aborted !in s.log
    ensures EndsAt(Loop(hs, s), End(hs, i), AbortsFrom(hs, i)) && End(hs, i) >= |hs|
    decreases |hs| - i
  {
    if i < |hs| {
      var h, started := hs[i], s.Log(Start(i));
      if h == [] {
        LoopEndsAt(hs, i + 1, started.Increment());
      } else {
        assert h == [h[0]] + h[1..];
        var next := started.To(ABORT_INDEX).Log(Aborted);
        if h[0].Next? {
          LoopEndsAt(hs, i + 1, started.Increment());
          next := Loop(hs, started.Increment());
        }
        if next.panicked {
          assert Unwind(h[1..], End(hs, i + 1)) == End(hs, i + 1);
        } else {
          UnwindRuns(hs, h[1..], next);
          LoopStops(hs, Run(hs, h, started));
        }
      }
    }
  }

  lemma LoopStops(hs: Chain, after: State)
    requires !after.panicked ==> after.index as int >= |hs|
    ensures !after.panicked ==>
              Loop(hs, after.Increment()) == if after.index == 127 then after.Increment().(panicked := true)
                                             else after.Increment()
  {}

  /** For every chain: a request panics exactly when the cursor would leave the int8 range, and otherwise
      ends with the cursor at End and with an abort in its log exactly when some handler has one. */
  lemma ServeEndsAt(hs: Chain)
    ensures EndsAt(Serve(hs), End(hs, 0), AbortsFrom(hs, 0))
  {
    LoopEndsAt(hs, 0, State(-1, -1, [], false).Increment());
  }

  function Total(hs: seq<Handler>): nat {
    if hs == [] then 0 else Nexts(hs[0]) + Total(hs[1..])
  }

  lemma {:induction false} UnwindNexts(rest: Handler, x: int)
    requires Abort !in rest
    ensures if x + Nexts(rest) <= 127 then Unwind(rest, x) == x + Nexts(rest) else Unwind(rest, x) > 127
    decreases |rest|
  {
    if rest != [] && x <= 127 {
      UnwindNexts(rest[1..], x + 1);
    }
  }

  lemma {:induction false} UnwindAborted(rest: Handler, x: int)
    requires x >= 63
    ensures Unwind(rest, x) >= 63
    decreases |rest|
  {
    if rest != [] && x <= 127 {
      UnwindAborted(rest[1..], if rest[0].Next? then x + 1 else 63);
    }
  }

  lemma {:induction false} EndAborted(hs: Chain, i: nat)
    requires i <= |hs| && AbortsFrom(hs, i)
    ensures End(hs, i) >= 63
    decreases |hs| - i
  {
    var j :| i <= j < |hs| && Abort in hs[j];
    if hs[i] == [] {
      EndAborted(hs, i + 1);
    } else {
      if hs[i][0].Next? && AbortsFrom(hs, i + 1) {
        EndAborted(hs, i + 1);
      }
      if hs[i][0].Abort? || AbortsFrom(hs, i + 1) {
        UnwindAborted(hs[i][1..], if hs[i][0].Next? then End(hs, i + 1) else 63);
      } else {
        UnwindToAbort(hs[i][1..], End(hs, i + 1));
      }
    }
  }

  lemma {:induction false} UnwindToAbort(rest: Handler, x: int)
    requires Abort in rest
    ensures Unwind(rest, x) >= 63
    decreases |rest|
  {
    if x <= 127 {
      if rest[0].Abort? {
        UnwindAborted(rest[1..], 63);
      } else {
        UnwindToAbort(rest[1..], x + 1);
      }
    }
  }

  lemma {:induction false} EndCounts(hs: Chain, i: nat)
    requires i <= |hs| && !AbortsFrom(hs, i)
    ensures var n := |hs| + Total(hs[i..]); if n <= 127 then End(hs, i) == n else End(hs, i) > 127
    decreases |hs| - i
  {
    if i < |hs| {
      assert hs[i..][1..] == hs[i + 1..];
      EndCounts(hs, i + 1);
      if hs[i] != [] {
        assert hs[i][0] in hs[i];
        UnwindNexts(hs[i][1..], End(hs, i + 1));
      }
    }
  }

  /** Without an abort every handler and every call of Next moves the cursor up by one: the request panics
      exactly when there are more than 127 of them together, and otherwise the cursor ends at their number. */
  lemma AbortFreeExactly(hs: Chain)
    requires !AbortsFrom(hs, 0)
    ensures var n := |hs| + Total(hs);
            (Serve(hs).panicked <==> n > 127) && (n <= 127 ==> Serve(hs).index as int == n && Aborted !in Serve(hs).log)
  {
    assert hs[0..] == hs;
    ServeEndsAt(hs);
    EndCounts(hs, 0);
  }

  /** IsAborted at the end of a request is right exactly when some handler did abort, or the handlers and
      their calls of Next are fewer than 63. */
  lemma IsAbortedExactly(hs: Chain)
    requires !Serve(hs).panicked
    ensures Aborted in Serve(hs).log <==> AbortsFrom(hs, 0)
    ensures Serve(hs).IsAborted() <==> AbortsFrom(hs, 0) || |hs| + Total(hs) >= 63
  {
    ServeEndsAt(hs);
    if AbortsFrom(hs, 0) {
      EndAborted(hs, 0);
    } else {
      AbortFreeExactly(hs);
    }
  }

  function AllNext(n: nat): seq<Handler> { if n == 0 then [] else [[Next]] + AllNext(n - 1) }

  lemma {:induction false} AllNextTotal(n: nat)
    ensures |AllNext(n)| == n == Total(AllNext(n)) && forall h | h in AllNext(n) :: h == [Next]
  {
    if n > 0 {
      assert AllNext(n)[1..] == AllNext(n - 1) && [Next][1..] == [];
      AllNextTotal(n - 1);
    }
  }

  /** IsAborted can hold although nothing was aborted: with n handlers that all call Next, from n == 32 on. */
  lemma IsAbortedMisleads(n: nat)
    requires n < 63
    ensures |AllNext(n)| == n && Aborted !in Serve(AllNext(n)).log
    ensures Serve(AllNext(n)).IsAborted() <==> n >= 32
  {
    AllNextTotal(n);
    assert forall j | 0 <= j < n :: AllNext(n)[j] in AllNext(n);
    AbortFreeExactly(AllNext(n));
  }

  /** A handler that calls Next n times. */
  function Repeated(n: nat): Handler { if n == 0 then [] else [Next] + Repeated(n - 1) }

  lemma {:induction false} RepeatedNexts(n: nat)
    ensures Nexts(Repeated(n)) == n && Abort !in Repeated(n)
  {
    if n > 0 {
      assert Repeated(n)[1..] == Repeated(n - 1);
      RepeatedNexts(n - 1);
    }
  }

  /** Called more than once, Next can wrap the cursor around: a chain of one handler that calls it n times
      panics from n == 127 on. */
  lemma RepeatedNextPanics(n: nat)
    ensures Serve([Repeated(n)]).panicked <==> n >= 127
  {
    RepeatedNexts(n);
    assert [Repeated(n)][1..] == [];
    AbortFreeExactly([Repeated(n)]);
  }

  // ----- the cursor as it is stepped -----

  class Context {
    var index: int8
    var handlers: Chain
    ghost var peak: int8
    ghost var log: seq<Event>

    /** reset, and the chain the engine then puts in. */
    constructor (handlers: Chain)
      ensures this.handlers == handlers && index == -1 && Now() == State(-1, -1, [], false)
    {
      this.handlers, index := handlers, -1;
      peak, log := -1, [];
    }

    ghost function Now(): State
      reads this
    {
      State(index, peak, log, false)
    }

    method Increment()
      modifies this`index, this`peak
      ensures Now() == old(Now()).Increment()
    {
      index := if index == 127 then -128 else index + 1;
      peak := if index > peak then index else peak;
    }

    method Abort()
      modifies this`index, this`peak, this`log
      ensures Now() == old(Now()).To(ABORT_INDEX).Log(Aborted) && IsAborted()
    {
      index := ABORT_INDEX;
      peak, log := if index > peak then index else peak, log + [Aborted];
    }

    predicate IsAborted(): (aborted: bool)
      reads this
      ensures aborted == Now().IsAborted()
    {
      index >= ABORT_INDEX
    }

    /** False stands for the panic of an index out of range. */
    method Next() returns (ok: bool)
      modifies this`index, this`peak, this`log
      ensures var r := Loop(handlers, old(Now()).Increment());
              ok == !r.panicked && Now() == r.(panicked := false)
      decreases Left(handlers, Now().Increment()), if Left(handlers, Now().Increment()) > 0 then 1 else 0, 1
    {
      ok := true;
      Increment();
      ghost var start := Now();
      while index as int < |handlers| && ok
        invariant ok ==> Loop(handlers, Now()) == Loop(handlers, start)
        invariant !ok ==> Loop(handlers, start) == Now().(panicked := true)
        invariant ok ==> Left(handlers, Now()) <= Left(handlers, start)
        decreases ok, Left(handlers, Now())
      {
        if index < 0 {
          ok := false;
        } else {
          log := log + [Start(index as nat)];
          ok := Call(handlers[index]);
          if ok {
            Increment();
          }
        }
      }
    }

    /** A handler runs. */
    method Call(handler: Handler) returns (ok: bool)
      requires index >= 0
      modifies this`index, this`peak, this`log
      ensures var r := Run(handlers, handler, old(Now()));
              ok == !r.panicked && Now() == r.(panicked := false)
      decreases Left(handlers, Now()), 0, |handler| + 1
    {
      ok := true;
      var k := 0;
      while k < |handler| && ok
        invariant k <= |handler|
        invariant ok ==> index >= 0 && Run(handlers, handler[k..], Now()) == Run(handlers, handler, old(Now()))
        invariant !ok ==> Run(handlers, handler, old(Now())) == Now().(panicked := true)
        invariant ok ==> Left(handlers, Now()) <= Left(handlers, old(Now()))
      {
        assert handler[k..][1..] == handler[k + 1..];
        match handler[k] {
          case Next => ok := Next();
          case Abort => Abort();
        }
        k := k + 1;
      }
    }
  }

  // ----- where chains come from -----

  class RouterGroup {
    var handlers: seq<Handler>

    constructor (handlers: seq<Handler>)
      ensures this.handlers == handlers
    {
      this.handlers := handlers;
    }

    /** Use does not check how many there are. */
    method Use(middleware: seq<Handler>)
      modifies this
      ensures handlers == old(handlers) + middleware
    {
      handlers := handlers + middleware;
    }

    /** combineHandlers: false stands for its panic. */
    method CombineHandlers(more: seq<Handler>) returns (ok: bool, merged: seq<Handler>)
      ensures ok <==> |handlers| + |more| < 63
      ensures merged == if ok then handlers + more else []
    {
      ok, merged := |handlers| + |more| < ABORT_INDEX as int, [];
      if ok {
        merged := handlers + more;
      }
    }

    /** Group: the new group starts with the handlers its parent has now. */
    method Group(more: seq<Handler>) returns (group: RouterGroup?)
      ensures group == null <==> |handlers| + |more| >= 63
      ensures group != null ==> fresh(group) && group.handlers == handlers + more
    {
      var ok, merged := CombineHandlers(more);
      group := null;
      if ok {
        group := new RouterGroup(merged);
      }
    }

    /** A route gets the handlers of its group and its own; a request on it runs them as a chain. */
    method Handle(more: seq<Handler>) returns (served: bool, c: Context?)
      ensures c == null <==> |handlers| + |more| >= 63
      ensures c != null ==>
                && (served <==> End(handlers + more, 0) <= 127) && Orderly(c.log)
                && (served ==> c.index as int == End(handlers + more, 0))
                && (served ==> (c.IsAborted() <==>
                                AbortsFrom(handlers + more, 0) || |handlers + more| + Total(handlers + more) >= 63))
                && (served && Aborted !in c.log ==> |Starts(c.log)| == |handlers| + |more|)
                && ((forall h | h in handlers + more :: Nexts(h) <= 1) ==> served && c.peak <= 126)
    {
      var ok, merged := CombineHandlers(more);
      c, served := null, false;
      if ok {
        c := new Context(merged);
        ServeEndsAt(merged);
        ServesInOrder(merged);
        if forall h | h in merged :: Nexts(h) <= 1 {
          CursorStaysInRange(merged);
        }
        if !Serve(merged).panicked {
          IsAbortedExactly(merged);
        }
        served := c.Next();
      }
    }
  }
}
