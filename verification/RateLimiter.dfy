/** The sliding-window limiter of rateLimiter.go: the configuration options, one pass of TryAcquire
    under the lock, and the goroutine that clears outdated windows. */
module RateLimiter {

  datatype Option<T> = None | Some(value: T)

  /** Go's integer division truncates toward zero; the divisor here is positive. */
  function Quo(a: int, b: int): int
    requires b > 0
  {
    if a >= 0 then a / b else -(-a / b)
  }

  function Div(a: int, b: int): int
    requires b != 0
  {
    if b > 0 then Quo(a, b) else -Quo(a, -b)
  }

  function Size(a: int): nat { if a < 0 then -a else a }

  /** The quotient is the largest in size that does not overshoot, with the sign the operands ask for. */
  lemma DivTruncates(a: int, b: int)
    requires b != 0
    ensures var q := Div(a, b);
            && Size(q) * Size(b) <= Size(a) < Size(q) * Size(b) + Size(b)
            && (q > 0 ==> (a > 0 <==> b > 0)) && (q < 0 ==> (a > 0 <==> b < 0))
  {
    var m: int, n: int := Size(a), Size(b);
    Quotient(m, n);
    assert Div(a, b) == if (a >= 0) == (b > 0) then m / n else -(m / n);
    hide Div, Quo;
  }

  lemma Quotient(m: nat, n: nat)
    requires n > 0
    ensures 0 <= m / n && (m / n) * n <= m < (m / n) * n + n && (m / n > 0 ==> m > 0)
  {
    assert m == (m / n) * n + m % n;
  }

  /** What the options settle. A distance of zero panics in the first TryAcquire, so a limiter has at
      least one nanosecond per sub-window. */
  datatype Config = Config(permits: int, windowsSize: int, subWindows: int) {
    predicate Valid() { 1 <= subWindows <= windowsSize }

    function Distance(): (d: int)
      requires Valid()
      ensures d >= 1 && subWindows * d <= windowsSize < subWindows * d + subWindows
    {
      windowsSize / subWindows
    }
  }

  /** The windows are a Go map: a missing slot reads as zero. */
  type Windows = map<int, int>

  function Get(w: Windows, slot: int): int {
    if slot in w then w[slot] else 0
  }

  /** A spawned clearing goroutine, with what it captured. */
  datatype Clearing = Clearing(diff: int, index: int)

  datatype Limiter = Limiter(timestamp: int, total: int, windows: Windows, clearing: Option<Clearing>)

  datatype Outcome = Accepted | Rejected | Triggered

  /** One pass of TryAcquire under the lock, with no clearing pending. */
  function Attempt(cfg: Config, l: Limiter, now: int): (Limiter, Outcome)
    requires cfg.Valid()
  {
    var diff := now - l.timestamp;
    var index := Quo(diff, cfg.Distance());
    if diff <= cfg.windowsSize then
      if l.total < cfg.permits then
        (l.(total := l.total + 1, windows := l.windows[index := Get(l.windows, index) + 1]), Accepted)
      else
        (l, Rejected)
    else
      (l.(clearing := Some(Clearing(diff, index))), Triggered)
  }

  /** The sum of the counters of slots 0 .. k-1. */
  function Sum(w: Windows, k: nat): int {
    if k == 0 then 0 else Sum(w, k - 1) + Get(w, k - 1)
  }

  function Zeroed(w: Windows, k: nat): Windows {
    if k == 0 then w else Zeroed(w, k - 1)[k - 1 := 0]
  }

  /** How many slots the clearing goroutine empties. */
  function Outdated(cfg: Config, c: Clearing): int
    requires cfg.Valid()
  {
    c.index % cfg.subWindows + 1
  }

  function Clear(cfg: Config, l: Limiter): Limiter
    requires cfg.Valid() && l.clearing.Some?
  {
    var k := Outdated(cfg, l.clearing.value);
    Limiter(l.timestamp + l.clearing.value.diff, l.total - Sum(l.windows, k), Zeroed(l.windows, k), None)
  }

  // ----- the limiter object -----

  class SlideWindowsLimiter {
    var permitsPerWindows: int
    var windows: Windows
    var totalCount: int
    var timestamp: int
    var smallWindowsDistance: int
    var windowsSize: int
    var clearFlag: bool
    var subWindowsSize: int
    var captured: Clearing      // diff and index of the goroutine in flight, meaningful while clearFlag is set

    function Settings(): Config
      reads this
    {
      Config(permitsPerWindows, windowsSize, subWindowsSize)
    }

    /** What every option keeps, also while the settings make no sense yet. */
    predicate Derived()
      reads this
    {
      subWindowsSize != 0 && smallWindowsDistance == Div(windowsSize, subWindowsSize)
    }

    predicate Valid()
      reads this
    {
      Derived() && Settings().Valid()
    }

    function Model(): Limiter
      reads this
    {
      Limiter(timestamp, totalCount, windows, if clearFlag then Some(captured) else None)
    }

    /** initDefaultLimiter, at time `now`. */
    constructor (now: int)
      ensures Valid() && Settings() == Config(3 * 4096, 3_000_000_000, 1024)
      ensures Model() == Limiter(now, 0, map[], None)
    {
      permitsPerWindows := 3_000_000_000 / 1_000_000_000 * 4096;
      windows := map[];
      totalCount := 0;
      timestamp := now;
      smallWindowsDistance := 3_000_000_000 / 1024;
      windowsSize := 3_000_000_000;
      subWindowsSize := 1024;
      clearFlag := false;
      captured := Clearing(0, 0);
    }

    method WithMaxPassingPerWindows(numbers: int)
      requires Derived()
      modifies this`permitsPerWindows
      ensures Derived() && Settings() == old(Settings()).(permits := numbers)
    {
      permitsPerWindows := numbers;
    }

    /** False stands for the panic of a division by zero. */
    method WithSubWindowsNumber(numbers: int) returns (ok: bool)
      requires Derived()
      modifies this`subWindowsSize, this`smallWindowsDistance
      ensures ok <==> numbers != 0
      ensures ok ==> Derived() && Settings() == old(Settings()).(subWindows := numbers)
    {
      subWindowsSize := numbers;
      ok := numbers != 0;
      if ok {
        smallWindowsDistance := Div(windowsSize, subWindowsSize);
      }
    }

    method WithWindowsSize(nanoseconds: int)
      requires Derived()
      modifies this`windowsSize, this`smallWindowsDistance
      ensures Derived() && Settings() == old(Settings()).(windowsSize := nanoseconds)
    {
      windowsSize := nanoseconds;
      smallWindowsDistance := Div(windowsSize, subWindowsSize);
    }

    method DeferCreateWindows()
      modifies this`windows
      ensures windows == Zeroed(old(windows), if subWindowsSize > 0 then subWindowsSize else 0)
    {
      var i := 0;
      while i < subWindowsSize
        invariant 0 <= i && (i <= subWindowsSize || i == 0)
        invariant windows == Zeroed(old(windows), i)
      {
        windows := windows[i := 0];
        i := i + 1;
      }
    }

    /** One pass of TryAcquire, from taking the lock to releasing it. */
    method TryOnce(now: int) returns (r: Outcome)
      requires Valid() && !clearFlag
      modifies this`totalCount, this`windows, this`clearFlag, this`captured
      ensures (Model(), r) == Attempt(Settings(), old(Model()), now)
      ensures (r.Triggered? <==> now - old(timestamp) > windowsSize) && (clearFlag <==> r.Triggered?)
      ensures r.Rejected? <==> now - old(timestamp) <= windowsSize && old(totalCount) >= permitsPerWindows
      ensures totalCount == old(totalCount) + if r.Accepted? then 1 else 0
      ensures forall j :: Get(windows, j) == Get(old(windows), j) +
                          if r.Accepted? && j == Quo(now - timestamp, smallWindowsDistance) then 1 else 0
      ensures r.Triggered? ==> timestamp + captured.diff == now
    {
      var diff := now - timestamp;
      var index := Quo(diff, smallWindowsDistance);
      if diff <= windowsSize {
        if totalCount < permitsPerWindows {
          totalCount := totalCount + 1;
          windows := windows[index := Get(windows, index) + 1];
          r := Accepted;
        } else {
          r := Rejected;
        }
      } else {
        clearFlag := true;
        captured := Clearing(diff, index);
        r := Triggered;
      }
    }

    /** The clearing goroutine. */
    method ClearOutdated()
      requires Valid() && clearFlag
      modifies this`timestamp, this`totalCount, this`windows, this`clearFlag
      ensures Model() == Clear(Settings(), old(Model()))
      ensures !clearFlag && timestamp == old(timestamp) + captured.diff
      ensures forall j :: Get(windows, j) ==
                          if 0 <= j <= captured.index % subWindowsSize then 0 else Get(old(windows), j)
      ensures totalCount == old(totalCount) - Sum(old(windows), captured.index % subWindowsSize + 1)
    {
      timestamp := timestamp + captured.diff;
      var i := 0;
      var invalidWindows := captured.index % subWindowsSize;
      while i <= invalidWindows
        invariant 0 <= i <= invalidWindows + 1
        invariant timestamp == old(timestamp) + captured.diff && clearFlag
        invariant totalCount == old(totalCount) - Sum(old(windows), i)
        invariant windows == Zeroed(old(windows), i)
        invariant forall j | j >= i :: Get(windows, j) == Get(old(windows), j)
      {
        totalCount := totalCount - Get(windows, i);
        windows := windows[i := 0];
        i := i + 1;
      }
      clearFlag := false;
      forall j ensures Get(windows, j) == if 0 <= j <= invalidWindows then 0 else Get(old(windows), j) {
        GetZeroed(old(windows), invalidWindows + 1, j);
      }
    }

    /** How long before reading j the window began, when every reading before it made the window begin anew. */
    function Gap(readings: seq<int>, j: nat): int
      requires j < |readings|
      reads this`timestamp
    {
      readings[j] - if j == 0 then timestamp else readings[j - 1]
    }

    /** TryAcquire of a caller that is alone, with the readings of the clock its passes take: it clears and tries
        again for as long as it finds the window over, and answers by the first reading inside a window. None:
        the readings do not suffice. */
    method TryAcquire(readings: seq<int>) returns (ok: Option<bool>)
      requires Valid() && !clearFlag
      modifies this`totalCount, this`windows, this`clearFlag, this`captured, this`timestamp
      ensures Valid() && !clearFlag
      ensures ok.None? <==> forall j | 0 <= j < |readings| :: old(Gap(readings, j)) > windowsSize
      ensures ok == Some(false) ==> totalCount >= permitsPerWindows
      ensures ok == Some(true) ==> totalCount <= permitsPerWindows
    {
      ok := None;
      var i := 0;
      while i < |readings|
        invariant 0 <= i <= |readings| && Valid() && !clearFlag
        invariant timestamp == if i == 0 then old(timestamp) else readings[i - 1]
        invariant forall j | 0 <= j < i :: old(Gap(readings, j)) > windowsSize
      {
        var r := TryOnce(readings[i]);
        if !r.Triggered? {
          assert old(Gap(readings, i)) <= windowsSize;
          return Some(r.Accepted?);
        }
        ClearOutdated();
        i := i + 1;
      }
    }
  }

  // ----- runs -----

  /** What can happen: a caller gets the lock with no clearing pending and reads the clock, or the
      pending clearing runs. */
  datatype Event = Call(now: int) | Cleared

  /** An accepted request, the slot it was counted in, and whether that count was cleared since. */
  datatype Accept = Accept(time: int, slot: int, erased: bool)

  datatype Sys = Sys(lim: Limiter, clock: int, log: seq<Accept>)

  function Mark(log: seq<Accept>, k: int): (r: seq<Accept>)
    ensures |r| == |log|
    ensures forall i | 0 <= i < |log| :: r[i] == log[i].(erased := log[i].erased || log[i].slot < k)
  {
    seq(|log|, i requires 0 <= i < |log| => log[i].(erased := log[i].erased || log[i].slot < k))
  }

  /** The clock never runs backwards; a caller waits while a clearing is pending. */
  predicate Enabled(s: Sys, e: Event) {
    match e
    case Call(now) => s.lim.clearing.None? && s.clock <= now
    case Cleared => s.lim.clearing.Some?
  }

  function StepSys(cfg: Config, s: Sys, e: Event): Sys
    requires cfg.Valid() && Enabled(s, e)
  {
    match e
    case Call(now) =>
      var (l, o) := Attempt(cfg, s.lim, now);
      Sys(l, now, if o.Accepted? then s.log + [Accept(now, Quo(now - s.lim.timestamp, cfg.Distance()), false)]
          else s.log)
    case Cleared =>
      Sys(Clear(cfg, s.lim), s.clock, Mark(s.log, Outdated(cfg, s.lim.clearing.value)))
  }

  function Start(t0: int): Sys {
    Sys(Limiter(t0, 0, map[], None), t0, [])
  }

  /** The state after a run, if every event was enabled when it came. */
  function Exec(cfg: Config, s: Sys, events: seq<Event>): Option<Sys>
    requires cfg.Valid()
  {
    if events == [] then Some(s)
    else
      var before := Exec(cfg, s, events[..|events| - 1]);
      var e := events[|events| - 1];
      if before.Some? && Enabled(before.value, e) then Some(StepSys(cfg, before.value, e)) else None
  }

  // ----- counting -----

  /** Requests accepted in the closed interval of this length that starts at `from`. */
  function CountIn(log: seq<Accept>, from: int, length: int): nat {
    if log == [] then 0
    else CountIn(log[..|log| - 1], from, length) + if from <= log[|log| - 1].time <= from + length then 1 else 0
  }

  /** Counts still standing in slots below k, and in one slot. */
  function LiveBelow(log: seq<Accept>, k: int): nat {
    if log == [] then 0
    else LiveBelow(log[..|log| - 1], k) + if !log[|log| - 1].erased && log[|log| - 1].slot < k then 1 else 0
  }

  function LiveIn(log: seq<Accept>, slot: int): int {
    LiveBelow(log, slot + 1) - LiveBelow(log, slot)
  }

  /** Every counter counts the standing entries of its slot. */
  ghost predicate Counted(w: Windows, log: seq<Accept>) {
    forall j :: Get(w, j) == LiveIn(log, j)
  }

  lemma {:induction false} SumIsLive(w: Windows, log: seq<Accept>, k: nat)
    requires Counted(w, log)
    requires LiveBelow(log, 0) == 0
    ensures Sum(w, k) == LiveBelow(log, k)
  {
    if k > 0 {
      SumIsLive(w, log, k - 1);
      assert Get(w, k - 1) == LiveIn(log, k - 1);
    }
  }

  lemma LiveAfterAppend(log: seq<Accept>, a: Accept, k: int)
    ensures LiveBelow(log + [a], k) == LiveBelow(log, k) + if !a.erased && a.slot < k then 1 else 0
  {
    assert (log + [a])[..|log|] == log;
  }

  lemma {:induction false} LiveAfterMark(log: seq<Accept>, k: int, j: int)
    ensures LiveBelow(Mark(log, k), j) == if j <= k then 0 else LiveBelow(log, j) - LiveBelow(log, k)
  {
    if log != [] {
      var n := |log| - 1;
      assert Mark(log, k)[..n] == Mark(log[..n], k);
      LiveAfterMark(log[..n], k, j);
    }
  }

  lemma {:induction false} CountAfterMark(log: seq<Accept>, k: int, from: int, length: int)
    ensures CountIn(Mark(log, k), from, length) == CountIn(log, from, length)
  {
    if log != [] {
      var n := |log| - 1;
      assert Mark(log, k)[..n] == Mark(log[..n], k);
      CountAfterMark(log[..n], k, from, length);
    }
  }

  lemma GetZeroed(w: Windows, k: nat, j: int)
    ensures Get(Zeroed(w, k), j) == if 0 <= j < k then 0 else Get(w, j)
  {}

  lemma {:induction false} NothingBelowZero(log: seq<Accept>)
    requires forall a | a in log :: a.slot >= 0
    ensures LiveBelow(log, 0) == 0
  {
    if log != [] {
      assert log[|log| - 1] in log;
      NothingBelowZero(log[..|log| - 1]);
    }
  }

  lemma {:induction false} NoEntry(log: seq<Accept>, j: int)
    requires forall a | a in log :: a.slot != j
    ensures LiveIn(log, j) == 0
  {
    if log != [] {
      assert log[|log| - 1] in log;
      NoEntry(log[..|log| - 1], j);
    }
  }

  lemma CountedAfterAccept(w: Windows, log: seq<Accept>, a: Accept)
    requires Counted(w, log) && !a.erased
    ensures Counted(w[a.slot := Get(w, a.slot) + 1], log + [a])
  {
    forall j ensures Get(w[a.slot := Get(w, a.slot) + 1], j) == LiveIn(log + [a], j) {
      assert Get(w, j) == LiveIn(log, j);
      LiveAfterAppend(log, a, j);
      LiveAfterAppend(log, a, j + 1);
    }
  }

  lemma CountedAfterClear(w: Windows, log: seq<Accept>, k: nat)
    requires Counted(w, log) && forall a | a in log :: a.slot >= 0
    ensures Counted(Zeroed(w, k), Mark(log, k))
  {
    forall j ensures Get(Zeroed(w, k), j) == LiveIn(Mark(log, k), j) {
      assert Get(w, j) == LiveIn(log, j);
      GetZeroed(w, k, j);
      LiveAfterMark(log, k, j);
      LiveAfterMark(log, k, j + 1);
      if j < 0 {
        NoEntry(log, j);
      }
    }
  }

  // ----- how old a cleared count is -----

  /** The longest interval the limiter protects. The two odd shapes are a single sub-window, and a
      window of 2n-1 nanoseconds cut into n sub-windows of one. */
  function Safe(cfg: Config): int
    requires cfg.Valid()
  {
    var n, d := cfg.subWindows, cfg.Distance();
    if (2 * n - 1) * d > cfg.windowsSize then (n - 1) * d
    else if n == 1 then 1
    else cfg.windowsSize
  }

  /** It is never shorter than all sub-windows but one. */
  lemma SafeAtLeast(cfg: Config)
    requires cfg.Valid()
    ensures Safe(cfg) >= (cfg.subWindows - 1) * cfg.Distance()
  {
    if (2 * cfg.subWindows - 1) * cfg.Distance() <= cfg.windowsSize && cfg.subWindows > 1 {
      OddShape(cfg);
    }
  }

  lemma OddShape(cfg: Config)
    requires cfg.Valid() && (2 * cfg.subWindows - 1) * cfg.Distance() <= cfg.windowsSize && cfg.subWindows > 1
    ensures cfg.Distance() == 1 && cfg.windowsSize == 2 * cfg.subWindows - 1
  {
    var n, d := cfg.subWindows, cfg.Distance();
    Distribute(n, d);
    if d >= 2 {
      MulLe(2, d, n - 1);
    }
  }

  lemma Distribute(n: int, d: int)
    ensures (2 * n - 1) * d == n * d + (n - 1) * d && (n - 1) * d == d * (n - 1)
  {}

  lemma MulLe(a: int, b: int, d: int)
    requires a <= b && d >= 0
    ensures a * d <= b * d
  {}

  lemma QuoBounds(a: int, d: int)
    requires a >= 0 && d > 0
    ensures 0 <= Quo(a, d) && Quo(a, d) * d <= a < (Quo(a, d) + 1) * d
  {}

  /** A remainder counts from the last full round: index is at least one round above it. */
  lemma RoundAbove(index: int, n: int, rounds: int)
    requires n >= 1 && index >= rounds * n && rounds >= 0
    ensures index >= rounds * n + index % n
  {
    var q := index / n;
    assert index == q * n + index % n;
    if q < rounds {
      MulLe(q + 1, rounds, n);
    }
    MulLe(rounds, q, n);
  }

  /** When a clearing triggered diff after the timestamp empties slot j, everything counted there is
      more than Safe old. */
  lemma ClearedIsOld(cfg: Config, diff: int, j: int, offset: int)
    requires cfg.Valid() && diff > cfg.windowsSize
    requires 0 <= j <= Quo(diff, cfg.Distance()) % cfg.subWindows && offset < (j + 1) * cfg.Distance()
    ensures diff - offset > Safe(cfg)
  {
    var n, d, index := cfg.subWindows, cfg.Distance(), Quo(diff, cfg.Distance());
    QuoBounds(diff, d);
    if (2 * n - 1) * d > cfg.windowsSize {
      assert index >= n by { if index + 1 <= n { MulLe(index + 1, n, d); } }
      RoundAbove(index, n, 1);
      MulLe(n + j, index, d);
      assert (n + j) * d - (j + 1) * d == (n - 1) * d;
    } else if n > 1 {
      OddShape(cfg);
      assert index == diff >= 2 * n;
      RoundAbove(index, n, 2);
    }
  }

  // ----- the invariant of every run -----

  function Cap(cfg: Config): nat { if cfg.permits > 0 then cfg.permits else 0 }

  function LastSlot(cfg: Config): int
    requires cfg.Valid()
  {
    cfg.windowsSize / cfg.Distance()
  }

  predicate EntryOk(cfg: Config, l: Limiter, clock: int, a: Accept)
    requires cfg.Valid()
  {
    && 0 <= a.slot <= LastSlot(cfg)
    && a.time <= clock
    && if a.erased then a.time + Safe(cfg) < l.timestamp else a.time < l.timestamp + (a.slot + 1) * cfg.Distance()
  }

  /** The counters are the standing entries of the log. */
  ghost predicate Tallied(cfg: Config, s: Sys)
    requires cfg.Valid()
  {
    && Counted(s.lim.windows, s.log)
    && s.lim.total == LiveBelow(s.log, LastSlot(cfg) + 1) <= Cap(cfg)
  }

  ghost predicate Timed(cfg: Config, s: Sys)
    requires cfg.Valid()
  {
    && s.lim.timestamp <= s.clock
    && (forall a | a in s.log :: EntryOk(cfg, s.lim, s.clock, a))
    && (s.lim.clearing.Some? ==>
          var c := s.lim.clearing.value;
          c.diff > cfg.windowsSize && c.index == Quo(c.diff, cfg.Distance()) && s.lim.timestamp + c.diff <= s.clock)
  }

  ghost predicate Inv(cfg: Config, s: Sys)
    requires cfg.Valid()
  {
    && Tallied(cfg, s) && Timed(cfg, s)
    && forall x :: CountIn(s.log, x, Safe(cfg)) <= Cap(cfg)
  }

  /** Everything accepted since `from` still counts, when only older entries were cleared. */
  lemma {:induction false} RecentIsLive(log: seq<Accept>, from: int, length: int, k: int)
    requires forall a | a in log :: (a.erased ==> a.time < from) && a.slot < k
    ensures CountIn(log, from, length) <= LiveBelow(log, k)
  {
    if log != [] {
      assert log[|log| - 1] in log;
      RecentIsLive(log[..|log| - 1], from, length, k);
    }
  }

  lemma SlotInRange(cfg: Config, diff: int)
    requires cfg.Valid() && 0 <= diff <= cfg.windowsSize
    ensures 0 <= Quo(diff, cfg.Distance()) <= LastSlot(cfg)
  {
    assert LastSlot(cfg) == Quo(cfg.windowsSize, cfg.Distance());
    hide Quo, LastSlot, Config.Distance;
    QuoMonotone(diff, cfg.windowsSize, cfg.Distance());
  }

  lemma QuoMonotone(a: int, b: int, d: int)
    requires d >= 1 && 0 <= a <= b
    ensures 0 <= Quo(a, d) <= Quo(b, d)
  {
    QuoBounds(a, d);
    QuoBounds(b, d);
    QuotientOrder(Quo(a, d), Quo(b, d), a, b, d);
  }

  lemma QuotientOrder(p: int, q: int, a: int, b: int, d: int)
    requires p * d <= a <= b < (q + 1) * d && d >= 1
    ensures p <= q
  {
    if p > q {
      MulLe(q + 1, p, d);
    }
  }

  /** An accepted request is one more standing entry. */
  lemma AcceptKeepsTallied(cfg: Config, s: Sys, now: int)
    requires cfg.Valid() && Inv(cfg, s) && Enabled(s, Call(now)) && Attempt(cfg, s.lim, now).1.Accepted?
    ensures Tallied(cfg, StepSys(cfg, s, Call(now)))
  {
    var a := Accept(now, Quo(now - s.lim.timestamp, cfg.Distance()), false);
    SlotInRange(cfg, now - s.lim.timestamp);
    CountedAfterAccept(s.lim.windows, s.log, a);
    LiveAfterAppend(s.log, a, LastSlot(cfg) + 1);
  }

  lemma AcceptKeepsTimed(cfg: Config, s: Sys, now: int)
    requires cfg.Valid() && Inv(cfg, s) && Enabled(s, Call(now)) && Attempt(cfg, s.lim, now).1.Accepted?
    ensures Timed(cfg, StepSys(cfg, s, Call(now)))
  {
    var s', diff := StepSys(cfg, s, Call(now)), now - s.lim.timestamp;
    SlotInRange(cfg, diff);
    QuoBounds(diff, cfg.Distance());
    forall a | a in s'.log ensures EntryOk(cfg, s'.lim, now, a) {
      assert a in s.log ==> EntryOk(cfg, s.lim, s.clock, a);
    }
  }

  lemma CallKeepsInv(cfg: Config, s: Sys, now: int)
    requires cfg.Valid() && Inv(cfg, s) && Enabled(s, Call(now))
    ensures Inv(cfg, StepSys(cfg, s, Call(now)))
  {
    var s' := StepSys(cfg, s, Call(now));
    if Attempt(cfg, s.lim, now).1.Accepted? {
      AcceptKeepsTallied(cfg, s, now);
      AcceptKeepsTimed(cfg, s, now);
      assert s'.log[..|s.log|] == s.log;
      forall x ensures CountIn(s'.log, x, Safe(cfg)) <= Cap(cfg) {
        if now <= x + Safe(cfg) {
          RecentIsLive(s'.log, x, Safe(cfg), LastSlot(cfg) + 1);
        }
      }
    } else {
      forall a | a in s'.log ensures EntryOk(cfg, s'.lim, now, a) {
        assert EntryOk(cfg, s.lim, s.clock, a);
      }
    }
  }

  lemma FewSlotsCleared(cfg: Config, c: Clearing)
    requires cfg.Valid()
    ensures 1 <= Outdated(cfg, c) <= cfg.subWindows <= LastSlot(cfg)
  {
    QuoBounds(cfg.windowsSize, cfg.Distance());
    if cfg.subWindows > LastSlot(cfg) {
      MulLe(LastSlot(cfg) + 1, cfg.subWindows, cfg.Distance());
    }
  }

  lemma ClearKeepsTallied(cfg: Config, s: Sys)
    requires cfg.Valid() && Inv(cfg, s) && Enabled(s, Cleared)
    ensures Tallied(cfg, StepSys(cfg, s, Cleared))
  {
    var k := Outdated(cfg, s.lim.clearing.value);
    FewSlotsCleared(cfg, s.lim.clearing.value);
    forall a | a in s.log ensures a.slot >= 0 {
      assert EntryOk(cfg, s.lim, s.clock, a);
    }
    CountedAfterClear(s.lim.windows, s.log, k);
    NothingBelowZero(s.log);
    SumIsLive(s.lim.windows, s.log, k);
    LiveAfterMark(s.log, k, LastSlot(cfg) + 1);
  }

  lemma ClearKeepsTimed(cfg: Config, s: Sys)
    requires cfg.Valid() && Inv(cfg, s) && Enabled(s, Cleared)
    ensures Timed(cfg, StepSys(cfg, s, Cleared))
  {
    var s', c := StepSys(cfg, s, Cleared), s.lim.clearing.value;
    forall i | 0 <= i < |s.log| ensures EntryOk(cfg, s'.lim, s'.clock, s'.log[i]) {
      var a := s.log[i];
      assert EntryOk(cfg, s.lim, s.clock, a);
      if !a.erased && a.slot < Outdated(cfg, c) {
        ClearedIsOld(cfg, c.diff, a.slot, a.time - s.lim.timestamp);
      }
    }
  }

  lemma ClearKeepsInv(cfg: Config, s: Sys)
    requires cfg.Valid() && Inv(cfg, s) && Enabled(s, Cleared)
    ensures Inv(cfg, StepSys(cfg, s, Cleared))
  {
    ClearKeepsTallied(cfg, s);
    ClearKeepsTimed(cfg, s);
    forall x ensures CountIn(StepSys(cfg, s, Cleared).log, x, Safe(cfg)) <= Cap(cfg) {
      CountAfterMark(s.log, Outdated(cfg, s.lim.clearing.value), x, Safe(cfg));
    }
  }

  lemma {:induction false} ExecInv(cfg: Config, t0: int, events: seq<Event>)
    requires cfg.Valid() && Exec(cfg, Start(t0), events).Some?
    ensures Inv(cfg, Exec(cfg, Start(t0), events).value)
  {
    if events == [] {
    } else {
      var before := events[..|events| - 1];
      ExecInv(cfg, t0, before);
      match events[|events| - 1]
      case Call(now) => CallKeepsInv(cfg, Exec(cfg, Start(t0), before).value, now);
      case Cleared => ClearKeepsInv(cfg, Exec(cfg, Start(t0), before).value);
    }
  }

  /** totalCount is the sum of all window counters, and at most permits, in every run. */
  lemma TotalIsSum(cfg: Config, t0: int, events: seq<Event>)
    requires cfg.Valid() && Exec(cfg, Start(t0), events).Some?
    ensures var l := Exec(cfg, Start(t0), events).value.lim;
            l.total == Sum(l.windows, LastSlot(cfg) + 1) <= Cap(cfg)
    ensures forall j | j < 0 || j > LastSlot(cfg) :: Get(Exec(cfg, Start(t0), events).value.lim.windows, j) == 0
  {
    hide Sum, Get, Config.Distance;
    ExecInv(cfg, t0, events);
    var s := Exec(cfg, Start(t0), events).value;
    forall a | a in s.log ensures 0 <= a.slot <= LastSlot(cfg) {
      assert EntryOk(cfg, s.lim, s.clock, a);
    }
    NothingBelowZero(s.log);
    SumIsLive(s.lim.windows, s.log, LastSlot(cfg) + 1);
    forall j | j < 0 || j > LastSlot(cfg) ensures Get(s.lim.windows, j) == 0 {
      NoEntry(s.log, j);
    }
  }

  /** Accepted requests whose count no clear has taken back. */
  function Standing(log: seq<Accept>): nat {
    if log == [] then 0 else Standing(log[..|log| - 1]) + if log[|log| - 1].erased then 0 else 1
  }

  lemma {:induction false} StandingIsLive(log: seq<Accept>, k: nat)
    requires forall a | a in log :: a.slot < k
    ensures LiveBelow(log, k) == Standing(log)
  {
    if log != [] {
      assert log[|log| - 1] in log;
      StandingIsLive(log[..|log| - 1], k);
    }
  }

  lemma TotalIsStanding(cfg: Config, t0: int, events: seq<Event>)
    requires cfg.Valid() && Exec(cfg, Start(t0), events).Some?
    ensures var s := Exec(cfg, Start(t0), events).value; s.lim.total == Standing(s.log)
  {
    ExecInv(cfg, t0, events);
    var s := Exec(cfg, Start(t0), events).value;
    forall a | a in s.log ensures a.slot < LastSlot(cfg) + 1 {
      assert EntryOk(cfg, s.lim, s.clock, a);
    }
    assert LastSlot(cfg) >= 0;
    StandingIsLive(s.log, LastSlot(cfg) + 1);
  }

  /** In every run a call is refused exactly when it comes inside the window and the requests still standing use
      up the permits, which changes nothing; it triggers a clear exactly when the window is over, and then the
      window after that clear begins at the time of the call. */
  lemma CallAnswers(cfg: Config, t0: int, events: seq<Event>, now: int)
    requires cfg.Valid() && Exec(cfg, Start(t0), events).Some?
    requires Enabled(Exec(cfg, Start(t0), events).value, Call(now))
    ensures var s := Exec(cfg, Start(t0), events).value;
            var r, o := StepSys(cfg, s, Call(now)), Attempt(cfg, s.lim, now).1;
            && (o.Rejected? <==> now <= s.lim.timestamp + cfg.windowsSize && Standing(s.log) >= cfg.permits)
            && (o.Triggered? <==> now > s.lim.timestamp + cfg.windowsSize)
            && (o.Rejected? ==> r.lim == s.lim && r.log == s.log)
            && (o.Accepted? <==> Standing(r.log) == Standing(s.log) + 1)
            && (o.Triggered? ==> r.log == s.log && Enabled(r, Cleared) && StepSys(cfg, r, Cleared).lim.timestamp == now)
  {
    hide Quo, LastSlot, Config.Distance, CountIn, Get;
    TotalIsStanding(cfg, t0, events);
    var s := Exec(cfg, Start(t0), events).value;
    var a := Accept(now, Quo(now - s.lim.timestamp, cfg.Distance()), false);
    assert (s.log + [a])[..|s.log|] == s.log;
  }

  // ----- exactly which intervals are protected -----

  /** No interval of this length, in any run, holds more than permits accepted requests. */
  ghost predicate Protected(cfg: Config, length: int)
    requires cfg.Valid()
  {
    forall t0, events, x :: Exec(cfg, Start(t0), events).Some? ==>
      CountIn(Exec(cfg, Start(t0), events).value.log, x, length) <= Cap(cfg)
  }

  lemma {:induction false} CountMonotone(log: seq<Accept>, from: int, short: int, long: int)
    requires short <= long
    ensures CountIn(log, from, short) <= CountIn(log, from, long)
  {
    if log != [] {
      CountMonotone(log[..|log| - 1], from, short, long);
    }
  }

  function Copies<T>(x: T, k: nat): seq<T> { seq(k, _ => x) }

  lemma {:induction false} CountCopies(a: Accept, k: nat, from: int, length: int, slots: int)
    requires from <= a.time <= from + length && !a.erased && a.slot < slots
    ensures CountIn(Copies(a, k), from, length) == k == LiveBelow(Copies(a, k), slots)
  {
    if k > 0 {
      assert Copies(a, k)[..k - 1] == Copies(a, k - 1);
      CountCopies(a, k - 1, from, length, slots);
    }
  }

  lemma ExecAppend(cfg: Config, s: Sys, events: seq<Event>, e: Event)
    requires cfg.Valid()
    ensures Exec(cfg, s, events + [e]) ==
            match Exec(cfg, s, events)
            case None => None
            case Some(m) => if Enabled(m, e) then Some(StepSys(cfg, m, e)) else None
  {
    assert (events + [e])[..|events|] == events;
  }

  /** As many calls as there are permits, at one moment of the first window, are all accepted. */
  lemma {:induction false} Burst(cfg: Config, t0: int, offset: int, k: nat)
    requires cfg.Valid() && 0 <= offset <= cfg.windowsSize && k <= Cap(cfg)
    ensures var r := Exec(cfg, Start(t0), Copies(Call(t0 + offset), k));
            && r.Some? && r.value.lim.timestamp == t0 && r.value.lim.clearing.None? && r.value.lim.total == k
            && r.value.clock <= t0 + offset
            && r.value.log == Copies(Accept(t0 + offset, Quo(offset, cfg.Distance()), false), k)
  {
    if k > 0 {
      Burst(cfg, t0, offset, k - 1);
      var e, a := Call(t0 + offset), Accept(t0 + offset, Quo(offset, cfg.Distance()), false);
      assert Copies(e, k) == Copies(e, k - 1) + [e];
      assert Copies(a, k) == Copies(a, k - 1) + [a];
      ExecAppend(cfg, Start(t0), Copies(e, k - 1), e);
    }
  }

  /** The latest moment of a slot, and the earliest clearing that empties it. */
  function Worst(cfg: Config): (int, int)
    requires cfg.Valid()
  {
    var n, d := cfg.subWindows, cfg.Distance();
    if (2 * n - 1) * d > cfg.windowsSize then (n * d - 1, (2 * n - 1) * d)
    else if n == 1 then (cfg.windowsSize - 1, cfg.windowsSize + 1)
    else (0, 2 * n)
  }

  lemma QuoIs(a: int, d: int, q: int)
    requires a >= 0 && d > 0 && q * d <= a < (q + 1) * d
    ensures Quo(a, d) == q
  {
    QuoBounds(a, d);
    if Quo(a, d) < q { MulLe(Quo(a, d) + 1, q, d); }
    if Quo(a, d) > q { MulLe(q + 1, Quo(a, d), d); }
  }

  lemma ModIs(a: int, n: int, q: int, r: int)
    requires 0 <= r < n && a == q * n + r
    ensures a % n == r
  {
    var p := a / n;
    if p < q { MulLe(p + 1, q, n); }
    if p > q { MulLe(q + 1, p, n); }
  }

  lemma LastOffset(n: int, d: int)
    requires n >= 1 && d >= 1
    ensures n * d >= 1 && Quo(n * d - 1, d) == n - 1 && Quo((2 * n - 1) * d, d) % n == n - 1
  {
    MulLe(1, n, d);
    QuoIs(n * d - 1, d, n - 1);
    MulLe(1, 2 * n - 1, d);
    QuoIs((2 * n - 1) * d, d, 2 * n - 1);
    ModIs(2 * n - 1, n, 1, n - 1);
  }

  lemma WorstIsTight(cfg: Config)
    requires cfg.Valid()
    ensures var (offset, diff) := Worst(cfg);
            && 0 <= offset <= cfg.windowsSize < diff && diff - offset == Safe(cfg) + 1
            && Quo(offset, cfg.Distance()) <= Quo(diff, cfg.Distance()) % cfg.subWindows
  {
    var n, d := cfg.subWindows, cfg.Distance();
    if (2 * n - 1) * d > cfg.windowsSize {
      LastOffset(n, d);
      Distribute(n, d);
    } else if n == 1 {
      QuoIs(cfg.windowsSize - 1, d, 0);
    } else {
      OddShape(cfg);
    }
  }

  lemma {:induction false} NothingStands(log: seq<Accept>, k: int)
    requires forall a | a in log :: a.erased
    ensures LiveBelow(log, k) == 0
  {
    if log != [] {
      assert log[|log| - 1] in log;
      NothingStands(log[..|log| - 1], k);
    }
  }

  /** A clearing so late that the burst before it is all emptied leaves nothing counted. */
  lemma BurstCleared(cfg: Config, t0: int, offset: int, diff: int) returns (events: seq<Event>)
    requires cfg.Valid() && 0 <= offset <= cfg.windowsSize < diff
    requires Quo(offset, cfg.Distance()) <= Quo(diff, cfg.Distance()) % cfg.subWindows
    ensures var r := Exec(cfg, Start(t0), events);
            && r.Some? && r.value.lim.timestamp == r.value.clock == t0 + diff
            && r.value.lim.total == 0 && r.value.lim.clearing.None?
            && r.value.log == Mark(Copies(Accept(t0 + offset, Quo(offset, cfg.Distance()), false), Cap(cfg)),
                                   Outdated(cfg, Clearing(diff, Quo(diff, cfg.Distance()))))
  {
    var burst, late, c := Copies(Call(t0 + offset), Cap(cfg)), Call(t0 + diff),
        Clearing(diff, Quo(diff, cfg.Distance()));
    var a, k := Accept(t0 + offset, Quo(offset, cfg.Distance()), false), Outdated(cfg, c);
    Burst(cfg, t0, offset, Cap(cfg));
    hide Quo, Config.Distance, Mark;
    ExecAppend(cfg, Start(t0), burst, late);
    var s := Exec(cfg, Start(t0), burst + [late]).value;
    assert s.log == Copies(a, Cap(cfg)) && s.lim.clearing == Some(c);
    ExecAppend(cfg, Start(t0), burst + [late], Cleared);
    events := burst + [late] + [Cleared];
    ExecInv(cfg, t0, events);
    NothingStands(Mark(Copies(a, Cap(cfg)), k), LastSlot(cfg) + 1);
  }

  /** A run with one accepted request too many in an interval one nanosecond longer than Safe. */
  lemma OneTooMany(cfg: Config, t0: int) returns (events: seq<Event>, x: int)
    requires cfg.Valid() && cfg.permits >= 1
    ensures Exec(cfg, Start(t0), events).Some?
    ensures CountIn(Exec(cfg, Start(t0), events).value.log, x, Safe(cfg) + 1) == cfg.permits + 1
  {
    var (offset, diff) := Worst(cfg);
    WorstIsTight(cfg);
    x := t0 + offset;
    var before := BurstCleared(cfg, t0, offset, diff);
    events := before + [Call(t0 + diff)];
    ExecAppend(cfg, Start(t0), before, Call(t0 + diff));
    var a, k := Accept(x, Quo(offset, cfg.Distance()), false), Outdated(cfg, Clearing(diff, Quo(diff, cfg.Distance())));
    var cleared, log := Exec(cfg, Start(t0), before).value.log, Exec(cfg, Start(t0), events).value.log;
    assert log[..|log| - 1] == cleared;
    CountAfterMark(Copies(a, cfg.permits), k, x, Safe(cfg) + 1);
    CountCopies(a, cfg.permits, x, Safe(cfg) + 1, a.slot + 1);
  }

  /** The limiter protects intervals up to Safe, and no longer ones, whatever the configuration. */
  lemma ProtectedExactly(cfg: Config, length: int)
    requires cfg.Valid() && cfg.permits >= 1
    ensures Protected(cfg, length) <==> length <= Safe(cfg)
    ensures Safe(cfg) >= (cfg.subWindows - 1) * cfg.Distance()
  {
    SafeAtLeast(cfg);
    if length <= Safe(cfg) {
      forall t0, events, x | Exec(cfg, Start(t0), events).Some?
        ensures CountIn(Exec(cfg, Start(t0), events).value.log, x, length) <= Cap(cfg)
      {
        ExecInv(cfg, t0, events);
        CountMonotone(Exec(cfg, Start(t0), events).value.log, x, length, Safe(cfg));
        assert CountIn(Exec(cfg, Start(t0), events).value.log, x, Safe(cfg)) <= Cap(cfg);
      }
    } else {
      var events, x := OneTooMany(cfg, 0);
      CountMonotone(Exec(cfg, Start(0), events).value.log, x, Safe(cfg) + 1, length);
    }
  }

  /** The documented promise, at most permits in any windowsSize nanoseconds, holds exactly for the few
      shapes whose sub-windows are single nanoseconds. The default configuration is not one of them. */
  lemma PromiseExactly(cfg: Config)
    requires cfg.Valid() && cfg.permits >= 1
    ensures var n, w := cfg.subWindows, cfg.windowsSize;
            Protected(cfg, w - 1) <==> w == n || w == 2 * n - 1 || w == 2 * n == 2
  {
    hide Protected, Quo, Config.Distance;
    var n, d, w := cfg.subWindows, cfg.Distance(), cfg.windowsSize;
    ProtectedExactly(cfg, w - 1);
    Distribute(n, d);
    if (2 * n - 1) * d > w {
      if d >= 2 { MulLe(2, d, n); }
    } else if n > 1 {
      OddShape(cfg);
    }
  }

  // ----- counts that are never released -----

  /** A clearing only reaches slots below subWindows, while a request at the very end of the window is
      counted at or above it: what those slots hold. */
  function Leaked(cfg: Config, l: Limiter): int
    requires cfg.Valid()
  {
    l.total - Sum(l.windows, cfg.subWindows)
  }

  lemma {:induction false} SumZeroed(w: Windows, k: nat, n: nat)
    requires k <= n
    ensures Sum(Zeroed(w, k), n) == Sum(w, n) - Sum(w, k)
    ensures Sum(Zeroed(w, k), k) == 0
  {
    if n > 0 {
      GetZeroed(w, k, n - 1);
      if k < n {
        SumZeroed(w, k, n - 1);
      } else {
        AllZeroed(w, k, n);
      }
    }
  }

  lemma {:induction false} AllZeroed(w: Windows, k: nat, n: nat)
    requires n <= k
    ensures Sum(Zeroed(w, k), n) == 0
  {
    if n > 0 {
      GetZeroed(w, k, n - 1);
      AllZeroed(w, k, n - 1);
    }
  }

  lemma ClearKeepsLeaked(cfg: Config, l: Limiter)
    requires cfg.Valid() && l.clearing.Some?
    ensures Leaked(cfg, Clear(cfg, l)) == Leaked(cfg, l)
  {
    FewSlotsCleared(cfg, l.clearing.value);
    SumZeroed(l.windows, Outdated(cfg, l.clearing.value), cfg.subWindows);
  }

  ghost predicate NeverAgain(cfg: Config, s: Sys)
    requires cfg.Valid()
  {
    forall events :: Exec(cfg, s, events).Some? ==> |Exec(cfg, s, events).value.log| == |s.log|
  }

  lemma {:induction false} FullOfLeaks(cfg: Config, s: Sys, events: seq<Event>)
    requires cfg.Valid() && Inv(cfg, s) && Leaked(cfg, s.lim) >= cfg.permits && Exec(cfg, s, events).Some?
    ensures var s' := Exec(cfg, s, events).value;
            Inv(cfg, s') && Leaked(cfg, s'.lim) >= cfg.permits && |s'.log| == |s.log|
  {
    if events != [] {
      var before := events[..|events| - 1];
      FullOfLeaks(cfg, s, before);
      var m := Exec(cfg, s, before).value;
      match events[|events| - 1]
      case Call(now) =>
        CallKeepsInv(cfg, m, now);
        SumIsLive(m.lim.windows, m.log, cfg.subWindows) by {
          forall a | a in m.log ensures a.slot >= 0 {
            assert EntryOk(cfg, m.lim, m.clock, a);
          }
          NothingBelowZero(m.log);
        }
      case Cleared =>
        ClearKeepsInv(cfg, m);
        ClearKeepsLeaked(cfg, m.lim);
    }
  }

  lemma LastOfRound(n: int, q: int)
    requires n >= 1 && q >= 2
    ensures q * n + (n - 1) >= 2 * n && q * n + (n - 1) >= q && (q * n + (n - 1)) % n == n - 1
  {
    MulLe(2, q, n);
    MulLe(1, n, q);
    QuoIs(q * n + (n - 1), n, q);
    var a := q * n + (n - 1);
    assert a == a / n * n + a % n;
  }

  lemma TwoRounds(cfg: Config)
    requires cfg.Valid()
    ensures 2 * cfg.subWindows * cfg.Distance() > cfg.windowsSize
  {
    MulLe(1, cfg.Distance(), cfg.subWindows);
    assert 2 * cfg.subWindows * cfg.Distance() == cfg.subWindows * cfg.Distance() + cfg.subWindows * cfg.Distance();
  }

  lemma SweepTime(cfg: Config, wait: int) returns (diff: int)
    requires cfg.Valid() && wait >= 0
    ensures diff > cfg.windowsSize && diff >= wait && Quo(diff, cfg.Distance()) % cfg.subWindows == cfg.subWindows - 1
  {
    var n, d := cfg.subWindows, cfg.Distance();
    LastOfRound(n, wait + 2);
    var index := (wait + 2) * n + (n - 1);
    diff := index * d;
    TwoRounds(cfg);
    MulLe(1, d, index);
    MulLe(2 * n, index, d);
    QuoIs(diff, d, index);
  }

  /** From a state with no clearing pending: a moment whose clearing empties every slot it can reach. */
  lemma FullSweep(cfg: Config, s: Sys) returns (events: seq<Event>)
    requires cfg.Valid() && Inv(cfg, s) && s.lim.clearing.None? && Leaked(cfg, s.lim) < cfg.permits
    ensures Exec(cfg, s, events).Some? && |Exec(cfg, s, events).value.log| > |s.log|
  {
    var diff := SweepTime(cfg, s.clock - s.lim.timestamp);
    var late := Call(s.lim.timestamp + diff);
    ExecAppend(cfg, s, [], late);
    ExecAppend(cfg, s, [] + [late], Cleared);
    ExecAppend(cfg, s, [] + [late] + [Cleared], late);
    events := [] + [late] + [Cleared] + [late];
  }

  lemma {:induction false} ExecConcat(cfg: Config, s: Sys, first: seq<Event>, rest: seq<Event>)
    requires cfg.Valid() && Exec(cfg, s, first).Some?
    ensures Exec(cfg, s, first + rest) == Exec(cfg, Exec(cfg, s, first).value, rest)
  {
    if rest == [] {
      assert first + rest == first;
    } else {
      var n := |rest| - 1;
      ExecConcat(cfg, s, first, rest[..n]);
      assert (first + rest)[..|first + rest| - 1] == first + rest[..n];
    }
  }

  lemma RoomAfterStep(cfg: Config, s: Sys, e: Event, rest: seq<Event>)
    requires cfg.Valid() && Enabled(s, e) && |StepSys(cfg, s, e).log| == |s.log|
    requires Exec(cfg, StepSys(cfg, s, e), rest).Some? && |Exec(cfg, StepSys(cfg, s, e), rest).value.log| > |s.log|
    ensures !NeverAgain(cfg, s)
  {
    ExecAppend(cfg, s, [], e);
    ExecConcat(cfg, s, [] + [e], rest);
  }

  lemma LeaksLeaveRoom(cfg: Config, s: Sys)
    requires cfg.Valid() && Inv(cfg, s) && Leaked(cfg, s.lim) < cfg.permits
    ensures !NeverAgain(cfg, s)
  {
    if s.lim.clearing.None? {
      var later := FullSweep(cfg, s);
    } else {
      ClearKeepsInv(cfg, s);
      ClearKeepsLeaked(cfg, s.lim);
      var rest := FullSweep(cfg, StepSys(cfg, s, Cleared));
      RoomAfterStep(cfg, s, Cleared, rest);
    }
  }

  /** A limiter refuses every later request for good exactly when the leaked counts use up the permits. */
  lemma LockoutExactly(cfg: Config, t0: int, events: seq<Event>)
    requires cfg.Valid() && Exec(cfg, Start(t0), events).Some?
    ensures var s := Exec(cfg, Start(t0), events).value;
            NeverAgain(cfg, s) <==> Leaked(cfg, s.lim) >= cfg.permits
  {
    var s := Exec(cfg, Start(t0), events).value;
    ExecInv(cfg, t0, events);
    if Leaked(cfg, s.lim) >= cfg.permits {
      forall later | Exec(cfg, s, later).Some? ensures |Exec(cfg, s, later).value.log| == |s.log| {
        FullOfLeaks(cfg, s, later);
      }
    } else {
      LeaksLeaveRoom(cfg, s);
    }
  }

  /** Every configuration can reach that state: permits requests in the last moments of one window. */
  lemma LockoutReachable(cfg: Config, t0: int) returns (events: seq<Event>)
    requires cfg.Valid() && cfg.permits >= 1
    ensures Exec(cfg, Start(t0), events).Some? && NeverAgain(cfg, Exec(cfg, Start(t0), events).value)
  {
    var n, d := cfg.subWindows, cfg.Distance();
    var a := Accept(t0 + n * d, n, false);
    MulLe(0, n, d);
    QuoIs(n * d, d, n);
    Burst(cfg, t0, n * d, cfg.permits);
    events := Copies(Call(t0 + n * d), cfg.permits);
    var s := Exec(cfg, Start(t0), events).value;
    ExecInv(cfg, t0, events);
    NoneBelow(a, cfg.permits, 0);
    NoneBelow(a, cfg.permits, n);
    SumIsLive(s.lim.windows, s.log, n);
    LockoutExactly(cfg, t0, events);
  }

  lemma {:induction false} NoneBelow(a: Accept, k: nat, slots: int)
    requires slots <= a.slot
    ensures LiveBelow(Copies(a, k), slots) == 0
  {
    if k > 0 {
      assert Copies(a, k)[..k - 1] == Copies(a, k - 1);
      NoneBelow(a, k - 1, slots);
    }
  }
}
