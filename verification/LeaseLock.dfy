/** The Redis lease lock of go-lock.go under a clock: machines ask for the key, renew it while they hold
    the lock, and delete it. A command is carried out at some moment between its call and its return,
    which are at most cancelTime apart; renewals succeed, sleeps are exact, and a machine's own steps
    take no time. Other calls may fail, and what they asked for may be carried out at any later time. */
module LeaseLock {

  datatype Option<T> = None | Some(value: T)

  /** Times are in nanoseconds. */
  datatype Config = Config(cancelTime: nat, expiresTime: nat) {
    /** Redis counts the lease in milliseconds. */
    function Lease(): nat { expiresTime / 1_000_000 * 1_000_000 }

    function Pause(): nat { expiresTime / 5 }
  }

  const DEFAULTS := Config(1_000_000_000, 3_000_000_000)

  type Machine = nat

  // ----- the key -----

  datatype Entry = Entry(owner: Machine, expiry: nat)

  type Key = Option<Entry>

  predicate Live(key: Key, now: nat) { key.Some? && now < key.value.expiry }

  /** GET gives this machine's id. */
  predicate Owned(key: Key, now: nat, m: Machine) { Live(key, now) && key.value.owner == m }

  function Acquire(key: Key, now: nat, m: Machine, lease: nat): (Key, bool) {
    if Live(key, now) then (key, false) else (Some(Entry(m, now + lease)), true)
  }

  function Delay(key: Key, now: nat, m: Machine, lease: nat): Key {
    if Owned(key, now, m) then Some(Entry(m, now + lease)) else key
  }

  function Release(key: Key, now: nat, m: Machine): Key {
    if Owned(key, now, m) then None else key
  }

  /** The key as Redis keeps it, under the command and the two scripts of the lock. */
  class Store {
    var key: Key

    constructor ()
      ensures key == None
    {
      key := None;
    }

    method SetNX(now: nat, m: Machine, lease: nat) returns (ok: bool)
      modifies this
      ensures (key, ok) == Acquire(old(key), now, m, lease)
      ensures (ok <==> !Live(old(key), now)) && key == if ok then Some(Entry(m, now + lease)) else old(key)
    {
      ok := !Live(key, now);
      if ok {
        key := Some(Entry(m, now + lease));
      }
    }

    method DelayScript(now: nat, m: Machine, lease: nat) returns (status: int)
      modifies this
      ensures key == Delay(old(key), now, m, lease)
      ensures status == if Owned(old(key), now, m) then 1 else -2
      ensures key == if Owned(old(key), now, m) then Some(Entry(m, now + lease)) else old(key)
    {
      status := -2;
      if Live(key, now) && key.value.owner == m {
        key := Some(key.value.(expiry := now + lease));
        status := 1;
      }
    }

    method ReleaseScript(now: nat, m: Machine)
      modifies this
      ensures key == Release(old(key), now, m)
      ensures !Owned(key, now, m) && (key != old(key) ==> Owned(old(key), now, m))
    {
      if Live(key, now) && key.value.owner == m {
        key := None;
      }
    }
  }

  // ----- the machines -----

  datatype Renewer =
    | Calling(start: nat)    // delay is called, its script not yet carried out
    | Answered(start: nat)   // carried out, delay not yet back
    | Asleep(until: nat)

  datatype Pc =
    | Out
    | Asking(start: nat)     // SetNX is called,
    | Granted(start: nat)    // carried out and not yet back
    | Denied(start: nat)
    | In(renewer: Renewer)       // Lock has returned
    | Leaving(renewer: Renewer)  // UnLock waits for the renewal loop to take delayDone
    | Deleting(start: nat)       // release is called,
    | Deleted(start: nat)        // carried out and not yet back

  /** A command, SetNX or release, whose caller has given up. */
  datatype InFlight = InFlight(m: Machine, release: bool)

  datatype State = State(now: nat, key: Key, machines: map<Machine, Pc>, late: multiset<InFlight>) {
    function At(m: Machine): Pc { if m in machines then machines[m] else Out }

    function With(m: Machine, pc: Pc): State { this.(machines := machines[m := pc]) }

    function Abandon(m: Machine, release: bool): State {
      this.With(m, Out).(late := late + multiset{InFlight(m, release)})
    }
  }

  datatype Step =
    | Pass(time: nat)        // time passes
    | Ask(m: Machine)        // Lock calls TryLock
    | Carry(m: Machine)      // Redis carries out the command in flight
    | Back(m: Machine)       // the call returns
    | Lose(m: Machine)       // the call fails
    | Straggle(m: Machine, release: bool)  // Redis carries out a command after its call has failed
    | Wake(m: Machine)       // the sleep of the renewal loop ends
    | UnLock(m: Machine)     // the holder calls UnLock

  /** Until when a machine may stay where it is. */
  function Deadline(cfg: Config, pc: Pc): Option<nat> {
    match pc
    case Out => None
    case In(r) => Some(RenewerDeadline(cfg, r))
    case Leaving(r) => Some(RenewerDeadline(cfg, r))
    case _ => Some(pc.start + cfg.cancelTime)
  }

  function RenewerDeadline(cfg: Config, r: Renewer): nat {
    match r
    case Asleep(until) => until
    case _ => r.start + cfg.cancelTime
  }

  ghost predicate MayPass(cfg: Config, s: State, time: nat) {
    forall m | m in s.machines && Deadline(cfg, s.machines[m]).Some? ::
        s.now + time <= Deadline(cfg, s.machines[m]).value
  }

  /** Redis carries out the command of a call. With its hash not yet cached a script is sent twice, first as
      text and then by hash, so a delay or a release may be carried out again before it returns. */
  function CarryOut(cfg: Config, s: State, m: Machine): Option<State> {
    match s.At(m)
    case Asking(start) =>
      var (key, ok) := Acquire(s.key, s.now, m, cfg.Lease());
      Some(s.(key := key).With(m, if ok then Granted(start) else Denied(start)))
    case In(r) =>
      if r.Asleep? then None
      else Some(s.(key := Delay(s.key, s.now, m, cfg.Lease())).With(m, In(Answered(r.start))))
    case Leaving(r) =>
      if r.Asleep? then None
      else Some(s.(key := Delay(s.key, s.now, m, cfg.Lease())).With(m, Leaving(Answered(r.start))))
    case Deleting(start) => Some(s.(key := Release(s.key, s.now, m)).With(m, Deleted(start)))
    case Deleted(start) => Some(s.(key := Release(s.key, s.now, m)))
    case _ => None
  }

  function CarryLate(cfg: Config, s: State, m: Machine, release: bool): Option<State> {
    if InFlight(m, release) !in s.late then None
    else
      var key := if release then Release(s.key, s.now, m) else Acquire(s.key, s.now, m, cfg.Lease()).0;
      Some(s.(key := key, late := s.late - multiset{InFlight(m, release)}))
  }

  function ComeBack(cfg: Config, s: State, m: Machine): Option<State> {
    match s.At(m)
    case Granted(_) => Some(s.With(m, In(Asleep(s.now))))
    case Denied(_) => Some(s.With(m, Out))
    case In(Answered(_)) => Some(s.With(m, In(Asleep(s.now + cfg.Pause()))))
    case Leaving(Answered(_)) => Some(s.With(m, Leaving(Asleep(s.now + cfg.Pause()))))
    case Deleted(_) => Some(s.With(m, Out))
    case _ => None
  }

  /** The renewal loop looks for delayDone before each renewal, the first one included. */
  function WakeUp(s: State, m: Machine): Option<State> {
    match s.At(m)
    case In(Asleep(until)) => if s.now == until then Some(s.With(m, In(Calling(s.now)))) else None
    case Leaving(Asleep(until)) => if s.now == until then Some(s.With(m, Deleting(s.now))) else None
    case _ => None
  }

  ghost function Act(cfg: Config, s: State, step: Step): Option<State> {
    match step
    case Pass(time) => if MayPass(cfg, s, time) then Some(s.(now := s.now + time)) else None
    case Ask(m) => if s.At(m).Out? then Some(s.With(m, Asking(s.now))) else None
    case Carry(m) => CarryOut(cfg, s, m)
    case Back(m) => ComeBack(cfg, s, m)
    case Lose(m) =>
      (match s.At(m)
       case Asking(_) => Some(s.Abandon(m, false))
       case Granted(_) => Some(s.With(m, Out))
       case Denied(_) => Some(s.With(m, Out))
       case Deleting(_) => Some(s.Abandon(m, true))
       case Deleted(_) => Some(s.Abandon(m, true))
       case _ => None)
    case Straggle(m, release) => CarryLate(cfg, s, m, release)
    case Wake(m) => WakeUp(s, m)
    case UnLock(m) =>
      (match s.At(m)
       case In(r) => Some(s.With(m, Leaving(r)))
       case _ => None)
  }

  const START := State(0, None, map[], multiset{})

  /** The state after some steps, if all of them can be taken. */
  ghost function Exec(cfg: Config, s: State, steps: seq<Step>): Option<State>
    decreases |steps|
  {
    if steps == [] then Some(s)
    else
      match Act(cfg, s, steps[0])
      case None => None
      case Some(r) => Exec(cfg, r, steps[1..])
  }

  /** No machine asks for the lock while a release of its own may still be carried out. */
  ghost predicate Prudent(cfg: Config, s: State, steps: seq<Step>)
    decreases |steps|
  {
    steps == [] || Act(cfg, s, steps[0]).None? ||
    ((steps[0].Ask? ==> InFlight(steps[0].m, true) !in s.late) && Prudent(cfg, Act(cfg, s, steps[0]).value, steps[1..]))
  }

  // ----- no call outlives its timeout -----

  predicate Started(s: State, pc: Pc) {
    match pc
    case Out => true
    case In(r) => r.Asleep? || r.start <= s.now
    case Leaving(r) => r.Asleep? || r.start <= s.now
    case _ => pc.start <= s.now
  }

  /** What machine m is waiting for has begun and is not overdue. */
  predicate InTime(cfg: Config, s: State, m: Machine) {
    Started(s, s.At(m)) && (Deadline(cfg, s.At(m)).Some? ==> s.now <= Deadline(cfg, s.At(m)).value)
  }

  /** A step of machine m changes no other machine and no clock, and keeps to its time. */
  ghost predicate Timely(cfg: Config, s: State, m: Machine, r: State) {
    r.now == s.now && (r.machines == s.machines || r.machines == s.machines[m := r.At(m)]) && InTime(cfg, r, m)
  }

  lemma CarryIsTimely(cfg: Config, s: State, m: Machine)
    requires InTime(cfg, s, m) && CarryOut(cfg, s, m).Some?
    ensures Timely(cfg, s, m, CarryOut(cfg, s, m).value)
  {
    var r := CarryOut(cfg, s, m).value;
    assert r.machines == s.machines || r.machines == s.machines[m := r.At(m)];
  }

  lemma BackIsTimely(cfg: Config, s: State, m: Machine)
    requires InTime(cfg, s, m) && ComeBack(cfg, s, m).Some?
    ensures Timely(cfg, s, m, ComeBack(cfg, s, m).value)
  {
    var r := ComeBack(cfg, s, m).value;
    assert r.machines == s.machines[m := r.At(m)];
  }

  lemma WakeIsTimely(cfg: Config, s: State, m: Machine)
    requires InTime(cfg, s, m) && WakeUp(s, m).Some?
    ensures Timely(cfg, s, m, WakeUp(s, m).value)
  {
    var r := WakeUp(s, m).value;
    assert r.machines == s.machines[m := r.At(m)];
  }

  lemma PlacedIsTimely(cfg: Config, s: State, m: Machine, pc: Pc, r: State)
    requires r.now == s.now && (r.machines == s.machines[m := pc] || (pc == s.At(m) && r.machines == s.machines))
    requires InTime(cfg, s, m)
    requires pc == Asking(s.now) || pc == Out || pc == s.At(m) || (s.At(m).In? && pc == Leaving(s.At(m).renewer))
    ensures Timely(cfg, s, m, r)
  {
    assert r.At(m) == pc;
  }

  lemma StartIsTimely(cfg: Config, s: State, step: Step)
    requires Act(cfg, s, step).Some? && (step.Ask? || step.Lose? || step.Straggle? || step.UnLock?)
    requires InTime(cfg, s, step.m)
    ensures Timely(cfg, s, step.m, Act(cfg, s, step).value)
  {
    hide Acquire, Release, Timely, InTime, Started, Deadline;
    var m, r := step.m, Act(cfg, s, step).value;
    match step
    case Ask(_) => PlacedIsTimely(cfg, s, m, Asking(s.now), r);
    case Lose(_) => PlacedIsTimely(cfg, s, m, Out, r);
    case UnLock(_) => PlacedIsTimely(cfg, s, m, Leaving(s.At(m).renewer), r);
    case Straggle(_, _) => PlacedIsTimely(cfg, s, m, s.At(m), r);
    case _ =>
  }

  lemma StepIsTimely(cfg: Config, s: State, step: Step)
    requires Act(cfg, s, step).Some? && !step.Pass? && InTime(cfg, s, step.m)
    ensures Timely(cfg, s, step.m, Act(cfg, s, step).value)
  {
    hide CarryOut, ComeBack, WakeUp, Acquire, Release;
    if step.Carry? {
      CarryIsTimely(cfg, s, step.m);
    } else if step.Back? {
      BackIsTimely(cfg, s, step.m);
    } else if step.Wake? {
      WakeIsTimely(cfg, s, step.m);
    } else {
      StartIsTimely(cfg, s, step);
    }
  }

  lemma StepKeepsTime(cfg: Config, s: State, step: Step)
    requires (forall m: Machine :: InTime(cfg, s, m)) && Act(cfg, s, step).Some?
    ensures forall m: Machine :: InTime(cfg, Act(cfg, s, step).value, m)
  {
    var r := Act(cfg, s, step).value;
    if step.Pass? {
      forall m: Machine ensures InTime(cfg, r, m) {
        assert InTime(cfg, s, m);
      }
    } else {
      StepIsTimely(cfg, s, step);
      hide Act;
      forall m: Machine ensures InTime(cfg, r, m) {
        assert InTime(cfg, s, m);
        assert m != step.m ==> r.At(m) == s.At(m);
      }
    }
  }

  lemma {:induction false} RunKeepsTime(cfg: Config, s: State, steps: seq<Step>)
    requires (forall m: Machine :: InTime(cfg, s, m)) && Exec(cfg, s, steps).Some?
    ensures forall m: Machine :: InTime(cfg, Exec(cfg, s, steps).value, m)
    decreases |steps|
  {
    if steps != [] {
      StepKeepsTime(cfg, s, steps[0]);
      RunKeepsTime(cfg, Act(cfg, s, steps[0]).value, steps[1..]);
    }
  }

  /** In every run a call has been under way for at most cancelTime, and a renewal loop does not oversleep. */
  lemma CallsTimeOut(cfg: Config, steps: seq<Step>, s: State, m: Machine)
    requires Exec(cfg, START, steps) == Some(s)
    ensures match s.At(m)
            case Out => true
            case In(Asleep(until)) => s.now <= until
            case Leaving(Asleep(until)) => s.now <= until
            case In(r) => r.start <= s.now <= r.start + cfg.cancelTime
            case Leaving(r) => r.start <= s.now <= r.start + cfg.cancelTime
            case pc => pc.start <= s.now <= pc.start + cfg.cancelTime
  {
    RunKeepsTime(cfg, START, steps);
    assert InTime(cfg, s, m);
  }

  // ----- the lease outlasts what the holder may do -----

  /** The machine owns the key, and the lease runs past the moment the next renewal is carried out. */
  ghost predicate Safe(cfg: Config, s: State, m: Machine) {
    var owns := s.key.Some? && s.key.value.owner == m;
    match s.At(m)
    case Granted(start) => owns && s.key.value.expiry >= start + cfg.Lease()
    case In(r) => owns && Covers(cfg, s.key.value.expiry, r)
    case Leaving(r) => owns && Covers(cfg, s.key.value.expiry, r)
    case _ => true
  }

  predicate Covers(cfg: Config, expiry: nat, r: Renewer) {
    match r
    case Calling(start) => expiry > start + cfg.cancelTime
    case Answered(start) => expiry >= start + cfg.Lease()
    case Asleep(until) => expiry > until + cfg.cancelTime
  }

  /** The time keeping of all machines, and the promises of the holders. */
  ghost predicate Inv(cfg: Config, s: State) {
    forall m: Machine :: InTime(cfg, s, m) && Safe(cfg, s, m) && Settled(s, m)
  }

  /** A machine with a late release in flight is outside. */
  predicate Settled(s: State, m: Machine) { InFlight(m, true) in s.late ==> s.At(m).Out? }

  /** The lease is long enough: two calls and a pause fit into it. */
  predicate Enough(cfg: Config) { 2 * cfg.cancelTime + cfg.Pause() < cfg.Lease() }

  lemma PassKeepsInv(cfg: Config, s: State, time: nat)
    requires Inv(cfg, s) && MayPass(cfg, s, time)
    ensures Inv(cfg, s.(now := s.now + time))
  {
    var r := s.(now := s.now + time);
    forall m: Machine ensures InTime(cfg, r, m) && Safe(cfg, r, m) && Settled(r, m) {
      assert r.At(m) == s.At(m) && InTime(cfg, s, m) && Safe(cfg, s, m) && Settled(s, m);
    }
  }

  /** A step of one machine: what it makes of the key must leave the others safe. */
  ghost predicate Harmless(cfg: Config, s: State, m: Machine, r: State) {
    && Timely(cfg, s, m, r) && Safe(cfg, r, m) && Settled(r, m)
    && (forall n: Machine :: n != m && InFlight(n, true) in r.late ==> InFlight(n, true) in s.late)
    && (r.key == s.key || (Live(s.key, s.now) ==> s.key.value.owner == m))
  }

  lemma HarmlessKeepsInv(cfg: Config, s: State, m: Machine, r: State)
    requires Enough(cfg) && Inv(cfg, s) && Harmless(cfg, s, m, r)
    ensures Inv(cfg, r)
  {
    forall n: Machine ensures InTime(cfg, r, n) && Safe(cfg, r, n) && Settled(r, n) {
      assert InTime(cfg, s, n) && Safe(cfg, s, n) && Settled(s, n);
      if n != m {
        assert r.At(n) == s.At(n);
      }
    }
  }

  lemma CarryIsHarmless(cfg: Config, s: State, m: Machine)
    requires Enough(cfg) && Inv(cfg, s) && CarryOut(cfg, s, m).Some?
    ensures Harmless(cfg, s, m, CarryOut(cfg, s, m).value)
  {
    assert InTime(cfg, s, m) && Safe(cfg, s, m) && Settled(s, m);
    var r := CarryOut(cfg, s, m).value;
    assert r.machines == s.machines[m := r.At(m)];
  }

  lemma LateIsHarmless(cfg: Config, s: State, m: Machine, release: bool)
    requires Enough(cfg) && Inv(cfg, s) && CarryLate(cfg, s, m, release).Some?
    ensures Harmless(cfg, s, m, CarryLate(cfg, s, m, release).value)
  {
    assert InTime(cfg, s, m) && Safe(cfg, s, m) && Settled(s, m);
  }

  lemma StepIsHarmless(cfg: Config, s: State, step: Step)
    requires Enough(cfg) && Inv(cfg, s) && Act(cfg, s, step).Some? && !step.Pass? && !step.Carry? && !step.Straggle?
    requires step.Ask? ==> InFlight(step.m, true) !in s.late
    ensures Harmless(cfg, s, step.m, Act(cfg, s, step).value)
  {
    assert InTime(cfg, s, step.m) && Safe(cfg, s, step.m) && Settled(s, step.m);
    var r := Act(cfg, s, step).value;
    assert r.machines == s.machines[step.m := r.At(step.m)];
  }

  lemma StepKeepsInv(cfg: Config, s: State, step: Step)
    requires Enough(cfg) && Inv(cfg, s) && Act(cfg, s, step).Some?
    requires step.Ask? ==> InFlight(step.m, true) !in s.late
    ensures Inv(cfg, Act(cfg, s, step).value)
  {
    hide Inv, Harmless, CarryOut, CarryLate;
    var r := Act(cfg, s, step).value;
    match step
    case Pass(time) => PassKeepsInv(cfg, s, time);
    case Carry(m) =>
      CarryIsHarmless(cfg, s, m);
      HarmlessKeepsInv(cfg, s, m, r);
    case Straggle(m, release) =>
      LateIsHarmless(cfg, s, m, release);
      HarmlessKeepsInv(cfg, s, m, r);
    case _ =>
      StepIsHarmless(cfg, s, step);
      HarmlessKeepsInv(cfg, s, step.m, r);
  }

  lemma {:induction false} RunInv(cfg: Config, s: State, steps: seq<Step>)
    requires Enough(cfg) && Inv(cfg, s) && Exec(cfg, s, steps).Some? && Prudent(cfg, s, steps)
    ensures Inv(cfg, Exec(cfg, s, steps).value)
    decreases |steps|
  {
    if steps != [] {
      StepKeepsInv(cfg, s, steps[0]);
      RunInv(cfg, Act(cfg, s, steps[0]).value, steps[1..]);
    }
  }

  // ----- what a step may do to the key -----

  /** Whatever a machine does, late commands included, it leaves a live key of another machine alone. */
  lemma OthersKeyStays(cfg: Config, s: State, step: Step)
    requires Act(cfg, s, step).Some? && !step.Pass? && Live(s.key, s.now) && s.key.value.owner != step.m
    ensures Act(cfg, s, step).value.key == s.key
  {
    hide Live;
    if step.Carry? {
      assert CarryOut(cfg, s, step.m).Some?;
    }
  }

  /** A live lease is only ever prolonged by the renewal loop of its owner: not once that has taken
      delayDone, so not after release has been called. */
  lemma ProlongedOnlyByLoop(cfg: Config, s: State, step: Step)
    requires Act(cfg, s, step).Some? && Live(s.key, s.now)
    requires Act(cfg, s, step).value.key.Some? && Act(cfg, s, step).value.key.value.expiry > s.key.value.expiry
    ensures step.Carry? && s.key.value.owner == step.m && (s.At(step.m).In? || s.At(step.m).Leaving?)
  {
    if step.Carry? {
      assert CarryOut(cfg, s, step.m).Some?;
    }
  }

  // ----- mutual exclusion -----

  /** Lock has returned, and UnLock has not been called. */
  predicate Holds(s: State, m: Machine) { s.At(m).In? }

  ghost predicate AtMostOneHolder(s: State) {
    forall m: Machine, n: Machine | Holds(s, m) && Holds(s, n) :: m == n
  }

  /** In every prudent run the key of the holder is its own and has not lapsed. */
  lemma HolderKeepsKey(cfg: Config, steps: seq<Step>, m: Machine)
    requires Enough(cfg) && Exec(cfg, START, steps).Some? && Prudent(cfg, START, steps)
    requires Holds(Exec(cfg, START, steps).value, m)
    ensures var s := Exec(cfg, START, steps).value; Owned(s.key, s.now, m)
  {
    RunInv(cfg, START, steps);
    var s := Exec(cfg, START, steps).value;
    assert InTime(cfg, s, m) && Safe(cfg, s, m);
  }

  /** No run, or no prudent run, has two holders. */
  ghost predicate Exclusive(cfg: Config, prudent: bool) {
    forall steps: seq<Step> | Exec(cfg, START, steps).Some? && (prudent ==> Prudent(cfg, START, steps)) ::
      AtMostOneHolder(Exec(cfg, START, steps).value)
  }

  lemma {:induction false} ExecAppend(cfg: Config, s: State, steps: seq<Step>, more: seq<Step>)
    requires Exec(cfg, s, steps).Some?
    ensures Exec(cfg, s, steps + more) == Exec(cfg, Exec(cfg, s, steps).value, more)
    decreases |steps|
  {
    if steps == [] {
      assert steps + more == more;
    } else {
      assert (steps + more)[1..] == steps[1..] + more;
      ExecAppend(cfg, Act(cfg, s, steps[0]).value, steps[1..], more);
    }
  }

  lemma Extend(cfg: Config, steps: seq<Step>, s: State, step: Step) returns (steps': seq<Step>, s': State)
    requires Exec(cfg, START, steps) == Some(s) && Act(cfg, s, step).Some?
    ensures steps' == steps + [step] && s' == Act(cfg, s, step).value && Exec(cfg, START, steps') == Some(s')
  {
    steps', s' := steps + [step], Act(cfg, s, step).value;
    ExecAppend(cfg, START, steps, [step]);
    assert [step][1..] == [];
  }

  ghost predicate NoneLost(steps: seq<Step>) {
    forall step | step in steps :: !step.Lose?
  }

  /** Machine m gets the free lock at once. */
  lemma TakeLock(cfg: Config, steps: seq<Step>, s: State, m: Machine) returns (steps': seq<Step>, s': State)
    requires Exec(cfg, START, steps) == Some(s) && s.At(m).Out? && !Live(s.key, s.now)
    ensures Exec(cfg, START, steps') == Some(s') && steps' == steps + [Ask(m)] + [Carry(m)] + [Back(m)]
    ensures steps <= steps' && (NoneLost(steps) ==> NoneLost(steps'))
    ensures s' == s.(key := Some(Entry(m, s.now + cfg.Lease()))).With(m, In(Asleep(s.now)))
  {
    steps', s' := Extend(cfg, steps, s, Ask(m));
    steps', s' := Extend(cfg, steps', s', Carry(m));
    steps', s' := Extend(cfg, steps', s', Back(m));
    assert s'.machines == s.machines[m := In(Asleep(s.now))];
  }

  /** A machine that asks while the key is live is turned away, and changes nothing. */
  lemma TurnedAway(cfg: Config, steps: seq<Step>, s: State, m: Machine) returns (steps': seq<Step>, s': State)
    requires Exec(cfg, START, steps) == Some(s) && s.At(m).Out? && Live(s.key, s.now)
    ensures steps' == steps + [Ask(m)] + [Carry(m)] + [Back(m)] && Exec(cfg, START, steps') == Some(s')
    ensures s' == s.With(m, Out)
  {
    steps', s' := Extend(cfg, steps, s, Ask(m));
    steps', s' := Extend(cfg, steps', s', Carry(m));
    steps', s' := Extend(cfg, steps', s', Back(m));
    assert s'.machines == s.machines[m := Out];
  }

  /** A renewal that is carried out while its machine holds the lock, or waits for it to take delayDone, sets the
      lease to the whole milliseconds of expiresTime from that moment on, and is followed by a pause of a fifth
      of expiresTime. */
  lemma RenewalIsExact(cfg: Config, steps: seq<Step>, m: Machine, s: State)
    requires Enough(cfg) && Prudent(cfg, START, steps) && Exec(cfg, START, steps) == Some(s)
    requires (s.At(m).In? || s.At(m).Leaving?) && !s.At(m).renewer.Asleep?
    ensures Act(cfg, s, Carry(m)).Some?
    ensures var r := Act(cfg, s, Carry(m)).value;
            && r.key == Some(Entry(m, s.now + (cfg.expiresTime - cfg.expiresTime % 1_000_000)))
            && r == s.(key := r.key, machines := r.machines) && r.At(m).renewer == Answered(s.At(m).renewer.start)
            && Act(cfg, r, Back(m)) == Some(r.With(m, s.At(m).(renewer := Asleep(s.now + cfg.expiresTime / 5))))
  {
    RunInv(cfg, START, steps);
    assert InTime(cfg, s, m) && Safe(cfg, s, m);
    var r := Act(cfg, s, Carry(m)).value;
    assert r.machines == s.machines[m := r.At(m)];
    assert r.machines[m := Out][m := s.At(m)] == s.machines;
  }

  /** In every run a release that is carried out leaves its machine without the key, and other machines theirs. */
  lemma ReleaseFrees(cfg: Config, steps: seq<Step>, m: Machine, s: State)
    requires Exec(cfg, START, steps) == Some(s) && (s.At(m).Deleting? || s.At(m).Deleted?)
    ensures Act(cfg, s, Carry(m)).Some?
    ensures var r := Act(cfg, s, Carry(m)).value;
            && !Owned(r.key, r.now, m) && r.At(m) == Deleted(s.At(m).start)
            && forall n | n != m && Owned(s.key, s.now, n) :: r.key == s.key
  {}

  /** UnLock, once the renewal loop takes delayDone, frees the key with its release carried out once. */
  lemma UnlockFrees(cfg: Config, steps: seq<Step>, s: State, m: Machine) returns (steps': seq<Step>, s': State)
    requires Exec(cfg, START, steps) == Some(s) && s.At(m) == In(Asleep(s.now))
    requires Live(s.key, s.now) ==> s.key.value.owner == m
    ensures steps' == steps + [UnLock(m)] + [Wake(m)] + [Carry(m)] + [Back(m)] && Exec(cfg, START, steps') == Some(s')
    ensures !Live(s'.key, s'.now) && s' == s.(key := s'.key, machines := s.machines[m := Out])
  {
    steps', s' := Extend(cfg, steps, s, UnLock(m));
    steps', s' := Extend(cfg, steps', s', Wake(m));
    ReleaseFrees(cfg, steps', m, s');
    steps', s' := Extend(cfg, steps', s', Carry(m));
    steps', s' := Extend(cfg, steps', s', Back(m));
    assert s'.machines == s.machines[m := Out];
  }

  /** UnLock hands over: from every reachable state in which the holder's renewal loop looks for delayDone, its
      UnLock, with the release carried out once, and the Lock of an idle machine make that machine the holder. */
  lemma UnlockHandsOver(cfg: Config, steps: seq<Step>, s: State, m: Machine, n: Machine)
    returns (steps': seq<Step>, s': State)
    requires Exec(cfg, START, steps) == Some(s) && s.At(m) == In(Asleep(s.now)) && s.At(n).Out?
    requires Live(s.key, s.now) ==> s.key.value.owner == m
    ensures steps' == steps + [UnLock(m)] + [Wake(m)] + [Carry(m)] + [Back(m)] + [Ask(n)] + [Carry(n)] + [Back(n)]
    ensures Exec(cfg, START, steps') == Some(s') && Holds(s', n) && !Holds(s', m)
    ensures s'.key == Some(Entry(n, s.now + (cfg.expiresTime - cfg.expiresTime % 1_000_000)))
  {
    steps', s' := UnlockFrees(cfg, steps, s, m);
    steps', s' := TakeLock(cfg, steps', s', n);
  }

  /** A call that fails leaves its machine outside and the key as it is; a command that Redis had not carried out by
      then can still take the key, or free it, for a machine that will never know. */
  lemma FailedCalls(cfg: Config, s: State, m: Machine)
    ensures s.At(m).Granted? || s.At(m).Denied? ==> Act(cfg, s, Lose(m)) == Some(s.With(m, Out))
    ensures s.At(m).Asking? ==> Act(cfg, s, Lose(m)) == Some(s.Abandon(m, false))
    ensures s.At(m).Deleting? || s.At(m).Deleted? ==> Act(cfg, s, Lose(m)) == Some(s.Abandon(m, true))
    ensures Act(cfg, s.Abandon(m, false), Straggle(m, false)) ==
            Some(s.(key := if Live(s.key, s.now) then s.key else Some(Entry(m, s.now + cfg.Lease()))).With(m, Out))
    ensures Act(cfg, s.Abandon(m, true), Straggle(m, true)) ==
            Some(s.(key := if Owned(s.key, s.now, m) then None else s.key).With(m, Out))
  {
    assert s.late + multiset{InFlight(m, false)} - multiset{InFlight(m, false)} == s.late;
    assert s.late + multiset{InFlight(m, true)} - multiset{InFlight(m, true)} == s.late;
  }

  /** A Lock that fails with its command in flight can keep all machines out: nobody holds the lock, and a machine
      that asks within the lease is turned away. */
  lemma OrphanedLock(cfg: Config, m: Machine, n: Machine) returns (steps: seq<Step>, s: State)
    requires m != n && cfg.Lease() > 0
    ensures steps == [Ask(m), Lose(m), Straggle(m, false), Ask(n), Carry(n), Back(n)]
    ensures Exec(cfg, START, steps) == Some(s) && s.At(m).Out? && s.At(n).Out? && Owned(s.key, s.now, m)
  {
    steps, s := [], START;
    steps, s := Extend(cfg, steps, s, Ask(m));
    FailedCalls(cfg, s, m);
    var lost := s;
    steps, s := Extend(cfg, steps, s, Lose(m));
    steps, s := Extend(cfg, steps, s, Straggle(m, false));
    steps, s := TurnedAway(cfg, steps, s, n);
  }

  /** A state in which machine 0 is alone, at this program counter. */
  ghost predicate Alone(s: State, now: nat, key: Key, pc: Pc) {
    s.now == now && s.key == key && s.At(0) == pc && s.machines.Keys == {0}
  }

  /** Machine 0 has the lock, and its first renewal has been carried out at once. */
  lemma FirstRenewal(cfg: Config) returns (steps: seq<Step>, s: State)
    ensures Exec(cfg, START, steps) == Some(s) && NoneLost(steps)
    ensures Alone(s, 0, Some(Entry(0, cfg.Lease())), In(Answered(0)))
  {
    steps, s := TakeLock(cfg, [], START, 0);
    steps, s := Extend(cfg, steps, s, Wake(0));
    steps, s := Extend(cfg, steps, s, Carry(0));
  }

  lemma PassAlone(cfg: Config, steps: seq<Step>, s: State, time: nat, r: Renewer) returns (steps': seq<Step>, s': State)
    requires Exec(cfg, START, steps) == Some(s) && NoneLost(steps)
    requires Alone(s, s.now, s.key, In(r)) && s.now + time <= RenewerDeadline(cfg, r)
    ensures Exec(cfg, START, steps') == Some(s') && NoneLost(steps') && Alone(s', s.now + time, s.key, In(r))
  {
    assert MayPass(cfg, s, time);
    steps', s' := Extend(cfg, steps, s, Pass(time));
  }

  /** The lease runs out while machine 0 still holds the lock. */
  lemma Lapse(cfg: Config) returns (steps: seq<Step>, s: State, r: Renewer)
    requires !Enough(cfg)
    ensures Exec(cfg, START, steps) == Some(s) && NoneLost(steps)
    ensures Alone(s, cfg.Lease(), Some(Entry(0, cfg.Lease())), In(r))
  {
    hide Exec, CarryOut, CarryLate;
    var c, pause, lease := cfg.cancelTime, cfg.Pause(), cfg.Lease();
    steps, s := FirstRenewal(cfg);
    r := Answered(0);
    if c < lease {
      steps, s := PassAlone(cfg, steps, s, c, r);
      steps, s := Extend(cfg, steps, s, Back(0));
      r := Asleep(c + pause);
    }
    if c + pause < lease {
      steps, s := PassAlone(cfg, steps, s, pause, r);
      steps, s := Extend(cfg, steps, s, Wake(0));
      r := Calling(c + pause);
    }
    steps, s := PassAlone(cfg, steps, s, lease - s.now, r);
  }

  /** Then another machine gets the lock as well. */
  lemma TwoHolders(cfg: Config) returns (steps: seq<Step>)
    requires !Enough(cfg)
    ensures Exec(cfg, START, steps).Some? && !AtMostOneHolder(Exec(cfg, START, steps).value)
    ensures Prudent(cfg, START, steps)
  {
    var s, r;
    steps, s, r := Lapse(cfg);
    steps, s := TakeLock(cfg, steps, s, 1);
    assert Holds(s, 0) && Holds(s, 1);
    NothingLate(cfg, START, steps);
  }

  /** Without a failed call nothing is in flight. */
  lemma {:induction false} NothingLate(cfg: Config, s: State, steps: seq<Step>)
    requires s.late == multiset{} && NoneLost(steps)
    ensures Prudent(cfg, s, steps)
    decreases |steps|
  {
    if steps != [] && Act(cfg, s, steps[0]).Some? {
      assert !steps[0].Lose?;
      NothingLate(cfg, Act(cfg, s, steps[0]).value, steps[1..]);
    }
  }

  /** A holder whose own late release is carried out has lost its key, however long the lease: whoever asks
      next holds the lock as well. */
  lemma LateReleaseBreaks(cfg: Config, steps: seq<Step>, m: Machine, n: Machine) returns (steps': seq<Step>)
    requires Exec(cfg, START, steps).Some?
    requires var s := Exec(cfg, START, steps).value;
             && Holds(s, m) && InFlight(m, true) in s.late && (Live(s.key, s.now) ==> s.key.value.owner == m)
             && s.At(n).Out?
    ensures steps <= steps'
    ensures Exec(cfg, START, steps').Some? && !AtMostOneHolder(Exec(cfg, START, steps').value)
  {
    var s := Exec(cfg, START, steps).value;
    steps', s := Extend(cfg, steps, s, Straggle(m, true));
    steps', s := TakeLock(cfg, steps', s, n);
    assert Holds(s, m) && Holds(s, n);
  }

  /** Machine 0 locks and unlocks, loses the answer to its release, and has the lock again while that release,
      sent a second time, is still in flight. */
  lemma LateReleaseReached(cfg: Config) returns (steps: seq<Step>, s: State)
    ensures Exec(cfg, START, steps) == Some(s) && Alone(s, 0, Some(Entry(0, cfg.Lease())), In(Asleep(0)))
    ensures InFlight(0, true) in s.late
  {
    steps, s := TakeLock(cfg, [], START, 0);
    steps, s := Extend(cfg, steps, s, UnLock(0));
    steps, s := Extend(cfg, steps, s, Wake(0));
    steps, s := Extend(cfg, steps, s, Carry(0));
    steps, s := Extend(cfg, steps, s, Lose(0));
    steps, s := TakeLock(cfg, steps, s, 0);
  }

  /** Two machines never both hold the lock, in any run of any number of machines, exactly when two calls and
      a pause fit into the lease and no machine asks again while a release of its own is in flight. */
  lemma ExclusiveExactly(cfg: Config, prudent: bool)
    ensures Exclusive(cfg, prudent) <==>
            prudent && 2 * cfg.cancelTime + cfg.expiresTime / 5 < cfg.expiresTime - cfg.expiresTime % 1_000_000
  {
    if !Enough(cfg) {
      var steps := TwoHolders(cfg);
    } else if !prudent {
      var steps, s := LateReleaseReached(cfg);
      steps := LateReleaseBreaks(cfg, steps, 0, 1);
    } else {
      forall steps | Exec(cfg, START, steps).Some? && Prudent(cfg, START, steps)
        ensures AtMostOneHolder(Exec(cfg, START, steps).value)
      {
        var s := Exec(cfg, START, steps).value;
        forall m: Machine, n: Machine | Holds(s, m) && Holds(s, n) ensures m == n {
          HolderKeepsKey(cfg, steps, m);
          HolderKeepsKey(cfg, steps, n);
        }
      }
    }
  }

  /** The defaults are safe, in prudent runs. */
  lemma DefaultsAreExclusive()
    ensures Exclusive(DEFAULTS, true)
  {
    ExclusiveExactly(DEFAULTS, true);
  }
}
