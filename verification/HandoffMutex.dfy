/** The hand-off mutex of sync/mutex.go as an interleaving of atomic steps.

    Any number of goroutines run Lock, TryLock and Unlock. Every load, compare-and-swap and add on
    the state word and every semaphore call is one step of its own, so a goroutine may hold a stale
    copy of the word between two steps. */
module HandoffMutex {
  import opened Goroutines

  // ----- the packed word -----

  /** The fields an int32 word packs: three mode bits, and the number of waiters above them. */
  datatype Word = Word(locked: bool, woken: bool, starving: bool, waiters: int)

  const MUTEX_LOCKED := 1
  const MUTEX_WOKEN := 2
  const MUTEX_STARVING := 4
  const WAITER := 8
  const UNUSED := Word(false, false, false, 0)

  function Bit(b: bool): int { if b then 1 else 0 }

  function Encode(w: Word): int {
    Bit(w.locked) * MUTEX_LOCKED + Bit(w.woken) * MUTEX_WOKEN + Bit(w.starving) * MUTEX_STARVING + w.waiters * WAITER
  }

  /** Halving is the arithmetic shift and % 2 the lowest bit, for negative words too. */
  function Decode(s: int): Word {
    Word(s % 2 == 1, s / 2 % 2 == 1, s / 2 / 2 % 2 == 1, s / 2 / 2 / 2)
  }

  /** atomic.AddInt32 on the packed word: a plain addition, which may borrow across fields. */
  function Add(w: Word, delta: int): Word {
    Decode(Int32(Encode(w) + delta))
  }

  lemma DecodeEncode(w: Word)
    ensures Decode(Encode(w)) == w
  {
    var s := Encode(w);
    assert s == 2 * (Bit(w.woken) + 2 * (Bit(w.starving) + 2 * w.waiters)) + Bit(w.locked);
    assert s / 2 == Bit(w.woken) + 2 * (Bit(w.starving) + 2 * w.waiters);
    assert s / 2 / 2 == Bit(w.starving) + 2 * w.waiters;
  }

  lemma EncodeDecode(s: int)
    ensures Encode(Decode(s)) == s
  {}

  lemma ZeroIsUnused(w: Word)
    ensures Encode(w) == 0 <==> w == UNUSED
  {
    DecodeEncode(w);
  }

  /** An addition that stays inside int32 and inside its fields is an update of the fields. */
  lemma AddIs(w: Word, delta: int, w': Word)
    requires Encode(w') == Encode(w) + delta
    requires -0x8000_0000 <= Encode(w') < 0x8000_0000
    ensures Add(w, delta) == w'
  {
    DecodeEncode(w');
  }

  /** Counting one more waiter leaves the mode bits alone, even when the count wraps around. */
  lemma AddWaiterKeepsBits(w: Word)
    ensures Add(w, WAITER) == w.(waiters := Add(w, WAITER).waiters)
  {
    var x := Encode(w) + WAITER;
    var k := (x + 0x8000_0000) / 0x1_0000_0000;
    var w' := w.(waiters := w.waiters + 1 - 0x2000_0000 * k);
    assert Int32(x) == Encode(w');
    DecodeEncode(w');
  }

  // ----- goroutines -----

  /** Where a goroutine stands, with the locals of lockSlow and unlockSlow that are live there. */
  datatype Pc =
    | Idle
    | TryCas(seen: Word)                                  // TryLock has loaded the word
    | Reload(awoke: bool, starving: bool)               // about to load the word
    | Loop(seen: Word, awoke: bool, starving: bool)       // top of the lockSlow loop
    | Asleep(starving: bool)                            // blocked in SemacquireMutex
    | Awake(starving: bool)                             // past it, about to load the word
    | Handoff(delta: int)                               // about to add delta
    | Holding
    | UnlockLoop(seen: Word)
    | UnlockReload
    | Releasing(handoff: bool)                          // about to Semrelease
    | Thrown

  /** The value lockSlow wants to install over the word, before the woken bit is dropped. */
  function Wanted(seen: Word, starving: bool): Word {
    var a := if seen.starving then seen else seen.(locked := true);
    var b := if seen.locked || seen.starving then Add(a, WAITER) else a;
    if starving && seen.locked then b.(starving := true) else b
  }

  /** An unlocker that holds this copy of the word will try to wake a waiter. */
  predicate WantsWake(seen: Word) {
    seen.waiters != 0 && !seen.locked && !seen.woken && !seen.starving
  }

  /** What one step does to the shared word and semaphore and to the goroutine taking it. */
  datatype Effect = Blocked | Does(word: Word, sema: nat, pc: Pc)

  /** Lock tries the fast path; TryLock looks at the word. */
  function Enter(w: Word, sema: nat, lock: bool): Effect {
    if lock then
      if w == UNUSED then Does(w.(locked := true), sema, Holding) else Does(w, sema, Reload(false, false))
    else
      Does(w, sema, if w.locked || w.starving then Idle else TryCas(w))
  }

  function TrySwap(w: Word, sema: nat, seen: Word): Effect {
    if w == seen then Does(seen.(locked := true), sema, Holding) else Does(w, sema, Idle)
  }

  function Spin(w: Word, sema: nat, seen: Word, awoke: bool, starving: bool): Effect {
    if !awoke && !seen.woken && seen.waiters != 0 && w == seen then
      Does(seen.(woken := true), sema, Reload(true, starving))
    else
      Does(w, sema, Reload(awoke, starving))
  }

  /** The swap lockSlow attempts when it does not spin: take the lock, or register as a waiter. */
  function Swap(w: Word, sema: nat, seen: Word, awoke: bool, starving: bool): Effect {
    var wanted := Wanted(seen, starving);
    if awoke && !wanted.woken then
      Does(w, sema, Thrown)
    else if w == seen then
      Does(if awoke then wanted.(woken := false) else wanted, sema,
           if seen.locked || seen.starving then Asleep(starving) else Holding)
    else
      Does(w, sema, Reload(awoke, starving))
  }

  function AfterWake(w: Word, sema: nat, starving: bool): Effect {
    if w.starving then
      if w.locked || w.woken || w.waiters == 0 then
        Does(w, sema, Thrown)
      else
        var delta := MUTEX_LOCKED - WAITER;
        Does(w, sema, Handoff(if !starving || w.waiters == 1 then delta - MUTEX_STARVING else delta))
    else
      Does(w, sema, Loop(w, true, starving))
  }

  function Unlock(w: Word, sema: nat): Effect {
    var left := Add(w, -MUTEX_LOCKED);
    if left == UNUSED then Does(left, sema, Idle)
    else if !Add(left, MUTEX_LOCKED).locked then Does(left, sema, Thrown)
    else if left.starving then Does(left, sema, Releasing(true))
    else Does(left, sema, UnlockLoop(left))
  }

  function UnlockSlow(w: Word, sema: nat, seen: Word): Effect {
    if !WantsWake(seen) then Does(w, sema, Idle)
    else if w == seen then Does(Add(seen, -WAITER).(woken := true), sema, Releasing(false))
    else Does(w, sema, UnlockReload)
  }

  /** One atomic step of a goroutine. `c` resolves what the model leaves open: whether an idle
      goroutine calls Lock or TryLock, whether spinning is allowed, and whether the wait was long
      enough to starve. */
  function Act(pc: Pc, w: Word, sema: nat, c: bool): Effect {
    match pc
    case Idle => Enter(w, sema, c)
    case TryCas(seen) => TrySwap(w, sema, seen)
    case Reload(awoke, starving) => Does(w, sema, Loop(w, awoke, starving))
    case Loop(seen, awoke, starving) =>
      if c && seen.locked && !seen.starving then Spin(w, sema, seen, awoke, starving)
      else Swap(w, sema, seen, awoke, starving)
    case Asleep(starving) => if sema == 0 then Blocked else Does(w, sema - 1, Awake(starving || c))
    case Awake(starving) => AfterWake(w, sema, starving)
    case Handoff(delta) => Does(Add(w, delta), sema, Holding)
    case Holding => Unlock(w, sema)
    case UnlockLoop(seen) => UnlockSlow(w, sema, seen)
    case UnlockReload => Does(w, sema, UnlockLoop(w))
    case Releasing(_) => Does(w, sema + 1, Idle)
    case Thrown => Blocked
  }

  datatype State = State(word: Word, sema: nat, procs: map<Tid, Pc>)

  /** Goroutine t takes a step. */
  predicate Step(s: State, s': State, t: Tid, c: bool) {
    && t in s.procs
    && var e := Act(s.procs[t], s.word, s.sema, c);
       e.Does? && s' == State(e.word, e.sema, s.procs[t := e.pc])
  }

  ghost predicate Next(s: State, s': State) {
    exists t, c :: Step(s, s', t, c)
  }

  /** The most the waiter count can hold: 28 bits below the sign. */
  const MAX_WAITERS := 0x0FFF_FFFF

  ghost predicate Init(s: State) {
    s.word == UNUSED && s.sema == 0 && |s.procs| < MAX_WAITERS && forall t | t in s.procs :: s.procs[t] == Idle
  }

  ghost predicate Run(r: seq<State>) {
    |r| > 0 && Init(r[0]) && forall i | 0 <= i < |r| - 1 :: Next(r[i], r[i + 1])
  }

  // ----- counting goroutines by role -----

  /** The part a goroutine plays in the protocol; every goroutine plays exactly one. */
  datatype Role =
    | Holder
    | Sleeper       // registered in the waiter count, blocked on the semaphore
    | Waking        // has taken a token, has not looked at the word yet
    | Successor     // starvation mode: will take the lock and end the mode
    | Keeper        // starvation mode: will take the lock and keep the mode
    | WokenOwner    // in the lockSlow loop, owning the woken bit
    | Notifier      // normal mode: has called a waiter, token not posted yet
    | HandingOff    // starvation mode: token not posted yet
    | Committed     // unlocking, will look for a waiter to wake
    | Broken
    | Bystander

  function RoleOf(pc: Pc): Role {
    match pc
    case Holding => Holder
    case Asleep(_) => Sleeper
    case Awake(_) => Waking
    case Handoff(delta) => if delta == MUTEX_LOCKED - WAITER then Keeper else Successor
    case Loop(_, awoke, _) => if awoke then WokenOwner else Bystander
    case Reload(awoke, _) => if awoke then WokenOwner else Bystander
    case Releasing(handoff) => if handoff then HandingOff else Notifier
    case UnlockLoop(seen) => if WantsWake(seen) then Committed else Bystander
    case UnlockReload => Committed
    case Thrown => Broken
    case Idle => Bystander
    case TryCas(_) => Bystander
  }

  /** How many goroutines play each part. */
  datatype Tally = Tally(holder: nat, sleeper: nat, waking: nat, successor: nat, keeper: nat, wokenOwner: nat,
                         notifier: nat, handingOff: nat, committed: nat, broken: nat)

  function TallyOf(procs: map<Tid, Pc>): Tally {
    Tally(Cnt(procs, RoleOf, Holder), Cnt(procs, RoleOf, Sleeper), Cnt(procs, RoleOf, Waking),
          Cnt(procs, RoleOf, Successor), Cnt(procs, RoleOf, Keeper), Cnt(procs, RoleOf, WokenOwner),
          Cnt(procs, RoleOf, Notifier), Cnt(procs, RoleOf, HandingOff), Cnt(procs, RoleOf, Committed),
          Cnt(procs, RoleOf, Broken))
  }

  function Plus(m: Tally, r: Role): Tally {
    match r
    case Holder => m.(holder := m.holder + 1)
    case Sleeper => m.(sleeper := m.sleeper + 1)
    case Waking => m.(waking := m.waking + 1)
    case Successor => m.(successor := m.successor + 1)
    case Keeper => m.(keeper := m.keeper + 1)
    case WokenOwner => m.(wokenOwner := m.wokenOwner + 1)
    case Notifier => m.(notifier := m.notifier + 1)
    case HandingOff => m.(handingOff := m.handingOff + 1)
    case Committed => m.(committed := m.committed + 1)
    case Broken => m.(broken := m.broken + 1)
    case Bystander => m
  }

  /** The tally is that of the other goroutines plus the role of t. */
  lemma TallySplit(procs: map<Tid, Pc>, t: Tid)
    requires t in procs
    ensures TallyOf(procs) == Plus(TallyOf(procs - {t}), RoleOf(procs[t]))
  {
    hide Cnt, InRole;
    CntSplit(procs, RoleOf, t, Holder);
    CntSplit(procs, RoleOf, t, Sleeper);
    CntSplit(procs, RoleOf, t, Waking);
    CntSplit(procs, RoleOf, t, Successor);
    CntSplit(procs, RoleOf, t, Keeper);
    CntSplit(procs, RoleOf, t, WokenOwner);
    CntSplit(procs, RoleOf, t, Notifier);
    CntSplit(procs, RoleOf, t, HandingOff);
    CntSplit(procs, RoleOf, t, Committed);
    CntSplit(procs, RoleOf, t, Broken);
  }

  // ----- the invariant -----

  /** What a goroutine may rely on about its own, possibly stale, copy of the word. */
  predicate LocalOk(pc: Pc) {
    match pc
    case TryCas(seen) => !seen.locked && !seen.starving
    case Reload(awoke, starving) => starving ==> awoke
    case Loop(seen, awoke, starving) => (starving ==> awoke) && (awoke ==> seen.woken && !seen.starving)
    case Handoff(delta) => delta == -7 || delta == -11
    case _ => true
  }

  /** Normal mode: the woken bit has one owner, and every sleeper is counted or already called. */
  predicate NormalMode(w: Word, sema: nat, m: Tally) {
    && One(w.woken) == m.wokenOwner + m.notifier + sema + m.waking
    && m.handingOff == m.successor == m.keeper == 0
    && w.waiters == m.sleeper - m.notifier - sema
  }

  /** Starvation mode: nobody owns the woken bit, and a free lock is on its way to one waiter. */
  predicate StarvationMode(w: Word, sema: nat, m: Tally) {
    && !w.woken
    && m.wokenOwner == m.notifier == 0
    && m.handingOff + sema + m.waking + m.successor + m.keeper == One(!w.locked)
    && w.waiters == m.sleeper + m.waking + m.successor + m.keeper
    && w.waiters >= 1 + m.keeper
  }

  predicate Sound(w: Word, sema: nat, m: Tally) {
    && w.waiters >= 0
    && m.broken == 0
    && m.holder == One(w.locked)
    && (if w.starving then StarvationMode(w, sema, m) else NormalMode(w, sema, m))
    && (!w.locked && !w.woken && !w.starving && w.waiters > 0 ==> m.committed > 0)
  }

  ghost predicate Inv(s: State) {
    && |s.procs| < MAX_WAITERS
    && Sound(s.word, s.sema, TallyOf(s.procs))
    && forall t | t in s.procs :: LocalOk(s.procs[t])
  }

  /** The waiter count is at most the number of goroutines, so the word never leaves 31 bits. */
  lemma WordBound(s: State)
    requires Inv(s)
    ensures 0 <= s.word.waiters <= |s.procs|
    ensures 0 <= Encode(s.word) < 0x8000_0000
  {
    CntBound(s.procs, RoleOf, Sleeper, Waking, Successor, Keeper);
  }

  // ----- every step keeps the invariant -----

  /** With `rest` the tally of the other goroutines: effect e of a goroutine at pc keeps the invariant. */
  ghost predicate KeepsSound(pc: Pc, w: Word, sema: nat, rest: Tally, e: Effect) {
    Sound(w, sema, Plus(rest, RoleOf(pc))) && LocalOk(pc) && w.waiters < MAX_WAITERS && e.Does?
    ==> Sound(e.word, e.sema, Plus(rest, RoleOf(e.pc))) && LocalOk(e.pc)
  }

  lemma EnterKeepsSound(w: Word, sema: nat, c: bool, rest: Tally)
    ensures KeepsSound(Idle, w, sema, rest, Enter(w, sema, c))
  {}

  lemma TryCasKeepsSound(w: Word, sema: nat, seen: Word, rest: Tally)
    ensures KeepsSound(TryCas(seen), w, sema, rest, TrySwap(w, sema, seen))
  {}

  lemma ReloadKeepsSound(w: Word, sema: nat, awoke: bool, starving: bool, rest: Tally)
    ensures KeepsSound(Reload(awoke, starving), w, sema, rest, Does(w, sema, Loop(w, awoke, starving)))
  {}

  lemma WakeKeepsSound(w: Word, sema: nat, starving: bool, starving': bool, rest: Tally)
    ensures sema > 0 ==> KeepsSound(Asleep(starving), w, sema, rest, Does(w, sema - 1, Awake(starving')))
    ensures KeepsSound(Awake(starving), w, sema, rest, AfterWake(w, sema, starving))
  {}

  lemma SpinKeepsSound(w: Word, sema: nat, seen: Word, awoke: bool, starving: bool, rest: Tally)
    requires seen.locked && !seen.starving
    ensures KeepsSound(Loop(seen, awoke, starving), w, sema, rest, Spin(w, sema, seen, awoke, starving))
  {}

  lemma WantedFields(w: Word, starving: bool)
    requires 0 <= w.waiters < MAX_WAITERS
    ensures Wanted(w, starving) == Word(w.locked || !w.starving, w.woken, w.starving || (starving && w.locked),
                                        w.waiters + One(w.locked || w.starving))
  {
    var kept := if w.starving then w else w.(locked := true);
    AddIs(kept, WAITER, kept.(waiters := w.waiters + 1));
  }

  lemma SwapKeepsSound(w: Word, sema: nat, seen: Word, awoke: bool, starving: bool, rest: Tally)
    ensures KeepsSound(Loop(seen, awoke, starving), w, sema, rest, Swap(w, sema, seen, awoke, starving))
  {
    if seen == w && 0 <= w.waiters < MAX_WAITERS {
      WantedFields(w, starving);
    }
    AddWaiterKeepsBits(seen.(locked := true));
  }

  lemma HandoffKeepsSound(w: Word, sema: nat, delta: int, rest: Tally)
    ensures KeepsSound(Handoff(delta), w, sema, rest, Does(Add(w, delta), sema, Holding))
  {
    if (delta == -7 || delta == -11) && w.starving && !w.locked && 1 <= w.waiters < MAX_WAITERS {
      AddIs(w, delta, w.(locked := true, starving := delta == -7, waiters := w.waiters - 1));
    }
  }

  lemma UnlockKeepsSound(w: Word, sema: nat, rest: Tally)
    ensures KeepsSound(Holding, w, sema, rest, Unlock(w, sema))
  {
    if w.locked && 0 <= w.waiters < MAX_WAITERS {
      AddIs(w, -MUTEX_LOCKED, w.(locked := false));
      AddIs(w.(locked := false), MUTEX_LOCKED, w);
    }
  }

  lemma UnlockSlowKeepsSound(w: Word, sema: nat, seen: Word, rest: Tally)
    ensures KeepsSound(UnlockLoop(seen), w, sema, rest, UnlockSlow(w, sema, seen))
  {
    if 1 <= w.waiters < MAX_WAITERS {
      AddIs(w, -WAITER, w.(waiters := w.waiters - 1));
    }
  }

  lemma UnlockReloadKeepsSound(w: Word, sema: nat, rest: Tally)
    ensures KeepsSound(UnlockReload, w, sema, rest, Does(w, sema, UnlockLoop(w)))
  {}

  lemma ReleaseKeepsSound(w: Word, sema: nat, handoff: bool, rest: Tally)
    ensures KeepsSound(Releasing(handoff), w, sema, rest, Does(w, sema + 1, Idle))
  {}

  lemma ActKeepsSound(pc: Pc, w: Word, sema: nat, c: bool, rest: Tally)
    ensures KeepsSound(pc, w, sema, rest, Act(pc, w, sema, c))
  {
    match pc
    case Idle => EnterKeepsSound(w, sema, c, rest);
    case TryCas(seen) => TryCasKeepsSound(w, sema, seen, rest);
    case Reload(awoke, starving) => ReloadKeepsSound(w, sema, awoke, starving, rest);
    case Loop(seen, awoke, starving) =>
      if seen.locked && !seen.starving {
        SpinKeepsSound(w, sema, seen, awoke, starving, rest);
      }
      SwapKeepsSound(w, sema, seen, awoke, starving, rest);
    case Asleep(starving) => WakeKeepsSound(w, sema, starving, starving || c, rest);
    case Awake(starving) => WakeKeepsSound(w, sema, starving, c, rest);
    case Handoff(delta) => HandoffKeepsSound(w, sema, delta, rest);
    case Holding => UnlockKeepsSound(w, sema, rest);
    case UnlockLoop(seen) => UnlockSlowKeepsSound(w, sema, seen, rest);
    case UnlockReload => UnlockReloadKeepsSound(w, sema, rest);
    case Releasing(handoff) => ReleaseKeepsSound(w, sema, handoff, rest);
    case Thrown =>
  }

  lemma EffectKeepsInv(s: State, t: Tid, e: Effect)
    requires Inv(s) && t in s.procs && e.Does?
    requires KeepsSound(s.procs[t], s.word, s.sema, TallyOf(s.procs - {t}), e)
    ensures Inv(State(e.word, e.sema, s.procs[t := e.pc]))
  {
    var after := s.procs[t := e.pc];
    WordBound(s);
    TallySplit(s.procs, t);
    TallySplit(after, t);
    assert after - {t} == s.procs - {t};
    assert after.Keys == s.procs.Keys;
  }

  lemma StepKeepsInv(s: State, s': State, t: Tid, c: bool)
    requires Inv(s) && Step(s, s', t, c)
    ensures Inv(s')
  {
    ActKeepsSound(s.procs[t], s.word, s.sema, c, TallyOf(s.procs - {t}));
    EffectKeepsInv(s, t, Act(s.procs[t], s.word, s.sema, c));
  }

  // ----- what holds in every reachable state -----

  lemma IdleTally(procs: map<Tid, Pc>)
    requires forall t | t in procs :: procs[t] == Idle
    ensures TallyOf(procs) == Tally(0, 0, 0, 0, 0, 0, 0, 0, 0, 0)
  {
    NoneIn(procs, RoleOf, Holder);
    NoneIn(procs, RoleOf, Sleeper);
    NoneIn(procs, RoleOf, Waking);
    NoneIn(procs, RoleOf, Successor);
    NoneIn(procs, RoleOf, Keeper);
    NoneIn(procs, RoleOf, WokenOwner);
    NoneIn(procs, RoleOf, Notifier);
    NoneIn(procs, RoleOf, HandingOff);
    NoneIn(procs, RoleOf, Committed);
    NoneIn(procs, RoleOf, Broken);
  }

  lemma SoundAtRest()
    ensures Sound(UNUSED, 0, Tally(0, 0, 0, 0, 0, 0, 0, 0, 0, 0))
  {}

  lemma InitInv(s: State)
    requires Init(s)
    ensures Inv(s)
  {
    hide TallyOf, Sound;
    IdleTally(s.procs);
    SoundAtRest();
  }

  lemma {:induction false} RunInv(r: seq<State>, i: nat)
    requires Run(r) && i < |r|
    ensures Inv(r[i])
  {
    if i == 0 {
      InitInv(r[0]);
    } else {
      RunInv(r, i - 1);
      assert Next(r[i - 1], r[i]);
      var t, c :| Step(r[i - 1], r[i], t, c);
      StepKeepsInv(r[i - 1], r[i], t, c);
    }
  }

  ghost predicate Held(s: State) {
    exists t :: t in s.procs && s.procs[t].Holding?
  }

  /** At most one goroutine is past acquisition and not yet released, and one is exactly when the
      locked bit is set. */
  lemma MutualExclusion(r: seq<State>, i: nat, t: Tid, u: Tid)
    requires Run(r) && i < |r| && t in r[i].procs && u in r[i].procs
    ensures r[i].procs[t].Holding? && r[i].procs[u].Holding? ==> t == u
    ensures r[i].word.locked <==> Held(r[i])
  {
    RunInv(r, i);
    var s := r[i];
    if s.procs[t].Holding? && s.procs[u].Holding? {
      AloneIn(s.procs, RoleOf, t, u);
    }
    if s.word.locked {
      var v := SomeoneIn(s.procs, RoleOf, Holder);
    }
    if v :| v in s.procs && s.procs[v].Holding? {
      CntSplit(s.procs, RoleOf, v, Holder);
    }
  }

  /** None of the three throws is ever reached, and the word stays a non-negative int32. */
  lemma NeverThrows(r: seq<State>, i: nat, t: Tid)
    requires Run(r) && i < |r| && t in r[i].procs
    ensures !r[i].procs[t].Thrown?
    ensures 0 <= Encode(r[i].word) < 0x8000_0000
  {
    RunInv(r, i);
    WordBound(r[i]);
    CntSplit(r[i].procs, RoleOf, t, Broken);
  }

  /** The waiter field counts the sleepers that no wake-up is on its way to; a starving hand-off
      leaves its waiter counted until it takes the lock. */
  lemma WaitersExact(r: seq<State>, i: nat)
    requires Run(r) && i < |r|
    ensures var s, m := r[i], TallyOf(r[i].procs);
            s.word.waiters == if s.word.starving then m.sleeper + m.waking + m.successor + m.keeper
                              else m.sleeper - m.notifier - s.sema
    ensures r[i].sema <= Cnt(r[i].procs, RoleOf, Sleeper) && r[i].sema <= 1
  {
    RunInv(r, i);
  }

  /** While the mode is starvation, only a waiter that was handed the lock can take it. */
  lemma StarvingSuccession(r: seq<State>, i: nat, t: Tid, c: bool)
    requires Run(r) && i + 1 < |r| && Step(r[i], r[i + 1], t, c)
    requires r[i].word.starving && r[i + 1].procs[t].Holding?
    ensures r[i].procs[t].Handoff? && !r[i].word.locked && !r[i].word.woken && r[i].word.waiters >= 1
  {
    RunInv(r, i);
    var pc := r[i].procs[t];
    assert LocalOk(pc);
    CntSplit(r[i].procs, RoleOf, t, RoleOf(pc));
  }

  // ----- what the calls do to the word -----

  /** In every run the step from r[i] is one of goroutine t. */
  ghost predicate StepOf(r: seq<State>, i: nat, t: Tid, c: bool) {
    Run(r) && i + 1 < |r| && Step(r[i], r[i + 1], t, c)
  }

  /** Goroutine t does not step between its steps from r[i] and from r[j]. */
  ghost predicate Meanwhile(r: seq<State>, i: nat, j: nat, t: Tid) {
    i < j < |r| && t in r[i + 1].procs && forall k | i < k <= j :: t in r[k].procs && r[k].procs[t] == r[i + 1].procs[t]
  }

  /** Only a goroutine asleep without a token cannot step; any other can, whichever way its choice falls. */
  lemma StuckOnlyAsleep(r: seq<State>, i: nat, t: Tid, c: bool)
    requires Run(r) && i < |r| && t in r[i].procs
    ensures (exists s' :: Step(r[i], s', t, c)) <==> !(r[i].procs[t].Asleep? && r[i].sema == 0)
  {
    NeverThrows(r, i, t);
    var s, e := r[i], Act(r[i].procs[t], r[i].word, r[i].sema, c);
    if e.Does? {
      assert Step(s, State(e.word, e.sema, s.procs[t := e.pc]), t, c);
    }
  }

  /** Lock takes the lock at once exactly when the packed word is zero. */
  lemma LockAtOnce(r: seq<State>, i: nat, t: Tid)
    requires StepOf(r, i, t, true) && r[i].procs[t].Idle?
    ensures r[i + 1].procs[t].Holding? <==> Encode(r[i].word) == 0
    ensures !r[i + 1].procs[t].Holding? ==> r[i + 1] == r[i].(procs := r[i].procs[t := Reload(false, false)])
  {
    ZeroIsUnused(r[i].word);
  }

  /** TryLock gives up at its look exactly when the lock has a holder or the mode is starvation. */
  lemma TryLockLooks(r: seq<State>, i: nat, t: Tid)
    requires StepOf(r, i, t, false) && r[i].procs[t].Idle?
    ensures r[i + 1].procs[t].Idle? <==> Held(r[i]) || r[i].word.starving
    ensures r[i + 1].word == r[i].word && r[i + 1].sema == r[i].sema
    ensures !r[i + 1].procs[t].Idle? ==> r[i + 1].procs[t] == TryCas(r[i].word)
  {
    MutualExclusion(r, i, t, t);
  }

  /** When it goes on, it returns true exactly if the word is what it was at the look. */
  lemma TryLockReturns(r: seq<State>, i: nat, j: nat, t: Tid, c: bool)
    requires StepOf(r, i, t, false) && r[i].procs[t].Idle? && !r[i + 1].procs[t].Idle?
    requires Meanwhile(r, i, j, t) && StepOf(r, j, t, c)
    ensures r[j + 1].procs[t] == if r[j].word == r[i].word then Holding else Idle
    ensures r[j + 1].word.locked <==> Held(r[j]) || r[j + 1].procs[t].Holding?
  {
    TryLockLooks(r, i, t);
    MutualExclusion(r, j, t, t);
    MutualExclusion(r, j + 1, t, t);
  }

  /** A waiter on its way back from the semaphore knows that its wait was long, from this wait or an earlier. */
  lemma WaitIsRemembered(r: seq<State>, i: nat, t: Tid, long: bool)
    requires StepOf(r, i, t, long) && r[i].procs[t].Asleep?
    ensures r[i + 1] == State(r[i].word, r[i].sema - 1, r[i].procs[t := Awake(r[i].procs[t].starving || long)])
  {}

  /** In starvation mode a woken waiter is handed the lock, and decides on the word it finds: the mode goes on
      exactly if its own wait was long and other waiters remain. Otherwise it competes, owning the woken bit. */
  lemma WokenWaiterDecides(r: seq<State>, i: nat, t: Tid, c: bool)
    requires StepOf(r, i, t, c) && r[i].procs[t].Awake?
    ensures r[i + 1].word == r[i].word && r[i + 1].sema == r[i].sema
    ensures var w, starving := r[i].word, r[i].procs[t].starving;
            if w.starving then
              && r[i + 1].procs[t].Handoff?
              && Encode(w) + r[i + 1].procs[t].delta
                 == Encode(w.(locked := true, starving := starving && w.waiters > 1, waiters := w.waiters - 1))
            else r[i + 1].procs[t] == Loop(w, true, starving)
  {
    RunInv(r, i);
    CntSplit(r[i].procs, RoleOf, t, Waking);
  }

  /** Whatever waiters have registered since it decided, it then takes the lock, uncounts itself and leaves or
      keeps the mode as decided. */
  lemma HandoffEndsStarvation(r: seq<State>, i: nat, j: nat, t: Tid, c: bool, c': bool)
    requires StepOf(r, i, t, c) && r[i].procs[t].Awake? && r[i].word.starving
    requires Meanwhile(r, i, j, t) && StepOf(r, j, t, c')
    ensures var w := r[j].word;
            r[j + 1].word == w.(locked := true, starving := r[i].procs[t].starving && r[i].word.waiters > 1,
                                waiters := w.waiters - 1)
    ensures r[j + 1].procs[t].Holding? && !Held(r[j])
  {
    WokenWaiterDecides(r, i, t, c);
    HandoffTakes(r, j, t, c');
    assert r[j].procs[t].delta == if r[i].procs[t].starving && r[i].word.waiters > 1 then -7 else -11;
  }

  lemma HandoffTakes(r: seq<State>, i: nat, t: Tid, c: bool)
    requires StepOf(r, i, t, c) && r[i].procs[t].Handoff?
    ensures var w, delta := r[i].word, r[i].procs[t].delta;
            (delta == -7 || delta == -11) && w.starving
            && r[i + 1] == State(w.(locked := true, starving := delta == -7, waiters := w.waiters - 1), r[i].sema,
                                 r[i].procs[t := Holding])
    ensures !Held(r[i])
  {
    RunInv(r, i);
    WordBound(r[i]);
    MutualExclusion(r, i, t, t);
    var w, delta := r[i].word, r[i].procs[t].delta;
    assert LocalOk(r[i].procs[t]);
    CntSplit(r[i].procs, RoleOf, t, RoleOf(r[i].procs[t]));
    AddIs(w, delta, w.(locked := true, starving := delta == -7, waiters := w.waiters - 1));
  }

  /** A goroutine in the lockSlow loop whose copy of the word is current, and that does not spin, takes the lock
      if it is free and the mode is normal, and otherwise is counted as a waiter; it makes the mode starvation
      exactly if its wait was long and the lock is held, and gives back the woken bit if it owns it. */
  lemma LoopSwaps(r: seq<State>, i: nat, t: Tid, c: bool)
    requires StepOf(r, i, t, c) && r[i].procs[t].Loop? && r[i].procs[t].seen == r[i].word
    requires c ==> !Held(r[i]) || r[i].word.starving
    ensures var w, pc := r[i].word, r[i].procs[t];
            var free := !Held(r[i]) && !w.starving;
            r[i + 1] == State(Word(w.locked || free, w.woken && !pc.awoke, w.starving || (pc.starving && Held(r[i])),
                                   if free then w.waiters else w.waiters + 1),
                              r[i].sema, r[i].procs[t := if free then Holding else Asleep(pc.starving)])
  {
    RunInv(r, i);
    WordBound(r[i]);
    MutualExclusion(r, i, t, t);
    assert LocalOk(r[i].procs[t]);
    WantedFields(r[i].word, r[i].procs[t].starving);
  }

  /** With a stale copy it changes nothing and looks again. */
  lemma LoopLooksAgain(r: seq<State>, i: nat, t: Tid, c: bool)
    requires StepOf(r, i, t, c)
    requires r[i].procs[t].Reload? || (r[i].procs[t].Loop? && r[i].procs[t].seen != r[i].word)
    ensures var pc := r[i].procs[t];
            r[i + 1] == r[i].(procs := r[i].procs[t := if pc.Loop? then Reload(pc.awoke, pc.starving)
                                                       else Loop(r[i].word, pc.awoke, pc.starving)])
  {
    RunInv(r, i);
    assert LocalOk(r[i].procs[t]);
    if r[i].procs[t].Loop? {
      AddWaiterKeepsBits(r[i].procs[t].seen.(locked := true));
    }
  }

  /** Spinning takes the woken bit, and becomes its owner, exactly when there are waiters to keep asleep and
      nobody owns it. */
  lemma LoopSpins(r: seq<State>, i: nat, t: Tid)
    requires StepOf(r, i, t, true) && r[i].procs[t].Loop? && r[i].procs[t].seen == r[i].word
    requires Held(r[i]) && !r[i].word.starving
    ensures var w, pc := r[i].word, r[i].procs[t];
            var takes := !pc.awoke && !w.woken && w.waiters > 0;
            r[i + 1] == r[i].(word := w.(woken := w.woken || takes),
                              procs := r[i].procs[t := Reload(pc.awoke || takes, pc.starving)])
  {
    RunInv(r, i);
    MutualExclusion(r, i, t, t);
  }

  /** Unlock clears the locked bit and nothing else, and is done exactly if nothing else is set; in starvation
      mode it hands the lock to a waiter. */
  lemma UnlockFrees(r: seq<State>, i: nat, t: Tid, c: bool)
    requires StepOf(r, i, t, c) && r[i].procs[t].Holding?
    ensures var w := r[i].word.(locked := false);
            r[i + 1] == State(w, r[i].sema, r[i].procs[t := if Encode(w) == 0 then Idle
                                                           else if w.starving then Releasing(true) else UnlockLoop(w)])
    ensures r[i].word.locked
  {
    hide Add, Cnt, InRole, LocalOk;
    RunInv(r, i);
    WordBound(r[i]);
    MutualExclusion(r, i, t, t);
    var w := r[i].word;
    AddIs(w, -MUTEX_LOCKED, w.(locked := false));
    AddIs(w.(locked := false), MUTEX_LOCKED, w);
    ZeroIsUnused(w.(locked := false));
  }

  /** An unlocker wakes a waiter, uncounted and owning the woken bit, exactly when there is one and the lock is
      still free with nobody woken; with a stale copy of such a word it looks again. */
  lemma UnlockWakes(r: seq<State>, i: nat, t: Tid, c: bool)
    requires StepOf(r, i, t, c) && r[i].procs[t].UnlockLoop?
    ensures var w, seen := r[i].word, r[i].procs[t].seen;
            var wants := seen.waiters != 0 && !seen.locked && !seen.woken && !seen.starving;
            r[i + 1] == State(if wants && seen == w then w.(woken := true, waiters := w.waiters - 1) else w, r[i].sema,
                              r[i].procs[t := if !wants then Idle
                                              else if seen == w then Releasing(false) else UnlockReload])
  {
    RunInv(r, i);
    WordBound(r[i]);
    var w := r[i].word;
    if w.waiters > 0 {
      AddIs(w, -WAITER, w.(waiters := w.waiters - 1));
    }
  }

  /** Every wake-up and every hand-off posts one token. */
  lemma ReleasePosts(r: seq<State>, i: nat, t: Tid, c: bool)
    requires StepOf(r, i, t, c) && (r[i].procs[t].Releasing? || r[i].procs[t].UnlockReload?)
    ensures r[i + 1] == if r[i].procs[t].Releasing? then State(r[i].word, r[i].sema + 1, r[i].procs[t := Idle])
                        else r[i].(procs := r[i].procs[t := UnlockLoop(r[i].word)])
  {}

  /** The mode becomes starvation exactly when a waiter whose wait was long goes back to sleep on a held lock,
      and ends exactly when a waiter that decided so takes the lock. */
  lemma StarvationBeginsAndEnds(r: seq<State>, i: nat, t: Tid, c: bool)
    requires StepOf(r, i, t, c)
    ensures var pc, pc' := r[i].procs[t], r[i + 1].procs[t];
            && (!r[i].word.starving ==>
                  (r[i + 1].word.starving <==> Held(r[i]) && pc.Loop? && pc.starving && pc'.Asleep?))
            && (r[i].word.starving ==> (!r[i + 1].word.starving <==> pc.Handoff? && pc.delta == -11))
  {
    MutualExclusion(r, i, t, t);
    match r[i].procs[t]
    case Loop(seen, awoke, starving) =>
      if seen != r[i].word {
        LoopLooksAgain(r, i, t, c);
      } else if c && Held(r[i]) && !r[i].word.starving {
        LoopSpins(r, i, t);
      } else {
        LoopSwaps(r, i, t, c);
      }
    case Handoff(_) => HandoffTakes(r, i, t, c);
    case Holding => UnlockFrees(r, i, t, c);
    case UnlockLoop(_) => UnlockWakes(r, i, t, c);
    case Awake(_) => WokenWaiterDecides(r, i, t, c);
    case _ =>
  }

  // ----- no lost wake-up -----

  /** Goroutine t is on its way to wake a sleeper or to take the free lock itself. */
  predicate OnDuty(s: State, t: Tid)
    requires t in s.procs
  {
    match s.procs[t]
    case UnlockLoop(seen) => WantsWake(seen) && WantsWake(s.word)
    case UnlockReload => WantsWake(s.word)
    case Asleep(_) => s.sema > 0
    case pc => RoleOf(pc) in {Waking, Successor, Keeper, WokenOwner, Notifier, HandingOff}
  }

  /** With the lock free and a goroutine asleep, some goroutine is on duty. */
  lemma DutyExists(s: State) returns (t: Tid)
    requires Inv(s) && !s.word.locked && Cnt(s.procs, RoleOf, Sleeper) > 0
    ensures t in s.procs && OnDuty(s, t)
  {
    var m := TallyOf(s.procs);
    if s.sema > 0 {
      t := SomeoneIn(s.procs, RoleOf, Sleeper);
    } else if m.waking > 0 {
      t := SomeoneIn(s.procs, RoleOf, Waking);
    } else if m.successor > 0 {
      t := SomeoneIn(s.procs, RoleOf, Successor);
    } else if m.keeper > 0 {
      t := SomeoneIn(s.procs, RoleOf, Keeper);
    } else if m.wokenOwner > 0 {
      t := SomeoneIn(s.procs, RoleOf, WokenOwner);
    } else if m.notifier > 0 {
      t := SomeoneIn(s.procs, RoleOf, Notifier);
    } else if m.handingOff > 0 {
      t := SomeoneIn(s.procs, RoleOf, HandingOff);
    } else {
      t := SomeoneIn(s.procs, RoleOf, Committed);
    }
  }

  /** A step of a goroutine that is already inside a call. */
  ghost predicate Busy(s: State, s': State) {
    exists t, c :: Step(s, s', t, c) && !s.procs[t].Idle?
  }

  ghost predicate CanStep(s: State) {
    exists s' :: Busy(s, s')
  }

  /** Inside Lock, past its fast path. */
  predicate Waits(pc: Pc) {
    pc.Reload? || pc.Loop? || pc.Asleep? || pc.Awake? || pc.Handoff?
  }

  /** What a goroutine can still do before the lock has a holder: k for each change it may make to the word,
      and the steps it takes between two changes. */
  function Weight(pc: Pc, w: Word, k: nat): nat {
    match pc
    case UnlockLoop(seen) => k + k + if seen == w then 7 else 9
    case UnlockReload => k + k + 8
    case Releasing(_) => k + 6
    case Awake(_) => k + 4
    case Loop(seen, _, _) => k + if seen == w then 1 else 3
    case Reload(_, _) => k + 2
    case Handoff(_) => k + 1
    case TryCas(_) => 1
    case _ => 0
  }

  function Weigher(w: Word, k: nat): Pc -> nat { pc => Weight(pc, w, k) }

  /** A change of the word gives a goroutine two more steps at most. */
  lemma WeightVaries(pc: Pc, w: Word, w': Word, k: nat)
    ensures Weight(pc, w', k) <= Weight(pc, w, k) + 2 && Weight(pc, w, k) <= 2 * k + 9
  {}

  function Factor(n: nat): nat { 2 * n + 10 }

  ghost function Measure(s: State): nat {
    var k := Factor(|s.procs|);
    Sum(s.procs, Weigher(s.word, k)) + s.sema * (k + 5)
  }

  /** How many steps the goroutines inside can take at most before the lock has a holder. */
  function Bound(n: nat): nat { n * (2 * Factor(n) + 9) + Factor(n) + 5 }

  lemma ActLightens(pc: Pc, w: Word, sema: nat, c: bool, k: nat, n: nat)
    requires !w.locked && !pc.Idle? && !pc.Holding? && k > 2 * n
    requires Act(pc, w, sema, c).Does? && !Act(pc, w, sema, c).pc.Holding?
    ensures var e := Act(pc, w, sema, c);
            Weight(e.pc, e.word, k) + e.sema * (k + 5) + (if e.word == w then 0 else 2 * n)
            < Weight(pc, w, k) + sema * (k + 5)
  {
    hide Add, Wanted;
    var e := Act(pc, w, sema, c);
    assert sema * (k + 5) + (k + 5) == (sema + 1) * (k + 5);
    assert sema > 0 ==> (sema - 1) * (k + 5) + (k + 5) == sema * (k + 5);
  }

  lemma OthersVary(others: map<Tid, Pc>, w: Word, w': Word, k: nat)
    ensures Sum(others, Weigher(w', k)) <= Sum(others, Weigher(w, k)) + if w' == w then 0 else 2 * |others|
  {
    hide Weight;
    forall u | u in others ensures Weigher(w', k)(others[u]) <= Weigher(w, k)(others[u]) + 2 {
      WeightVaries(others[u], w, w', k);
    }
    SumVaries(others, Weigher(w, k), Weigher(w', k), 2);
  }

  lemma StepLightens(s: State, s': State, t: Tid, c: bool)
    requires Step(s, s', t, c) && !s.word.locked
    requires !s.procs[t].Idle? && !s.procs[t].Holding? && !s'.procs[t].Holding?
    ensures |s'.procs| == |s.procs| && Measure(s') < Measure(s)
  {
    hide Act, Weight, Add, Sum;
    var k, others := Factor(|s.procs|), s.procs - {t};
    assert s'.procs - {t} == others && s'.procs.Keys == s.procs.Keys;
    assert |s'.procs| == |s'.procs.Keys| == |s.procs.Keys| == |s.procs| && others.Keys == s.procs.Keys - {t};
    assert |others| <= |s.procs|;
    ActLightens(s.procs[t], s.word, s.sema, c, k, |s.procs|);
    SumSplit(s.procs, Weigher(s.word, k), t);
    SumSplit(s'.procs, Weigher(s'.word, k), t);
    OthersVary(others, s.word, s'.word, k);
  }

  lemma BusyLightens(s: State, s': State)
    requires Inv(s) && Busy(s, s') && !Held(s) && !Held(s')
    ensures Inv(s') && |s'.procs| == |s.procs| && Measure(s') < Measure(s)
    ensures forall t | t in s.procs && Waits(s.procs[t]) :: t in s'.procs && Waits(s'.procs[t])
  {
    hide Inv, Act, Measure;
    var t, c :| Step(s, s', t, c) && !s.procs[t].Idle?;
    StepKeepsInv(s, s', t, c);
    FreeUnlessHeld(s);
    StepLightens(s, s', t, c);
    NotThrown(s', t);
    if Waits(s.procs[t]) {
      StillWaits(s.procs[t], s.word, s.sema, c);
    }
  }

  lemma NotThrown(s: State, t: Tid)
    requires Inv(s) && t in s.procs
    ensures !s.procs[t].Thrown?
  {
    CntSplit(s.procs, RoleOf, t, Broken);
  }

  lemma StillWaits(pc: Pc, w: Word, sema: nat, c: bool)
    requires Waits(pc) && Act(pc, w, sema, c).Does?
    ensures var pc' := Act(pc, w, sema, c).pc; Waits(pc') || pc'.Holding? || pc'.Thrown?
  {}

  lemma FreeUnlessHeld(s: State)
    requires Inv(s) && !Held(s)
    ensures !s.word.locked
  {
    if s.word.locked {
      var t := SomeoneIn(s.procs, RoleOf, Holder);
    }
  }

  /** While a goroutine waits and the lock has no holder, some goroutine inside can step. */
  lemma SomeoneSteps(s: State, t: Tid)
    requires Inv(s) && !Held(s) && t in s.procs && Waits(s.procs[t])
    ensures CanStep(s)
  {
    FreeUnlessHeld(s);
    var u := t;
    if s.procs[t].Asleep? {
      CntSplit(s.procs, RoleOf, t, Sleeper);
      u := DutyExists(s);
    }
    var e := Act(s.procs[u], s.word, s.sema, false);
    var s' := State(e.word, e.sema, s.procs[u := e.pc]);
    assert Step(s, s', u, false) && !s.procs[u].Idle?;
    assert Busy(s, s');
  }

  /** From s on only goroutines already inside take steps, and the lock never has a holder. */
  ghost predicate HolderlessPath(path: seq<State>, s: State) {
    && |path| > 0 && path[0] == s
    && (forall j | 0 <= j < |path| - 1 :: Busy(path[j], path[j + 1]))
    && (forall j | 0 <= j < |path| :: !Held(path[j]))
  }

  lemma {:induction false} PathLightens(path: seq<State>, s: State, t: Tid)
    requires Inv(s) && HolderlessPath(path, s) && t in s.procs && Waits(s.procs[t])
    ensures var last := path[|path| - 1];
            Inv(last) && Measure(last) + |path| - 1 <= Measure(s) && t in last.procs && Waits(last.procs[t])
    decreases |path|
  {
    hide Inv, Busy, Measure, Waits, Held;
    if |path| > 1 {
      BusyLightens(path[0], path[1]);
      PathLightens(path[1..], path[1], t);
    }
  }

  lemma MeasureBound(s: State)
    requires Inv(s)
    ensures Measure(s) <= Bound(|s.procs|)
  {
    hide Weight;
    var k := Factor(|s.procs|);
    forall t | t in s.procs ensures Weigher(s.word, k)(s.procs[t]) <= 2 * k + 9 {
      WeightVaries(s.procs[t], s.word, s.word, k);
    }
    SumBound(s.procs, Weigher(s.word, k), 2 * k + 9);
    assert s.sema <= 1;
    assert s.sema == 0 || s.sema * (k + 5) == k + 5;
  }

  /** No wake-up is lost: in every reachable state with a goroutine waiting and no holder, the goroutines
      inside bring the lock to a holder by themselves, in whatever order they step: a path without a holder
      can always go on, and never for more than Bound steps. */
  lemma NoLostWakeup(r: seq<State>, i: nat, t: Tid, path: seq<State>)
    requires Run(r) && i < |r| && t in r[i].procs && Waits(r[i].procs[t]) && HolderlessPath(path, r[i])
    ensures |path| - 1 <= Bound(|r[i].procs|)
    ensures CanStep(path[|path| - 1])
  {
    RunInv(r, i);
    PathLightens(path, r[i], t);
    SomeoneSteps(path[|path| - 1], t);
    MeasureBound(r[i]);
  }
}
