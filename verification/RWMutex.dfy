/** The reader/writer lock of sync/rwmutex.go as an interleaving of atomic steps: RLock, TryRLock,
    RUnlock and Lock. The repository has no writer Unlock, so the inner mutex is taken once. */
module RWMutex {
  import opened Goroutines

  const MAX_READERS := 0x4000_0000

  datatype Pc =
    | Idle
    | TryCas(seen: int)       // TryRLock has loaded readerCount
    | Blocked                 // in SemacquireMutex(&readerSem)
    | Reading
    | Departing               // rUnlockSlow, about to decrement readerWait
    | Signalling              // saw zero, about to Semrelease(&writerSem)
    | Entered                 // a writer holding the inner mutex
    | Counting(readers: int)  // announced, about to add the readers it saw to readerWait
    | Waiting                 // in SemacquireMutex(&writerSem)
    | Writing
    | Thrown

  /** The fields of the lock; `zeros` counts who was told, so far, that no reader is left. */
  datatype Lock = Lock(writerHeld: bool, readerCount: int, readerWait: int, writerSem: nat, zeros: nat)

  /** What an idle goroutine asks for. */
  datatype Call = RLock | TryRLock | WLock

  datatype Effect = Stuck | Does(lock: Lock, pc: Pc)

  function Enter(l: Lock, call: Call): Effect {
    match call
    case RLock =>
      var count := Int32(l.readerCount + 1);
      Does(l.(readerCount := count), if count < 0 then Blocked else Reading)
    case TryRLock =>
      Does(l, if l.readerCount < 0 then Idle else TryCas(l.readerCount))
    case WLock =>
      if l.writerHeld then Stuck else Does(l.(writerHeld := true), Entered)
  }

  /** RUnlock up to the throw of rUnlockSlow. */
  function RUnlock(l: Lock): Effect {
    var count := Int32(l.readerCount - 1);
    Does(l.(readerCount := count),
         if count >= 0 then Idle
         else if count + 1 == 0 || count + 1 == -MAX_READERS then Thrown
         else Departing)
  }

  function Depart(l: Lock): Effect {
    var wait := Int32(l.readerWait - 1);
    if wait == 0 then Does(l.(readerWait := wait, zeros := l.zeros + 1), Signalling)
    else Does(l.(readerWait := wait), Idle)
  }

  /** The writer makes readerCount negative; with no reader inside it does not touch readerWait. */
  function Announce(l: Lock): Effect {
    var count := Int32(l.readerCount - MAX_READERS);
    var readers := Int32(count + MAX_READERS);
    if readers == 0 then Does(l.(readerCount := count, zeros := l.zeros + 1), Writing)
    else Does(l.(readerCount := count), Counting(readers))
  }

  function AddReaders(l: Lock, readers: int): Effect {
    var wait := Int32(l.readerWait + readers);
    if wait == 0 then Does(l.(readerWait := wait, zeros := l.zeros + 1), Writing)
    else Does(l.(readerWait := wait), Waiting)
  }

  /** One atomic step of a goroutine; `call` is what it asks for when it is idle. */
  function Act(pc: Pc, l: Lock, call: Call): Effect {
    match pc
    case Idle => Enter(l, call)
    case TryCas(seen) =>
      if l.readerCount == seen then Does(l.(readerCount := Int32(seen + 1)), Reading)
      else Does(l, if l.readerCount < 0 then Idle else TryCas(l.readerCount))
    case Blocked => Stuck
    case Reading => RUnlock(l)
    case Departing => Depart(l)
    case Signalling => Does(l.(writerSem := l.writerSem + 1), Idle)
    case Entered => Announce(l)
    case Counting(readers) => AddReaders(l, readers)
    case Waiting => if l.writerSem == 0 then Stuck else Does(l.(writerSem := l.writerSem - 1), Writing)
    case Writing => Stuck
    case Thrown => Stuck
  }

  datatype State = State(lock: Lock, procs: map<Tid, Pc>)

  predicate Step(s: State, s': State, t: Tid, call: Call) {
    && t in s.procs
    && var e := Act(s.procs[t], s.lock, call);
       e.Does? && s' == State(e.lock, s.procs[t := e.pc])
  }

  ghost predicate Next(s: State, s': State) {
    exists t, call :: Step(s, s', t, call)
  }

  ghost predicate Init(s: State) {
    && s.lock == Lock(false, 0, 0, 0, 0)
    && |s.procs| < MAX_READERS
    && forall t | t in s.procs :: s.procs[t] == Idle
  }

  ghost predicate Run(r: seq<State>) {
    |r| > 0 && Init(r[0]) && forall i | 0 <= i < |r| - 1 :: Next(r[i], r[i + 1])
  }

  // ----- counting goroutines by role -----

  datatype Role = Bystander | Barred | Reader | Leaver | Signaller | Newcomer | Counter | Sleeper | Writer | Broken

  function RoleOf(pc: Pc): Role {
    match pc
    case Idle => Bystander
    case TryCas(_) => Bystander
    case Blocked => Barred
    case Reading => Reader
    case Departing => Leaver
    case Signalling => Signaller
    case Entered => Newcomer
    case Counting(_) => Counter
    case Waiting => Sleeper
    case Writing => Writer
    case Thrown => Broken
  }

  datatype Tally = Tally(barred: nat, reader: nat, leaver: nat, signaller: nat, newcomer: nat, counter: nat,
                         sleeper: nat, writer: nat, broken: nat)

  function TallyOf(procs: map<Tid, Pc>): Tally {
    Tally(Cnt(procs, RoleOf, Barred), Cnt(procs, RoleOf, Reader), Cnt(procs, RoleOf, Leaver),
          Cnt(procs, RoleOf, Signaller), Cnt(procs, RoleOf, Newcomer), Cnt(procs, RoleOf, Counter),
          Cnt(procs, RoleOf, Sleeper), Cnt(procs, RoleOf, Writer), Cnt(procs, RoleOf, Broken))
  }

  function Plus(m: Tally, r: Role): Tally {
    match r
    case Bystander => m
    case Barred => m.(barred := m.barred + 1)
    case Reader => m.(reader := m.reader + 1)
    case Leaver => m.(leaver := m.leaver + 1)
    case Signaller => m.(signaller := m.signaller + 1)
    case Newcomer => m.(newcomer := m.newcomer + 1)
    case Counter => m.(counter := m.counter + 1)
    case Sleeper => m.(sleeper := m.sleeper + 1)
    case Writer => m.(writer := m.writer + 1)
    case Broken => m.(broken := m.broken + 1)
  }

  /** The tally is that of the other goroutines plus the role of t. */
  lemma TallySplit(procs: map<Tid, Pc>, t: Tid)
    requires t in procs
    ensures TallyOf(procs) == Plus(TallyOf(procs - {t}), RoleOf(procs[t]))
  {
    hide Cnt, InRole;
    CntSplit(procs, RoleOf, t, Barred);
    CntSplit(procs, RoleOf, t, Reader);
    CntSplit(procs, RoleOf, t, Leaver);
    CntSplit(procs, RoleOf, t, Signaller);
    CntSplit(procs, RoleOf, t, Newcomer);
    CntSplit(procs, RoleOf, t, Counter);
    CntSplit(procs, RoleOf, t, Sleeper);
    CntSplit(procs, RoleOf, t, Writer);
    CntSplit(procs, RoleOf, t, Broken);
  }

  // ----- the invariant -----

  /** Before a writer announces itself, readerCount is exactly the readers inside. */
  predicate Open(l: Lock, m: Tally) {
    && l.readerCount == m.reader
    && m.barred == m.leaver == m.signaller == m.counter == m.sleeper == m.writer == 0
    && l.readerWait == l.writerSem == l.zeros == 0
  }

  /** Afterwards the readers still inside are those the writer saw minus those that left, and the
      zero is seen once: by the writer, or by the last of them. */
  predicate Announced(l: Lock, m: Tally) {
    && l.readerCount == m.reader + m.barred - MAX_READERS
    && (if m.counter == 1 then
          l.readerWait <= 0 && Awaited(l, m) < MAX_READERS && l.zeros == m.signaller == l.writerSem == 0
        else
          && l.readerWait == m.reader + m.leaver
          && l.zeros == One(l.readerWait == 0)
          && m.signaller + l.writerSem == One(l.readerWait == 0 && m.sleeper == 1)
          && (m.writer == 1 ==> l.readerWait == 0))
  }

  predicate Sound(l: Lock, m: Tally) {
    && m.broken == 0
    && m.newcomer + m.counter + m.sleeper + m.writer == One(l.writerHeld)
    && (if m.counter + m.sleeper + m.writer == 0 then Open(l, m) else Announced(l, m))
  }

  /** The readers a writer saw when it announced itself, for as long as it has not counted them. */
  function Awaited(l: Lock, m: Tally): int {
    m.reader + m.leaver - l.readerWait
  }

  /** A stale count TryRLock holds is not negative; a counting writer holds the readers it still awaits
      plus those that left since. */
  predicate LocalOk(pc: Pc, l: Lock, m: Tally) {
    match pc
    case TryCas(seen) => seen >= 0
    case Counting(readers) => readers == Awaited(l, m)
    case _ => true
  }

  ghost predicate Inv(s: State) {
    && |s.procs| < MAX_READERS
    && Sound(s.lock, TallyOf(s.procs))
    && forall t | t in s.procs :: LocalOk(s.procs[t], s.lock, TallyOf(s.procs))
  }

  // ----- every step keeps the invariant -----

  /** With `rest` the tally of the other goroutines: effect e of a goroutine at pc keeps the invariant,
      and the number another goroutine may be counting stays what it is. */
  ghost predicate KeepsSound(pc: Pc, l: Lock, rest: Tally, e: Effect) {
    var m := Plus(rest, RoleOf(pc));
    Sound(l, m) && LocalOk(pc, l, m) && e.Does? && rest.barred + rest.reader + rest.leaver < MAX_READERS - 1
    ==> var m' := Plus(rest, RoleOf(e.pc));
        Sound(e.lock, m') && LocalOk(e.pc, e.lock, m') && (rest.counter > 0 ==> Awaited(e.lock, m') == Awaited(l, m))
  }

  lemma EnterKeepsSound(l: Lock, call: Call, rest: Tally)
    ensures KeepsSound(Idle, l, rest, Enter(l, call))
  {
    hide Wrap;
  }

  lemma TryCasKeepsSound(l: Lock, seen: int, rest: Tally)
    ensures KeepsSound(TryCas(seen), l, rest, Act(TryCas(seen), l, RLock))
  {
    hide Wrap;
  }

  lemma RUnlockKeepsSound(l: Lock, rest: Tally)
    ensures KeepsSound(Reading, l, rest, RUnlock(l))
  {
    hide Wrap;
  }

  lemma DepartKeepsSound(l: Lock, rest: Tally)
    ensures KeepsSound(Departing, l, rest, Depart(l))
  {
    hide Wrap;
  }

  lemma AnnounceKeepsSound(l: Lock, rest: Tally)
    ensures KeepsSound(Entered, l, rest, Announce(l))
  {
    var m := Plus(rest, Newcomer);
    if Sound(l, m) && rest.barred + rest.reader + rest.leaver < MAX_READERS - 1 {
      assert rest.counter == rest.sleeper == rest.writer == 0;
      assert Open(l, m);
      assert Int32(l.readerCount - MAX_READERS) == l.readerCount - MAX_READERS;
      assert Int32(l.readerCount) == l.readerCount;
      var e := Announce(l);
      assert Announced(e.lock, Plus(rest, RoleOf(e.pc)));
    }
  }

  lemma AddReadersKeepsSound(l: Lock, readers: int, rest: Tally)
    ensures KeepsSound(Counting(readers), l, rest, AddReaders(l, readers))
  {
    hide Wrap;
  }

  lemma SignalKeepsSound(l: Lock, rest: Tally)
    ensures KeepsSound(Signalling, l, rest, Act(Signalling, l, RLock))
    ensures KeepsSound(Waiting, l, rest, Act(Waiting, l, RLock))
  {}

  lemma ActKeepsSound(pc: Pc, l: Lock, call: Call, rest: Tally)
    ensures KeepsSound(pc, l, rest, Act(pc, l, call))
  {
    match pc
    case Idle => EnterKeepsSound(l, call, rest);
    case TryCas(seen) => TryCasKeepsSound(l, seen, rest);
    case Reading => RUnlockKeepsSound(l, rest);
    case Departing => DepartKeepsSound(l, rest);
    case Signalling => SignalKeepsSound(l, rest);
    case Entered => AnnounceKeepsSound(l, rest);
    case Counting(readers) => AddReadersKeepsSound(l, readers, rest);
    case Waiting => SignalKeepsSound(l, rest);
    case _ =>
  }

  lemma EffectKeepsInv(s: State, t: Tid, e: Effect)
    requires Inv(s) && t in s.procs && e.Does?
    requires KeepsSound(s.procs[t], s.lock, TallyOf(s.procs - {t}), e)
    ensures Inv(State(e.lock, s.procs[t := e.pc]))
  {
    var after, rest := s.procs[t := e.pc], s.procs - {t};
    TallySplit(s.procs, t);
    TallySplit(after, t);
    assert after - {t} == rest;
    assert after.Keys == s.procs.Keys;
    assert |rest.Keys| == |s.procs.Keys| - 1 by { assert rest.Keys == s.procs.Keys - {t}; }
    CntBound(rest, RoleOf, Barred, Reader, Leaver, Writer);
    forall u | u in after ensures LocalOk(after[u], e.lock, TallyOf(after)) {
      if u != t && after[u].Counting? {
        CntSplit(rest, RoleOf, u, Counter);
      }
    }
  }

  lemma StepKeepsInv(s: State, s': State, t: Tid, call: Call)
    requires Inv(s) && Step(s, s', t, call)
    ensures Inv(s')
  {
    ActKeepsSound(s.procs[t], s.lock, call, TallyOf(s.procs - {t}));
    EffectKeepsInv(s, t, Act(s.procs[t], s.lock, call));
  }

  // ----- what holds in every reachable state -----

  lemma IdleTally(procs: map<Tid, Pc>)
    requires forall t | t in procs :: procs[t] == Idle
    ensures TallyOf(procs) == Tally(0, 0, 0, 0, 0, 0, 0, 0, 0)
  {
    NoneIn(procs, RoleOf, Barred);
    NoneIn(procs, RoleOf, Reader);
    NoneIn(procs, RoleOf, Leaver);
    NoneIn(procs, RoleOf, Signaller);
    NoneIn(procs, RoleOf, Newcomer);
    NoneIn(procs, RoleOf, Counter);
    NoneIn(procs, RoleOf, Sleeper);
    NoneIn(procs, RoleOf, Writer);
    NoneIn(procs, RoleOf, Broken);
  }

  lemma InitInv(s: State)
    requires Init(s)
    ensures Inv(s)
  {
    hide TallyOf, InRole, Cnt;
    IdleTally(s.procs);
  }

  lemma {:induction false} RunInv(r: seq<State>, i: nat)
    requires Run(r) && i < |r|
    ensures Inv(r[i])
  {
    if i == 0 {
      InitInv(r[0]);
    } else {
      RunInv(r, i - 1);
      assert Next(r[i - 1], r[i]);
      var t, call :| Step(r[i - 1], r[i], t, call);
      StepKeepsInv(r[i - 1], r[i], t, call);
    }
  }

  /** Once Lock has returned, no reader admitted before or after is inside, and there is one writer. */
  lemma WriterExcludesAll(r: seq<State>, i: nat, t: Tid, u: Tid)
    requires Run(r) && i < |r| && t in r[i].procs && u in r[i].procs && t != u
    requires r[i].procs[t].Writing?
    ensures !r[i].procs[u].Reading? && !r[i].procs[u].Departing? && !r[i].procs[u].Writing?
  {
    RunInv(r, i);
    var procs := r[i].procs;
    CntSplit(procs, RoleOf, t, Writer);
    CntSplit(procs, RoleOf, u, RoleOf(procs[u]));
    if procs[u].Writing? {
      AloneIn(procs, RoleOf, t, u);
    }
  }

  /** RUnlock by a reader never reaches the throw. */
  lemma NeverThrows(r: seq<State>, i: nat, t: Tid)
    requires Run(r) && i < |r| && t in r[i].procs
    ensures !r[i].procs[t].Thrown?
  {
    RunInv(r, i);
    CntSplit(r[i].procs, RoleOf, t, Broken);
  }

  /** Over the whole run the writer and the departing readers see zero at most once between them, and
      they have seen it exactly when every reader the writer awaits is gone. */
  lemma ZeroSeenOnce(r: seq<State>, i: nat, t: Tid)
    requires Run(r) && i < |r| && t in r[i].procs && (r[i].procs[t].Waiting? || r[i].procs[t].Writing?)
    ensures var gone := Cnt(r[i].procs, RoleOf, Reader) + Cnt(r[i].procs, RoleOf, Leaver) == 0;
            r[i].lock.zeros == One(gone) && (r[i].procs[t].Writing? ==> gone)
  {
    hide Cnt, InRole;
    RunInv(r, i);
    CntSplit(r[i].procs, RoleOf, t, RoleOf(r[i].procs[t]));
    assert TallyOf(r[i].procs).counter == 0;
  }

  // ----- what the calls return, and what they do to the counts -----

  ghost predicate StepOf(r: seq<State>, i: nat, t: Tid, call: Call) {
    Run(r) && i + 1 < |r| && Step(r[i], r[i + 1], t, call)
  }

  /** A writer has announced itself. */
  ghost predicate Closed(s: State) {
    exists t :: t in s.procs && (s.procs[t].Counting? || s.procs[t].Waiting? || s.procs[t].Writing?)
  }

  /** readerCount is the readers counted, less 2^30 once a writer has announced itself. */
  lemma CountExact(r: seq<State>, i: nat)
    requires Run(r) && i < |r|
    ensures var m := TallyOf(r[i].procs);
            && r[i].lock.readerCount == m.reader + m.barred - (if Closed(r[i]) then 0x4000_0000 else 0)
            && (!Closed(r[i]) ==> m.barred == 0) && m.reader + m.barred + m.leaver < MAX_READERS
  {
    hide Cnt, InRole, LocalOk;
    RunInv(r, i);
    ClosedExactly(r[i]);
    CntBound(r[i].procs, RoleOf, Barred, Reader, Leaver, Writer);
  }

  lemma ClosedExactly(s: State)
    ensures var m := TallyOf(s.procs); Closed(s) <==> m.counter + m.sleeper + m.writer > 0
  {
    hide Cnt, InRole;
    var m := TallyOf(s.procs);
    if t :| t in s.procs && (s.procs[t].Counting? || s.procs[t].Waiting? || s.procs[t].Writing?) {
      CntSplit(s.procs, RoleOf, t, RoleOf(s.procs[t]));
    }
    if m.counter > 0 {
      var t := SomeoneIn(s.procs, RoleOf, Counter);
    } else if m.sleeper > 0 {
      var t := SomeoneIn(s.procs, RoleOf, Sleeper);
    } else if m.writer > 0 {
      var t := SomeoneIn(s.procs, RoleOf, Writer);
    }
  }

  /** A goroutine cannot step exactly when it waits for a writer, is one, or wants the inner mutex of one. */
  lemma StuckExactly(r: seq<State>, i: nat, t: Tid, call: Call)
    requires Run(r) && i < |r| && t in r[i].procs
    ensures (exists s' :: Step(r[i], s', t, call)) <==>
            match r[i].procs[t]
            case Idle => call.WLock? ==> !r[i].lock.writerHeld
            case Blocked => false
            case Writing => false
            case Waiting => r[i].lock.writerSem > 0
            case _ => true
  {
    NeverThrows(r, i, t);
    var s, e := r[i], Act(r[i].procs[t], r[i].lock, call);
    if e.Does? {
      assert Step(s, State(e.lock, s.procs[t := e.pc]), t, call);
    }
  }

  /** RLock counts the reader, and lets it in exactly when no writer has announced itself. */
  lemma RLockAdmits(r: seq<State>, i: nat, t: Tid)
    requires StepOf(r, i, t, RLock) && r[i].procs[t].Idle?
    ensures r[i + 1] == State(r[i].lock.(readerCount := r[i].lock.readerCount + 1),
                              r[i].procs[t := if Closed(r[i]) then Blocked else Reading])
  {
    hide Wrap, Cnt, InRole, Closed;
    CountExact(r, i);
    RunInv(r, i);
    CntBound(r[i].procs, RoleOf, Barred, Reader, Bystander, Writer);
    CntSplit(r[i].procs, RoleOf, t, Bystander);
  }

  /** TryRLock fails exactly when it sees that a writer has announced itself; otherwise it counts the reader and
      lets it in, unless the count has moved since it looked: then it tries again with the new one. */
  lemma TryRLockAdmits(r: seq<State>, i: nat, t: Tid, call: Call)
    requires StepOf(r, i, t, call) && ((r[i].procs[t].Idle? && call.TryRLock?) || r[i].procs[t].TryCas?)
    ensures var l, pc := r[i].lock, r[i].procs[t];
            if pc.TryCas? && pc.seen == l.readerCount then
              !Closed(r[i]) && r[i + 1] == State(l.(readerCount := l.readerCount + 1), r[i].procs[t := Reading])
            else
              r[i + 1] == State(l, r[i].procs[t := if Closed(r[i]) then Idle else TryCas(l.readerCount)])
  {
    hide Wrap, Cnt, InRole, Closed;
    CountExact(r, i);
    RunInv(r, i);
    assert LocalOk(r[i].procs[t], r[i].lock, TallyOf(r[i].procs));
  }

  /** RUnlock uncounts the reader; with a writer announced it also goes on to tell the writer. */
  lemma RUnlockDeparts(r: seq<State>, i: nat, t: Tid, call: Call)
    requires StepOf(r, i, t, call) && r[i].procs[t].Reading?
    ensures r[i + 1] == State(r[i].lock.(readerCount := r[i].lock.readerCount - 1),
                              r[i].procs[t := if Closed(r[i]) then Departing else Idle])
  {
    hide Wrap, Cnt, InRole, Closed, Inv;
    NeverThrows(r, i + 1, t);
    CountExact(r, i);
    CntSplit(r[i].procs, RoleOf, t, Reader);
  }

  /** Lock announces the writer, and lets it in at once exactly when no reader is inside. */
  lemma LockAnnounces(r: seq<State>, i: nat, t: Tid, call: Call)
    requires StepOf(r, i, t, call) && r[i].procs[t].Entered?
    ensures !Closed(r[i]) && r[i + 1].lock.readerCount == r[i].lock.readerCount - MAX_READERS
    ensures r[i + 1].procs == r[i].procs[t := if Cnt(r[i].procs, RoleOf, Reader) == 0 then Writing
                                             else Counting(Cnt(r[i].procs, RoleOf, Reader))]
    ensures r[i + 1].lock.readerWait == r[i].lock.readerWait && r[i + 1].lock.writerSem == r[i].lock.writerSem
  {
    hide Wrap, Cnt, InRole, Closed;
    CountExact(r, i);
    ClosedExactly(r[i]);
    RunInv(r, i);
    CntSplit(r[i].procs, RoleOf, t, Newcomer);
  }

  /** A departing reader that the writer has counted, and is the last of those, wakes it; a writer that counts
      when all of them have left does not sleep. */
  lemma LastReaderSignals(r: seq<State>, i: nat, t: Tid, call: Call)
    requires StepOf(r, i, t, call) && (r[i].procs[t].Departing? || r[i].procs[t].Counting?)
    ensures var m := TallyOf(r[i].procs);
            && r[i + 1].lock.readerCount == r[i].lock.readerCount && r[i + 1].lock.writerSem == r[i].lock.writerSem
            && r[i + 1].procs == r[i].procs[t :=
                 if r[i].procs[t].Departing? then
                   if m.counter == 0 && m.reader + m.leaver == 1 then Signalling else Idle
                 else
                   if m.reader + m.leaver == 0 then Writing else Waiting]
  {
    hide Wrap, Cnt, InRole, Closed;
    CountExact(r, i);
    ClosedExactly(r[i]);
    RunInv(r, i);
    var s := r[i];
    CntSplit(s.procs, RoleOf, t, RoleOf(s.procs[t]));
    assert LocalOk(s.procs[t], s.lock, TallyOf(s.procs));
  }

  /** The signal posts one token, and the writer takes it; Lock of the inner mutex is taken once. */
  lemma TokenPasses(r: seq<State>, i: nat, t: Tid, call: Call)
    requires StepOf(r, i, t, call)
    ensures r[i].procs[t].Signalling? ==>
              r[i + 1] == State(r[i].lock.(writerSem := r[i].lock.writerSem + 1), r[i].procs[t := Idle])
    ensures r[i].procs[t].Waiting? ==>
              r[i + 1] == State(r[i].lock.(writerSem := r[i].lock.writerSem - 1), r[i].procs[t := Writing])
    ensures r[i].procs[t].Idle? && call.WLock? ==>
              !r[i].lock.writerHeld && r[i + 1] == State(r[i].lock.(writerHeld := true), r[i].procs[t := Entered])
  {}

  // ----- the writer is never stranded -----

  predicate Pending(pc: Pc) { pc.Entered? || pc.Counting? || pc.Waiting? }

  /** A step of a goroutine that is already inside a call. */
  ghost predicate Busy(s: State, s': State) {
    exists t :: Step(s, s', t, RLock) && !s.procs[t].Idle?
  }

  ghost predicate CanStep(s: State) {
    exists s' :: Busy(s, s')
  }

  /** While a writer is pending some goroutine inside can step. */
  lemma SomeoneSteps(s: State, w: Tid)
    requires Inv(s) && w in s.procs && Pending(s.procs[w])
    ensures CanStep(s)
  {
    hide Cnt, InRole, Int32, Wrap;
    var t := w;
    CntSplit(s.procs, RoleOf, w, RoleOf(s.procs[w]));
    if s.procs[w].Waiting? && s.lock.writerSem == 0 {
      var m := TallyOf(s.procs);
      if m.signaller > 0 {
        t := SomeoneIn(s.procs, RoleOf, Signaller);
      } else if m.leaver > 0 {
        t := SomeoneIn(s.procs, RoleOf, Leaver);
      } else {
        t := SomeoneIn(s.procs, RoleOf, Reader);
      }
    }
    var e := Act(s.procs[t], s.lock, RLock);
    var s' := State(e.lock, s.procs[t := e.pc]);
    assert Step(s, s', t, RLock) && !s.procs[t].Idle?;
    assert Busy(s, s');
  }

  /** What a goroutine can still do without entering anew: k for each change it may make to readerCount, and
      the steps it takes between two changes. */
  function Weight(pc: Pc, count: int, k: nat): nat {
    match pc
    case TryCas(seen) => k + k + if seen == count then 5 else 6
    case Reading => k + 4
    case Departing => 3
    case Signalling => 2
    case Entered => k + 2
    case Counting(_) => 1
    case _ => 0
  }

  function Weigher(count: int, k: nat): Pc -> nat { pc => Weight(pc, count, k) }

  lemma WeightVaries(pc: Pc, count: int, count': int, k: nat)
    ensures Weight(pc, count', k) <= Weight(pc, count, k) + 1 && Weight(pc, count, k) <= 2 * k + 6
  {}

  function Factor(n: nat): nat { n + 1 }

  ghost function Measure(s: State): nat {
    Sum(s.procs, Weigher(s.lock.readerCount, Factor(|s.procs|))) + s.lock.writerSem
  }

  /** How many steps the goroutines inside can take at most. */
  function Bound(n: nat): nat { n * (2 * Factor(n) + 6) + 1 }

  lemma ActLightens(pc: Pc, l: Lock, k: nat, n: nat)
    requires !pc.Idle? && k > n && Act(pc, l, RLock).Does?
    ensures var e := Act(pc, l, RLock);
            Weight(e.pc, e.lock.readerCount, k) + e.lock.writerSem
            + (if e.lock.readerCount == l.readerCount then 0 else n)
            < Weight(pc, l.readerCount, k) + l.writerSem
  {
    hide Int32, Wrap;
  }

  lemma StepLightens(s: State, s': State, t: Tid)
    requires Step(s, s', t, RLock) && !s.procs[t].Idle?
    ensures |s'.procs| == |s.procs| && Measure(s') < Measure(s)
  {
    hide Act, Weight;
    var k, others := Factor(|s.procs|), s.procs - {t};
    var before, after := Weigher(s.lock.readerCount, k), Weigher(s'.lock.readerCount, k);
    assert s'.procs - {t} == others && s'.procs.Keys == s.procs.Keys;
    assert |s'.procs| == |s'.procs.Keys| == |s.procs.Keys| == |s.procs| && others.Keys == s.procs.Keys - {t};
    ActLightens(s.procs[t], s.lock, k, |s.procs|);
    SumSplit(s.procs, before, t);
    SumSplit(s'.procs, after, t);
    forall u | u in others ensures after(others[u]) <= before(others[u]) + 1 {
      WeightVaries(others[u], s.lock.readerCount, s'.lock.readerCount, k);
    }
    SumVaries(others, before, after, 1);
  }

  lemma BusyLightens(s: State, s': State, w: Tid)
    requires Inv(s) && Busy(s, s') && w in s.procs && Pending(s.procs[w])
    ensures Inv(s') && |s'.procs| == |s.procs| && Measure(s') < Measure(s)
    ensures w in s'.procs && (Pending(s'.procs[w]) || s'.procs[w].Writing?)
  {
    hide Inv, Measure;
    var t :| Step(s, s', t, RLock) && !s.procs[t].Idle?;
    StepKeepsInv(s, s', t, RLock);
    StepLightens(s, s', t);
  }

  /** From s on only goroutines already inside take steps, and writer w does not get in. */
  ghost predicate KeptOut(path: seq<State>, s: State, w: Tid) {
    && |path| > 0 && path[0] == s
    && (forall j | 0 <= j < |path| - 1 :: Busy(path[j], path[j + 1]))
    && (forall j | 0 <= j < |path| :: w in path[j].procs && !path[j].procs[w].Writing?)
  }

  lemma {:induction false} PathLightens(path: seq<State>, s: State, w: Tid)
    requires Inv(s) && KeptOut(path, s, w) && Pending(s.procs[w])
    ensures var last := path[|path| - 1];
            Inv(last) && Measure(last) + |path| - 1 <= Measure(s) && Pending(last.procs[w])
    decreases |path|
  {
    hide Inv, Busy, Measure, Pending;
    if |path| > 1 {
      BusyLightens(path[0], path[1], w);
      PathLightens(path[1..], path[1], w);
    }
  }

  lemma MeasureBound(s: State)
    requires Inv(s)
    ensures Measure(s) <= Bound(|s.procs|)
  {
    hide Weight;
    var k, count := Factor(|s.procs|), s.lock.readerCount;
    forall t | t in s.procs ensures Weigher(count, k)(s.procs[t]) <= 2 * k + 6 {
      WeightVaries(s.procs[t], count, count, k);
    }
    SumBound(s.procs, Weigher(count, k), 2 * k + 6);
  }

  /** A writer past the inner mutex is never left asleep: the goroutines inside let it in by themselves, in
      whatever order they step. A path that keeps it out can always go on, and never for more than Bound
      steps. */
  lemma WriterNotStranded(r: seq<State>, i: nat, w: Tid, path: seq<State>)
    requires Run(r) && i < |r| && w in r[i].procs && Pending(r[i].procs[w]) && KeptOut(path, r[i], w)
    ensures |path| - 1 <= Bound(|r[i].procs|)
    ensures CanStep(path[|path| - 1])
  {
    RunInv(r, i);
    PathLightens(path, r[i], w);
    SomeoneSteps(path[|path| - 1], w);
    MeasureBound(r[i]);
  }
}
