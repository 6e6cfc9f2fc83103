/** `IntLock` and `critical_section` as atomic steps of any number of CPUs (kernel/src/utils.rs:40-80, 131-142).

  A CPU between two operations is `Idle`.  The other program counters stand between the atomic
  accesses of `try_lock` (compare-exchange, save the flag, disable), of `unlock` (read the saved
  flag, store, enable) and of `critical_section` (read the flag, disable).  Sections are left in the
  reverse order of entering them, as guards and closures do.  `entry` records the interrupt flag the
  CPU had when it asked for the section.
 */
module Locks {

  datatype Lock = Lock(locked: bool, savedIf: bool)

  datatype Section = Guard(lock: nat, entry: bool) | Critical(entry: bool)

  datatype Pc =
    | Idle
    | Trying(lock: nat, entry: bool)
    | Acquired(lock: nat, entry: bool)
    | Saved(lock: nat, entry: bool)
    | Restoring(lock: nat, restore: bool)
    | Released(restore: bool, entry: bool)
    | Entering(enabled: bool)

  datatype Cpu = Cpu(interrupts: bool, pc: Pc, held: seq<Section>)

  datatype State = State(locks: seq<Lock>, cpus: seq<Cpu>)

  datatype Action =
    | Ask(lock: nat)        // lock() or try_lock() is called
    | Exchange              // compare_exchange(false, true)
    | GiveUp                // try_lock() returns false
    | Save                  // *saved_if = rflags & IF
    | Disable               // irq::disable(), the guard exists
    | ReadSaved             // unlock(): restore = *saved_if
    | Release               // locked.store(false)
    | Enable                // if restore { irq::enable() }
    | EnterCritical         // enabled = rflags & IF
    | DisableCritical       // irq::disable(), the closure runs
    | LeaveCritical         // if enabled { irq::enable() }
    | SetFlag(on: bool)     // code outside every section

  ghost function Top(held: seq<Section>): Section
    requires held != []
  {
    held[|held| - 1]
  }

  ghost function Rest(held: seq<Section>): seq<Section>
    requires held != []
  {
    held[..|held| - 1]
  }

  /** What one atomic action of a CPU does to its own state and to the locks. */
  ghost predicate Acts(l: seq<Lock>, c: Cpu, a: Action, l': seq<Lock>, c': Cpu) {
    match a
    case Ask(i) => c.pc.Idle? && i < |l| && l' == l && c' == c.(pc := Trying(i, c.interrupts))
    case Exchange =>
      c.pc.Trying? && c.pc.lock < |l| &&
      if l[c.pc.lock].locked then l' == l && c' == c
      else l' == l[c.pc.lock := l[c.pc.lock].(locked := true)] && c' == c.(pc := Acquired(c.pc.lock, c.pc.entry))
    case GiveUp => c.pc.Trying? && c.pc.lock < |l| && l[c.pc.lock].locked && l' == l && c' == c.(pc := Idle)
    case Save =>
      c.pc.Acquired? && c.pc.lock < |l| &&
      l' == l[c.pc.lock := l[c.pc.lock].(savedIf := c.interrupts)] && c' == c.(pc := Saved(c.pc.lock, c.pc.entry))
    case Disable =>
      c.pc.Saved? && l' == l && c' == Cpu(false, Idle, c.held + [Guard(c.pc.lock, c.pc.entry)])
    case ReadSaved =>
      c.pc.Idle? && c.held != [] && Top(c.held).Guard? && Top(c.held).lock < |l| &&
      l' == l && c' == c.(pc := Restoring(Top(c.held).lock, l[Top(c.held).lock].savedIf))
    case Release =>
      c.pc.Restoring? && c.pc.lock < |l| && c.held != [] &&
      l' == l[c.pc.lock := l[c.pc.lock].(locked := false)] &&
      c' == c.(pc := Released(c.pc.restore, Top(c.held).entry), held := Rest(c.held))
    case Enable =>
      c.pc.Released? && l' == l && c' == c.(pc := Idle, interrupts := c.interrupts || c.pc.restore)
    case EnterCritical => c.pc.Idle? && l' == l && c' == c.(pc := Entering(c.interrupts))
    case DisableCritical =>
      c.pc.Entering? && l' == l && c' == Cpu(false, Idle, c.held + [Critical(c.pc.enabled)])
    case LeaveCritical =>
      c.pc.Idle? && c.held != [] && Top(c.held).Critical? && l' == l &&
      c' == c.(interrupts := c.interrupts || Top(c.held).entry, held := Rest(c.held))
    case SetFlag(on) => c.pc.Idle? && c.held == [] && l' == l && c' == c.(interrupts := on)
  }

  ghost predicate Step(s: State, i: nat, a: Action, s': State) {
    && i < |s.cpus| && |s'.cpus| == |s.cpus| && |s'.locks| == |s.locks|
    && Acts(s.locks, s.cpus[i], a, s'.locks, s'.cpus[i])
    && forall j: nat :: j < |s.cpus| && j != i ==> s'.cpus[j] == s.cpus[j]
  }

  ghost predicate Initial(s: State) {
    && (forall i: nat :: i < |s.locks| ==> s.locks[i] == Lock(false, false))
    && (forall i: nat :: i < |s.cpus| ==> s.cpus[i].pc.Idle? && s.cpus[i].held == [])
  }

  // ---------------------------------------------------------------- invariant

  /** The CPU has won the lock and not yet stored `false`. */
  ghost predicate Owns(c: Cpu, k: nat) {
    || (c.pc.Acquired? && c.pc.lock == k)
    || (c.pc.Saved? && c.pc.lock == k)
    || Guards(c.held, k)
  }

  ghost predicate Guards(held: seq<Section>, k: nat) {
    exists n: nat :: n < |held| && held[n].Guard? && held[n].lock == k
  }

  /** Own facts of one CPU: the flag is off inside sections, only the outermost section was entered
      with it on, no lock is guarded twice, and what is to be restored is the flag at entry. */
  ghost predicate CpuOk(c: Cpu, l: seq<Lock>) {
    && (c.held != [] ==> !c.interrupts)
    && (forall n: nat :: 0 < n < |c.held| ==> !c.held[n].entry)
    && (forall n: nat :: n < |c.held| && c.held[n].Guard? ==> GuardOk(c.held[n], l))
    && (forall n: nat, k: nat :: n < k < |c.held| && c.held[n].Guard? && c.held[k].Guard? ==> c.held[n].lock != c.held[k].lock)
    && match c.pc
       case Idle => true
       case Trying(k, e) => e == c.interrupts && k < |l|
       case Acquired(k, e) => e == c.interrupts && k < |l| && l[k].locked && !Guards(c.held, k)
       case Saved(k, e) => e == c.interrupts && k < |l| && l[k].locked && l[k].savedIf == e && !Guards(c.held, k)
       case Restoring(k, r) => c.held != [] && Top(c.held) == Guard(k, r)
       case Released(r, e) => r == e && !c.interrupts && (c.held != [] ==> !e)
       case Entering(e) => e == c.interrupts
  }

  ghost predicate GuardOk(g: Section, l: seq<Lock>)
    requires g.Guard?
  {
    g.lock < |l| && l[g.lock].locked && l[g.lock].savedIf == g.entry
  }

  ghost predicate Invariant(s: State) {
    && (forall i: nat :: i < |s.cpus| ==> CpuOk(s.cpus[i], s.locks))
    && (forall i: nat, j: nat, k: nat :: i < j < |s.cpus| ==> !(Owns(s.cpus[i], k) && Owns(s.cpus[j], k)))
    && (forall k: nat :: k < |s.locks| && s.locks[k].locked ==> exists i: nat :: i < |s.cpus| && Owns(s.cpus[i], k))
  }

  lemma OneOwner(s: State, i: nat, j: nat, k: nat)
    requires Invariant(s) && i < |s.cpus| && j < |s.cpus| && Owns(s.cpus[i], k) && Owns(s.cpus[j], k)
    ensures i == j
  {
    hide CpuOk, Owns;
  }

  lemma InitialInvariant(s: State)
    requires Initial(s)
    ensures Invariant(s)
  {
  }

  // ---------------------------------------------------------------- one step

  lemma RestAndTop(held: seq<Section>, k: nat)
    requires held != []
    ensures Guards(held, k) <==> Guards(Rest(held), k) || (Top(held).Guard? && Top(held).lock == k)
  {
    var rest := Rest(held);
    if Guards(held, k) && !(Top(held).Guard? && Top(held).lock == k) {
      var n: nat :| n < |held| && held[n].Guard? && held[n].lock == k;
      assert rest[n] == held[n];
    }
    if Guards(rest, k) {
      var n: nat :| n < |rest| && rest[n].Guard? && rest[n].lock == k;
      assert held[n] == rest[n];
    }
    if Top(held).Guard? && Top(held).lock == k { assert held[|held| - 1].Guard?; }
  }

  lemma Pushed(held: seq<Section>, g: Section, k: nat)
    ensures Guards(held + [g], k) <==> Guards(held, k) || (g.Guard? && g.lock == k)
  {
    var held' := held + [g];
    assert Top(held') == g && Rest(held') == held;
    RestAndTop(held', k);
  }

  /** The acting CPU keeps its own facts, provided it owns what it releases. */
  lemma ActorOk(l: seq<Lock>, c: Cpu, a: Action, l': seq<Lock>, c': Cpu)
    requires CpuOk(c, l) && Acts(l, c, a, l', c')
    requires a.Exchange? ==> (c.pc.lock < |l| && !l[c.pc.lock].locked ==> !Guards(c.held, c.pc.lock))
    ensures CpuOk(c', l')
  {
    match a
    case Ask(i) =>
    case Exchange => if c' != c { ExchangeOk(l, c, l', c'); }
    case GiveUp =>
    case Save => SaveOk(l, c, l', c');
    case Disable =>
      forall k: nat ensures Guards(c'.held, k) <==> Guards(c.held, k) || k == c.pc.lock { Pushed(c.held, Guard(c.pc.lock, c.pc.entry), k); }
    case ReadSaved =>
    case Release => ReleaseOk(l, c, l', c');
    case Enable =>
    case EnterCritical =>
    case DisableCritical =>
    case LeaveCritical =>
    case SetFlag(on) =>
  }

  lemma ExchangeOk(l: seq<Lock>, c: Cpu, l': seq<Lock>, c': Cpu)
    requires CpuOk(c, l) && Acts(l, c, Exchange, l', c') && c' != c && !Guards(c.held, c.pc.lock)
    ensures CpuOk(c', l')
  {
    forall n: nat | n < |c.held| && c.held[n].Guard? ensures GuardOk(c'.held[n], l') {
      assert GuardOk(c.held[n], l);
    }
  }

  lemma SaveOk(l: seq<Lock>, c: Cpu, l': seq<Lock>, c': Cpu)
    requires CpuOk(c, l) && Acts(l, c, Save, l', c')
    ensures CpuOk(c', l')
  {
    forall n: nat | n < |c.held| && c.held[n].Guard? ensures GuardOk(c'.held[n], l') {
      assert GuardOk(c.held[n], l);
      assert Guards(c.held, c.held[n].lock);
    }
  }

  lemma ReleaseOk(l: seq<Lock>, c: Cpu, l': seq<Lock>, c': Cpu)
    requires CpuOk(c, l) && Acts(l, c, Release, l', c')
    ensures CpuOk(c', l')
  {
    forall n: nat | n < |c'.held| && c'.held[n].Guard? ensures GuardOk(c'.held[n], l') {
      assert c'.held[n] == c.held[n] && GuardOk(c.held[n], l);
      assert c.held[|c.held| - 1] == Top(c.held);
    }
  }

  /** Which lock an action changes: one that was free, or one the CPU owns. */
  ghost predicate Touches(l: seq<Lock>, c: Cpu, a: Action, k: nat) {
    || (a.Exchange? && c.pc.Trying? && c.pc.lock == k < |l| && !l[k].locked)
    || (a.Save? && c.pc.Acquired? && c.pc.lock == k)
    || (a.Release? && c.pc.Restoring? && c.pc.lock == k)
  }

  lemma OnlyTouched(l: seq<Lock>, c: Cpu, a: Action, l': seq<Lock>, c': Cpu, k: nat)
    requires CpuOk(c, l) && Acts(l, c, a, l', c') && k < |l|
    ensures |l'| == |l| && (!Touches(l, c, a, k) ==> l'[k] == l[k])
    ensures Touches(l, c, a, k) ==> Owns(c, k) || !l[k].locked
  {
    if a.Release? { assert c.held[|c.held| - 1] == Top(c.held); }
  }

  /** Ownership changes only by winning a free lock and by storing `false`. */
  lemma OwnsAfter(l: seq<Lock>, c: Cpu, a: Action, l': seq<Lock>, c': Cpu, k: nat)
    requires CpuOk(c, l) && Acts(l, c, a, l', c') && k < |l| && CpuOk(c', l')
    ensures Owns(c', k) <==>
              if a.Exchange? && c' != c && c.pc.lock == k then true
              else if a.Release? && c.pc.lock == k then false
              else Owns(c, k)
    ensures a.Exchange? && c' != c && c.pc.lock == k ==> !l[k].locked && l'[k].locked
    ensures a.Release? && c.pc.lock == k ==> !l'[k].locked
    ensures !(a.Exchange? && c' != c && c.pc.lock == k) && !(a.Release? && c.pc.lock == k) ==> l'[k].locked == l[k].locked
  {
    match a
    case Disable => Pushed(c.held, Guard(c.pc.lock, c.pc.entry), k);
    case DisableCritical => Pushed(c.held, Critical(c.pc.enabled), k);
    case Release =>
      RestAndTop(c.held, k);
      if Guards(c'.held, k) { GuardedIsLocked(c', l', k); }
    case LeaveCritical => RestAndTop(c.held, k);
    case _ =>
  }

  lemma GuardedIsLocked(c: Cpu, l: seq<Lock>, k: nat)
    requires CpuOk(c, l) && Guards(c.held, k)
    ensures k < |l| && l[k].locked
  {
    var n: nat :| n < |c.held| && c.held[n].Guard? && c.held[n].lock == k;
    assert GuardOk(c.held[n], l);
  }

  lemma OwnedIsLocked(c: Cpu, l: seq<Lock>, k: nat)
    requires CpuOk(c, l) && Owns(c, k)
    ensures k < |l| && l[k].locked
  {
    if Guards(c.held, k) { GuardedIsLocked(c, l, k); }
  }

  /** A CPU's facts depend only on the locks it owns. */
  lemma BystanderOk(c: Cpu, l: seq<Lock>, l': seq<Lock>)
    requires CpuOk(c, l) && |l'| == |l| && forall k: nat :: k < |l| && Owns(c, k) ==> l'[k] == l[k]
    ensures CpuOk(c, l')
  {
    forall n: nat | n < |c.held| && c.held[n].Guard? ensures GuardOk(c.held[n], l') {
      assert GuardOk(c.held[n], l) && Guards(c.held, c.held[n].lock);
    }
  }

  lemma CpusKept(s: State, i: nat, a: Action, s': State, j: nat)
    requires Invariant(s) && Step(s, i, a, s') && j < |s.cpus|
    ensures CpuOk(s'.cpus[j], s'.locks)
  {
    hide CpuOk, Acts, Touches;
    var c, c' := s.cpus[i], s'.cpus[i];
    if j == i {
      FreeNotGuarded(s, i);
      ActorOk(s.locks, c, a, s'.locks, c');
    } else {
      forall k: nat | k < |s.locks| && Owns(s.cpus[j], k) ensures s'.locks[k] == s.locks[k] {
        OnlyTouched(s.locks, c, a, s'.locks, c', k);
        OwnedIsLocked(s.cpus[j], s.locks, k);
        if Owns(c, k) { OneOwner(s, i, j, k); }
      }
      BystanderOk(s.cpus[j], s.locks, s'.locks);
    }
  }

  lemma FreeNotGuarded(s: State, i: nat)
    requires Invariant(s) && i < |s.cpus|
    ensures forall k: nat :: k < |s.locks| && !s.locks[k].locked ==> !Guards(s.cpus[i].held, k)
  {
    hide CpuOk;
    forall k: nat | k < |s.locks| && Guards(s.cpus[i].held, k) ensures s.locks[k].locked {
      GuardedIsLocked(s.cpus[i], s.locks, k);
    }
  }

  lemma OwnersKept(s: State, i: nat, a: Action, s': State, j: nat, k: nat)
    requires Invariant(s) && Step(s, i, a, s') && j < |s.cpus| && k < |s.locks|
    requires CpuOk(s'.cpus[i], s'.locks)
    ensures Owns(s'.cpus[j], k) <==>
              if j == i && a.Exchange? && s'.cpus[i] != s.cpus[i] && s.cpus[i].pc.lock == k then true
              else if j == i && a.Release? && s.cpus[i].pc.lock == k then false
              else Owns(s.cpus[j], k)
  {
    hide Guards;
    OwnsAfter(s.locks, s.cpus[i], a, s'.locks, s'.cpus[i], k);
  }

  /** Every atomic step of every CPU keeps the invariant. */
  lemma StepKeepsInvariant(s: State, i: nat, a: Action, s': State)
    requires Invariant(s) && Step(s, i, a, s')
    ensures Invariant(s')
  {
    hide CpuOk, Acts, Owns;
    forall j: nat | j < |s'.cpus| ensures CpuOk(s'.cpus[j], s'.locks) { CpusKept(s, i, a, s', j); }
    forall j: nat, m: nat, k: nat | j < m < |s'.cpus| && Owns(s'.cpus[j], k) && Owns(s'.cpus[m], k) ensures false {
      OwnedIsLocked(s'.cpus[j], s'.locks, k);
      StillApart(s, i, a, s', j, m, k);
    }
    forall k: nat | k < |s'.locks| && s'.locks[k].locked ensures exists j: nat :: j < |s'.cpus| && Owns(s'.cpus[j], k) {
      StillOwned(s, i, a, s', k);
    }
  }

  lemma StillApart(s: State, i: nat, a: Action, s': State, j: nat, m: nat, k: nat)
    requires Invariant(s) && Step(s, i, a, s') && CpuOk(s'.cpus[i], s'.locks) && j < m < |s.cpus| && k < |s.locks|
    ensures !(Owns(s'.cpus[j], k) && Owns(s'.cpus[m], k))
  {
    hide Guards, CpuOk;
    OwnsAfter(s.locks, s.cpus[i], a, s'.locks, s'.cpus[i], k);
    OwnersKept(s, i, a, s', j, k);
    OwnersKept(s, i, a, s', m, k);
    assert !(Owns(s.cpus[j], k) && Owns(s.cpus[m], k));
    if Owns(s.cpus[j], k) { OwnedIsLocked(s.cpus[j], s.locks, k); }
    if Owns(s.cpus[m], k) { OwnedIsLocked(s.cpus[m], s.locks, k); }
  }

  lemma StillOwned(s: State, i: nat, a: Action, s': State, k: nat)
    requires Invariant(s) && Step(s, i, a, s') && CpuOk(s'.cpus[i], s'.locks) && k < |s.locks| && s'.locks[k].locked
    ensures exists j: nat :: j < |s'.cpus| && Owns(s'.cpus[j], k)
  {
    hide Guards, CpuOk, Acts, Owns;
    OwnsAfter(s.locks, s.cpus[i], a, s'.locks, s'.cpus[i], k);
    if s.locks[k].locked {
      var j: nat :| j < |s.cpus| && Owns(s.cpus[j], k);
      OwnersKept(s, i, a, s', j, k);
      assert Owns(s'.cpus[j], k);
    } else {
      assert Owns(s'.cpus[i], k);
    }
  }

  // ---------------------------------------------------------------- runs

  datatype Event = Event(cpu: nat, action: Action)

  ghost predicate IsRun(states: seq<State>, events: seq<Event>) {
    && |states| == |events| + 1
    && forall n: nat :: n < |events| ==> Step(states[n], events[n].cpu, events[n].action, states[n + 1])
  }

  lemma {:induction false} RunInvariant(states: seq<State>, events: seq<Event>, n: nat)
    requires IsRun(states, events) && Invariant(states[0]) && n < |states|
    ensures Invariant(states[n])
    decreases n
  {
    hide Invariant, Step;
    if n > 0 {
      RunInvariant(states, events, n - 1);
      StepKeepsInvariant(states[n - 1], events[n - 1].cpu, events[n - 1].action, states[n]);
    }
  }

  /** Mutual exclusion: in every state of every run a lock has one owner or none, and it is marked
      locked exactly when it has one. */
  lemma MutualExclusion(states: seq<State>, events: seq<Event>, n: nat, k: nat)
    requires IsRun(states, events) && Initial(states[0]) && n < |states| && k < |states[n].locks|
    ensures states[n].locks[k].locked <==> exists i: nat :: i < |states[n].cpus| && Owns(states[n].cpus[i], k)
    ensures forall i: nat, j: nat ::
              i < |states[n].cpus| && j < |states[n].cpus| && Owns(states[n].cpus[i], k) && Owns(states[n].cpus[j], k) ==> i == j
  {
    hide Step, CpuOk, Owns;
    InitialInvariant(states[0]);
    RunInvariant(states, events, n);
    var s := states[n];
    forall i: nat | i < |s.cpus| && Owns(s.cpus[i], k) ensures s.locks[k].locked {
      OwnedIsLocked(s.cpus[i], s.locks, k);
    }
    forall i: nat, j: nat | i < |s.cpus| && j < |s.cpus| && Owns(s.cpus[i], k) && Owns(s.cpus[j], k) ensures i == j {
      OneOwner(s, i, j, k);
    }
  }

  /** The exchange wins the lock exactly when no CPU owns it, and otherwise changes nothing; an attempt
      is given up only when some CPU does. */
  lemma AttemptWinsIffUnowned(s: State, i: nat, a: Action, s': State)
    requires Invariant(s) && Step(s, i, a, s') && (a.Exchange? || a.GiveUp?)
    ensures s.cpus[i].pc.Trying?
    ensures var k := s.cpus[i].pc.lock;
            var owned := exists j: nat :: j < |s.cpus| && Owns(s.cpus[j], k);
            if owned then s'.locks == s.locks && !s'.cpus[i].pc.Acquired? else a.Exchange? && Owns(s'.cpus[i], k)
  {
    hide CpuOk, Guards;
    var k := s.cpus[i].pc.lock;
    forall j: nat | j < |s.cpus| && Owns(s.cpus[j], k) ensures s.locks[k].locked {
      OwnedIsLocked(s.cpus[j], s.locks, k);
    }
  }

  /** A CPU that locks a free lock and unlocks it again holds it with interrupts off in between, and
      in the end all CPUs are as before and the lock is free. */
  lemma LockThenUnlock(states: seq<State>, events: seq<Event>, i: nat, k: nat)
    requires IsRun(states, events) && i < |states[0].cpus| && k < |states[0].locks|
    requires states[0].cpus[i].pc.Idle? && !states[0].locks[k].locked
    requires events == [Event(i, Ask(k)), Event(i, Exchange), Event(i, Save), Event(i, Disable),
                        Event(i, ReadSaved), Event(i, Release), Event(i, Enable)]
    ensures var c := states[0].cpus[i];
            && |states[4].cpus| == |states[0].cpus| && states[4].cpus[i] == Cpu(false, Idle, c.held + [Guard(k, c.interrupts)])
            && states[4].locks == states[0].locks[k := Lock(true, c.interrupts)]
            && states[7].cpus == states[0].cpus && states[7].locks == states[0].locks[k := Lock(false, c.interrupts)]
  {
    hide Acts;
    forall n: nat | n < 7 ensures Step(states[n], i, events[n].action, states[n + 1]) { }
    LockSteps(states, i, k);
    UnlockSteps(states, i, k, states[0].cpus[i]);
    assert states[7].cpus == states[0].cpus;
  }

  lemma LockSteps(states: seq<State>, i: nat, k: nat)
    requires |states| == 8 && i < |states[0].cpus| && k < |states[0].locks|
    requires states[0].cpus[i].pc.Idle? && !states[0].locks[k].locked
    requires Step(states[0], i, Ask(k), states[1]) && Step(states[1], i, Exchange, states[2])
    requires Step(states[2], i, Save, states[3]) && Step(states[3], i, Disable, states[4])
    ensures var c := states[0].cpus[i];
            && i < |states[4].cpus| && states[4].cpus[i] == Cpu(false, Idle, c.held + [Guard(k, c.interrupts)])
            && states[4].locks == states[0].locks[k := Lock(true, c.interrupts)]
  {
  }

  lemma UnlockSteps(states: seq<State>, i: nat, k: nat, c: Cpu)
    requires |states| == 8 && i < |states[4].cpus| && k < |states[4].locks| && c.pc.Idle?
    requires states[4].cpus[i] == Cpu(false, Idle, c.held + [Guard(k, c.interrupts)])
    requires states[4].locks[k] == Lock(true, c.interrupts)
    requires Step(states[4], i, ReadSaved, states[5]) && Step(states[5], i, Release, states[6])
    requires Step(states[6], i, Enable, states[7])
    ensures i < |states[7].cpus| && states[7].cpus[i] == c
    ensures states[7].locks == states[4].locks[k := Lock(false, c.interrupts)]
  {
    var held := states[4].cpus[i].held;
    assert Top(held) == Guard(k, c.interrupts) && Rest(held) == c.held;
  }

  /** A critical section runs with interrupts off and leaves the CPU as it found it. */
  lemma CriticalSectionRestores(states: seq<State>, events: seq<Event>, i: nat)
    requires IsRun(states, events) && i < |states[0].cpus| && states[0].cpus[i].pc.Idle?
    requires events == [Event(i, EnterCritical), Event(i, DisableCritical), Event(i, LeaveCritical)]
    ensures i < |states[2].cpus| && !states[2].cpus[i].interrupts
    ensures states[3] == states[0]
  {
    assert Step(states[0], events[0].cpu, events[0].action, states[1]);
    assert Step(states[1], events[1].cpu, events[1].action, states[2]);
    assert Step(states[2], events[2].cpu, events[2].action, states[3]);
    var c := states[0].cpus[i];
    var held := c.held + [Critical(c.interrupts)];
    assert Top(held) == Critical(c.interrupts) && Rest(held) == c.held;
    assert states[3].cpus == states[0].cpus;
  }

  /** The flag an unlocking CPU goes back to is the one it had when it asked for the lock, whatever
      other CPUs did to the lock after the release store. */
  lemma UnlockRestoresOwnFlag(states: seq<State>, events: seq<Event>, n: nat, m: nat)
    requires IsRun(states, events) && Initial(states[0]) && n < m < |events|
    requires events[n].action.Release? && events[m].action.Enable? && events[m].cpu == events[n].cpu
    requires forall x: nat :: n < x < m ==> events[x].cpu != events[n].cpu
    ensures var i := events[n].cpu;
            && i < |states[n].cpus| && states[n].cpus[i].held != [] && Top(states[n].cpus[i].held).Guard?
            && i < |states[m + 1].cpus| && states[m + 1].cpus[i].interrupts == Top(states[n].cpus[i].held).entry
  {
    hide CpuOk, Owns, Guards;
    var i := events[n].cpu;
    InitialInvariant(states[0]);
    RunInvariant(states, events, n);
    RunInvariant(states, events, m);
    assert Step(states[n], i, events[n].action, states[n + 1]);
    Undisturbed(states, events, i, n + 1, m);
    assert Step(states[m], i, events[m].action, states[m + 1]);
    ReleasedFacts(states[n].cpus[i], states[n].locks, states[m].cpus[i], states[m].locks);
  }

  lemma ReleasedFacts(c: Cpu, l: seq<Lock>, c': Cpu, l': seq<Lock>)
    requires CpuOk(c, l) && c.pc.Restoring? && CpuOk(c', l') && c'.pc.Released?
    ensures c.held != [] && Top(c.held).Guard? && c'.pc.restore == c'.pc.entry && !c'.interrupts
  {
  }

  lemma {:induction false} Undisturbed(states: seq<State>, events: seq<Event>, i: nat, a: nat, b: nat)
    requires IsRun(states, events) && a <= b < |states| && i < |states[a].cpus|
    requires forall x: nat :: a <= x < b ==> events[x].cpu != i
    ensures i < |states[b].cpus| && states[b].cpus[i] == states[a].cpus[i]
    decreases b - a
  {
    hide Acts;
    if a < b {
      Undisturbed(states, events, i, a, b - 1);
      assert Step(states[b - 1], events[b - 1].cpu, events[b - 1].action, states[b]);
    }
  }

  /** The interrupt flag a CPU has outside all its sections. */
  ghost function Outer(c: Cpu): bool {
    if c.held != [] then c.held[0].entry else if c.pc.Released? then c.pc.entry else c.interrupts
  }

  lemma ActorKeepsOuter(l: seq<Lock>, c: Cpu, a: Action, l': seq<Lock>, c': Cpu)
    requires CpuOk(c, l) && Acts(l, c, a, l', c') && !a.SetFlag?
    ensures Outer(c') == Outer(c)
  {
    hide Guards, GuardOk;
  }

  lemma {:induction false} RunKeepsOuter(states: seq<State>, events: seq<Event>, j: nat, n: nat)
    requires IsRun(states, events) && Invariant(states[0]) && n < |states| && j < |states[0].cpus|
    requires forall x: nat :: x < n && events[x].cpu == j ==> !events[x].action.SetFlag?
    ensures j < |states[n].cpus| && Outer(states[n].cpus[j]) == Outer(states[0].cpus[j])
    decreases n
  {
    hide CpuOk, Acts, Outer;
    if n > 0 {
      RunKeepsOuter(states, events, j, n - 1);
      RunInvariant(states, events, n - 1);
      var e := events[n - 1];
      assert Step(states[n - 1], e.cpu, e.action, states[n]);
      if e.cpu == j {
        ActorKeepsOuter(states[n - 1].locks, states[n - 1].cpus[j], e.action, states[n].locks, states[n].cpus[j]);
      }
    }
  }

  /** Any nesting of locks and critical sections leaves the flag as it was: between two idle moments
      of a CPU with the same open sections the flag is the same. */
  lemma NestingRestoresFlag(states: seq<State>, events: seq<Event>, j: nat, n: nat)
    requires IsRun(states, events) && Invariant(states[0]) && n < |states| && j < |states[0].cpus|
    requires forall x: nat :: x < n && events[x].cpu == j ==> !events[x].action.SetFlag?
    requires j < |states[n].cpus| && states[0].cpus[j].pc.Idle? && states[n].cpus[j].pc.Idle?
    requires states[n].cpus[j].held == states[0].cpus[j].held
    ensures states[n].cpus[j].interrupts == states[0].cpus[j].interrupts
  {
    hide Acts, Guards, GuardOk;
    RunKeepsOuter(states, events, j, n);
    RunInvariant(states, events, n);
    assert CpuOk(states[0].cpus[j], states[0].locks) && CpuOk(states[n].cpus[j], states[n].locks);
  }
}
