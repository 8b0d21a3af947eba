/**
 The spinlock of lib/libos/arch/i386/_spinlock.asm, run by any number of CPUs whose
 instructions interleave.  A step is one instruction's access to the lock word, or the
 register work between two of them; exchange, compare and store are atomic.
 */
module Spinlock {
  import opened Common

  /** Where a CPU is.  Xchg to Wait are the instructions of _spinlock_acquire, XchgOnce and
      DecideOnce those of _spinlock_test, Store that of _spinlock_release. */
  datatype Pc = Idle | Xchg | Decide | Wait | XchgOnce | DecideOnce | GotLock | Held | Store

  datatype Cpu = Cpu(pc: Pc, eax: int)

  datatype State = State(lock: int, cpus: seq<Cpu>)

  /** What a CPU calls next where it has a choice. */
  datatype Call = Acquire | Test | Release | Nothing

  /** What the caller may do: take the lock when it does not hold it, release it when it does. */
  function Entered(cpu: Cpu, call: Call): Cpu {
    match (cpu.pc, call)
    case (Idle, Acquire) => Cpu(Xchg, 1)
    case (Idle, Test) => Cpu(XchgOnce, 1)
    case (Held, Release) => Cpu(Store, cpu.eax)
    case _ => cpu
  }

  /** One step of one CPU on its registers and the lock word. */
  function Executed(lock: int, cpu: Cpu, call: Call): (int, Cpu) {
    match cpu.pc
    case Idle | Held => (lock, Entered(cpu, call))
    case Xchg => (cpu.eax, Cpu(Decide, lock))
    case Decide => (lock, cpu.(pc := if cpu.eax == 0 then GotLock else Wait))
    case Wait => (lock, cpu.(pc := if lock != 0 then Wait else Xchg))
    case XchgOnce => (cpu.eax, Cpu(DecideOnce, lock))
    case DecideOnce => (lock, if cpu.eax == 0 then cpu.(pc := GotLock) else Cpu(Idle, 0))
    case GotLock => (lock, Cpu(Held, 1))
    case Store => (0, cpu.(pc := Idle))
  }

  function Step(s: State, c: nat, call: Call): State
    requires c < |s.cpus|
  {
    var (lock, cpu) := Executed(s.lock, s.cpus[c], call);
    State(lock, s.cpus[c := cpu])
  }

  /** Which CPU moves, and what it calls if it is at a call. */
  datatype Move = Move(cpu: nat, call: Call)

  function Run(s: State, moves: seq<Move>): (t: State)
    requires forall m :: m in moves ==> m.cpu < |s.cpus|
    ensures |t.cpus| == |s.cpus|
    decreases |moves|
  {
    if moves == [] then s else Run(Step(s, moves[0].cpu, moves[0].call), moves[1..])
  }

  function Start(cpus: nat): State {
    State(0, seq(cpus, _ => Cpu(Idle, 0)))
  }

  // ---------- What every run keeps ----------

  /** The CPU has the lock: its exchange read 0 and it has not stored 0 since. */
  predicate Owns(cpu: Cpu) {
    cpu.pc in {GotLock, Held, Store} || (cpu.pc in {Decide, DecideOnce} && cpu.eax == 0)
  }

  /** Each exchange writes 1, also a retry, though nothing sets the register again; and each
      read 0 or 1. */
  predicate RegisterOk(cpu: Cpu) {
    && (cpu.pc in {Xchg, XchgOnce, Wait, Held} ==> cpu.eax == 1)
    && (cpu.pc in {Decide, DecideOnce} ==> cpu.eax == 0 || cpu.eax == 1)
  }

  ghost predicate Sound(s: State) {
    && (forall c :: 0 <= c < |s.cpus| ==> RegisterOk(s.cpus[c]))
    && (s.lock == 0 || s.lock == 1)
    && (s.lock == 1 <==> exists c :: 0 <= c < |s.cpus| && Owns(s.cpus[c]))
    && (forall c, d :: 0 <= c < |s.cpus| && 0 <= d < |s.cpus| && Owns(s.cpus[c]) && Owns(s.cpus[d]) ==> c == d)
  }

  lemma StepKeeps(s: State, c: nat, call: Call)
    requires Sound(s) && c < |s.cpus|
    ensures Sound(Step(s, c, call))
  {
    var t := Step(s, c, call);
    forall d | 0 <= d < |s.cpus| && d != c ensures t.cpus[d] == s.cpus[d] {}
    if d :| 0 <= d < |s.cpus| && Owns(s.cpus[d]) {
      assert t.lock == 1 ==> Owns(t.cpus[d]);
    } else if t.lock == 1 {
      assert Owns(t.cpus[c]);
    }
  }

  lemma {:induction false} RunKeeps(s: State, moves: seq<Move>)
    requires Sound(s) && forall m :: m in moves ==> m.cpu < |s.cpus|
    ensures Sound(Run(s, moves))
    decreases |moves|
  {
    if moves != [] {
      StepKeeps(s, moves[0].cpu, moves[0].call);
      RunKeeps(Step(s, moves[0].cpu, moves[0].call), moves[1..]);
    }
  }

  /**
   Over every interleaving of any number of CPUs the lock word is 0 or 1, is 1 exactly when
   a CPU has the lock, at most one CPU has it, and every exchange, a retry too, writes 1.
   */
  lemma RunsExclude(cpus: nat, moves: seq<Move>)
    requires forall m :: m in moves ==> m.cpu < cpus
    ensures var s := Run(Start(cpus), moves);
      && (s.lock == 0 || s.lock == 1)
      && (s.lock == 1 <==> exists c :: 0 <= c < cpus && Owns(s.cpus[c]))
      && (forall c, d :: 0 <= c < cpus && 0 <= d < cpus && Owns(s.cpus[c]) && Owns(s.cpus[d]) ==> c == d)
      && (forall c :: 0 <= c < cpus && s.cpus[c].pc in {Xchg, XchgOnce} ==> s.cpus[c].eax == 1)
  {
    RunKeeps(Start(cpus), moves);
  }

  // ---------- The lock as its users see it ----------

  ghost function Owner(s: State): (owner: Option<nat>)
    requires Sound(s)
    ensures owner.Some? <==> s.lock == 1
    ensures owner.Some? ==> owner.value < |s.cpus| && Owns(s.cpus[owner.value])
  {
    if c: nat :| c < |s.cpus| && Owns(s.cpus[c]) then Some(c) else None
  }

  lemma OwnerIs(s: State, c: nat)
    requires Sound(s) && c < |s.cpus| && Owns(s.cpus[c])
    ensures Owner(s) == Some(c)
  {
  }

  /**
   A step is a step of the abstract lock: it takes a free lock with an exchange, gives back
   its own lock with the store, or leaves the owner as it is.  An exchange on a free lock
   always takes it.
   */
  lemma StepRefines(s: State, c: nat, call: Call)
    requires Sound(s) && c < |s.cpus|
    ensures Sound(Step(s, c, call))
    ensures var pc, before, after := s.cpus[c].pc, Owner(s), Owner(Step(s, c, call));
      if pc in {Xchg, XchgOnce} && before == None then after == Some(c)
      else if pc.Store? then before == Some(c) && after == None
      else after == before
  {
    StepKeeps(s, c, call);
    var t := Step(s, c, call);
    if Owner(s).Some? {
      var d := Owner(s).value;
      if Owns(t.cpus[d]) {
        OwnerIs(t, d);
      }
    }
    if Owns(t.cpus[c]) {
      OwnerIs(t, c);
    }
    if Owns(s.cpus[c]) {
      OwnerIs(s, c);
    }
  }

  /** However the others are scheduled, the owner stays the owner until it moves itself. */
  lemma {:induction false} OthersNeverTakeIt(s: State, owner: nat, moves: seq<Move>)
    requires Sound(s) && Owner(s) == Some(owner)
    requires forall m :: m in moves ==> m.cpu < |s.cpus| && m.cpu != owner
    ensures Sound(Run(s, moves)) && Owner(Run(s, moves)) == Some(owner)
    ensures Run(s, moves).cpus[owner] == s.cpus[owner]
    decreases |moves|
  {
    if moves != [] {
      var c, call := moves[0].cpu, moves[0].call;
      StepRefines(s, c, call);
      assert !Owns(s.cpus[c]);
      OthersNeverTakeIt(Step(s, c, call), owner, moves[1..]);
    }
  }

  /** How many steps of its own a CPU in the acquire loop still needs while the lock is free. */
  function StepsLeft(cpu: Cpu): nat {
    match cpu.pc
    case Xchg => 3
    case Wait => 4
    case Decide => if cpu.eax == 0 then 2 else 5
    case GotLock => 1
    case _ => 0
  }

  /** A CPU that waits gets the lock once it is free and the CPU is left alone. */
  lemma {:induction false} LoneWaiterGetsLock(s: State, c: nat)
    requires Sound(s) && c < |s.cpus|
    requires s.cpus[c].pc in {Xchg, Wait, Decide, GotLock}
    requires s.lock == 0 || Owns(s.cpus[c])
    ensures var moves := seq(StepsLeft(s.cpus[c]), _ => Move(c, Nothing));
      Run(s, moves).cpus[c] == Cpu(Held, 1) && Run(s, moves).lock == 1
    decreases StepsLeft(s.cpus[c])
  {
    var moves := seq(StepsLeft(s.cpus[c]), _ => Move(c, Nothing));
    var t := Step(s, c, Nothing);
    StepKeeps(s, c, Nothing);
    assert moves[1..] == seq(StepsLeft(s.cpus[c]) - 1, _ => Move(c, Nothing));
    assert moves[0] == Move(c, Nothing);
    if s.cpus[c].pc.GotLock? {
      assert Run(t, moves[1..]) == t;
    } else {
      LoneWaiterGetsLock(t, c);
    }
  }

  /** _spinlock_test answers 1 and has the lock, or answers 0 and has not: whichever moves of
      other CPUs fall between its exchange and its end. */
  lemma TestAnswers(s: State, c: nat, others: seq<Move>)
    requires Sound(s) && c < |s.cpus| && s.cpus[c].pc.XchgOnce?
    requires forall m :: m in others ==> m.cpu < |s.cpus| && m.cpu != c
    ensures var t := Run(Step(s, c, Nothing), others);
      var u := Step(t, c, Nothing);
      if s.lock == 0 then u.cpus[c].pc.GotLock? && Step(u, c, Nothing).cpus[c] == Cpu(Held, 1) else u.cpus[c] == Cpu(Idle, 0)
  {
    OthersLeaveRegisters(Step(s, c, Nothing), c, others);
  }

  lemma {:induction false} OthersLeaveRegisters(s: State, c: nat, others: seq<Move>)
    requires c < |s.cpus| && forall m :: m in others ==> m.cpu < |s.cpus| && m.cpu != c
    ensures Run(s, others).cpus[c] == s.cpus[c]
    decreases |others|
  {
    if others != [] {
      OthersLeaveRegisters(Step(s, others[0].cpu, others[0].call), c, others[1..]);
    }
  }

  // ---------- What a call does ----------

  /** acquire on a free lock, with the others at rest: the caller has the lock after its call
      and three more steps. */
  lemma AcquireTakesFreeLock(s: State, c: nat)
    requires c < |s.cpus| && s.cpus[c].pc.Idle? && s.lock == 0
    ensures var t := Run(Step(s, c, Acquire), seq(3, _ => Move(c, Nothing)));
      t.lock == 1 && t.cpus[c] == Cpu(Held, 1)
  {
    Unfolded(Step(s, c, Acquire), Move(c, Nothing), 3);
    var t := Step(Step(s, c, Acquire), c, Nothing);
    Unfolded(t, Move(c, Nothing), 2);
    Unfolded(Step(t, c, Nothing), Move(c, Nothing), 1);
  }

  lemma Unfolded(s: State, m: Move, n: nat)
    requires m.cpu < |s.cpus| && n > 0
    ensures Run(s, seq(n, _ => m)) == Run(Step(s, m.cpu, m.call), seq(n - 1, _ => m))
    ensures seq(0, _ => m) == []
  {
    assert seq(n, _ => m)[1..] == seq(n - 1, _ => m);
    assert seq(n, _ => m)[0] == m;
  }

  /** On a lock that another CPU owns, the caller comes to wait, whatever the others do. */
  lemma AcquireWaitsForOwner(s: State, c: nat, owner: nat, first: seq<Move>, second: seq<Move>)
    requires Sound(s) && c < |s.cpus| && s.cpus[c].pc.Idle? && Owner(s) == Some(owner) && owner != c
    requires forall m :: m in first + second ==> m.cpu < |s.cpus| && m.cpu != c && m.cpu != owner
    ensures var t := Step(Run(Step(s, c, Acquire), first), c, Nothing);
      Step(Run(t, second), c, Nothing).cpus[c] == Cpu(Wait, 1)
  {
    var called := Step(s, c, Acquire);
    StepRefines(s, c, Acquire);
    assert forall m :: m in first ==> m in first + second;
    assert forall m :: m in second ==> m in first + second;
    OthersNeverTakeIt(called, owner, first);
    OthersLeaveRegisters(called, c, first);
    var before := Run(called, first);
    StepKeeps(before, c, Nothing);
    OthersLeaveRegisters(Step(before, c, Nothing), c, second);
  }

  /** A CPU that waits only reads: as long as the owner does not move, it goes on waiting and
      the lock word stays as it is. */
  lemma {:induction false} WaiterWaits(s: State, c: nat, owner: nat, moves: seq<Move>)
    requires Sound(s) && c < |s.cpus| && s.cpus[c].pc.Wait? && Owner(s) == Some(owner)
    requires forall m :: m in moves ==> m.cpu < |s.cpus| && m.cpu != owner
    ensures Run(s, moves).cpus[c] == Cpu(Wait, 1) && Run(s, moves).lock == 1
    decreases |moves|
  {
    if moves != [] {
      var t := Step(s, moves[0].cpu, moves[0].call);
      StepRefines(s, moves[0].cpu, moves[0].call);
      assert !Owns(s.cpus[moves[0].cpu]) by {
        assert Owns(s.cpus[owner]);
      }
      WaiterWaits(t, c, owner, moves[1..]);
    }
  }

  predicate Acquiring(cpu: Cpu) {
    cpu.pc in {Xchg, Decide, Wait, GotLock}
  }

  /** The CPU holds the lock now, or after some of the moves. */
  predicate ComesToHold(s: State, c: nat, moves: seq<Move>)
    requires c < |s.cpus| && forall m :: m in moves ==> m.cpu < |s.cpus|
    decreases |moves|
  {
    s.cpus[c] == Cpu(Held, 1) || (moves != [] && ComesToHold(Step(s, moves[0].cpu, moves[0].call), c, moves[1..]))
  }

  /** Over every schedule, a CPU in the acquire loop stays there until it holds the lock. */
  lemma {:induction false} AcquireNeverGivesUp(s: State, c: nat, moves: seq<Move>)
    requires c < |s.cpus| && Acquiring(s.cpus[c])
    requires forall m :: m in moves ==> m.cpu < |s.cpus|
    ensures Acquiring(Run(s, moves).cpus[c]) || ComesToHold(s, c, moves)
    decreases |moves|
  {
    if moves != [] {
      var t := Step(s, moves[0].cpu, moves[0].call);
      if Acquiring(t.cpus[c]) {
        AcquireNeverGivesUp(t, c, moves[1..]);
      } else {
        assert ComesToHold(t, c, moves[1..]);
      }
    }
  }

  /** Over every schedule, a CPU that calls acquire is not outside again before it has held
      the lock. */
  lemma AcquireReturnsWithLock(s: State, c: nat, moves: seq<Move>)
    requires c < |s.cpus| && s.cpus[c].pc.Idle?
    requires forall m :: m in moves ==> m.cpu < |s.cpus|
    ensures var t := Step(s, c, Acquire);
      Run(t, moves).cpus[c].pc in {Xchg, Decide, Wait, GotLock} || ComesToHold(t, c, moves)
  {
    AcquireNeverGivesUp(Step(s, c, Acquire), c, moves);
  }

  /** release by the holder: whatever the others do between its call and its store, the store
      leaves the lock free, without an owner, and the caller outside. */
  lemma ReleaseGivesBack(s: State, c: nat, others: seq<Move>)
    requires Sound(s) && c < |s.cpus| && s.cpus[c].pc.Held?
    requires forall m :: m in others ==> m.cpu < |s.cpus| && m.cpu != c
    ensures var t := Step(Run(Step(s, c, Release), others), c, Nothing);
      Sound(t) && t.lock == 0 && t.cpus[c].pc.Idle? && Owner(t) == None
  {
    OwnerIs(s, c);
    StepRefines(s, c, Release);
    OthersNeverTakeIt(Step(s, c, Release), c, others);
    StepRefines(Run(Step(s, c, Release), others), c, Nothing);
  }

  /** test from its call on: the answer depends on the lock word at the exchange alone. */
  lemma TestCalled(s: State, c: nat, before: seq<Move>, after: seq<Move>)
    requires Sound(s) && c < |s.cpus| && s.cpus[c].pc.Idle?
    requires forall m :: m in before + after ==> m.cpu < |s.cpus| && m.cpu != c
    ensures var t := Run(Step(s, c, Test), before);
      var u := Step(Run(Step(t, c, Nothing), after), c, Nothing);
      if t.lock == 0 then u.cpus[c].pc.GotLock? && Step(u, c, Nothing).cpus[c] == Cpu(Held, 1) else u.cpus[c] == Cpu(Idle, 0)
  {
    assert forall m :: m in before ==> m in before + after;
    assert forall m :: m in after ==> m in before + after;
    var t := Step(s, c, Test);
    StepKeeps(s, c, Test);
    RunKeeps(t, before);
    OthersLeaveRegisters(t, c, before);
    TestAnswers(Run(t, before), c, after);
  }

  // ---------- A store from outside the protocol ----------

  /** The store of a release: nothing checks that its CPU has the lock. */
  function Stored(s: State): State {
    s.(lock := 0)
  }

  /** A store from outside the protocol keeps the lock sound exactly when no CPU has it. */
  lemma StrayStoreIsSoundExactly(s: State)
    requires Sound(s)
    ensures Sound(Stored(s)) <==> Owner(s) == None
  {
    if Owner(s).Some? {
      assert Owns(Stored(s).cpus[Owner(s).value]);
    }
  }

  /** Otherwise any waiting CPU joins the owner. */
  lemma StrayStoreAdmitsSecond(s: State, c: nat)
    requires Sound(s) && c < |s.cpus| && s.cpus[c].pc.Xchg? && Owner(s).Some?
    ensures Owner(s).value != c
    ensures Owns(Step(Stored(s), c, Nothing).cpus[c]) && Owns(Step(Stored(s), c, Nothing).cpus[Owner(s).value])
  {
  }
}
