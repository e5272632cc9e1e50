/**
 * PhilosopherTable and Philosopher as objects. Each philosopher thread's
 * `run` loop is cut into its atomic steps, one method per step, and every
 * step is proved to be the step `Dining.Next` describes. The table's
 * invariant carries `Dining.Inv`, from which the safety of the table follows.
 */
module Philosophers {
  import Ring
  import opened Forks
  import opened Dining

  class PhilosopherTable {
    const philoCount: int
    const philosophers: array<Philosopher?>
    const forkManager: ForkManager

    /**
     * All seats are filled, seat j holds philosopher j, each `philoState` is
     * what the code has written at that philosopher's position, and the
     * state machine invariant holds.
     */
    ghost predicate Valid()
      reads this, philosophers, philosophers[..], forkManager.forks
    {
      1 <= philoCount && philosophers.Length == philoCount &&
      forkManager.nrForks == philoCount && forkManager.Valid() &&
      (forall j :: 0 <= j < philoCount ==>
        philosophers[j] != null && philosophers[j].id == j && philosophers[j].table == this &&
        philosophers[j].philoState == StateAsWritten(philosophers[j].pc)) &&
      Inv(Abstract())
    }

    /** The table as a state of the Dining state machine. */
    ghost function Abstract(): (t: Table)
      reads this, philosophers, philosophers[..], forkManager.forks
      requires 1 <= philosophers.Length == forkManager.forks.Length
      requires forall j :: 0 <= j < philosophers.Length ==> philosophers[j] != null
      ensures WellFormed(t) && Size(t) == philosophers.Length
      ensures forall j :: 0 <= j < philosophers.Length ==> t.pcs[j] == philosophers[j].pc
      ensures t.forks == forkManager.forks[..]
    {
      Table(seq(philosophers.Length,
                j requires 0 <= j < philosophers.Length && philosophers[j] != null
                  reads philosophers, philosophers[..] => philosophers[j].pc),
            forkManager.forks[..])
    }

    /** Creates the fork manager and the philosophers, the last seat first. */
    constructor (philoCount: int)
      requires 1 <= philoCount
      ensures Valid() && this.philoCount == philoCount
      ensures Abstract() == Init(philoCount)
      ensures forall j :: 0 <= j < philoCount ==> philosophers[j].philoState == THINKING
      ensures fresh(philosophers) && fresh(forkManager) && fresh(forkManager.forks)
    {
      this.philoCount := philoCount;
      philosophers := new Philosopher?[philoCount];
      forkManager := new ForkManager(philoCount);
      new;
      var i := philoCount - 1;
      while i >= 0
        invariant -1 <= i < philoCount
        invariant forall j :: i < j < philoCount ==>
          philosophers[j] != null && philosophers[j].id == j && philosophers[j].table == this &&
          philosophers[j].pc == Thinking && philosophers[j].philoState == THINKING
        modifies philosophers
      {
        philosophers[i] := new Philosopher(this, i);
        i := i - 1;
      }
      assert Abstract() == Init(philoCount);
      InitInv(philoCount);
    }

    /** `left(i)`: the philosopher to the left of seat i. */
    function Left(i: int): (r: int)
      requires philoCount != 0
      ensures 0 <= i < philoCount ==> 0 <= r < philoCount && Ring.Right(philoCount, r) == i
    {
      Ring.Left(philoCount, i)
    }

    /** `right(i)`: the philosopher to the right of seat i. */
    function Right(i: int): (r: int)
      requires philoCount != 0
      ensures 0 <= i < philoCount ==> 0 <= r < philoCount && Ring.Left(philoCount, r) == i
    {
      Ring.Right(philoCount, i)
    }

    /**
     * Philosophers i and right(i) are never both between `eat()` and
     * `putForks()`. Their `philoState` can still both read EATING, since it
     * stays EATING after `putForks()` until the next `think()`.
     */
    lemma NeighboursNotBothEating(i: int)
      requires Valid() && 0 <= i < philoCount
      ensures !(philosophers[i].pc == Eating && philosophers[Right(i)].pc == Eating)
    {
      AdjacentNeverBothEating(Abstract(), i);
    }

    /** A philosopher between `eat()` and `putForks()` has both its forks OCCUPIED. */
    lemma EatingPhilosopherHasForks(i: int)
      requires Valid() && 0 <= i < philoCount && philosophers[i].pc == Eating
      ensures philosophers[i].philoState == EATING
      ensures forkManager.forks[i] == OCCUPIED && forkManager.forks[Right(i)] == OCCUPIED
    {
      EatingHoldsBothForks(Abstract(), i);
    }
  }

  class Philosopher {
    const id: int
    const table: PhilosopherTable
    var philoState: PhiloState
    /** Where this philosopher's `run` loop stands; the source keeps it in the thread's control flow. */
    var pc: Pc

    constructor (table: PhilosopherTable, id: int)
      ensures this.id == id && this.table == table
      ensures philoState == THINKING && pc == Thinking
    {
      this.id := id;
      this.table := table;
      philoState := THINKING;
      pc := Thinking;
    }

    /** This philosopher sits at seat id of a valid table. */
    ghost predicate Seated()
      reads this, table, table.philosophers, table.philosophers[..], table.forkManager.forks
    {
      table.Valid() && 0 <= id < table.philoCount && table.philosophers[id] == this
    }

    /** The next step of the run loop is not blocked in `acquireFork`. */
    ghost predicate CanStep()
      reads this, table, table.philosophers, table.philosophers[..], table.forkManager.forks
      requires Seated()
    {
      Enabled(table.Abstract(), id)
    }

    /** First half of `takeForks()`: becomes HUNGRY. */
    method StartTakeForks()
      requires Seated() && pc == Thinking
      modifies this
      ensures Seated() && philoState == HUNGRY && pc == Hungry
      ensures table.Abstract() == Next(old(table.Abstract()), id)
    {
      philoState := HUNGRY;
      pc := Hungry;
      StepDone(old(table.Abstract()));
    }

    /** `takeForks()` takes fork id; blocked while it is OCCUPIED. */
    method AcquireOwnFork()
      requires Seated() && pc == Hungry && CanStep()
      modifies this, table.forkManager.forks
      ensures Seated() && philoState == HUNGRY && pc == HoldsOwn
      ensures table.forkManager.forks[id] == OCCUPIED
      ensures table.Abstract() == Next(old(table.Abstract()), id)
    {
      var mgr := table.forkManager;
      var acquired := mgr.AcquireFork(id, false);
      pc := HoldsOwn;
      StepDone(old(table.Abstract()));
    }

    /** `takeForks()` takes fork right(id); blocked while it is OCCUPIED. */
    method AcquireRightFork()
      requires Seated() && pc == HoldsOwn && CanStep()
      modifies this, table.forkManager.forks
      ensures Seated() && philoState == HUNGRY && pc == HoldsBoth
      ensures table.forkManager.forks[id] == OCCUPIED
      ensures table.forkManager.forks[table.Right(id)] == OCCUPIED
      ensures table.Abstract() == Next(old(table.Abstract()), id)
    {
      var mgr := table.forkManager;
      var acquired := mgr.AcquireFork(mgr.Right(id), false);
      pc := HoldsBoth;
      StepDone(old(table.Abstract()));
      assert ForkInv(table.Abstract(), id);
    }

    /** `eat()`: becomes EATING, holding both forks. */
    method Eat()
      requires Seated() && pc == HoldsBoth
      modifies this
      ensures Seated() && philoState == EATING && pc == Eating
      ensures table.Abstract() == Next(old(table.Abstract()), id)
    {
      philoState := EATING;
      pc := Eating;
      StepDone(old(table.Abstract()));
    }

    /** First half of `putForks()`: releases fork id; `philoState` stays EATING. */
    method PutOwnFork()
      requires Seated() && pc == Eating
      modifies this, table.forkManager.forks
      ensures Seated() && philoState == EATING && pc == ReleasedOwn
      ensures table.forkManager.forks[id] == FREE
      ensures table.Abstract() == Next(old(table.Abstract()), id)
    {
      table.forkManager.ReleaseFork(id);
      pc := ReleasedOwn;
      StepDone(old(table.Abstract()));
    }

    /** Second half of `putForks()`: releases fork right(id); `philoState` still EATING. */
    method PutRightFork()
      requires Seated() && pc == ReleasedOwn
      modifies this, table.forkManager.forks
      ensures Seated() && philoState == EATING && pc == Released
      ensures table.forkManager.forks[table.Right(id)] == FREE
      ensures table.Abstract() == Next(old(table.Abstract()), id)
    {
      var mgr := table.forkManager;
      mgr.ReleaseFork(mgr.Right(id));
      pc := Released;
      StepDone(old(table.Abstract()));
    }

    /** `think()`: THINKING again, at the top of the run loop. */
    method Think()
      requires Seated() && pc == Released
      modifies this
      ensures Seated() && philoState == THINKING && pc == Thinking
      ensures table.Abstract() == Next(old(table.Abstract()), id)
    {
      philoState := THINKING;
      pc := Thinking;
      StepDone(old(table.Abstract()));
    }

    /** The next atomic step of the `run` loop; one pass of the loop body is seven of them. */
    method RunStep()
      requires Seated() && CanStep()
      modifies this, table.forkManager.forks
      ensures Seated() && pc == NextPc(old(pc))
      ensures table.Abstract() == Next(old(table.Abstract()), id)
    {
      match pc
      case Thinking => StartTakeForks();
      case Hungry => AcquireOwnFork();
      case HoldsOwn => AcquireRightFork();
      case HoldsBoth => Eat();
      case Eating => PutOwnFork();
      case ReleasedOwn => PutRightFork();
      case Released => Think();
    }

    /**
     * Closes a step: when only this philosopher's fields and its own forks
     * changed, in the way `Dining.Next` prescribes, the table is the next state
     * and still satisfies its invariant.
     */
    ghost method StepDone(before: Table)
      requires table.philosophers.Length == table.philoCount >= 1
      requires table.forkManager.forks.Length == table.philoCount
      requires 0 <= id < table.philoCount && table.philosophers[id] == this
      requires forall j :: 0 <= j < table.philoCount ==>
        table.philosophers[j] != null && table.philosophers[j].id == j && table.philosophers[j].table == table
      requires forall j :: 0 <= j < table.philoCount && j != id ==>
        table.philosophers[j].philoState == StateAsWritten(table.philosophers[j].pc)
      requires Inv(before) && Size(before) == table.philoCount && Enabled(before, id)
      requires forall j :: 0 <= j < table.philoCount && j != id ==> table.philosophers[j].pc == before.pcs[j]
      requires table.forkManager.nrForks == table.philoCount
      requires philoState == StateAsWritten(pc) && pc == NextPc(before.pcs[id])
      requires table.forkManager.forks[..] == Next(before, id).forks
      ensures Seated() && table.Abstract() == Next(before, id)
    {
      NextMovesOneLoopPosition(before, id);
      NextInv(before, id);
      assert table.Abstract() == Next(before, id);
    }
  }
}
