/**
 * The dining philosophers as a state machine. A state holds, for each
 * philosopher, where its `run` loop stands (a program counter), and the fork
 * slots of the ForkManager. One step is one philosopher doing its next atomic
 * action: a write of its own `philoState` or one ForkManager call. A blocked
 * `acquireFork` is a step that is not enabled.
 */
module Dining {
  import Ring
  import opened Forks
  import opened Options

  datatype PhiloState = THINKING | HUNGRY | EATING

  /** The position of a philosopher in `think(); takeForks(); eat(); putForks();`. */
  datatype Pc =
    | Thinking     // think() has run (also the starting position); next: takeForks() sets HUNGRY
    | Hungry       // next: acquireFork(id)
    | HoldsOwn     // holds fork id; next: acquireFork(right(id))
    | HoldsBoth    // takeForks() returned; next: eat() sets EATING
    | Eating       // next: putForks() releases fork id
    | ReleasedOwn  // holds fork right(id) only; next: releaseFork(right(id))
    | Released     // putForks() returned; next: think() sets THINKING

  datatype Table = Table(pcs: seq<Pc>, forks: seq<ForkState>)

  /** One program counter and one fork per seat, at least one seat. */
  predicate WellFormed(t: Table)
  {
    1 <= |t.pcs| && |t.forks| == |t.pcs|
  }

  function Size(t: Table): int
  {
    |t.pcs|
  }

  /** A table as PhilosopherTable's constructor leaves it. */
  function Init(n: int): (t: Table)
    requires 1 <= n
    ensures WellFormed(t) && Size(t) == n
    ensures forall i :: 0 <= i < n ==> t.pcs[i] == Thinking && t.forks[i] == FREE
  {
    Table(seq(n, _ => Thinking), seq(n, _ => FREE))
  }

  /** The `philoState` the source shows at each position: it stays EATING until the next think(). */
  function StateAsWritten(pc: Pc): (s: PhiloState)
    ensures s == EATING <==> pc in {Eating, ReleasedOwn, Released}
    ensures s == HUNGRY <==> pc in {Hungry, HoldsOwn, HoldsBoth}
  {
    match pc
    case Thinking => THINKING
    case Hungry | HoldsOwn | HoldsBoth => HUNGRY
    case Eating | ReleasedOwn | Released => EATING
  }

  /** The `philoState` when putForks() sets THINKING before it releases the first fork. */
  function State(pc: Pc): (s: PhiloState)
    ensures s == EATING <==> pc == Eating
    ensures s == HUNGRY <==> pc in {Hungry, HoldsOwn, HoldsBoth}
  {
    match pc
    case Thinking | ReleasedOwn | Released => THINKING
    case Hungry | HoldsOwn | HoldsBoth => HUNGRY
    case Eating => EATING
  }

  /** Positions at which a philosopher holds its own fork id. */
  predicate HoldsOwnFork(pc: Pc)
  {
    pc in {HoldsOwn, HoldsBoth, Eating}
  }

  /** Positions at which a philosopher holds its right fork right(id). */
  predicate HoldsRightFork(pc: Pc)
  {
    pc in {HoldsBoth, Eating, ReleasedOwn}
  }

  /** Philosopher p holds fork f. */
  predicate Holds(t: Table, p: int, f: int)
    requires WellFormed(t) && 0 <= p < Size(t)
  {
    (HoldsOwnFork(t.pcs[p]) && f == p) || (HoldsRightFork(t.pcs[p]) && f == Ring.Right(Size(t), p))
  }

  /**
   * Philosopher i can take its next step: the wait loop of `acquireFork` is
   * the only place that blocks, and it blocks while the fork is OCCUPIED.
   */
  predicate Enabled(t: Table, i: int): (r: bool)
    requires WellFormed(t) && 0 <= i < Size(t)
    ensures !r ==> t.pcs[i] == Hungry || t.pcs[i] == HoldsOwn
    ensures t.pcs[i] == Hungry ==> (r <==> t.forks[i] == FREE)
    ensures t.pcs[i] == HoldsOwn ==> (r <==> t.forks[Ring.Right(Size(t), i)] == FREE)
  {
    match t.pcs[i]
    case Hungry => t.forks[i] == FREE
    case HoldsOwn => t.forks[Ring.Right(Size(t), i)] == FREE
    case _ => true
  }

  /** The table after philosopher i takes its next step. */
  function Next(t: Table, i: int): (t': Table)
    requires WellFormed(t) && 0 <= i < Size(t) && Enabled(t, i)
    ensures WellFormed(t') && Size(t') == Size(t)
    ensures forall j :: 0 <= j < Size(t) && j != i ==> t'.pcs[j] == t.pcs[j]
  {
    var n := Size(t);
    match t.pcs[i]
    case Thinking => Table(t.pcs[i := Hungry], t.forks)
    case Hungry => Table(t.pcs[i := HoldsOwn], t.forks[i := OCCUPIED])
    case HoldsOwn => Table(t.pcs[i := HoldsBoth], t.forks[Ring.Right(n, i) := OCCUPIED])
    case HoldsBoth => Table(t.pcs[i := Eating], t.forks)
    case Eating => Table(t.pcs[i := ReleasedOwn], t.forks[i := FREE])
    case ReleasedOwn => Table(t.pcs[i := Released], t.forks[Ring.Right(n, i) := FREE])
    case Released => Table(t.pcs[i := Thinking], t.forks)
  }

  /** The position that follows pc in the run loop. */
  function NextPc(pc: Pc): Pc
  {
    match pc
    case Thinking => Hungry
    case Hungry => HoldsOwn
    case HoldsOwn => HoldsBoth
    case HoldsBoth => Eating
    case Eating => ReleasedOwn
    case ReleasedOwn => Released
    case Released => Thinking
  }

  /** A step moves the stepping philosopher along its loop and touches only its own forks. */
  lemma NextMovesOneLoopPosition(t: Table, i: int)
    requires WellFormed(t) && 0 <= i < Size(t) && Enabled(t, i)
    ensures Next(t, i).pcs == t.pcs[i := NextPc(t.pcs[i])]
    ensures forall f :: 0 <= f < Size(t) && f != i && f != Ring.Right(Size(t), i) ==>
      Next(t, i).forks[f] == t.forks[f]
  {
  }

  // ---------------------------------------------------------------- traces

  /** Runs the philosophers named by `trace`, one step each; None once a step is not enabled. */
  function Run(t: Table, trace: seq<int>): (r: Option<Table>)
    requires WellFormed(t)
    ensures r.Some? ==> WellFormed(r.value) && Size(r.value) == Size(t)
    decreases |trace|
  {
    if trace == [] then Some(t)
    else
      match Run(t, trace[..|trace| - 1])
      case None => None
      case Some(s) =>
        var i := trace[|trace| - 1];
        if 0 <= i < Size(s) && Enabled(s, i) then Some(Next(s, i)) else None
  }


  /** Appending an enabled step to a run takes that step. */
  lemma RunSnoc(t: Table, trace: seq<int>, i: int)
    requires WellFormed(t) && Run(t, trace).Some?
    requires 0 <= i < Size(t) && Enabled(Run(t, trace).value, i)
    ensures Run(t, trace + [i]) == Some(Next(Run(t, trace).value, i))
  {
    assert (trace + [i])[..|trace|] == trace;
  }

  /** A table that some run from the initial table of n seats reaches. */
  ghost predicate Reachable(n: int, t: Table)
  {
    1 <= n && exists trace :: Run(Init(n), trace) == Some(t)
  }

  // ------------------------------------------------------------- invariant

  /**
   * Fork f can be held only by philosopher f (as its own fork) or by
   * philosopher left(f) (as its right fork). Never both at once, and the slot
   * is OCCUPIED exactly when one of them holds it.
   */
  predicate ForkInv(t: Table, f: int)
    requires WellFormed(t) && 0 <= f < Size(t)
  {
    var l := Ring.Left(Size(t), f);
    !(HoldsOwnFork(t.pcs[f]) && HoldsRightFork(t.pcs[l])) &&
    (t.forks[f] == OCCUPIED <==> HoldsOwnFork(t.pcs[f]) || HoldsRightFork(t.pcs[l]))
  }

  ghost predicate Inv(t: Table)
  {
    WellFormed(t) && forall f :: 0 <= f < Size(t) ==> ForkInv(t, f)
  }

  lemma InitInv(n: int)
    requires 1 <= n
    ensures Inv(Init(n))
  {
  }

  lemma {:induction false} NextInvAt(t: Table, i: int, f: int)
    requires Inv(t) && 0 <= i < Size(t) && Enabled(t, i) && 0 <= f < Size(t)
    ensures ForkInv(Next(t, i), f)
  {
    var n := Size(t);
    var t' := Next(t, i);
    var r := Ring.Right(n, i);
    var l := Ring.Left(n, f);
    Ring.LeftRightRoundTrip(n, i);
    Ring.LeftRightRoundTrip(n, f);
    assert ForkInv(t, f) && ForkInv(t, r) && ForkInv(t, i);
    if f != i && l != i {
      // neither candidate holder of fork f moves, and i touches only forks i and right(i)
      assert f != r;
      assert t'.pcs[f] == t.pcs[f] && t'.pcs[l] == t.pcs[l] && t'.forks[f] == t.forks[f];
    }
  }

  /** Every step keeps the invariant. */
  lemma NextInv(t: Table, i: int)
    requires Inv(t) && 0 <= i < Size(t) && Enabled(t, i)
    ensures Inv(Next(t, i))
  {
    forall f | 0 <= f < Size(t)
      ensures ForkInv(Next(t, i), f)
    {
      NextInvAt(t, i, f);
    }
  }

  /** Every run from a table that satisfies the invariant ends in one that does. */
  lemma {:induction false} RunInv(t: Table, trace: seq<int>)
    requires Inv(t) && Run(t, trace).Some?
    ensures Inv(Run(t, trace).value)
    decreases |trace|
  {
    if trace != [] {
      var prefix := trace[..|trace| - 1];
      RunInv(t, prefix);
      NextInv(Run(t, prefix).value, trace[|trace| - 1]);
    }
  }

  lemma ReachableInv(n: int, t: Table)
    requires Reachable(n, t)
    ensures Inv(t) && Size(t) == n
  {
    var trace :| Run(Init(n), trace) == Some(t);
    InitInv(n);
    RunInv(Init(n), trace);
  }

  // ---------------------------------------------------------------- safety

  /** Mutual exclusion per fork: two philosophers that hold the same fork are the same philosopher. */
  lemma ForkHeldByOne(t: Table, p: int, q: int, f: int)
    requires Inv(t) && 0 <= p < Size(t) && 0 <= q < Size(t) && 0 <= f < Size(t)
    requires Holds(t, p, f) && Holds(t, q, f)
    ensures p == q
  {
    var n := Size(t);
    Ring.LeftRightRoundTrip(n, p);
    Ring.LeftRightRoundTrip(n, q);
    assert ForkInv(t, f);
  }

  /** A held fork is OCCUPIED in the ForkManager, and an OCCUPIED fork has a holder. */
  lemma OccupiedIffHeld(t: Table, f: int)
    requires Inv(t) && 0 <= f < Size(t)
    ensures t.forks[f] == OCCUPIED <==> exists p :: 0 <= p < Size(t) && Holds(t, p, f)
  {
    var n := Size(t);
    var l := Ring.Left(n, f);
    Ring.LeftRightRoundTrip(n, f);
    assert ForkInv(t, f);
    if t.forks[f] == OCCUPIED {
      if HoldsOwnFork(t.pcs[f]) {
        assert Holds(t, f, f);
      } else {
        assert Holds(t, l, f);
      }
    }
    forall p | 0 <= p < n && Holds(t, p, f)
      ensures t.forks[f] == OCCUPIED
    {
      Ring.LeftRightRoundTrip(n, p);
    }
  }

  /** A philosopher EATING in `State`, i.e. between eat() and putForks(), holds both its forks. */
  lemma EatingHoldsBothForks(t: Table, i: int)
    requires Inv(t) && 0 <= i < Size(t) && State(t.pcs[i]) == EATING
    ensures Holds(t, i, i) && Holds(t, i, Ring.Right(Size(t), i))
    ensures t.forks[i] == OCCUPIED && t.forks[Ring.Right(Size(t), i)] == OCCUPIED
  {
    var n := Size(t);
    var r := Ring.Right(n, i);
    Ring.LeftRightRoundTrip(n, i);
    assert ForkInv(t, i) && ForkInv(t, r);
  }

  /** Philosophers i and right(i) are never both EATING in `State`, i.e. both between eat() and putForks(). */
  lemma AdjacentNeverBothEating(t: Table, i: int)
    requires Inv(t) && 0 <= i < Size(t)
    ensures !(State(t.pcs[i]) == EATING && State(t.pcs[Ring.Right(Size(t), i)]) == EATING)
  {
    var n := Size(t);
    var r := Ring.Right(n, i);
    Ring.LeftRightRoundTrip(n, i);
    assert ForkInv(t, r);
  }

  /**
   * A blocked philosopher waits for a fork that a neighbour holds: a hungry
   * one for fork id, held by its left neighbour as that one's right fork;
   * one holding its own fork for fork right(id), held by its right neighbour
   * as that one's own fork.
   */
  lemma BlockedWaitsForNeighbour(t: Table, i: int)
    requires Inv(t) && 0 <= i < Size(t) && !Enabled(t, i)
    ensures t.pcs[i] == Hungry || t.pcs[i] == HoldsOwn
    ensures t.pcs[i] == Hungry ==> HoldsRightFork(t.pcs[Ring.Left(Size(t), i)])
    ensures t.pcs[i] == HoldsOwn ==> HoldsOwnFork(t.pcs[Ring.Right(Size(t), i)])
  {
    var n := Size(t);
    Ring.LeftRightRoundTrip(n, i);
    assert ForkInv(t, i) && ForkInv(t, Ring.Right(n, i));
  }

  /** In every reachable table, no two neighbours are EATING in `State` (between eat() and putForks()) at once. */
  lemma ReachableAdjacentNeverBothEating(n: int, t: Table, i: int)
    requires Reachable(n, t) && 0 <= i < n
    ensures Size(t) == n
    ensures !(State(t.pcs[i]) == EATING && State(t.pcs[Ring.Right(n, i)]) == EATING)
  {
    ReachableInv(n, t);
    AdjacentNeverBothEating(t, i);
  }

  // ------------------------------------------------------- circular wait

  /** No philosopher can take a step. */
  ghost predicate Deadlocked(t: Table)
    requires WellFormed(t)
  {
    forall i :: 0 <= i < Size(t) ==> !Enabled(t, i)
  }

  /** Philosophers 0, 1, ..., k - 1 each become HUNGRY and take their own fork, in turn. */
  function TakeOwnForks(k: nat): (trace: seq<int>)
    ensures |trace| == 2 * k
  {
    if k == 0 then [] else TakeOwnForks(k - 1) + [k - 1, k - 1]
  }

  /** The table once the first k philosophers hold their own fork. */
  function HoldingOwn(n: int, k: int): (t: Table)
    requires 1 <= n && 0 <= k <= n
    ensures WellFormed(t) && Size(t) == n
  {
    Table(seq(n, j => if j < k then HoldsOwn else Thinking), seq(n, j => if j < k then OCCUPIED else FREE))
  }

  /** Philosopher i, the next after those holding their own fork, becomes HUNGRY and takes it. */
  lemma TakeOwnForkSteps(n: int, i: int)
    requires 1 <= n && 0 <= i < n
    ensures Enabled(HoldingOwn(n, i), i)
    ensures Enabled(Next(HoldingOwn(n, i), i), i)
    ensures Next(Next(HoldingOwn(n, i), i), i) == HoldingOwn(n, i + 1)
  {
    var t0 := HoldingOwn(n, i);
    assert t0.pcs[i] == Thinking;
    var t1 := Next(t0, i);
    assert t1 == Table(t0.pcs[i := Hungry], t0.forks);
    assert t1.pcs[i] == Hungry && t1.forks[i] == FREE;
    assert Next(t1, i) == Table(t0.pcs[i := HoldsOwn], t0.forks[i := OCCUPIED]);
  }

  lemma {:induction false} TakeOwnForksRun(n: int, k: nat)
    requires 1 <= n && k <= n
    ensures Run(Init(n), TakeOwnForks(k)) == Some(HoldingOwn(n, k))
  {
    if k == 0 {
      assert HoldingOwn(n, 0) == Init(n);
    } else {
      var i := k - 1;
      TakeOwnForksRun(n, k - 1);
      TakeOwnForkSteps(n, i);
      RunSnoc(Init(n), TakeOwnForks(i), i);
      RunSnoc(Init(n), TakeOwnForks(i) + [i], i);
      assert TakeOwnForks(i) + [i] + [i] == TakeOwnForks(k);
    }
  }

  /**
   * The circular-wait hazard: when every philosopher has taken its own fork,
   * every fork is OCCUPIED, every philosopher waits for its right fork, and
   * none can move. This table is reachable for every n >= 1.
   */
  lemma CircularWaitReachable(n: int)
    requires 1 <= n
    ensures Run(Init(n), TakeOwnForks(n)) == Some(HoldingOwn(n, n))
    ensures Reachable(n, HoldingOwn(n, n))
    ensures var t := HoldingOwn(n, n);
      (forall i :: 0 <= i < n ==> t.pcs[i] == HoldsOwn && t.forks[i] == OCCUPIED) && Deadlocked(t)
  {
    TakeOwnForksRun(n, n);
    var t := HoldingOwn(n, n);
    forall i | 0 <= i < n
      ensures !Enabled(t, i)
    {
      assert t.pcs[i] == HoldsOwn;
      assert t.forks[Ring.Right(n, i)] == OCCUPIED;
    }
  }

  // ------------------------------------------------- the source as written

  /** ts[k + 1] is the table after philosopher trace[k] steps at table ts[k], for every k. */
  predicate Steps(ts: seq<Table>, trace: seq<int>)
  {
    |ts| == |trace| + 1 && WellFormed(ts[0]) &&
    forall k :: 0 <= k < |trace| ==>
      WellFormed(ts[k]) && 0 <= trace[k] < Size(ts[k]) && Enabled(ts[k], trace[k]) &&
      Next(ts[k], trace[k]) == ts[k + 1]
  }

  /** A chain of tables, each the step of the one before, is what the run computes. */
  lemma {:induction false} StepsRun(ts: seq<Table>, trace: seq<int>)
    requires Steps(ts, trace)
    ensures Run(ts[0], trace) == Some(ts[|trace|])
    decreases |trace|
  {
    if trace != [] {
      var m := |trace| - 1;
      assert Steps(ts[..m + 1], trace[..m]);
      StepsRun(ts[..m + 1], trace[..m]);
    }
  }

  /**
   * As written, `philoState` stays EATING from eat() until the next think(),
   * also after putForks() has released both forks. With two philosophers:
   * philosopher 0 eats and puts both forks back (six steps) but has not yet
   * called think(); philosopher 1 then takes forks 1 and 0 and eats (four
   * steps). Neighbours 0 and right(0) = 1 both show EATING.
   */
  lemma AsWrittenNeighboursBothEating()
    ensures Run(Init(2), [0, 0, 0, 0, 0, 0, 1, 1, 1, 1]).Some?
    ensures var t := Run(Init(2), [0, 0, 0, 0, 0, 0, 1, 1, 1, 1]).value;
      Ring.Right(2, 0) == 1 && StateAsWritten(t.pcs[0]) == EATING && StateAsWritten(t.pcs[1]) == EATING
  {
    var steps := [0, 0, 0, 0, 0, 0, 1, 1, 1, 1];
    var ts := [
      Table([Thinking, Thinking], [FREE, FREE]),
      Table([Hungry, Thinking], [FREE, FREE]),
      Table([HoldsOwn, Thinking], [OCCUPIED, FREE]),
      Table([HoldsBoth, Thinking], [OCCUPIED, OCCUPIED]),
      Table([Eating, Thinking], [OCCUPIED, OCCUPIED]),
      Table([ReleasedOwn, Thinking], [FREE, OCCUPIED]),
      Table([Released, Thinking], [FREE, FREE]),
      Table([Released, Hungry], [FREE, FREE]),
      Table([Released, HoldsOwn], [FREE, OCCUPIED]),
      Table([Released, HoldsBoth], [OCCUPIED, OCCUPIED]),
      Table([Released, Eating], [OCCUPIED, OCCUPIED])
    ];
    assert Init(2) == ts[0];
    forall k | 0 <= k < 10
      ensures WellFormed(ts[k]) && 0 <= steps[k] < Size(ts[k]) && Enabled(ts[k], steps[k])
      ensures Next(ts[k], steps[k]) == ts[k + 1]
    {
      assert k == 0 || k == 1 || k == 2 || k == 3 || k == 4 || k == 5 || k == 6 || k == 7 || k == 8 || k == 9;
    }
    StepsRun(ts, steps);
  }

  /**
   * The same overlap needs no pause with three philosophers. Philosopher 0
   * eats; philosopher 2 takes fork 2 and waits for fork 0. Philosopher 0
   * releases fork 0, the first step of putForks(), and philosopher 2 at once
   * takes it and eats. Philosopher 0 is still inside putForks() and shows
   * EATING, and so does its left neighbour 2.
   */
  lemma AsWrittenEatingDuringPutForks()
    ensures Run(Init(3), [0, 0, 0, 0, 2, 2, 0, 2, 2]).Some?
    ensures var t := Run(Init(3), [0, 0, 0, 0, 2, 2, 0, 2, 2]).value;
      Ring.Right(3, 2) == 0 && t.pcs[0] == ReleasedOwn &&
      StateAsWritten(t.pcs[2]) == EATING && StateAsWritten(t.pcs[0]) == EATING
  {
    var steps := [0, 0, 0, 0, 2, 2, 0, 2, 2];
    var ts := [
      Table([Thinking, Thinking, Thinking], [FREE, FREE, FREE]),
      Table([Hungry, Thinking, Thinking], [FREE, FREE, FREE]),
      Table([HoldsOwn, Thinking, Thinking], [OCCUPIED, FREE, FREE]),
      Table([HoldsBoth, Thinking, Thinking], [OCCUPIED, OCCUPIED, FREE]),
      Table([Eating, Thinking, Thinking], [OCCUPIED, OCCUPIED, FREE]),
      Table([Eating, Thinking, Hungry], [OCCUPIED, OCCUPIED, FREE]),
      Table([Eating, Thinking, HoldsOwn], [OCCUPIED, OCCUPIED, OCCUPIED]),
      Table([ReleasedOwn, Thinking, HoldsOwn], [FREE, OCCUPIED, OCCUPIED]),
      Table([ReleasedOwn, Thinking, HoldsBoth], [OCCUPIED, OCCUPIED, OCCUPIED]),
      Table([ReleasedOwn, Thinking, Eating], [OCCUPIED, OCCUPIED, OCCUPIED])
    ];
    assert Init(3) == ts[0];
    forall k | 0 <= k < 9
      ensures WellFormed(ts[k]) && 0 <= steps[k] < Size(ts[k]) && Enabled(ts[k], steps[k])
      ensures Next(ts[k], steps[k]) == ts[k + 1]
    {
      assert k == 0 || k == 1 || k == 2 || k == 3 || k == 4 || k == 5 || k == 6 || k == 7 || k == 8;
    }
    StepsRun(ts, steps);
  }
}
