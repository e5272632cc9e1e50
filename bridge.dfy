/**
 * The one-lane bridge's TrafficController: a lock, a `bridgeOccupied` flag
 * and two conditions. Note the crossed naming of the source: a car entering
 * from the left waits on `goRight`, a car entering from the right waits on
 * `goLeft`. A condition's wait set is kept as the number of cars in it.
 *
 * An `enterLeft` call is three kinds of step: the wait loop finds the bridge
 * free and occupies it (EnterLeft), or finds it occupied and the car joins
 * `goRight` (AwaitLeft), or a car waiting there is interrupted and returns
 * without occupying the bridge (InterruptLeft). A car that a signal wakes has
 * left the wait set and checks the loop condition again: EnterLeft or AwaitLeft.
 */
module Bridge {
  import opened Options

  datatype Cond = GoLeft | GoRight

  datatype Controller = Controller(occupied: bool, goLeftWaiters: nat, goRightWaiters: nat)

  datatype Event =
    | EnterLeft | EnterRight
    | AwaitLeft | AwaitRight
    | InterruptLeft | InterruptRight
    | LeaveLeft | LeaveRight

  predicate IsEnter(e: Event)
  {
    e == EnterLeft || e == EnterRight
  }

  predicate IsLeave(e: Event)
  {
    e == LeaveLeft || e == LeaveRight
  }

  /** A new controller: the bridge is free and nobody waits. */
  function Initial(): (c: Controller)
    ensures !c.occupied && c.goLeftWaiters == 0 && c.goRightWaiters == 0
  {
    Controller(false, 0, 0)
  }

  function Waiters(c: Controller): nat
  {
    c.goLeftWaiters + c.goRightWaiters
  }

  /**
   * The condition `leaveLeft` signals: `goLeft` (cars that came from the right,
   * going the same way as the car that just left) if it has waiters,
   * otherwise `goRight`.
   */
  function LeaveLeftSignal(c: Controller): (r: Cond)
    ensures r == GoLeft <==> c.goLeftWaiters > 0
  {
    if c.goLeftWaiters > 0 then GoLeft else GoRight
  }

  /** The condition `leaveRight` signals: `goRight` if it has waiters, otherwise `goLeft`. */
  function LeaveRightSignal(c: Controller): (r: Cond)
    ensures r == GoRight <==> c.goRightWaiters > 0
  {
    if c.goRightWaiters > 0 then GoRight else GoLeft
  }

  /** `signal()` on a condition: one waiter, if any, leaves its wait set. */
  function Signal(c: Controller, cond: Cond): (r: Controller)
    ensures r.occupied == c.occupied
    ensures cond == GoLeft ==>
      r.goRightWaiters == c.goRightWaiters &&
      r.goLeftWaiters == (if c.goLeftWaiters > 0 then c.goLeftWaiters - 1 else 0)
    ensures cond == GoRight ==>
      r.goLeftWaiters == c.goLeftWaiters &&
      r.goRightWaiters == (if c.goRightWaiters > 0 then c.goRightWaiters - 1 else 0)
    ensures Waiters(r) == if (cond == GoLeft && c.goLeftWaiters > 0) || (cond == GoRight && c.goRightWaiters > 0)
                          then Waiters(c) - 1 else Waiters(c)
  {
    match cond
    case GoLeft => c.(goLeftWaiters := if c.goLeftWaiters > 0 then c.goLeftWaiters - 1 else 0)
    case GoRight => c.(goRightWaiters := if c.goRightWaiters > 0 then c.goRightWaiters - 1 else 0)
  }

  /** The step can happen now; an enter blocks while the bridge is occupied. */
  predicate Enabled(c: Controller, e: Event): (r: bool)
    ensures IsEnter(e) ==> (r <==> !c.occupied)
    ensures e == AwaitLeft || e == AwaitRight ==> (r <==> c.occupied)
    ensures e == InterruptLeft ==> (r <==> c.goRightWaiters > 0)
    ensures e == InterruptRight ==> (r <==> c.goLeftWaiters > 0)
    ensures IsLeave(e) ==> r
  {
    match e
    case EnterLeft | EnterRight => !c.occupied
    case AwaitLeft | AwaitRight => c.occupied
    case InterruptLeft => c.goRightWaiters > 0
    case InterruptRight => c.goLeftWaiters > 0
    case LeaveLeft | LeaveRight => true
  }

  /** The controller after the step. */
  function Next(c: Controller, e: Event): (r: Controller)
    requires Enabled(c, e)
    ensures IsEnter(e) ==> r.occupied
    ensures IsLeave(e) ==> !r.occupied
    ensures !IsEnter(e) && !IsLeave(e) ==> r.occupied == c.occupied
  {
    match e
    case EnterLeft | EnterRight => c.(occupied := true)
    case AwaitLeft => c.(goRightWaiters := c.goRightWaiters + 1)
    case AwaitRight => c.(goLeftWaiters := c.goLeftWaiters + 1)
    case InterruptLeft => c.(goRightWaiters := c.goRightWaiters - 1)
    case InterruptRight => c.(goLeftWaiters := c.goLeftWaiters - 1)
    case LeaveLeft => Signal(c.(occupied := false), LeaveLeftSignal(c))
    case LeaveRight => Signal(c.(occupied := false), LeaveRightSignal(c))
  }

  /**
   * Each pass of the wait loop in `enterLeft` (and in `enterRight`) does
   * exactly one thing: it occupies a free bridge or waits on an occupied one.
   */
  lemma EnterOrWait(c: Controller)
    ensures Enabled(c, EnterLeft) != Enabled(c, AwaitLeft)
    ensures Enabled(c, EnterRight) != Enabled(c, AwaitRight)
    ensures Enabled(c, EnterLeft) ==> Next(c, EnterLeft).occupied && !Enabled(Next(c, EnterLeft), EnterRight)
    ensures Enabled(c, EnterRight) ==> Next(c, EnterRight).occupied && !Enabled(Next(c, EnterRight), EnterLeft)
  {
  }

  // ------------------------------------------------------------ wake choice

  /**
   * `leaveLeft` wakes a car waiting on `goLeft` when there is one, and only
   * otherwise a car waiting on `goRight`; `leaveRight` the other way round.
   */
  lemma LeaveWakesSameDirectionFirst(c: Controller)
    ensures var r := Next(c, LeaveLeft);
      if c.goLeftWaiters > 0
      then r.goLeftWaiters == c.goLeftWaiters - 1 && r.goRightWaiters == c.goRightWaiters
      else r.goLeftWaiters == 0 && r.goRightWaiters == (if c.goRightWaiters > 0 then c.goRightWaiters - 1 else 0)
    ensures var r := Next(c, LeaveRight);
      if c.goRightWaiters > 0
      then r.goRightWaiters == c.goRightWaiters - 1 && r.goLeftWaiters == c.goLeftWaiters
      else r.goRightWaiters == 0 && r.goLeftWaiters == (if c.goLeftWaiters > 0 then c.goLeftWaiters - 1 else 0)
  {
    var free := c.(occupied := false);
    assert Next(c, LeaveLeft) == Signal(free, LeaveLeftSignal(c));
    assert Next(c, LeaveRight) == Signal(free, LeaveRightSignal(c));
  }

  /** A leave wakes exactly one car when any car waits, on either side, and never more than one. */
  lemma LeaveWakesExactlyOne(c: Controller, e: Event)
    requires IsLeave(e)
    ensures Waiters(Next(c, e)) == if Waiters(c) > 0 then Waiters(c) - 1 else 0
  {
  }

  // -------------------------------------------------------------- traces

  /** Runs the steps of `trace`; None once a step is not enabled. */
  function Run(c: Controller, trace: seq<Event>): (r: Option<Controller>)
    decreases |trace|
  {
    if trace == [] then Some(c)
    else
      match Run(c, trace[..|trace| - 1])
      case None => None
      case Some(s) =>
        var e := trace[|trace| - 1];
        if Enabled(s, e) then Some(Next(s, e)) else None
  }


  lemma RunPrefix(c: Controller, trace: seq<Event>, k: nat)
    requires k < |trace| && Run(c, trace[..k + 1]).Some?
    ensures Run(c, trace[..k]).Some? && Enabled(Run(c, trace[..k]).value, trace[k])
    ensures Run(c, trace[..k + 1]).value == Next(Run(c, trace[..k]).value, trace[k])
  {
    assert trace[..k + 1][..k] == trace[..k];
  }

  /** A run that gets through has got through every prefix. */
  lemma {:induction false} RunPrefixes(c: Controller, trace: seq<Event>, k: nat)
    requires k <= |trace| && Run(c, trace).Some?
    ensures Run(c, trace[..k]).Some?
    decreases |trace| - k
  {
    if k < |trace| {
      RunPrefixes(c, trace, k + 1);
      RunPrefix(c, trace, k);
    } else {
      assert trace[..k] == trace;
    }
  }

  /** After an enter at position i, the bridge stays occupied until a leave. */
  lemma {:induction false} OccupiedUntilLeave(c: Controller, trace: seq<Event>, i: nat, k: nat)
    requires i < k <= |trace| && Run(c, trace).Some? && IsEnter(trace[i])
    requires forall m :: i < m < k ==> !IsLeave(trace[m])
    ensures Run(c, trace[..k]).Some? && Run(c, trace[..k]).value.occupied
    decreases k - i
  {
    RunPrefixes(c, trace, k);
    RunPrefix(c, trace, k - 1);
    if i < k - 1 {
      OccupiedUntilLeave(c, trace, i, k - 1);
    }
  }

  /**
   * Mutual exclusion on the flag: between two successful enters (from either
   * side) of a run there is a leave. An interrupted waiter returns from
   * `enterLeft`/`enterRight` without an enter step, so this says nothing
   * about what such a car does next.
   */
  lemma EnterThenLeaveBeforeNextEnter(c: Controller, trace: seq<Event>, i: nat, j: nat)
    requires i < j < |trace| && Run(c, trace).Some?
    requires IsEnter(trace[i]) && IsEnter(trace[j])
    ensures exists m :: i < m < j && IsLeave(trace[m])
  {
    if forall m :: i < m < j ==> !IsLeave(trace[m]) {
      OccupiedUntilLeave(c, trace, i, j);
      RunPrefixes(c, trace, j + 1);
      RunPrefix(c, trace, j);
      assert false;
    }
  }

  // ------------------------------------------------------ the controller

  class TrafficController {
    var bridgeOccupied: bool
    /** Cars blocked in `enterRight`, waiting on `goLeft`. */
    var goLeftWaiters: nat
    /** Cars blocked in `enterLeft`, waiting on `goRight`. */
    var goRightWaiters: nat

    function Abstract(): Controller
      reads this
    {
      Controller(bridgeOccupied, goLeftWaiters, goRightWaiters)
    }

    constructor ()
      ensures !bridgeOccupied && goLeftWaiters == 0 && goRightWaiters == 0
      ensures Abstract() == Initial()
    {
      bridgeOccupied := false;
      goLeftWaiters, goRightWaiters := 0, 0;
    }

    /** `enterLeft` finds the bridge free: the car occupies it. */
    method EnterLeft()
      requires !bridgeOccupied
      modifies this
      ensures bridgeOccupied
      ensures goLeftWaiters == old(goLeftWaiters) && goRightWaiters == old(goRightWaiters)
      ensures !Enabled(Abstract(), Event.EnterLeft) && !Enabled(Abstract(), Event.EnterRight)
      ensures Abstract() == Next(old(Abstract()), Event.EnterLeft)
    {
      bridgeOccupied := true;
    }

    /** `enterLeft` finds the bridge occupied: the car waits on `goRight`. */
    method AwaitLeft()
      requires bridgeOccupied
      modifies this
      ensures bridgeOccupied && goRightWaiters == old(goRightWaiters) + 1
      ensures goLeftWaiters == old(goLeftWaiters)
      ensures Abstract() == Next(old(Abstract()), Event.AwaitLeft)
    {
      goRightWaiters := goRightWaiters + 1;
    }

    /** A car waiting in `enterLeft` is interrupted: it stops waiting and does not occupy the bridge. */
    method InterruptLeft()
      requires goRightWaiters > 0
      modifies this
      ensures bridgeOccupied == old(bridgeOccupied)
      ensures goRightWaiters == old(goRightWaiters) - 1 && goLeftWaiters == old(goLeftWaiters)
      ensures Abstract() == Next(old(Abstract()), Event.InterruptLeft)
    {
      goRightWaiters := goRightWaiters - 1;
    }

    /** `enterRight` finds the bridge free: the car occupies it. */
    method EnterRight()
      requires !bridgeOccupied
      modifies this
      ensures bridgeOccupied
      ensures goLeftWaiters == old(goLeftWaiters) && goRightWaiters == old(goRightWaiters)
      ensures !Enabled(Abstract(), Event.EnterLeft) && !Enabled(Abstract(), Event.EnterRight)
      ensures Abstract() == Next(old(Abstract()), Event.EnterRight)
    {
      bridgeOccupied := true;
    }

    /** `enterRight` finds the bridge occupied: the car waits on `goLeft`. */
    method AwaitRight()
      requires bridgeOccupied
      modifies this
      ensures bridgeOccupied && goLeftWaiters == old(goLeftWaiters) + 1
      ensures goRightWaiters == old(goRightWaiters)
      ensures Abstract() == Next(old(Abstract()), Event.AwaitRight)
    {
      goLeftWaiters := goLeftWaiters + 1;
    }

    /** A car waiting in `enterRight` is interrupted: it stops waiting and does not occupy the bridge. */
    method InterruptRight()
      requires goLeftWaiters > 0
      modifies this
      ensures bridgeOccupied == old(bridgeOccupied)
      ensures goLeftWaiters == old(goLeftWaiters) - 1 && goRightWaiters == old(goRightWaiters)
      ensures Abstract() == Next(old(Abstract()), Event.InterruptRight)
    {
      goLeftWaiters := goLeftWaiters - 1;
    }

    /**
     * `leaveLeft`: frees the bridge and signals `goLeft` if it has waiters,
     * otherwise `goRight`. Returns the condition signalled.
     */
    method LeaveLeft() returns (signalled: Cond)
      modifies this
      ensures !bridgeOccupied
      ensures signalled == GoLeft <==> old(goLeftWaiters) > 0
      ensures Waiters(Abstract()) == if Waiters(old(Abstract())) > 0 then Waiters(old(Abstract())) - 1 else 0
      ensures Abstract() == Next(old(Abstract()), Event.LeaveLeft)
    {
      ghost var before := Abstract();
      assert Next(before, Event.LeaveLeft) == Signal(before.(occupied := false), LeaveLeftSignal(before));
      bridgeOccupied := false;
      if goLeftWaiters > 0 {
        signalled := GoLeft;
        goLeftWaiters := goLeftWaiters - 1;
      } else {
        signalled := GoRight;
        if goRightWaiters > 0 {
          goRightWaiters := goRightWaiters - 1;
        }
      }
    }

    /**
     * `leaveRight`: frees the bridge and signals `goRight` if it has waiters,
     * otherwise `goLeft`. Returns the condition signalled.
     */
    method LeaveRight() returns (signalled: Cond)
      modifies this
      ensures !bridgeOccupied
      ensures signalled == GoRight <==> old(goRightWaiters) > 0
      ensures Waiters(Abstract()) == if Waiters(old(Abstract())) > 0 then Waiters(old(Abstract())) - 1 else 0
      ensures Abstract() == Next(old(Abstract()), Event.LeaveRight)
    {
      ghost var before := Abstract();
      assert Next(before, Event.LeaveRight) == Signal(before.(occupied := false), LeaveRightSignal(before));
      bridgeOccupied := false;
      if goRightWaiters > 0 {
        signalled := GoRight;
        goRightWaiters := goRightWaiters - 1;
      } else {
        signalled := GoLeft;
        if goLeftWaiters > 0 {
          goLeftWaiters := goLeftWaiters - 1;
        }
      }
    }
  }
}
