/**
 * The fork manager of the dining philosophers: one lock guarding an array of
 * fork slots, each FREE or OCCUPIED. A blocked `acquireFork` becomes the
 * precondition that the slot is FREE, unless the waiting caller is interrupted.
 */
module Forks {
  import Ring

  datatype ForkState = FREE | OCCUPIED

  class ForkManager {
    const nrForks: int
    /** The `forkState` of each Fork object; the per-fork condition is not kept. */
    const forks: array<ForkState>

    ghost predicate Valid()
    {
      forks.Length == nrForks
    }

    /** Creates `nrForks` forks, all FREE. */
    constructor (nrForks: int)
      requires 0 <= nrForks
      ensures Valid() && fresh(forks)
      ensures this.nrForks == nrForks
      ensures forall j :: 0 <= j < nrForks ==> forks[j] == FREE
    {
      this.nrForks := nrForks;
      var slots := new ForkState[nrForks];
      for i := 0 to nrForks
        invariant forall j :: 0 <= j < i ==> slots[j] == FREE
      {
        slots[i] := FREE;
      }
      forks := slots;
    }

    /** Fork i can be taken without waiting. */
    predicate CanAcquire(i: int)
      requires Valid() && 0 <= i < nrForks
      reads forks
    {
      forks[i] == FREE
    }

    /**
     * `acquireFork(i)`: waits while fork i is OCCUPIED and then marks it
     * OCCUPIED. Without an interrupt the call only returns once the fork is
     * FREE, hence the precondition; an interrupted wait returns with nothing
     * changed. `acquired` tells which of the two happened.
     */
    method AcquireFork(i: int, interrupted: bool) returns (acquired: bool)
      requires Valid() && 0 <= i < nrForks
      requires !CanAcquire(i) ==> interrupted
      modifies forks
      ensures acquired <==> old(forks[i]) == FREE
      ensures forks[i] == OCCUPIED
      ensures forall j :: 0 <= j < nrForks && j != i ==> forks[j] == old(forks[j])
      ensures acquired ==> forks[..] == old(forks[..])[i := OCCUPIED]
      ensures !acquired ==> forks[..] == old(forks[..])
    {
      if forks[i] == OCCUPIED {
        // the wait is ended by the interrupt: the catch block leaves the slot alone
        return false;
      }
      forks[i] := OCCUPIED;
      acquired := true;
    }

    /** `releaseFork(i)`: marks fork i FREE and changes no other fork. */
    method ReleaseFork(i: int)
      requires Valid() && 0 <= i < nrForks
      modifies forks
      ensures forks[i] == FREE
      ensures forall j :: 0 <= j < nrForks && j != i ==> forks[j] == old(forks[j])
      ensures forks[..] == old(forks[..])[i := FREE]
    {
      forks[i] := FREE;
    }

    /** `left(i)` over the forks. */
    function Left(i: int): (r: int)
      requires nrForks != 0
      ensures 0 <= i < nrForks ==> 0 <= r < nrForks && Right(r) == i
    {
      Ring.Left(nrForks, i)
    }

    /** `right(i)` over the forks. */
    function Right(i: int): (r: int)
      requires nrForks != 0
      ensures 0 <= i < nrForks ==> 0 <= r < nrForks && Ring.Left(nrForks, r) == i
    {
      Ring.Right(nrForks, i)
    }
  }
}
