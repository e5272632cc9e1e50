/**
 * Traffic lights and the car that drives past them in a circle. A light is
 * a monitor over one flag, `red`; a car's position is an index into its array
 * of lights.
 */
module TrafficLights {

  class TrafficLight {
    var red: bool

    /** A new light is red. */
    constructor ()
      ensures red
    {
      red := true;
    }

    /**
     * `passby()`: while the light is red the car waits and, once woken, itself
     * switches the light to green. The loop body therefore runs at most once,
     * and the car always passes a green light. `rounds` counts the passes of
     * the loop body.
     */
    method Passby() returns (ghost rounds: nat)
      modifies this
      ensures !red
      ensures rounds == if old(red) then 1 else 0
    {
      rounds := 0;
      while red
        invariant if red then rounds == 0 else rounds == (if old(red) then 1 else 0)
        decreases if red then 1 else 0
      {
        // wait(): the wake-up (notifyAll, an interrupt or a spurious one) is not modelled
        SwitchToGreen();
        rounds := rounds + 1;
      }
    }

    /** `switchToRed()`: the light is red afterwards, whatever it was; a second call changes nothing. */
    method SwitchToRed()
      modifies this
      ensures red
    {
      red := true;
    }

    /** `switchToGreen()`: the light is green afterwards, whatever it was; a second call changes nothing. */
    method SwitchToGreen()
      modifies this
      ensures !red
    {
      red := false;
    }
  }

  /** `gotoNextLight()` as written: the next index, or back to 0 from the last light. */
  function NextLight(pos: int, length: int): (r: int)
    ensures 0 <= pos < length ==> r == (pos + 1) % length
    ensures 0 <= pos ==> 0 <= r && (r < length || r == 0)
  {
    if pos < length - 1 then pos + 1 else 0
  }

  /** The position after k calls of `gotoNextLight()`; it stays on the ring of lights. */
  function Advance(pos: int, length: int, k: nat): (r: int)
    ensures 0 <= pos < length ==> 0 <= r < length
  {
    if k == 0 then pos else NextLight(Advance(pos, length, k - 1), length)
  }

  /** Within one circle, k calls move the car k lights on, wrapping past the last light once. */
  lemma {:induction false} AdvanceWithinCircle(pos: int, length: int, k: nat)
    requires 0 <= pos < length && k <= length
    ensures Advance(pos, length, k) == if pos + k < length then pos + k else pos + k - length
  {
    if k > 0 {
      AdvanceWithinCircle(pos, length, k - 1);
    }
  }

  /** a calls followed by b calls are a + b calls. */
  lemma {:induction false} AdvanceAdd(pos: int, length: int, a: nat, b: nat)
    ensures Advance(pos, length, a + b) == Advance(Advance(pos, length, a), length, b)
  {
    if b > 0 {
      AdvanceAdd(pos, length, a, b - 1);
    }
  }

  /** After `length` calls the car is back where it started, and from then on repeats its circle. */
  lemma FullCircle(pos: int, length: int, k: nat)
    requires 0 <= pos < length
    ensures Advance(pos, length, length) == pos
    ensures Advance(pos, length, length + k) == Advance(pos, length, k)
  {
    AdvanceWithinCircle(pos, length, length);
    AdvanceAdd(pos, length, length, k);
  }

  /** Within its first `length` calls the car stands at every light. */
  lemma VisitsEveryLight(pos: int, length: int, target: int)
    requires 0 <= pos < length && 0 <= target < length
    ensures var k := if pos <= target then target - pos else target - pos + length;
      0 <= k < length && Advance(pos, length, k) == target
  {
    var k := if pos <= target then target - pos else target - pos + length;
    AdvanceWithinCircle(pos, length, k);
  }

  class Car {
    const trafficLights: array<TrafficLight>
    var pos: int

    /** The position stays an index of a light (or 0 when there are no lights). */
    ghost predicate Valid()
      reads this
    {
      0 <= pos && (pos < trafficLights.Length || pos == 0)
    }

    /** A new car stands at the first light. */
    constructor (trafficLights: array<TrafficLight>)
      ensures this.trafficLights == trafficLights && pos == 0 && Valid()
    {
      this.trafficLights := trafficLights;
      pos := 0;
    }

    /** `position()` reports the position and changes nothing. */
    method Position() returns (p: int)
      requires Valid()
      ensures p == pos && 0 <= p
      ensures trafficLights.Length >= 1 ==> p < trafficLights.Length
    {
      p := pos;
    }

    /** `gotoNextLight()`: one light on, wrapping to the first light after the last one. */
    method GotoNextLight()
      requires Valid()
      modifies this
      ensures Valid()
      ensures pos == NextLight(old(pos), trafficLights.Length)
      ensures trafficLights.Length >= 1 ==> pos == (old(pos) + 1) % trafficLights.Length
    {
      if pos < trafficLights.Length - 1 {
        pos := pos + 1;
      } else {
        pos := 0;
      }
    }

    /**
     * `rounds` passes of the `run()` loop: pass the light at the current
     * position, then move on. Without other threads switching lights to red,
     * every light passed is green afterwards; after `length` rounds that is
     * every light. A light the car never stands at keeps its colour.
     */
    method Drive(rounds: nat)
      requires Valid() && trafficLights.Length >= 1
      modifies this, set j | 0 <= j < trafficLights.Length :: trafficLights[j]
      ensures Valid()
      ensures pos == Advance(old(pos), trafficLights.Length, rounds)
      ensures forall k :: 0 <= k < rounds ==> !trafficLights[Advance(old(pos), trafficLights.Length, k)].red
      ensures rounds >= trafficLights.Length ==> forall j :: 0 <= j < trafficLights.Length ==> !trafficLights[j].red
      ensures forall j :: 0 <= j < trafficLights.Length ==>
        trafficLights[j].red == old(trafficLights[j].red) ||
        exists k :: 0 <= k < rounds && trafficLights[Advance(old(pos), trafficLights.Length, k)] == trafficLights[j]
    {
      var start := pos;
      var n := trafficLights.Length;
      for i := 0 to rounds
        invariant Valid() && pos == Advance(start, n, i)
        invariant forall k :: 0 <= k < i ==> !trafficLights[Advance(start, n, k)].red
        invariant forall j :: 0 <= j < n ==>
          trafficLights[j].red == old(trafficLights[j].red) ||
          exists k :: 0 <= k < i && trafficLights[Advance(start, n, k)] == trafficLights[j]
      {
        var light := trafficLights[pos];
        var _ := light.Passby();
        GotoNextLight();
      }
      if rounds >= n {
        forall j | 0 <= j < n
          ensures !trafficLights[j].red
        {
          VisitsEveryLight(start, n, j);
        }
      }
    }
  }
}
