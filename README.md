# Monitors of a concurrency course, as state machines

This project models the shared state of three teaching examples of monitor-based
coordination in Java: the dining philosophers (`PhilosopherTable`, `ForkManager`,
`Philosopher`), the one-lane bridge (`TrafficController`), and cars circling past
traffic lights (`TrafficLight`, `Car`). Threads, locks and timing are not modelled.
What remains is the small sequential state each monitor guards. Every blocking
`while (...) await()` loop of the fork manager and the bridge becomes a precondition
or an `Enabled` predicate of the step that follows it. The exception is
`TrafficLight.passby`, whose `wait()` is skipped: the car switches the light to
green itself, as the loop body does after it wakes. Every `signal` of the bridge
becomes a function that says which wait set loses a waiter. The fork manager's
`signal` and the light's `notifyAll` have no wait set in the model (see Left out).

Modules:

- `Ring` (ring.dfy): Java's truncating `%` and the neighbour functions `left`/`right`.
- `Forks` (forks.dfy): `ForkManager` as a class over an array of `FREE`/`OCCUPIED` slots.
- `Dining` (dining.dfy): the whole table as a state machine. Each philosopher has a
  program counter (its position in `think(); takeForks(); eat(); putForks();`), and the
  table holds the fork slots. It defines runs of steps and the per-fork invariant, with the
  per-fork mutual exclusion and "no two neighbours EATING" proofs. It also shows that the
  circular wait is reachable, and how the code as written differs (see Findings).
- `Philosophers` (philosophers.dfy): `PhilosopherTable` and `Philosopher` as objects,
  following the code as written. Each atomic step of a philosopher's `run` loop is a
  method proved to be the matching `Dining.Next` step.
- `Bridge` (bridge.dfy): the bridge controller as a state machine, with the two wait sets
  as counts. It defines the wake-up choice on leave and a mutual-exclusion lemma over runs.
  `TrafficController` is a class whose methods are proved to be those steps.
- `TrafficLights` (traffic_light.dfy): `TrafficLight` and `Car` as classes, with the
  car's position proved to go round the ring of lights.
- `Options` (option.dfy): the `Option` result of a run of steps, shared by `Dining` and `Bridge`.

The source names its condition variables crosswise. A car calling `enterLeft` waits on
`goRight`, and one calling `enterRight` waits on `goLeft`. So `leaveLeft`, which
signals `goLeft` first, prefers cars travelling in the same direction as the car that
just left. The model keeps the source's names.

## Where the code departs from the usual statement of the problems

The dining philosophers and the one-lane bridge are usually stated with a few
promises the code does not keep. The model follows the code in each case:

- A blocked `acquireFork` or `enterLeft`/`enterRight` that is interrupted does not
  report a cancellation and does not undo earlier acquisitions. The catch block prints
  the exception and the call returns normally, with the slot or flag untouched.
- Neighbouring philosophers are meant never to be both `EATING`. As written their
  `philoState` can be (see Findings). The classes keep the code's order. For them the
  model proves the weaker fact that neighbours are never both between `eat()` and
  `putForks()`. The `Dining` state machine proves the full promise for the corrected
  order, and exhibits the counterexample for the order as written.
- The problem is usually stated for two or more philosophers. The code accepts any
  count of zero or more (a negative count throws when the arrays are created), but
  `left`/`right` divide by zero when there are none. The model allows one or more.

## Model

| member | source | states |
|---|---|---|
| Ring.JavaRem | handout/Philosopher/src/main/java/ch/zhaw/prog2/philosopher/PhilosopherTable.java:46 | Java `%`: a equals the truncated quotient times b plus the remainder; the remainder has the dividend's sign and is smaller in size than the divisor, and it is the dividend itself when that is already smaller in size |
| Ring.Left | handout/Philosopher/src/main/java/ch/zhaw/prog2/philosopher/PhilosopherTable.java:45-47 | for a seat 0 <= i < n the result is a seat, namely i - 1, or n - 1 when i = 0 |
| Ring.Right | handout/Philosopher/src/main/java/ch/zhaw/prog2/philosopher/PhilosopherTable.java:49-51 | for a seat 0 <= i < n the result is a seat, namely i + 1, or 0 when i = n - 1 |
| Ring.LeftRightRoundTrip | handout/Philosopher/src/main/java/ch/zhaw/prog2/philosopher/PhilosopherTable.java:45-51 | left(right(i)) == i and right(left(i)) == i for every seat |
| Ring.NeighboursDiffer | handout/Philosopher/src/main/java/ch/zhaw/prog2/philosopher/PhilosopherTable.java:45-51 | with two or more seats no seat is its own neighbour; left and right of a seat coincide exactly when n = 2 |
| Ring.SingleSeatIsOwnNeighbour | handout/Philosopher/src/main/java/ch/zhaw/prog2/philosopher/PhilosopherTable.java:45-51 | with one seat, seat 0 is its own left and right neighbour |
| Ring.NegativeSeatLeavesRing | handout/Philosopher/src/main/java/ch/zhaw/prog2/philosopher/PhilosopherTable.java:45-51 | some arguments outside [0, n) give results that are no seats: whenever i + 1 lies in (-n, 0), right(i) = i + 1 < 0, and whenever n + i - 1 does, left(i) = n + i - 1 < 0; on 5 seats left(-7) = -3 and right(-7) = -1 |
| Forks.ForkManager.constructor | handout/Philosopher/src/main/java/ch/zhaw/prog2/philosopher/PhilosopherTable.java:63-85 | a new manager has exactly nrForks forks, all FREE |
| Forks.ForkManager.AcquireFork | handout/Philosopher/src/main/java/ch/zhaw/prog2/philosopher/PhilosopherTable.java:87-98 | without an interrupt the call completes only on a FREE fork and leaves it OCCUPIED; an interrupted wait leaves every slot unchanged; no other slot ever changes |
| Forks.ForkManager.ReleaseFork | handout/Philosopher/src/main/java/ch/zhaw/prog2/philosopher/PhilosopherTable.java:100-108 | fork i is FREE afterwards and no other slot changes |
| Forks.ForkManager.Left | handout/Philosopher/src/main/java/ch/zhaw/prog2/philosopher/PhilosopherTable.java:110-111 | left of a fork index is a fork index whose right is the original |
| Forks.ForkManager.Right | handout/Philosopher/src/main/java/ch/zhaw/prog2/philosopher/PhilosopherTable.java:113-114 | right of a fork index is a fork index whose left is the original |
| Dining.Init | handout/Philosopher/src/main/java/ch/zhaw/prog2/philosopher/PhilosopherTable.java:13-22 | the new table: every philosopher at the top of its loop (THINKING), every fork FREE |
| Dining.StateAsWritten | handout/Philosopher/src/main/java/ch/zhaw/prog2/philosopher/PhilosopherTable.java:152-172 | the philoState the code shows: EATING from eat() until the next think(), HUNGRY from takeForks() until eat() |
| Dining.State | handout/Philosopher/src/main/java/ch/zhaw/prog2/philosopher/PhilosopherTable.java:152-193 | the philoState with putForks() setting THINKING first: EATING exactly while eating with both forks |
| Dining.Enabled | handout/Philosopher/src/main/java/ch/zhaw/prog2/philosopher/PhilosopherTable.java:87-98 | the wait loop of `acquireFork` is the only place that blocks: a hungry philosopher waits exactly while fork id is OCCUPIED, one holding its own fork exactly while fork right(id) is |
| Dining.Next | handout/Philosopher/src/main/java/ch/zhaw/prog2/philosopher/PhilosopherTable.java:174-203 | one atomic step of one philosopher: only that philosopher's position changes |
| Dining.NextMovesOneLoopPosition | handout/Philosopher/src/main/java/ch/zhaw/prog2/philosopher/PhilosopherTable.java:195-203 | a step advances the philosopher by one position of think/takeForks/eat/putForks and touches no fork but its own two |
| Dining.Run | handout/Philosopher/src/main/java/ch/zhaw/prog2/philosopher/PhilosopherTable.java:195-203 | a run of steps from a well-formed table keeps the number of seats |
| Dining.InitInv | handout/Philosopher/src/main/java/ch/zhaw/prog2/philosopher/PhilosopherTable.java:13-22 | the new table satisfies the fork invariant |
| Dining.NextInv | handout/Philosopher/src/main/java/ch/zhaw/prog2/philosopher/PhilosopherTable.java:87-108 | every enabled step keeps the fork invariant: each fork is held by fork-owner or left neighbour, never both, and OCCUPIED exactly when held |
| Dining.RunInv | handout/Philosopher/src/main/java/ch/zhaw/prog2/philosopher/PhilosopherTable.java:195-203 | every run from a table satisfying the invariant ends in one that satisfies it |
| Dining.ReachableInv | handout/Philosopher/src/main/java/ch/zhaw/prog2/philosopher/PhilosopherTable.java:195-203 | every reachable table satisfies the fork invariant |
| Dining.ForkHeldByOne | handout/Philosopher/src/main/java/ch/zhaw/prog2/philosopher/PhilosopherTable.java:87-98 | mutual exclusion per fork: two philosophers holding the same fork are the same philosopher |
| Dining.OccupiedIffHeld | handout/Philosopher/src/main/java/ch/zhaw/prog2/philosopher/PhilosopherTable.java:87-108 | a fork is OCCUPIED exactly when some philosopher holds it |
| Dining.EatingHoldsBothForks | handout/Philosopher/src/main/java/ch/zhaw/prog2/philosopher/PhilosopherTable.java:163-186 | a philosopher EATING in `Dining.State`, i.e. between `eat()` and `putForks()`, holds forks id and right(id), both OCCUPIED |
| Dining.AdjacentNeverBothEating | handout/Philosopher/src/main/java/ch/zhaw/prog2/philosopher/PhilosopherTable.java:174-203 | philosophers i and right(i) are never both EATING in `Dining.State`, i.e. both between `eat()` and `putForks()` |
| Dining.BlockedWaitsForNeighbour | handout/Philosopher/src/main/java/ch/zhaw/prog2/philosopher/PhilosopherTable.java:87-98 | a blocked philosopher waits for a fork that a neighbour holds: the left neighbour holds fork id, or the right neighbour holds fork right(id) |
| Dining.ReachableAdjacentNeverBothEating | handout/Philosopher/src/main/java/ch/zhaw/prog2/philosopher/PhilosopherTable.java:195-203 | in every table reachable from the start no two neighbours are EATING in `Dining.State`, i.e. both between `eat()` and `putForks()` |
| Dining.TakeOwnForksRun | handout/Philosopher/src/main/java/ch/zhaw/prog2/philosopher/PhilosopherTable.java:174-186 | letting philosophers 0..k-1 each take their own fork reaches the table where exactly they hold it |
| Dining.CircularWaitReachable | handout/Philosopher/src/main/java/ch/zhaw/prog2/philosopher/PhilosopherTable.java:174-186 | for every n >= 1 the table where every philosopher holds its own fork is reachable, and there no philosopher can take a step |
| Dining.AsWrittenNeighboursBothEating | handout/Philosopher/src/main/java/ch/zhaw/prog2/philosopher/PhilosopherTable.java:163-203 | with the code's order, two neighbours are both EATING after a run of ten steps, once philosopher 0 has returned from putForks() but not yet called think() |
| Dining.AsWrittenEatingDuringPutForks | handout/Philosopher/src/main/java/ch/zhaw/prog2/philosopher/PhilosopherTable.java:163-203 | with the code's order and three philosophers, philosopher 2 takes fork 0 as soon as philosopher 0 releases it inside putForks() and eats, while philosopher 0 still shows EATING: a run of nine steps that needs no pause |
| Philosophers.PhilosopherTable.constructor | handout/Philosopher/src/main/java/ch/zhaw/prog2/philosopher/PhilosopherTable.java:13-22 | a valid table of philoCount philosophers, seat j holding philosopher j, equal to the initial state |
| Philosophers.PhilosopherTable.Left | handout/Philosopher/src/main/java/ch/zhaw/prog2/philosopher/PhilosopherTable.java:45-47 | left of a seat is a seat whose right is the original |
| Philosophers.PhilosopherTable.Right | handout/Philosopher/src/main/java/ch/zhaw/prog2/philosopher/PhilosopherTable.java:49-51 | right of a seat is a seat whose left is the original |
| Philosophers.PhilosopherTable.NeighboursNotBothEating | handout/Philosopher/src/main/java/ch/zhaw/prog2/philosopher/PhilosopherTable.java:174-203 | on a valid table, philosophers i and right(i) are never both between `eat()` and `putForks()` |
| Philosophers.PhilosopherTable.EatingPhilosopherHasForks | handout/Philosopher/src/main/java/ch/zhaw/prog2/philosopher/PhilosopherTable.java:163-191 | on a valid table, a philosopher between `eat()` and `putForks()` shows EATING and has forks id and right(id) OCCUPIED |
| Philosophers.Philosopher.constructor | handout/Philosopher/src/main/java/ch/zhaw/prog2/philosopher/PhilosopherTable.java:123-134 | a new philosopher has its id and table and is THINKING |
| Philosophers.Philosopher.StartTakeForks | handout/Philosopher/src/main/java/ch/zhaw/prog2/philosopher/PhilosopherTable.java:174-176 | the philosopher becomes HUNGRY; the table takes the matching state-machine step and stays valid |
| Philosophers.Philosopher.AcquireOwnFork | handout/Philosopher/src/main/java/ch/zhaw/prog2/philosopher/PhilosopherTable.java:178-179 | once fork id is FREE the philosopher takes it (OCCUPIED); matching step, table stays valid |
| Philosophers.Philosopher.AcquireRightFork | handout/Philosopher/src/main/java/ch/zhaw/prog2/philosopher/PhilosopherTable.java:185 | once fork right(id) is FREE the philosopher takes it and then holds both; matching step |
| Philosophers.Philosopher.Eat | handout/Philosopher/src/main/java/ch/zhaw/prog2/philosopher/PhilosopherTable.java:163-172 | the philosopher becomes EATING; matching step |
| Philosophers.Philosopher.PutOwnFork | handout/Philosopher/src/main/java/ch/zhaw/prog2/philosopher/PhilosopherTable.java:188-190 | fork id is FREE and `philoState` stays EATING; matching step, table stays valid |
| Philosophers.Philosopher.PutRightFork | handout/Philosopher/src/main/java/ch/zhaw/prog2/philosopher/PhilosopherTable.java:191 | fork right(id) is FREE and `philoState` still EATING; matching step |
| Philosophers.Philosopher.Think | handout/Philosopher/src/main/java/ch/zhaw/prog2/philosopher/PhilosopherTable.java:152-161 | the philosopher is THINKING at the top of its loop; matching step |
| Philosophers.Philosopher.RunStep | handout/Philosopher/src/main/java/ch/zhaw/prog2/philosopher/PhilosopherTable.java:195-203 | the next atomic step of the `run` loop (one of the seven that make up one pass) moves the philosopher one loop position, as Dining.Next does |
| Bridge.Initial | handout/Bridge/src/main/java/ch/zhaw/prog2/bridge/TrafficController.java:13 | a new controller: bridge free, no waiters |
| Bridge.LeaveLeftSignal | handout/Bridge/src/main/java/ch/zhaw/prog2/bridge/TrafficController.java:54-59 | leaveLeft signals goLeft exactly when goLeft has waiters, otherwise goRight |
| Bridge.LeaveRightSignal | handout/Bridge/src/main/java/ch/zhaw/prog2/bridge/TrafficController.java:70-75 | leaveRight signals goRight exactly when goRight has waiters, otherwise goLeft |
| Bridge.Signal | handout/Bridge/src/main/java/ch/zhaw/prog2/bridge/TrafficController.java:55-58 | a signal keeps the occupancy; one waiter leaves the signalled condition's wait set when it has one, and the other wait set is unchanged |
| Bridge.Enabled | handout/Bridge/src/main/java/ch/zhaw/prog2/bridge/TrafficController.java:20-22 | an enter proceeds exactly when the bridge is free and a car waits exactly when it is occupied; an interrupt needs a waiter on that condition; a leave never blocks |
| Bridge.EnterOrWait | handout/Bridge/src/main/java/ch/zhaw/prog2/bridge/TrafficController.java:20-39 | each pass of an enter's wait loop either occupies the free bridge, after which no enter from either side is possible, or waits; never both and never neither |
| Bridge.Next | handout/Bridge/src/main/java/ch/zhaw/prog2/bridge/TrafficController.java:17-79 | an enter leaves the bridge occupied, a leave leaves it free, and waiting or an interrupt does not change it |
| Bridge.LeaveWakesSameDirectionFirst | handout/Bridge/src/main/java/ch/zhaw/prog2/bridge/TrafficController.java:50-79 | leaveLeft wakes a goLeft waiter if any, else a goRight waiter if any; leaveRight symmetrically |
| Bridge.LeaveWakesExactlyOne | handout/Bridge/src/main/java/ch/zhaw/prog2/bridge/TrafficController.java:55-74 | a leave wakes exactly one waiter when any waits and never more than one |
| Bridge.OccupiedUntilLeave | handout/Bridge/src/main/java/ch/zhaw/prog2/bridge/TrafficController.java:20-39 | after a successful enter the bridge stays occupied until the next leave |
| Bridge.EnterThenLeaveBeforeNextEnter | handout/Bridge/src/main/java/ch/zhaw/prog2/bridge/TrafficController.java:17-79 | between any two successful enters of a run, from either side, there is a leave |
| Bridge.TrafficController.constructor | handout/Bridge/src/main/java/ch/zhaw/prog2/bridge/TrafficController.java:10-13 | a new controller has the bridge free and empty wait sets |
| Bridge.TrafficController.EnterLeft | handout/Bridge/src/main/java/ch/zhaw/prog2/bridge/TrafficController.java:17-30 | completes only on a free bridge, leaves it occupied, and no further enter is enabled |
| Bridge.TrafficController.AwaitLeft | handout/Bridge/src/main/java/ch/zhaw/prog2/bridge/TrafficController.java:20-22 | on an occupied bridge the car joins goRight |
| Bridge.TrafficController.InterruptLeft | handout/Bridge/src/main/java/ch/zhaw/prog2/bridge/TrafficController.java:25-29 | an interrupted waiter leaves goRight without touching bridgeOccupied |
| Bridge.TrafficController.EnterRight | handout/Bridge/src/main/java/ch/zhaw/prog2/bridge/TrafficController.java:33-47 | completes only on a free bridge, leaves it occupied, and no further enter is enabled |
| Bridge.TrafficController.AwaitRight | handout/Bridge/src/main/java/ch/zhaw/prog2/bridge/TrafficController.java:36-38 | on an occupied bridge the car joins goLeft |
| Bridge.TrafficController.InterruptRight | handout/Bridge/src/main/java/ch/zhaw/prog2/bridge/TrafficController.java:41-45 | an interrupted waiter leaves goLeft without touching bridgeOccupied |
| Bridge.TrafficController.LeaveLeft | handout/Bridge/src/main/java/ch/zhaw/prog2/bridge/TrafficController.java:50-63 | the bridge is free; goLeft is signalled exactly when it has waiters; at most one waiter is woken |
| Bridge.TrafficController.LeaveRight | handout/Bridge/src/main/java/ch/zhaw/prog2/bridge/TrafficController.java:66-79 | the bridge is free; goRight is signalled exactly when it has waiters; at most one waiter is woken |
| TrafficLights.TrafficLight.constructor | handout/TrafficLIght/src/main/java/ch/zhaw/prog2/trafficlight/TrafficLight.java:6-8 | a new light is red |
| TrafficLights.TrafficLight.Passby | handout/TrafficLIght/src/main/java/ch/zhaw/prog2/trafficlight/TrafficLight.java:10-20 | always returns with the light green; the loop body runs once if the light was red and not at all if green |
| TrafficLights.TrafficLight.SwitchToRed | handout/TrafficLIght/src/main/java/ch/zhaw/prog2/trafficlight/TrafficLight.java:22-25 | the light is red whatever it was before, so a second call changes nothing |
| TrafficLights.TrafficLight.SwitchToGreen | handout/TrafficLIght/src/main/java/ch/zhaw/prog2/trafficlight/TrafficLight.java:27-33 | the light is green whatever it was before, so a second call changes nothing |
| TrafficLights.NextLight | handout/TrafficLIght/src/main/java/ch/zhaw/prog2/trafficlight/Car.java:18-25 | from a valid position the next one is (pos + 1) % length; from any position >= 0 it stays an index, or 0 |
| TrafficLights.Advance | handout/TrafficLIght/src/main/java/ch/zhaw/prog2/trafficlight/Car.java:18-25 | repeated moves from a valid position stay in [0, length) |
| TrafficLights.AdvanceWithinCircle | handout/TrafficLIght/src/main/java/ch/zhaw/prog2/trafficlight/Car.java:18-25 | k <= length moves go k lights on, wrapping past the last light at most once |
| TrafficLights.FullCircle | handout/TrafficLIght/src/main/java/ch/zhaw/prog2/trafficlight/Car.java:18-29 | after length moves the car is back at its start, and its positions repeat with period length |
| TrafficLights.VisitsEveryLight | handout/TrafficLIght/src/main/java/ch/zhaw/prog2/trafficlight/Car.java:27-38 | within the first length moves the car stands at every light |
| TrafficLights.Car.constructor | handout/TrafficLIght/src/main/java/ch/zhaw/prog2/trafficlight/Car.java:7-12 | a new car starts at position 0 |
| TrafficLights.Car.Position | handout/TrafficLIght/src/main/java/ch/zhaw/prog2/trafficlight/Car.java:14-16 | returns pos, a valid index, and changes nothing |
| TrafficLights.Car.GotoNextLight | handout/TrafficLIght/src/main/java/ch/zhaw/prog2/trafficlight/Car.java:18-25 | pos becomes (pos + 1) % length and stays a valid index |
| TrafficLights.Car.Drive | handout/TrafficLIght/src/main/java/ch/zhaw/prog2/trafficlight/Car.java:27-39 | rounds passes of the run loop move the car rounds lights on; every light passed is green afterwards, and after length rounds every light is; a light the car never stands at keeps its colour |

## Findings

| source | as written | input that shows it | evidently intended | confidence | as-written member | corrected member |
|---|---|---|---|---|---|---|
| handout/Philosopher/src/main/java/ch/zhaw/prog2/philosopher/PhilosopherTable.java:188-203 | `putForks()` releases both forks but leaves `philoState` at EATING until the next `think()` | 3 philosophers: philosopher 0 takes forks 0 and 1 and eats; philosopher 2 takes fork 2 and waits for fork 0; philosopher 0 releases fork 0 (line 190); philosopher 2 takes it and calls eat() while philosopher 0 is still in putForks(); neighbours 2 and 0 both show EATING | a philosopher shows EATING only while it holds both forks, i.e. putForks() sets THINKING before releasing | not executed; the interleaving is certain, that it is unintended is likely | Dining.AsWrittenEatingDuringPutForks | Dining.AdjacentNeverBothEating |

The classes in `Philosophers` keep the order as written: `PutOwnFork` releases fork
id and leaves `philoState` at EATING until `Think`. The corrected order is modelled
by `Dining.State`, which `Dining.AdjacentNeverBothEating` is stated over. The
two-seat run of `Dining.AsWrittenNeighboursBothEating` shows the same overlap. It
needs philosopher 0 to pause between returning from putForks() and the write in
think() for longer than philosopher 1's `sleep(500)`; the three-seat run needs no pause.

## Left out

- Threads, locks and waiting are not modelled: `start`, `sleep`, `setPriority`,
  `Math.random` delays and the `await`/`signal`/`wait`/`notifyAll` calls. A blocked
  call is a step whose precondition (`Enabled`) does not hold. Which thread runs next is
  any enabled step of a run.
- `PhilosopherTable.notifyStateChange` and `start` are not modelled. The first goes through
  `java.util.Observable` to the GUI and console logger; the second starts threads. The
  accessors `getForkManager`, `getPhilo`, `getPhiloState`, `getId` and
  `getIdOfLeftNeighbour`/`getIdOfRightNeighbour` only return fields or call left/right.
- Forks.ForkManager.ReleaseFork: each Fork's own condition variable is not kept. The
  signal to waiters of slot i is represented only by slot i being FREE, which enables
  their acquire step again. A Fork object is reduced to its `forkState`.
- Philosophers.Philosopher.AcquireOwnFork, Philosophers.Philosopher.AcquireRightFork:
  always acquire without interrupt. The source never interrupts a philosopher. If it did,
  `takeForks` would go on to eat without the fork, which the model does not cover.
- The first `think()` of a fresh philosopher writes THINKING over THINKING. The model
  starts a philosopher past it, at `Thinking`.
- Forks.ForkManager.constructor: requires nrForks >= 0. With a negative count
  `new Fork[nrForks]` throws `NegativeArraySizeException`, which is not modelled; so
  does `new Philosopher[philoCount]` in the table's constructor.
- Philosophers.PhilosopherTable.constructor: requires at least one philosopher, because
  `left`/`right` divide by zero on an empty table.
- Ring.Left, Ring.Right: compute with unbounded integers, so Java's 32-bit `int`
  wrap-around is not modelled. `philoCount + i - 1` overflows for a seat i once
  philoCount exceeds 2^30, and for any philoCount when i is within philoCount of
  `Integer.MAX_VALUE`; `i + 1` overflows at i = `Integer.MAX_VALUE`. Such a table
  cannot be built in practice; a seat outside [0, n) is never passed by the code.
- Bridge: only the controller is modelled. The car threads that call it are not part of
  this model. A car whose `enterLeft`/`enterRight` wait was interrupted returns normally
  and may then drive onto the bridge. The model records only that the controller's state
  is untouched.
- TrafficLights.TrafficLight.Passby: the wake-up that ends `wait()` is not modelled, nor
  is the light's wait set that `notifyAll` empties. The car then switches the light to
  green itself, as the code does.
- TrafficLights.Car.Drive: runs the endless `run()` loop for a given number of rounds.
  Other threads switching lights to red are not part of this model.
  With no lights `run()` fails on its first array access, so Drive requires at least one.
- The bounded buffer (`GuardedCircularBuffer`, whose storage class is not part of this
  model), the Mandelbrot and philosopher GUIs, the printer and thread-priority demos, and
  `Account` are not modelled.
- Fairness and starvation (whether a waiting car or philosopher is eventually served)
  are not modelled; only the wake-up choice of each leave is.
