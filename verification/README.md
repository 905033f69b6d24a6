# LimitQueue: the smoothing windows of the Leap3DFX hand listener

The Leap3DFX demo rotates and moves a 3D model by following a hand over a
Leap Motion controller. Sensor readings are noisy, so the listener keeps the
most recent 30 pitch, roll and yaw angles and 30 screen intersections. Each
set is kept in a `LimitQueue<E>`, a `LinkedList` with a fixed `limit`. Its
`add` appends the new sample at the tail. It then removes from the head while
the size is above `limit`, and returns `true`. After every frame with a
tracked hand on a valid screen, the listener adds one sample to each window
and averages it by dividing the sum by `size()`. Frames without a hand do
not touch the windows.

This project models that queue as a Dafny class, `LimitQueues.LimitQueue`. The
class has a concrete `seq` of items, a `const` limit and a ghost history of
every element ever added. `Add` keeps the head-trimming `while` loop, and is
proved to leave the queue holding exactly the newest `limit` elements of the
history, oldest first (`Valid()`). The listener's part is modelled in
`LeapListener.SimpleLeapListener`: four windows of size 30, and the order in
which one frame adds to them and reads their sizes as divisors.

A negative limit is not excluded by a precondition; it is modelled as the
code behaves. `add` appends, the loop empties the list, and the next
`remove()` on the empty list throws `NoSuchElementException`. `Add` then
returns `NoSuchElement` and leaves the queue empty. The listener only ever
uses the limit 30.

## Model

| member | source | states |
|---|---|---|
| `LimitQueues.NewestIsSuffix` | src/com/jpl/leap3d/SimpleLeapListener.java:129 | the window holds min(limit, number added) elements (none for a non-positive limit), and they are the tail of the history in insertion order |
| `LimitQueues.NewestOfAppend` | src/com/jpl/leap3d/SimpleLeapListener.java:128-129 | appending to the current window and trimming it gives the same window as trimming the whole history after appending, so trimming only the current list is enough |
| `LimitQueues.AfterAddsHoldsNewest` | src/com/jpl/leap3d/SimpleLeapListener.java:127-131 | after any run of adds, the queue holds exactly the last `limit` elements added, in insertion order |
| `LimitQueues.AfterAddsSize` | src/com/jpl/leap3d/SimpleLeapListener.java:129 | with a non-negative limit, the size grows by one per add until it reaches the limit, and a full queue stays full through any run of adds |
| `LimitQueues.AfterAddsIsSuffix` | src/com/jpl/leap3d/SimpleLeapListener.java:128-129 | over any run of adds, removal only takes from the head: the queue is a tail of its starting contents followed by every added element, in order |
| `LimitQueues.AfterAddsEndsWithLast` | src/com/jpl/leap3d/SimpleLeapListener.java:128-129 | with a positive limit, after any non-empty run of adds the last element of the queue is the last element added |
| `LimitQueues.AddSizeBounds` | src/com/jpl/leap3d/SimpleLeapListener.java:128-129 | after `add` the size is at most a non-negative limit, and at least 1 when the limit is positive |
| `LimitQueues.AddEndsWithAdded` | src/com/jpl/leap3d/SimpleLeapListener.java:128-129 | with a positive limit, the last element after `add` is the element just added |
| `LimitQueues.AddBelowLimitRemovesNothing` | src/com/jpl/leap3d/SimpleLeapListener.java:128-129 | below the limit nothing is removed: the new contents are the old contents followed by the added element |
| `LimitQueues.AddWhenFullDropsOldest` | src/com/jpl/leap3d/SimpleLeapListener.java:129 | on a full queue the size stays equal to the limit, and exactly the oldest element is dropped |
| `LimitQueues.LimitQueue.constructor` | src/com/jpl/leap3d/SimpleLeapListener.java:122-124 | a new queue is empty and keeps the given limit; `limit` is a `const` and can never change afterwards |
| `LimitQueues.LimitQueue.Add` | src/com/jpl/leap3d/SimpleLeapListener.java:126-131 | appends, then trims the head in a loop. The new contents are the newest `limit` elements of the old contents plus `o`, and the window invariant over the whole history is kept. The result is `true` for a non-negative limit. A negative limit gives the empty-list exception and leaves the queue empty |
| `LimitQueues.LimitQueue.Size` | src/com/jpl/leap3d/SimpleLeapListener.java:109-117 | the size used as the averages' divisor is the number of elements; it lies in 0..limit for a non-negative limit and is 0 for a negative one |
| `LeapListener.SimpleLeapListener.constructor` | src/com/jpl/leap3d/SimpleLeapListener.java:35-38 | the four windows are distinct, empty and have the limit 30 |
| `LeapListener.SimpleLeapListener.RecordHand` | src/com/jpl/leap3d/SimpleLeapListener.java:68-77 | each window gets its sample through `add`. Every size later used as a divisor by `dAverage` or `vAverage` is between 1 and 30, so no average divides by zero |

## Left out

- `RecordHand`: models only the queue operations of `onFrame`. The Leap SDK calls are not modelled: frame, hands, leftmost hand, located screens, `Screen.intersect`, and the circle-gesture filter with the rightmost hand. They act on foreign objects whose behaviour is not visible. The angles and the intersection vector become parameters.
- The numeric values of `dAverage` and `vAverage` (lines 102-118): they are floating-point sums and divisions (`vAverage` sums in 32-bit `float`). Only the non-emptiness they need is stated, through the divisors returned by `RecordHand`.
- The clamping of the averaged position to screen pixels (lines 78-80) and the JavaFX properties the listener writes to (lines 30-34 and 39-47): floating-point arithmetic and observable-binding machinery.
- `onConnect` (lines 50-52): a single SDK call.
- `LimitQueue` inherits every other `LinkedList` operation: `addFirst`, `addAll`, `set`, removal and so on. They could break the size bound, but the listener only calls `add`, `size()` and iteration, so only those are modelled. Iteration is the element sequence `items`.
- The linked nodes of `LinkedList` are modelled as a sequence, so node allocation and aliasing are not represented. Each loop iteration removes the head, as `remove()` does.
- `LimitQueue.Size`: `size()` is a 32-bit `int`; a list of more than 2^31 - 1 elements cannot arise with the limit 30 and is not modelled.
- src/com/jpl/leap3d/Leap3D.java as a whole. It covers scene, camera and model loading through JavaFX and a 3DS importer, and the library-path reflection. It also has the UI-thread handlers, the mouse-drag camera arithmetic and the floating-point axis-angle rotation in `matrixRotateNode`. None of it touches the queue.
