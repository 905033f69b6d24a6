/** The hand-tracking listener's smoothing state: four sliding windows of the
    most recent sensor samples, each averaged right after it is extended. */
module LeapListener {
  import opened LimitQueues

  /** The capacity of every smoothing window. */
  const WindowSize := 30

  /** `V` stands for the SDK's position vector type; angles are plain reals. */
  class SimpleLeapListener<V> {
    const posLeftAverage: LimitQueue<V>
    const pitchLeftAverage: LimitQueue<real>
    const rollLeftAverage: LimitQueue<real>
    const yawLeftAverage: LimitQueue<real>

    /** Four separate queues, each valid and bounded by `WindowSize`. */
    ghost predicate Valid()
      reads this, posLeftAverage, pitchLeftAverage, rollLeftAverage, yawLeftAverage
    {
      posLeftAverage.Valid() && pitchLeftAverage.Valid() &&
      rollLeftAverage.Valid() && yawLeftAverage.Valid() &&
      posLeftAverage.limit == WindowSize && pitchLeftAverage.limit == WindowSize &&
      rollLeftAverage.limit == WindowSize && yawLeftAverage.limit == WindowSize &&
      pitchLeftAverage != rollLeftAverage && pitchLeftAverage != yawLeftAverage &&
      rollLeftAverage != yawLeftAverage &&
      posLeftAverage as object !in {pitchLeftAverage as object, rollLeftAverage, yawLeftAverage}
    }

    constructor ()
      ensures Valid()
      ensures fresh(posLeftAverage) && fresh(pitchLeftAverage)
      ensures fresh(rollLeftAverage) && fresh(yawLeftAverage)
      ensures posLeftAverage.items == [] && pitchLeftAverage.items == []
      ensures rollLeftAverage.items == [] && yawLeftAverage.items == []
    {
      posLeftAverage := new LimitQueue(WindowSize);
      pitchLeftAverage := new LimitQueue(WindowSize);
      rollLeftAverage := new LimitQueue(WindowSize);
      yawLeftAverage := new LimitQueue(WindowSize);
    }

    /** The queue work of one frame with a tracked hand on a valid screen: the
        three angles are added and each angle window's size is read as the
        divisor of its average, then the screen intersection is added and its
        window's size is read as the divisor of the position average. Every
        divisor is between 1 and `WindowSize`. */
    method RecordHand(pitch: real, roll: real, yaw: real, intersect: V)
      returns (pitchCount: int, rollCount: int, yawCount: int, posCount: int)
      requires Valid()
      modifies posLeftAverage, pitchLeftAverage, rollLeftAverage, yawLeftAverage
      ensures Valid()
      ensures pitchLeftAverage.items == AfterAdd(old(pitchLeftAverage.items), pitch, WindowSize)
      ensures rollLeftAverage.items == AfterAdd(old(rollLeftAverage.items), roll, WindowSize)
      ensures yawLeftAverage.items == AfterAdd(old(yawLeftAverage.items), yaw, WindowSize)
      ensures posLeftAverage.items == AfterAdd(old(posLeftAverage.items), intersect, WindowSize)
      ensures pitchCount == |pitchLeftAverage.items| && rollCount == |rollLeftAverage.items|
      ensures yawCount == |yawLeftAverage.items| && posCount == |posLeftAverage.items|
      ensures 1 <= pitchCount <= WindowSize && 1 <= rollCount <= WindowSize
      ensures 1 <= yawCount <= WindowSize && 1 <= posCount <= WindowSize
    {
      var ok := pitchLeftAverage.Add(pitch);
      ok := rollLeftAverage.Add(roll);
      ok := yawLeftAverage.Add(yaw);
      pitchCount := pitchLeftAverage.Size();
      rollCount := rollLeftAverage.Size();
      yawCount := yawLeftAverage.Size();
      ok := posLeftAverage.Add(intersect);
      posCount := posLeftAverage.Size();
    }
  }
}
