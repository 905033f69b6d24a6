/** A bounded sliding window over a linked list: `LimitQueue<E>` appends at the
    tail and then drops elements from the head until at most `limit` remain. */
module LimitQueues {

  /** How a call to `add` ends: it returns a boolean, or the underlying
      list's `remove()` throws because it was asked to remove from an empty list. */
  datatype AddOutcome = Returned(value: bool) | NoSuchElement

  /** The newest `limit` elements of `s`, oldest first; nothing when `limit` is
      not positive. This is the window a queue with that limit holds after
      `s` has been added to it one element at a time. */
  function Newest<E>(s: seq<E>, limit: int): seq<E>
  {
    if limit <= 0 then [] else if |s| <= limit then s else s[|s| - limit..]
  }

  /** The window keeps min(limit, |s|) elements and they are the tail of `s`,
      in the order they were added. */
  lemma NewestIsSuffix<E>(s: seq<E>, limit: int)
    ensures var n := if limit <= 0 then 0 else if |s| <= limit then |s| else limit;
            |Newest(s, limit)| == n && Newest(s, limit) == s[|s| - n..]
  {
  }

  /** Trimming the current window after appending gives the same window as
      trimming the whole history after appending: the queue never needs to
      remember what it has already dropped. */
  lemma NewestOfAppend<E>(s: seq<E>, o: E, limit: int)
    ensures Newest(Newest(s, limit) + [o], limit) == Newest(s + [o], limit)
  {
    if limit > 0 && |s| > limit {
      var w := s[|s| - limit..];
      assert Newest(s, limit) == w;
      assert (w + [o])[1..] == (s + [o])[|s| + 1 - limit..];
    }
  }

  /** The window after one `add`, computed from the window before it. */
  function AfterAdd<E>(window: seq<E>, o: E, limit: int): seq<E>
  {
    Newest(window + [o], limit)
  }

  /** Applying `add` for each element of `xs` in turn, starting from `window`.
      Since `LimitQueue.Add` takes its contents to `AfterAdd` of the old ones,
      a run of `Add` calls with the elements of `xs` ends with `AfterAdds`;
      the lemmas below are about such runs. */
  function AfterAdds<E>(window: seq<E>, xs: seq<E>, limit: int): seq<E>
    decreases |xs|
  {
    if xs == [] then window else AfterAdds(AfterAdd(window, xs[0], limit), xs[1..], limit)
  }

  /** A queue that starts empty holds, after any run of adds, exactly the
      last `limit` elements added, in insertion order. */
  lemma {:induction false} AfterAddsHoldsNewest<E>(history: seq<E>, xs: seq<E>, limit: int)
    ensures AfterAdds(Newest(history, limit), xs, limit) == Newest(history + xs, limit)
    decreases |xs|
  {
    if xs == [] {
      assert history + xs == history;
    } else {
      NewestOfAppend(history, xs[0], limit);
      AfterAddsHoldsNewest(history + [xs[0]], xs[1..], limit);
      assert history + [xs[0]] + xs[1..] == history + xs;
    }
  }

  /** Over any run of adds to a queue within a non-negative limit, the size
      grows by one per add until it reaches the limit and then stays there. */
  lemma {:induction false} AfterAddsSize<E>(window: seq<E>, xs: seq<E>, limit: int)
    requires 0 <= limit && |window| <= limit
    ensures |AfterAdds(window, xs, limit)| ==
            if |window| + |xs| <= limit then |window| + |xs| else limit
    decreases |xs|
  {
    if xs != [] {
      AfterAddsSize(AfterAdd(window, xs[0], limit), xs[1..], limit);
    }
  }

  /** Over any run of adds, removal only ever takes from the head: the queue
      is a tail of its starting contents followed by everything added. */
  lemma {:induction false} AfterAddsIsSuffix<E>(window: seq<E>, xs: seq<E>, limit: int)
    ensures var w := AfterAdds(window, xs, limit);
            |w| <= |window| + |xs| && w == (window + xs)[|window| + |xs| - |w|..]
    decreases |xs|
  {
    if xs != [] {
      var next := AfterAdd(window, xs[0], limit);
      AfterAddsIsSuffix(next, xs[1..], limit);
      assert next == (window + [xs[0]])[|window| + 1 - |next|..];
      assert window + xs == window + [xs[0]] + xs[1..];
      assert next + xs[1..] == (window + xs)[|window| + 1 - |next|..];
    }
  }

  /** With a positive limit, after any non-empty run of adds the newest
      element of the queue is the last element added. */
  lemma {:induction false} AfterAddsEndsWithLast<E>(window: seq<E>, xs: seq<E>, limit: int)
    requires limit >= 1 && xs != []
    ensures var w := AfterAdds(window, xs, limit); |w| >= 1 && w[|w| - 1] == xs[|xs| - 1]
    decreases |xs|
  {
    var next := AfterAdd(window, xs[0], limit);
    if |xs| > 1 {
      AfterAddsEndsWithLast(next, xs[1..], limit);
    }
  }

  /** After `add` the size never exceeds a non-negative limit, and with a
      positive limit the queue is not empty (so averaging it divides by at
      least one). */
  lemma AddSizeBounds<E>(window: seq<E>, o: E, limit: int)
    requires limit >= 0
    ensures |AfterAdd(window, o, limit)| <= limit
    ensures limit >= 1 ==> |AfterAdd(window, o, limit)| >= 1
  {
  }

  /** With a positive limit, the newest element of the queue after `add` is
      the element just added. */
  lemma AddEndsWithAdded<E>(window: seq<E>, o: E, limit: int)
    requires limit >= 1
    ensures var w := AfterAdd(window, o, limit); |w| >= 1 && w[|w| - 1] == o
  {
  }

  /** Below the limit nothing is removed: the element is simply appended. */
  lemma AddBelowLimitRemovesNothing<E>(window: seq<E>, o: E, limit: int)
    requires |window| < limit
    ensures AfterAdd(window, o, limit) == window + [o]
  {
  }

  /** A full queue stays full, and exactly its oldest element is dropped. */
  lemma AddWhenFullDropsOldest<E>(window: seq<E>, o: E, limit: int)
    requires limit >= 1 && |window| == limit
    ensures |AfterAdd(window, o, limit)| == limit
    ensures AfterAdd(window, o, limit) == window[1..] + [o]
  {
  }

  /** `LimitQueue<E>`: a linked list with a fixed limit whose `add` trims the
      head after appending. */
  class LimitQueue<E> {
    /** The list's elements, head (oldest) first. */
    var items: seq<E>
    /** The bound given at construction; it is never reassigned. */
    const limit: int
    /** Every element ever passed to `Add`, oldest first. */
    ghost var History: seq<E>

    /** The list always holds the newest `limit` elements ever added. */
    ghost predicate Valid()
      reads this
    {
      items == Newest(History, limit)
    }

    constructor (limit: int)
      ensures Valid()
      ensures this.limit == limit && items == [] && History == []
    {
      this.limit := limit;
      items := [];
      History := [];
    }

    /** Appends `o` at the tail, then removes from the head while the size is
        above the limit. With a negative limit the loop empties the list and
        the next removal fails. */
    method Add(o: E) returns (r: AddOutcome)
      requires Valid()
      modifies this
      ensures Valid()
      ensures History == old(History) + [o]
      ensures items == AfterAdd(old(items), o, limit)
      ensures r == if limit >= 0 then Returned(true) else NoSuchElement
      ensures limit >= 0 ==> |items| <= limit
      ensures limit >= 1 ==> |items| >= 1 && items[|items| - 1] == o
    {
      NewestOfAppend(History, o, limit);
      History := History + [o];
      items := items + [o];
      ghost var appended := items;
      ghost var removed: nat := 0;
      while |items| > limit
        invariant History == old(History) + [o] && appended == old(items) + [o]
        invariant removed <= |appended| && items == appended[removed..]
        invariant removed > 0 ==> |items| >= limit
        decreases |items|
      {
        if items == [] {
          // Every element is gone and the limit is negative: remove() throws.
          return NoSuchElement;
        }
        items := items[1..];
        removed := removed + 1;
      }
      return Returned(true);
    }

    /** The number of elements, as `size()` reports it. */
    method Size() returns (n: int)
      requires Valid()
      ensures n == |items|
      ensures limit >= 0 ==> 0 <= n <= limit
      ensures limit < 0 ==> n == 0
    {
      n := |items|;
    }
  }
}
