/** The client's frame buffer: a first-in first-out queue with a capacity,
    where adding to a full queue discards the oldest entry instead of
    blocking, and taking from an empty queue yields nothing instead of
    blocking. The Python class wraps `queue.Queue(maxsize)`; its locking is
    not modelled, each operation is one atomic step here. */
module JitterBuffer {
  import opened Wrappers
  import opened Octets

  /** A frame as the network side hands it over: the payload bytes. */
  type Frame = Bytes

  const DEFAULT_MAX_SIZE: int := 300

  /** The queued frames, oldest first, and the capacity given at construction.
      As with `queue.Queue`, a capacity of 0 or less means unbounded. */
  datatype Buffer = Buffer(items: seq<Frame>, maxSize: int)
  {
    /** `queue.Queue.full()`. */
    predicate Full()
    {
      0 < maxSize <= |items|
    }

    /** `qsize()`: the number of queued frames. */
    function QSize(): nat
    {
      |items|
    }

    /** The bound the buffer keeps: never more frames than its capacity. */
    predicate Valid()
    {
      maxSize > 0 ==> |items| <= maxSize
    }
  }

  /** The outcome of `get()`: the frame taken, if any, and the buffer after. */
  datatype Taken = Taken(frame: Option<Frame>, rest: Buffer)

  function Empty(maxSize: int): (b: Buffer)
    ensures b.Valid() && b.QSize() == 0 && b.maxSize == maxSize
  {
    Buffer([], maxSize)
  }

  /** `put(frame)`: append at the tail; when the buffer is full, first drop
      the head (the `except queue.Empty` branch cannot be taken, since a full
      queue with positive capacity is non-empty). */
  function Put(b: Buffer, frame: Frame): (r: Buffer)
    ensures r.maxSize == b.maxSize
    ensures b.Valid() ==> r.Valid()
    ensures r.QSize() == if b.Full() then b.QSize() else b.QSize() + 1
    // the new frame is at the tail, after the earlier entries minus the oldest when full
    ensures |r.items| > 0 && r.items[|r.items| - 1] == frame
    ensures |r.items| > 0 && r.items[..|r.items| - 1] == if b.Full() then b.items[1..] else b.items
  {
    if !b.Full() then b.(items := b.items + [frame])
    else b.(items := b.items[1..] + [frame])
  }

  /** `get()`: take the oldest frame, or None when there is none. */
  function Get(b: Buffer): (r: Taken)
    ensures r.rest.maxSize == b.maxSize
    ensures b.QSize() == 0 ==> r.frame == None && r.rest == b
    ensures b.QSize() > 0 ==> r.frame == Some(b.items[0]) && r.rest.items == b.items[1..]
    ensures b.Valid() ==> r.rest.Valid()
  {
    if |b.items| == 0 then Taken(None, b) else Taken(Some(b.items[0]), b.(items := b.items[1..]))
  }

  /** `clear()`: drop every queued frame, keeping the capacity. */
  function Clear(b: Buffer): (r: Buffer)
    ensures r.QSize() == 0 && r.maxSize == b.maxSize && r.Valid()
  {
    b.(items := [])
  }

  /** The frames of xs put one after another. */
  function PutAll(b: Buffer, xs: seq<Frame>): Buffer
    decreases |xs|
  {
    if |xs| == 0 then b else PutAll(Put(b, xs[0]), xs[1..])
  }

  /** Every frame taken by repeated `get()` until None, in order. */
  function Drain(b: Buffer): seq<Frame>
    decreases |b.items|
  {
    var t := Get(b);
    if t.frame.None? then [] else [t.frame.value] + Drain(t.rest)
  }

  /** The newest `capacity` frames of xs (all of them when the capacity is
      unbounded or not reached). */
  function Newest(xs: seq<Frame>, capacity: int): (r: seq<Frame>)
  {
    if capacity <= 0 || |xs| <= capacity then xs else xs[|xs| - capacity..]
  }

  /** Drop-oldest: putting any frames into a buffer that already holds the
      newest frames of a history leaves the newest frames of the extended
      history, in arrival order. */
  lemma {:induction false} PutAllKeepsNewest(hist: seq<Frame>, xs: seq<Frame>, capacity: int)
    ensures PutAll(Buffer(Newest(hist, capacity), capacity), xs).items == Newest(hist + xs, capacity)
    decreases |xs|
  {
    if |xs| > 0 {
      var b := Buffer(Newest(hist, capacity), capacity);
      PutNewest(hist, xs[0], capacity);
      assert hist + xs == (hist + [xs[0]]) + xs[1..];
      PutAllKeepsNewest(hist + [xs[0]], xs[1..], capacity);
    } else {
      assert hist + xs == hist;
    }
  }

  /** One step of the above. */
  lemma {:induction false} PutNewest(hist: seq<Frame>, x: Frame, capacity: int)
    ensures Put(Buffer(Newest(hist, capacity), capacity), x) == Buffer(Newest(hist + [x], capacity), capacity)
  {
    var h := hist + [x];
    if capacity > 0 && |hist| >= capacity {
      assert Newest(hist, capacity)[1..] + [x] == h[|h| - capacity..];
    }
  }

  /** Putting frames into an empty buffer of capacity C keeps exactly the last
      C of them, in order. In particular, after C + 1 puts the first frame is
      gone and frames 2..C+1 remain. */
  lemma {:induction false} PutIntoEmpty(capacity: int, xs: seq<Frame>)
    ensures PutAll(Empty(capacity), xs).items == Newest(xs, capacity)
    ensures capacity > 0 && |xs| == capacity + 1 ==> PutAll(Empty(capacity), xs).items == xs[1..]
  {
    var none: seq<Frame> := [];
    assert Newest(none, capacity) == none;
    PutAllKeepsNewest(none, xs, capacity);
    assert none + xs == xs;
  }

  /** First in, first out: taking every frame returns them in the order they
      were queued. */
  lemma {:induction false} DrainInOrder(b: Buffer)
    ensures Drain(b) == b.items
    decreases |b.items|
  {
    if |b.items| > 0 {
      DrainInOrder(Get(b).rest);
    }
  }

  /** A bounded buffer stays within its capacity whatever is put into it. */
  lemma {:induction false} PutAllBounded(b: Buffer, xs: seq<Frame>)
    requires b.Valid()
    ensures PutAll(b, xs).Valid() && PutAll(b, xs).maxSize == b.maxSize
    decreases |xs|
  {
    if |xs| > 0 {
      PutAllBounded(Put(b, xs[0]), xs[1..]);
    }
  }
}
