/**
 * The linear adapter `array_windows::<N>`: one forward pass over the source,
 * a ring of the last N elements, and a window emitted every time the ring is
 * full after a push.
 */
module LinearWindowing {
  import opened Arithmetic
  import opened Windows

  // ---------------------------------------------------------------------------
  // The ring's content: the most recent elements
  // ---------------------------------------------------------------------------

  /**
   * What a ring of capacity n holds after every element of s was pushed into
   * it in order: the last n elements of s, or all of s when it has fewer.
   */
  function Retain<T>(s: seq<T>, n: nat): (r: seq<T>) {
    if |s| <= n then s else s[|s| - n..]
  }

  /**
   * Pushing into a ring that already holds the retained suffix of s gives the
   * retained suffix of s extended by the new element: the ring never needs to
   * remember more than its capacity.
   */
  lemma RetainPush<T>(s: seq<T>, x: T, n: nat)
    ensures Retain(Retain(s, n) + [x], n) == Retain(s + [x], n)
    ensures |Retain(s + [x], n)| == if |s| < n then |s| + 1 else n
  {
    if n < |s| {
      assert Retain(s, n) + [x] == (s + [x])[|s| - n..];
      assert (s + [x])[|s| - n..][1..] == (s + [x])[|s| + 1 - n..];
    }
  }

  // ---------------------------------------------------------------------------
  // The ring's cells
  // ---------------------------------------------------------------------------

  /** Position in a ring of n cells that lies k cells after start. */
  function RingSlot(start: nat, k: nat, n: nat): (j: nat)
    requires start < n && k < n
    ensures j < n
  {
    if start + k < n then start + k else start + k - n
  }

  /** The ring position is the usual index-and-modulo one: (start + k) mod n. */
  lemma RingSlotIsModulo(start: nat, k: nat, n: nat)
    requires start < n && k < n
    ensures RingSlot(start, k, n) == (start + k) % n
  {
    if start + k < n {
      ModUnique(start + k, n, 0, start + k);
    } else {
      ModUnique(start + k, n, 1, start + k - n);
    }
  }

  /**
   * Once the cell after start is made the oldest, the cell k places after it is
   * the one k + 1 places after start, and the last one is start itself.
   */
  lemma RingSlotNext(start: nat, k: nat, n: nat)
    requires start < n && k < n
    ensures RingSlot(if start + 1 < n then start + 1 else 0, k, n) ==
              if k + 1 < n then RingSlot(start, k + 1, n) else start
  {
  }

  /**
   * A fixed-capacity ring over an array of exactly `capacity` cells: `filled`
   * of them are in use, starting at `oldest` and wrapping around the end.
   * Once full, a push overwrites the oldest element. With capacity 0 the ring
   * is degenerate: always full and always empty.
   */
  class WindowBuffer<T(0)> {
    /** The elements held, oldest first. */
    ghost var Contents: seq<T>

    const capacity: nat
    const data: array<T>
    var oldest: nat
    var filled: nat

    ghost predicate Valid()
      reads this, data
    {
      && data.Length == capacity
      && filled <= capacity
      && (capacity == 0 ==> oldest == 0)
      && (capacity > 0 ==> oldest < capacity)
      && |Contents| == filled
      && forall k | 0 <= k < filled :: Contents[k] == data[RingSlot(oldest, k, capacity)]
    }

    constructor (capacity: nat)
      ensures Valid() && fresh(data)
      ensures this.capacity == capacity && Contents == []
    {
      this.capacity := capacity;
      data := new T[capacity];
      oldest, filled := 0, 0;
      Contents := [];
    }

    /** Whether the ring holds `capacity` elements, i.e. a whole window. */
    predicate IsFull()
      reads this
    {
      filled == capacity
    }

    /**
     * Append x as the newest element; once the ring is full the oldest one is
     * evicted, so the ring holds the last `capacity` elements ever pushed.
     */
    method Push(x: T)
      requires Valid()
      modifies this, data
      ensures Valid()
      ensures Contents == Retain(old(Contents) + [x], capacity)
    {
      if filled < capacity {
        Append(x);
      } else if capacity > 0 {
        Overwrite(x);
      }
    }

    /** Store x in the first free cell after the held elements. */
    method Append(x: T)
      requires Valid() && filled < capacity
      modifies this, data
      ensures Valid()
      ensures Contents == old(Contents) + [x]
    {
      data[RingSlot(oldest, filled, capacity)] := x;
      filled := filled + 1;
      Contents := Contents + [x];
    }

    /** In a full ring, store x over the oldest element and make the next cell the oldest. */
    method Overwrite(x: T)
      requires Valid() && 0 < filled == capacity
      modifies this, data
      ensures Valid()
      ensures Contents == old(Contents)[1..] + [x]
    {
      ghost var before := oldest;
      data[oldest] := x;
      oldest := if oldest + 1 < capacity then oldest + 1 else 0;
      Contents := Contents[1..] + [x];
      forall k | 0 <= k < filled
        ensures Contents[k] == data[RingSlot(oldest, k, capacity)]
      {
        RingSlotNext(before, k, capacity);
      }
    }

    /** The held elements copied out, oldest to newest. */
    method Snapshot() returns (w: seq<T>)
      requires Valid()
      ensures w == Contents
    {
      w := [];
      var k := 0;
      while k < filled
        invariant k <= filled
        invariant w == Contents[..k]
      {
        w := w + [data[RingSlot(oldest, k, capacity)]];
        k := k + 1;
      }
    }
  }

  /**
   * The linear windower over a forward-only source. The source is read strictly
   * in order, one element per step, through `pos`; nothing before `pos` is
   * read again, so all the windower remembers of the past is its ring.
   */
  class LinearWindower<T(0)> {
    const source: seq<T>
    const width: nat
    const ring: WindowBuffer<T>
    /** How many source elements have been pulled. */
    var pos: nat
    /** Whether the first request has been served (it emits the first empty window when the width is 0). */
    var started: bool

    ghost predicate Valid()
      reads this, ring, ring.data
    {
      && ring.Valid()
      && ring.capacity == width
      && pos <= |source|
      && (!started ==> pos == 0)
      && ring.Contents == Retain(source[..pos], width)
    }

    /** How many windows have been emitted so far. */
    ghost function Produced(): (count: nat)
      reads this
    {
      if !started then 0
      else if width == 0 then pos + 1
      else if pos < width then 0
      else pos - width + 1
    }

    /** A windower never claims to have emitted more windows than there are. */
    lemma ProducedInRange()
      requires Valid()
      ensures Produced() <= |LinearWindows(source, width)|
    {
    }

    constructor (source: seq<T>, width: nat)
      ensures Valid() && fresh(ring) && fresh(ring.data)
      ensures this.source == source && this.width == width
      ensures pos == 0 && !started && ring.Contents == [] && Produced() == 0
    {
      this.source := source;
      this.width := width;
      ring := new WindowBuffer(width);
      pos, started := 0, false;
    }

    /**
     * Emit the next window, or None once the source is exhausted (and on
     * every request after that). The windows come out in the order and number
     * of LinearWindows(source, width).
     */
    method Next() returns (r: Option<seq<T>>)
      requires Valid()
      modifies this, ring, ring.data
      ensures Valid()
      ensures old(Produced()) < |LinearWindows(source, width)| ==>
                r == Some(LinearWindows(source, width)[old(Produced())]) && Produced() == old(Produced()) + 1
      ensures old(Produced()) == |LinearWindows(source, width)| ==>
                r == None && Produced() == old(Produced())
    {
      ghost var emitted := Produced();
      if !started && width == 0 {
        started := true;
        var w := ring.Snapshot();
        FullRingIsWindow(source, 0, 0);
        r := Some(w);
      } else {
        started := true;
        r := Seek();
        if r.Some? {
          assert pos - width == emitted;
        }
      }
    }

    /**
     * Pull source elements until one completes a window, and return that
     * window; None once the source runs out first. From a position before the
     * first full window this stops at the first one; after it, at the next.
     */
    method Seek() returns (r: Option<seq<T>>)
      requires Valid() && started
      modifies this`pos, ring, ring.data
      ensures Valid() && old(pos) <= pos
      ensures r.None? <==> |source| < width || old(pos) == |source|
      ensures r.None? ==> pos == |source|
      ensures r.Some? ==> pos == (if old(pos) < width then width else old(pos) + 1)
      ensures r.Some? ==> width <= pos && pos - width < |LinearWindows(source, width)| &&
                          r.value == LinearWindows(source, width)[pos - width]
    {
      r := None;
      while r.None? && pos < |source|
        invariant Valid() && old(pos) <= pos
        invariant r.None? ==> pos == old(pos) || pos < width
        invariant r.Some? ==> pos == (if old(pos) < width then width else old(pos) + 1)
        invariant r.Some? ==> width <= pos && pos - width < |LinearWindows(source, width)| &&
                              r.value == LinearWindows(source, width)[pos - width]
        decreases |source| - pos
      {
        r := Pull();
      }
    }

    /**
     * Read the next source element into the ring, and return the ring's
     * contents if that made it (or kept it) full: the window that ends at
     * the element just read.
     */
    method Pull() returns (r: Option<seq<T>>)
      requires Valid() && started && pos < |source|
      modifies this`pos, ring, ring.data
      ensures Valid() && pos == old(pos) + 1
      ensures r.Some? <==> width <= pos
      ensures r.Some? ==> pos - width < |LinearWindows(source, width)| && r.value == LinearWindows(source, width)[pos - width]
    {
      Advance();
      r := FullWindow();
    }

    /** Read the next source element into the ring, evicting the oldest once the ring is full. */
    method Advance()
      requires Valid() && started && pos < |source|
      modifies this`pos, ring, ring.data
      ensures Valid() && pos == old(pos) + 1
    {
      var x := source[pos];
      RetainNext(source, pos, width);
      ring.Push(x);
      pos := pos + 1;
    }

    /** The ring's contents if it is full: the linear window ending at the last element read. */
    method FullWindow() returns (r: Option<seq<T>>)
      requires Valid()
      ensures r.Some? <==> width <= pos
      ensures r.Some? ==> pos - width < |LinearWindows(source, width)| && r.value == LinearWindows(source, width)[pos - width]
    {
      if ring.IsFull() {
        var w := ring.Snapshot();
        FullRingIsWindow(source, width, pos);
        r := Some(w);
      } else {
        r := None;
      }
    }
  }

  /**
   * Reading element p of s into a ring that holds the last n elements before
   * it leaves the last n elements up to and including it; the ring is then
   * full exactly when at least n elements have been read.
   */
  lemma RetainNext<T>(s: seq<T>, p: nat, n: nat)
    requires p < |s|
    ensures Retain(Retain(s[..p], n) + [s[p]], n) == Retain(s[..p + 1], n)
    ensures |Retain(s[..p + 1], n)| == n <==> n <= p + 1
  {
    assert s[..p + 1] == s[..p] + [s[p]];
    RetainPush(s[..p], s[p], n);
  }

  /**
   * Once at least n elements have been pushed, the ring holds exactly the
   * linear window that ends at the newest one: window number p - n.
   */
  lemma FullRingIsWindow<T>(s: seq<T>, n: nat, p: nat)
    requires n <= p <= |s|
    ensures p - n < |LinearWindows(s, n)|
    ensures Retain(s[..p], n) == LinearWindows(s, n)[p - n]
  {
    assert s[..p][p - n..] == s[p - n..p];
  }

  /**
   * Drive a fresh windower until it is exhausted, collecting what it emits:
   * the whole output is exactly LinearWindows(s, n).
   */
  method CollectLinear<T(0)>(s: seq<T>, n: nat) returns (r: seq<seq<T>>)
    ensures r == LinearWindows(s, n)
  {
    ghost var all := LinearWindows(s, n);
    var windower := new LinearWindower(s, n);
    r := [];
    while true
      invariant windower.Valid() && windower.source == s && windower.width == n
      invariant fresh(windower.ring) && fresh(windower.ring.data)
      invariant windower.Produced() <= |all|
      invariant r == all[..windower.Produced()]
      decreases |all| - windower.Produced()
    {
      ghost var emitted := windower.Produced();
      var next := windower.Next();
      if next.None? {
        assert emitted == |all|;
        assert all[..emitted] == all;
        break;
      }
      assert next.value == all[emitted] && windower.Produced() == emitted + 1;
      assert all[..emitted + 1] == all[..emitted] + [all[emitted]];
      r := r + [next.value];
    }
  }
}
