/**
 * The circular adapter `circular_array_windows::<N>`: the source is first
 * materialised into an owned array, then one window is built per starting
 * position by reading N cells at wrapped-around offsets.
 */
module CircularWindowing {
  import opened Windows

  /**
   * The circular windower over a materialised source. `items` is filled once,
   * by one forward pull over the whole source, and never written again;
   * `pos` is the starting position of the next window.
   */
  class CircularWindower<T(0)> {
    ghost const source: seq<T>
    const width: nat
    const items: array<T>
    var pos: nat

    ghost predicate Valid()
      reads this, items
    {
      items[..] == source && pos <= items.Length
    }

    /** Materialise the source: copy every element, in order, into an owned array. */
    constructor (source: seq<T>, width: nat)
      ensures Valid() && fresh(items)
      ensures this.source == source && this.width == width && pos == 0
    {
      var buffer := new T[|source|];
      var i := 0;
      while i < |source|
        invariant i <= |source|
        invariant buffer[..i] == source[..i]
      {
        buffer[i] := source[i];
        i := i + 1;
      }
      this.source := source;
      this.width := width;
      items := buffer;
      pos := 0;
    }

    /**
     * Emit the window that starts at `pos`, or None once every starting
     * position has been used (at once for an empty source, whatever the width).
     */
    method Next() returns (r: Option<seq<T>>)
      requires Valid()
      modifies this
      ensures Valid()
      ensures old(pos) < |source| ==> r == Some(CircularWindows(source, width)[old(pos)]) && pos == old(pos) + 1
      ensures old(pos) == |source| ==> r == None && pos == old(pos)
    {
      if pos == items.Length {
        return None;
      }
      var w := WindowAt(pos);
      pos := pos + 1;
      return Some(w);
    }

    /** Build the window that starts at `start`: N cells read at offsets taken modulo L. */
    method WindowAt(start: nat) returns (w: seq<T>)
      requires Valid() && start < items.Length
      ensures w == CircularWindows(source, width)[start]
    {
      var len := items.Length;
      w := [];
      var k := 0;
      while k < width
        invariant k <= width
        invariant |w| == k
        invariant forall j | 0 <= j < k :: w[j] == source[(start + j) % len]
      {
        w := w + [items[(start + k) % len]];
        k := k + 1;
      }
      forall j | 0 <= j < width
        ensures w[j] == CircularWindows(source, width)[start][j]
      {
        CircularWindowAt(source, width, start, j);
      }
    }
  }

  /**
   * Drive a fresh windower until it is exhausted, collecting what it emits:
   * the whole output is exactly CircularWindows(s, n).
   */
  method CollectCircular<T(0)>(s: seq<T>, n: nat) returns (r: seq<seq<T>>)
    ensures r == CircularWindows(s, n)
  {
    var windower := new CircularWindower(s, n);
    r := [];
    while true
      invariant windower.Valid() && windower.source == s && windower.width == n
      invariant fresh(windower.items)
      invariant r == CircularWindows(s, n)[..windower.pos]
      decreases |s| - windower.pos
    {
      var next := windower.Next();
      if next.None? {
        break;
      }
      r := r + [next.value];
    }
  }
}
