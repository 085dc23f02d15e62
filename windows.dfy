/**
 * The two windowing contracts, as pure functions over a finite source.
 *
 * A window of width n is a sequence of exactly n elements (in the library it is
 * a fixed-size array `[T; N]`; here the width is a parameter and every window is
 * proved to have that length).
 */
module Windows {
  import opened Arithmetic

  datatype Option<T> = None | Some(value: T)

  // ---------------------------------------------------------------------------
  // Linear windows (`array_windows::<N>`)
  // ---------------------------------------------------------------------------

  /** The number of linear windows: L - N + 1, and none when N > L. */
  function LinearCount(len: nat, n: nat): (count: nat) {
    if n <= len then len - n + 1 else 0
  }

  /**
   * The linear windows of width n over s: window i is the contiguous slice
   * s[i..i+n], for every i with i + n <= L, in order. For n = 0 that is one
   * empty window at each of the L + 1 gaps around and between the elements.
   */
  function LinearWindows<T>(s: seq<T>, n: nat): (r: seq<seq<T>>)
    ensures |r| == LinearCount(|s|, n)
    ensures forall i | 0 <= i < |r| :: |r[i]| == n
  {
    seq(LinearCount(|s|, n), i requires 0 <= i < LinearCount(|s|, n) => s[i..i + n])
  }

  /**
   * The windows as one forward pass finds them: the first n elements form a
   * window, followed by the windows of the rest of the source; when exactly n
   * elements remain they are the last window, and fewer than n give none.
   */
  lemma LinearWindowsUnfold<T>(s: seq<T>, n: nat)
    ensures LinearWindows(s, n) ==
              if |s| < n then []
              else if |s| == n then [s]
              else [s[..n]] + LinearWindows(s[1..], n)
  {
    if |s| > n {
      var r, t := LinearWindows(s, n), LinearWindows(s[1..], n);
      assert |r| == 1 + |t|;
      forall i | 0 <= i < |r|
        ensures r[i] == ([s[..n]] + t)[i]
      {
        if i > 0 {
          assert s[1..][i - 1..i - 1 + n] == s[i..i + n];
        }
      }
    } else if |s| == n {
      assert LinearWindows(s, n)[0] == s[0..n];
      assert s[0..n] == s;
    }
  }

  /**
   * Conversely, any sequence of L - N + 1 windows of width n whose window i
   * holds s[i], ..., s[i + n - 1] is the linear windowing of s.
   */
  lemma LinearWindowsUnique<T>(s: seq<T>, n: nat, e: seq<seq<T>>)
    requires |e| == LinearCount(|s|, n)
    requires forall i | 0 <= i < |e| :: |e[i]| == n
    requires forall i, k | 0 <= i < |e| && 0 <= k < n :: i + k < |s| && e[i][k] == s[i + k]
    ensures LinearWindows(s, n) == e
  {
    forall i | 0 <= i < |e|
      ensures LinearWindows(s, n)[i] == e[i]
    {
      assert LinearWindows(s, n)[i] == s[i..i + n];
    }
  }

  /** A window width larger than the source gives no windows at all. */
  lemma LinearWindowsTooWide<T>(s: seq<T>, n: nat)
    requires n > |s|
    ensures LinearWindows(s, n) == []
  {
  }

  /**
   * Width zero gives L + 1 empty windows: one at every gap around and between
   * the elements, including the empty source's single gap.
   */
  lemma LinearWindowsZeroWidth<T>(s: seq<T>)
    ensures LinearWindows(s, 0) == seq(|s| + 1, _ => [])
  {
    forall i | 0 <= i <= |s|
      ensures LinearWindows(s, 0)[i] == []
    {
      assert |s[i..i]| == 0;
    }
  }

  /** Width one gives one singleton window per element, in order. */
  lemma LinearWindowsSingletons<T>(s: seq<T>)
    ensures LinearWindows(s, 1) == seq(|s|, i requires 0 <= i < |s| => [s[i]])
  {
    forall i | 0 <= i < |s|
      ensures LinearWindows(s, 1)[i] == [s[i]]
    {
      assert s[i..i + 1] == [s[i]];
    }
  }

  // ---------------------------------------------------------------------------
  // Circular windows (`circular_array_windows::<N>`)
  // ---------------------------------------------------------------------------

  /** The first n elements of the endless repetition of the cycle t. */
  function Repeat<T>(t: seq<T>, n: nat): (r: seq<T>)
    requires |t| > 0
    ensures |r| == n
    decreases n
  {
    if n <= |t| then t[..n] else t + Repeat(t, n - |t|)
  }

  /** s read cyclically from position i: s[i], ..., s[L-1], s[0], ..., s[i-1]. */
  function Rotate<T>(s: seq<T>, i: nat): (r: seq<T>)
    requires i <= |s|
  {
    s[i..] + s[..i]
  }

  /**
   * The circular windows of width n over s: one per starting position i, each
   * the first n elements of the cycle that starts at s[i]. When n exceeds the
   * length the cycle is run through more than once.
   */
  function CircularWindows<T>(s: seq<T>, n: nat): (r: seq<seq<T>>)
    ensures |r| == |s|
    ensures forall i | 0 <= i < |r| :: |r[i]| == n
  {
    seq(|s|, i requires 0 <= i < |s| => Repeat(Rotate(s, i), n))
  }

  /** Element k of the repetition of t is t[k mod |t|]. */
  lemma {:induction false} RepeatAt<T>(t: seq<T>, n: nat, k: nat)
    requires |t| > 0 && k < n
    ensures Repeat(t, n)[k] == t[k % |t|]
    decreases n
  {
    if n > |t| && k >= |t| {
      assert Repeat(t, n)[k] == Repeat(t, n - |t|)[k - |t|];
      RepeatAt(t, n - |t|, k - |t|);
      ModShift(k - |t|, |t|);
    } else {
      ModUnique(k, |t|, 0, k);
    }
  }

  /** Element j of s rotated by i is s[(i + j) mod L]. */
  lemma RotateAt<T>(s: seq<T>, i: nat, j: nat)
    requires i < |s| && j < |s|
    ensures Rotate(s, i)[j] == s[(i + j) % |s|]
  {
    if i + j < |s| {
      ModUnique(i + j, |s|, 0, i + j);
    } else {
      ModUnique(i + j, |s|, 1, i + j - |s|);
    }
  }

  /** Element k of circular window i is s[(i + k) mod L]. */
  lemma CircularWindowAt<T>(s: seq<T>, n: nat, i: nat, k: nat)
    requires i < |s| && k < n
    ensures CircularWindows(s, n)[i][k] == s[(i + k) % |s|]
  {
    var t := Rotate(s, i);
    RepeatAt(t, n, k);
    RotateAt(s, i, k % |s|);
    ModOfSum(i, k, |s|);
  }

  /**
   * Conversely, any sequence of L windows of width n whose window i holds
   * s[(i + k) mod L] at offset k is the circular windowing of s.
   */
  lemma CircularWindowsUnique<T>(s: seq<T>, n: nat, e: seq<seq<T>>)
    requires |e| == |s|
    requires forall i | 0 <= i < |e| :: |e[i]| == n
    requires forall i, k | 0 <= i < |e| && 0 <= k < n :: e[i][k] == s[(i + k) % |s|]
    ensures CircularWindows(s, n) == e
  {
    forall i | 0 <= i < |e|
      ensures CircularWindows(s, n)[i] == e[i]
    {
      forall k | 0 <= k < n
        ensures CircularWindows(s, n)[i][k] == e[i][k]
      {
        CircularWindowAt(s, n, i, k);
      }
    }
  }

  /**
   * For 1 <= N <= L the first L - N + 1 circular windows are exactly the linear
   * windows; only the N - 1 after them wrap around.
   */
  lemma CircularExtendsLinear<T>(s: seq<T>, n: nat)
    requires 1 <= n <= |s|
    ensures CircularWindows(s, n)[..|s| - n + 1] == LinearWindows(s, n)
  {
    var c, l := CircularWindows(s, n), LinearWindows(s, n);
    forall i | 0 <= i < |l|
      ensures c[i] == l[i]
    {
      forall k | 0 <= k < n
        ensures c[i][k] == l[i][k]
      {
        CircularWindowAt(s, n, i, k);
      }
    }
  }

  /**
   * For 1 <= N <= L the last N - 1 circular windows wrap around: window i is
   * the tail of the source from i followed by its first i + N - L elements.
   */
  lemma CircularWrapAround<T>(s: seq<T>, n: nat, i: nat)
    requires 1 <= n <= |s| && |s| - n < i < |s|
    ensures CircularWindows(s, n)[i] == s[i..] + s[..i + n - |s|]
  {
    var w, e := CircularWindows(s, n)[i], s[i..] + s[..i + n - |s|];
    forall k | 0 <= k < n
      ensures w[k] == e[k]
    {
      CircularWindowAt(s, n, i, k);
      if i + k >= |s| {
        ModShift(i + k - |s|, |s|);
      }
    }
  }

  /**
   * When N > L the elements repeat inside a window with period L: the element
   * L places further on is the same one again.
   */
  lemma CircularPeriodic<T>(s: seq<T>, n: nat, i: nat, k: nat)
    requires i < |s| && k + |s| < n
    ensures CircularWindows(s, n)[i][k + |s|] == CircularWindows(s, n)[i][k]
  {
    CircularWindowAt(s, n, i, k);
    CircularWindowAt(s, n, i, k + |s|);
    ModShift(i + k, |s|);
  }
}
