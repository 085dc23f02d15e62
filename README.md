# Fixed-width windows over a sequence: `array_windows` and `circular_array_windows`

A model of the two fixed-width windowing adapters of the Rust `itertools`
library, as their behaviour is fixed by the tests in `tests/arrays.rs`:

- `array_windows::<N>` (linear windows) makes one forward pass over a source of
  L elements. It emits the windows `s[i..i+N]` in order, for every `i` with
  `i + N <= L`. That is `L - N + 1` windows when `N <= L` and none when `N > L`.
  For `N = 0` it emits `L + 1` empty windows, one at every gap around and
  between the elements.
- `circular_array_windows::<N>` (circular windows) emits exactly L windows for a
  finite source of L elements. Window `i` is `[s[(i+k) mod L] for k in 0..N]`.
  It emits nothing for an empty source, whatever N is. When `N > L`, elements
  repeat inside one window.

The width N is a `nat` parameter; every window is proved to have length N.
Elements are generic (`T`).

The model has two layers:

- `arithmetic.dfy` (module `Arithmetic`) holds facts about Euclidean
  remainders that the index proofs use.
- `windows.dfy` (module `Windows`) holds the specification as pure functions.
  `LinearWindows` is the index formula itself: window i is `s[i..i+N]`. A
  lemma shows it is also what one forward pass finds: the first N elements,
  then the windows of the rest. `CircularWindows` is defined as "the source
  rotated to start at i, repeated as a cycle, first N elements". The index
  formula `s[(i+k) mod L]` is a lemma about that definition. Converse lemmas
  show that any sequence meeting the index formulas is the output.
- `linear_windower.dfy` (module `LinearWindowing`) and `circular_windower.dfy`
  (module `CircularWindowing`) hold the adapters as pull-driven objects.
  - `LinearWindower` reads its source strictly forward. It keeps only a
    fixed-size ring buffer (`WindowBuffer`: an array of N cells, an oldest
    cursor and a fill count). It emits the ring's contents each time a push
    leaves the ring full, and for N = 0 it emits one empty window before reading
    anything.
  - `CircularWindower` first materialises the source into an owned array. It
    then builds one window per starting position by reading cells at offsets
    taken modulo L.
  - `Next` on either object is proved to emit the spec function's windows one
    by one, then `None` forever after. `CollectLinear` and `CollectCircular`
    drive a fresh object to exhaustion, the way `.collect::<Vec<_>>()` does in
    the tests. Each is proved to return exactly the spec function's output.
- `test_vectors.dfy` (module `TestVectors`) proves each expected output
  written in the tests about the spec functions.

The implementation files of the library are not part of this model, and
neither are its internals. The tests fix only the outputs. The buffering
strategy is this model's own choice: a ring with an oldest cursor for linear
windows, and an owned array for circular windows. A buffer that shifts its
cells on every push would produce the same outputs.

## Model

| member | source | states |
|---|---|---|
| `Windows.LinearWindows` | tests/arrays.rs:13-159 | there are exactly L - N + 1 linear windows when N <= L and none otherwise, each of exactly N elements |
| `Windows.LinearWindowsUnfold` | tests/arrays.rs:13-79 | the linear windows are what one forward pass finds: the first N elements, then the windows of the rest of the source; exactly N remaining elements are the last window and fewer give none |
| `Windows.LinearWindowsUnique` | tests/arrays.rs:13-79 | conversely, any L - N + 1 windows of width N whose window i holds s[i..i+N] are exactly the linear windows |
| `Windows.LinearWindowsTooWide` | tests/arrays.rs:137-159 | a width larger than the source, including any positive width over the empty source, gives no windows |
| `Windows.LinearWindowsZeroWidth` | tests/arrays.rs:81-111 | width 0 gives exactly L + 1 empty windows, one even for the empty source |
| `Windows.LinearWindowsSingletons` | tests/arrays.rs:113-135 | width 1 gives one singleton window [s[i]] per element, in order |
| `LinearWindowing.RetainPush` | tests/arrays.rs:64-79 | a ring holding the last N elements of a prefix, pushed one more element, holds the last N elements of the longer prefix; it is full once N elements have been pushed |
| `Windows.CircularWindows` | tests/arrays.rs:251-301 | there are exactly L circular windows (none for an empty source, whatever N is), each of exactly N elements |
| `Windows.CircularWindowAt` | tests/arrays.rs:251-293 | element k of circular window i is s[(i + k) mod L] |
| `Windows.CircularWindowsUnique` | tests/arrays.rs:303-321 | conversely, any L windows of width N whose window i holds s[(i + k) mod L] at offset k are exactly the circular windows |
| `Windows.CircularExtendsLinear` | tests/arrays.rs:251-269 | for 1 <= N <= L the first L - N + 1 circular windows are exactly the linear windows |
| `Windows.CircularWrapAround` | tests/arrays.rs:303-321 | for 1 <= N <= L each of the last N - 1 circular windows is the tail s[i..] followed by the first i + N - L elements, e.g. [8, 9, 10, 1] |
| `Windows.CircularPeriodic` | tests/arrays.rs:376-403 | when N > L the elements of a circular window repeat with period L |
| `LinearWindowing.WindowBuffer.constructor` | tests/arrays.rs:13-18 | a new ring of capacity N has an array of exactly N cells and holds nothing |
| `LinearWindowing.WindowBuffer.Push` | tests/arrays.rs:13-79 | after a push the ring holds the last N elements of what it held plus the new one: the oldest is evicted once the ring is full, and nothing is stored when N = 0 |
| `LinearWindowing.WindowBuffer.Append` | tests/arrays.rs:13-18 | while the ring is not full, a push stores the element after the held ones and the ring holds one more element |
| `LinearWindowing.WindowBuffer.Overwrite` | tests/arrays.rs:13-79 | in a full ring a push replaces the oldest element, so the ring holds the previous contents minus the oldest, plus the new element |
| `LinearWindowing.WindowBuffer.Snapshot` | tests/arrays.rs:13-30 | the elements copied out of the ring are its contents, oldest to newest |
| `LinearWindowing.LinearWindower.constructor` | tests/arrays.rs:13-18 | a new linear windower has read nothing (position 0, not started, empty ring) and emitted nothing |
| `LinearWindowing.LinearWindower.Pull` | tests/arrays.rs:13-30 | reading one more source element emits a window exactly when at least N elements have been read, and that window is the linear window ending at the element just read |
| `LinearWindowing.LinearWindower.Seek` | tests/arrays.rs:13-159 | pulling until a window completes returns nothing exactly when the source is exhausted or shorter than N; otherwise it stops at position N (the first window) or one past where it started, and returns the window ending there |
| `LinearWindowing.LinearWindower.Advance` | tests/arrays.rs:13-18 | reading one more source element keeps the ring equal to the last N elements read |
| `LinearWindowing.LinearWindower.FullWindow` | tests/arrays.rs:13-30 | the ring yields a window exactly when at least N elements have been read, and it is linear window number (elements read - N) |
| `LinearWindowing.FullRingIsWindow` | tests/arrays.rs:13-79 | when at least N elements have been read, the ring's last N elements are linear window number (elements read - N) |
| `LinearWindowing.RetainNext` | tests/arrays.rs:13-79 | reading element p into a ring holding the last N elements before it leaves the last N elements up to p, and the ring is full exactly when at least N elements have been read |
| `LinearWindowing.RingSlotIsModulo` | tests/arrays.rs:13-18 | the ring cell k places after the oldest is (oldest + k) mod N |
| `LinearWindowing.RingSlotNext` | tests/arrays.rs:13-79 | once the oldest cursor advances, the cell k places after it is the one k + 1 places after the old cursor, and the last cell is the old cursor itself |
| `LinearWindowing.LinearWindower.ProducedInRange` | tests/arrays.rs:13-159 | a windower in a consistent state has emitted at most as many windows as LinearWindows(source, N) holds |
| `LinearWindowing.LinearWindower.Next` | tests/arrays.rs:13-159 | each request emits the next window of LinearWindows(source, N), and None once all of them have been emitted and on every later request |
| `LinearWindowing.CollectLinear` | tests/arrays.rs:13-159 | collecting a fresh linear windower to exhaustion gives exactly LinearWindows(s, N) |
| `CircularWindowing.CircularWindower.constructor` | tests/arrays.rs:251-256 | materialising copies every source element, in order, into an owned array; nothing has been emitted |
| `CircularWindowing.CircularWindower.WindowAt` | tests/arrays.rs:303-321 | the window read at offsets (start + k) mod L from the materialised array is circular window number start |
| `CircularWindowing.CircularWindower.Next` | tests/arrays.rs:251-403 | each request emits the next window of CircularWindows(source, N), and None once all L have been emitted (at once for an empty source) |
| `CircularWindowing.CollectCircular` | tests/arrays.rs:251-403 | collecting a fresh circular windower to exhaustion gives exactly CircularWindows(s, N) |
| `TestVectors.LinearTenWidthTwo` | tests/arrays.rs:13-30 | LinearWindows([1, 2, 3, 4, 5, 6, 7, 8, 9, 10], 2) is exactly [[1, 2], [2, 3], [3, 4], [4, 5], [5, 6], [6, 7], [7, 8], [8, 9], [9, 10]] |
| `TestVectors.LinearFourWidthTwo` | tests/arrays.rs:32-38 | LinearWindows([1, 2, 3, 4], 2) is exactly [[1, 2], [2, 3], [3, 4]] |
| `TestVectors.LinearTwoWidthTwo` | tests/arrays.rs:40-46 | LinearWindows([1, 2], 2) is exactly [[1, 2]] |
| `TestVectors.LinearOneWidthTwo` | tests/arrays.rs:48-54 | LinearWindows([1], 2) is exactly [] |
| `TestVectors.LinearEmptyWidthTwo` | tests/arrays.rs:56-62 | LinearWindows([], 2) is exactly [] |
| `TestVectors.LinearTenWidthFour` | tests/arrays.rs:64-79 | LinearWindows([1, 2, 3, 4, 5, 6, 7, 8, 9, 10], 4) is exactly [[1, 2, 3, 4], [2, 3, 4, 5], [3, 4, 5, 6], [4, 5, 6, 7], [5, 6, 7, 8], [6, 7, 8, 9], [7, 8, 9, 10]] |
| `TestVectors.LinearEmptyWidthZero` | tests/arrays.rs:89-95 | LinearWindows([], 0) is exactly [[]] |
| `TestVectors.LinearOneWidthZero` | tests/arrays.rs:97-103 | LinearWindows([1], 0) is exactly [[], []] |
| `TestVectors.LinearTwoWidthZero` | tests/arrays.rs:105-111 | LinearWindows([1, 2], 0) is exactly [[], [], []] |
| `TestVectors.LinearEmptyWidthOne` | tests/arrays.rs:113-119 | LinearWindows([], 1) is exactly [] |
| `TestVectors.LinearOneWidthOne` | tests/arrays.rs:121-127 | LinearWindows([1], 1) is exactly [[1]] |
| `TestVectors.LinearTwoWidthOne` | tests/arrays.rs:129-135 | LinearWindows([1, 2], 1) is exactly [[1], [2]] |
| `TestVectors.LinearOneWidthSeven` | tests/arrays.rs:137-143 | LinearWindows([1], 7) is exactly [] |
| `TestVectors.LinearTwoWidthSeven` | tests/arrays.rs:145-151 | LinearWindows([1, 2], 7) is exactly [] |
| `TestVectors.LinearFourWidthSeven` | tests/arrays.rs:153-159 | LinearWindows([1, 2, 3, 4], 7) is exactly [] |
| `TestVectors.CircularTenWidthTwo` | tests/arrays.rs:251-269 | CircularWindows([1, 2, 3, 4, 5, 6, 7, 8, 9, 10], 2) is exactly [[1, 2], [2, 3], [3, 4], [4, 5], [5, 6], [6, 7], [7, 8], [8, 9], [9, 10], [10, 1]] |
| `TestVectors.CircularFourWidthTwo` | tests/arrays.rs:271-277 | CircularWindows([1, 2, 3, 4], 2) is exactly [[1, 2], [2, 3], [3, 4], [4, 1]] |
| `TestVectors.CircularTwoWidthTwo` | tests/arrays.rs:279-285 | CircularWindows([1, 2], 2) is exactly [[1, 2], [2, 1]] |
| `TestVectors.CircularOneWidthTwo` | tests/arrays.rs:287-293 | CircularWindows([1], 2) is exactly [[1, 1]] |
| `TestVectors.CircularEmptyWidthTwo` | tests/arrays.rs:295-301 | CircularWindows([], 2) is exactly [] |
| `TestVectors.CircularTenWidthFour` | tests/arrays.rs:303-321 | CircularWindows([1, 2, 3, 4, 5, 6, 7, 8, 9, 10], 4) is exactly [[1, 2, 3, 4], [2, 3, 4, 5], [3, 4, 5, 6], [4, 5, 6, 7], [5, 6, 7, 8], [6, 7, 8, 9], [7, 8, 9, 10], [8, 9, 10, 1], [9, 10, 1, 2], [10, 1, 2, 3]] |
| `TestVectors.CircularEmptyWidthZero` | tests/arrays.rs:328-334 | CircularWindows([], 0) is exactly [] |
| `TestVectors.CircularOneWidthZero` | tests/arrays.rs:336-342 | CircularWindows([1], 0) is exactly [[]] |
| `TestVectors.CircularTwoWidthZero` | tests/arrays.rs:344-350 | CircularWindows([1, 2], 0) is exactly [[], []] |
| `TestVectors.CircularEmptyWidthOne` | tests/arrays.rs:352-358 | CircularWindows([], 1) is exactly [] |
| `TestVectors.CircularOneWidthOne` | tests/arrays.rs:360-366 | CircularWindows([1], 1) is exactly [[1]] |
| `TestVectors.CircularTwoWidthOne` | tests/arrays.rs:368-374 | CircularWindows([1, 2], 1) is exactly [[1], [2]] |
| `TestVectors.CircularOneWidthSeven` | tests/arrays.rs:376-382 | CircularWindows([1], 7) is exactly [[1, 1, 1, 1, 1, 1, 1]] |
| `TestVectors.CircularTwoWidthSeven` | tests/arrays.rs:384-390 | CircularWindows([1, 2], 7) is exactly [[1, 2, 1, 2, 1, 2, 1], [2, 1, 2, 1, 2, 1, 2]] |
| `TestVectors.CircularFourWidthSeven` | tests/arrays.rs:392-403 | CircularWindows([1, 2, 3, 4], 7) is exactly [[1, 2, 3, 4, 1, 2, 3], [2, 3, 4, 1, 2, 3, 4], [3, 4, 1, 2, 3, 4, 1], [4, 1, 2, 3, 4, 1, 2]] |

## Left out

- The `Itertools` trait and the `Iterator` and `Copied` adapters. A source is a finite `seq<T>` that the linear windower reads strictly forward, one element per step.
- Infinite sources. The linear adapter works on them lazily, but the model's sources are finite. Circular windows over an infinite source do not terminate and are undefined.
- Const generics. N is a `nat` parameter, and a window is a `seq<T>` proved to have length N rather than a `[T; N]` array.
- Element types must have a default value (`T(0)`), because Dafny allocates the ring and the materialised array that way. The windows of type `[T; N]` that the tests compare need no default value.
- Borrowed versus owned materialisation of the circular source. The model always copies into an owned array. Ownership and lifetimes are not behaviour.
- The `tuple_windows` and `circular_tuple_windows` cross-checks and `itertools::assert_equal` (tests/arrays.rs:162-239, 406-483). Those facilities are not part of this model. Their role is taken by the proofs that `CollectLinear` and `CollectCircular` equal the spec functions for every source and width, not only for N in 1..=10 and L below 100.
- The test harness itself (`#[test]`, `vec!` setup, the `for i in 0..100` driver loops).
