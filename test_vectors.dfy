/**
 * The concrete outputs the library's tests fix, one lemma per expected
 * output, stated about the specification functions (and so, through
 * CollectLinear and CollectCircular, about the windowers). Sources are the
 * tests' vectors [], [1], [1, 2], [1, 2, 3, 4] and [1, ..., 10].
 */
module TestVectors {
  import opened Windows

  lemma LinearTenWidthTwo()
    ensures LinearWindows([1, 2, 3, 4, 5, 6, 7, 8, 9, 10], 2) == [[1, 2], [2, 3], [3, 4], [4, 5], [5, 6], [6, 7], [7, 8], [8, 9], [9, 10]]
  {
    LinearWindowsUnique([1, 2, 3, 4, 5, 6, 7, 8, 9, 10], 2, [[1, 2], [2, 3], [3, 4], [4, 5], [5, 6], [6, 7], [7, 8], [8, 9], [9, 10]]);
  }

  lemma LinearFourWidthTwo()
    ensures LinearWindows([1, 2, 3, 4], 2) == [[1, 2], [2, 3], [3, 4]]
  {
    LinearWindowsUnique([1, 2, 3, 4], 2, [[1, 2], [2, 3], [3, 4]]);
  }

  lemma LinearTwoWidthTwo()
    ensures LinearWindows([1, 2], 2) == [[1, 2]]
  {
    LinearWindowsUnique([1, 2], 2, [[1, 2]]);
  }

  lemma LinearOneWidthTwo()
    ensures LinearWindows([1], 2) == []
  {
    LinearWindowsUnique([1], 2, []);
  }

  lemma LinearEmptyWidthTwo()
    ensures LinearWindows<int>([], 2) == []
  {
    LinearWindowsUnique<int>([], 2, []);
  }

  lemma LinearTenWidthFour()
    ensures LinearWindows([1, 2, 3, 4, 5, 6, 7, 8, 9, 10], 4) == [[1, 2, 3, 4], [2, 3, 4, 5], [3, 4, 5, 6], [4, 5, 6, 7], [5, 6, 7, 8], [6, 7, 8, 9], [7, 8, 9, 10]]
  {
    LinearWindowsUnique([1, 2, 3, 4, 5, 6, 7, 8, 9, 10], 4, [[1, 2, 3, 4], [2, 3, 4, 5], [3, 4, 5, 6], [4, 5, 6, 7], [5, 6, 7, 8], [6, 7, 8, 9], [7, 8, 9, 10]]);
  }

  lemma LinearEmptyWidthZero()
    ensures LinearWindows<int>([], 0) == [[]]
  {
    LinearWindowsUnique<int>([], 0, [[]]);
  }

  lemma LinearOneWidthZero()
    ensures LinearWindows([1], 0) == [[], []]
  {
    LinearWindowsUnique([1], 0, [[], []]);
  }

  lemma LinearTwoWidthZero()
    ensures LinearWindows([1, 2], 0) == [[], [], []]
  {
    LinearWindowsUnique([1, 2], 0, [[], [], []]);
  }

  lemma LinearEmptyWidthOne()
    ensures LinearWindows<int>([], 1) == []
  {
    LinearWindowsUnique<int>([], 1, []);
  }

  lemma LinearOneWidthOne()
    ensures LinearWindows([1], 1) == [[1]]
  {
    LinearWindowsUnique([1], 1, [[1]]);
  }

  lemma LinearTwoWidthOne()
    ensures LinearWindows([1, 2], 1) == [[1], [2]]
  {
    LinearWindowsUnique([1, 2], 1, [[1], [2]]);
  }

  lemma LinearOneWidthSeven()
    ensures LinearWindows([1], 7) == []
  {
    LinearWindowsUnique([1], 7, []);
  }

  lemma LinearTwoWidthSeven()
    ensures LinearWindows([1, 2], 7) == []
  {
    LinearWindowsUnique([1, 2], 7, []);
  }

  lemma LinearFourWidthSeven()
    ensures LinearWindows([1, 2, 3, 4], 7) == []
  {
    LinearWindowsUnique([1, 2, 3, 4], 7, []);
  }

  lemma CircularTenWidthTwo()
    ensures CircularWindows([1, 2, 3, 4, 5, 6, 7, 8, 9, 10], 2) == [[1, 2], [2, 3], [3, 4], [4, 5], [5, 6], [6, 7], [7, 8], [8, 9], [9, 10], [10, 1]]
  {
    CircularWindowsUnique([1, 2, 3, 4, 5, 6, 7, 8, 9, 10], 2, [[1, 2], [2, 3], [3, 4], [4, 5], [5, 6], [6, 7], [7, 8], [8, 9], [9, 10], [10, 1]]);
  }

  lemma CircularFourWidthTwo()
    ensures CircularWindows([1, 2, 3, 4], 2) == [[1, 2], [2, 3], [3, 4], [4, 1]]
  {
    CircularWindowsUnique([1, 2, 3, 4], 2, [[1, 2], [2, 3], [3, 4], [4, 1]]);
  }

  lemma CircularTwoWidthTwo()
    ensures CircularWindows([1, 2], 2) == [[1, 2], [2, 1]]
  {
    CircularWindowsUnique([1, 2], 2, [[1, 2], [2, 1]]);
  }

  lemma CircularOneWidthTwo()
    ensures CircularWindows([1], 2) == [[1, 1]]
  {
    CircularWindowsUnique([1], 2, [[1, 1]]);
  }

  lemma CircularEmptyWidthTwo()
    ensures CircularWindows<int>([], 2) == []
  {
    CircularWindowsUnique<int>([], 2, []);
  }

  lemma CircularTenWidthFour()
    ensures CircularWindows([1, 2, 3, 4, 5, 6, 7, 8, 9, 10], 4) == [[1, 2, 3, 4], [2, 3, 4, 5], [3, 4, 5, 6], [4, 5, 6, 7], [5, 6, 7, 8], [6, 7, 8, 9], [7, 8, 9, 10], [8, 9, 10, 1], [9, 10, 1, 2], [10, 1, 2, 3]]
  {
    CircularWindowsUnique([1, 2, 3, 4, 5, 6, 7, 8, 9, 10], 4, [[1, 2, 3, 4], [2, 3, 4, 5], [3, 4, 5, 6], [4, 5, 6, 7], [5, 6, 7, 8], [6, 7, 8, 9], [7, 8, 9, 10], [8, 9, 10, 1], [9, 10, 1, 2], [10, 1, 2, 3]]);
  }

  lemma CircularEmptyWidthZero()
    ensures CircularWindows<int>([], 0) == []
  {
    CircularWindowsUnique<int>([], 0, []);
  }

  lemma CircularOneWidthZero()
    ensures CircularWindows([1], 0) == [[]]
  {
    CircularWindowsUnique([1], 0, [[]]);
  }

  lemma CircularTwoWidthZero()
    ensures CircularWindows([1, 2], 0) == [[], []]
  {
    CircularWindowsUnique([1, 2], 0, [[], []]);
  }

  lemma CircularEmptyWidthOne()
    ensures CircularWindows<int>([], 1) == []
  {
    CircularWindowsUnique<int>([], 1, []);
  }

  lemma CircularOneWidthOne()
    ensures CircularWindows([1], 1) == [[1]]
  {
    CircularWindowsUnique([1], 1, [[1]]);
  }

  lemma CircularTwoWidthOne()
    ensures CircularWindows([1, 2], 1) == [[1], [2]]
  {
    CircularWindowsUnique([1, 2], 1, [[1], [2]]);
  }

  lemma CircularOneWidthSeven()
    ensures CircularWindows([1], 7) == [[1, 1, 1, 1, 1, 1, 1]]
  {
    CircularWindowsUnique([1], 7, [[1, 1, 1, 1, 1, 1, 1]]);
  }

  lemma CircularTwoWidthSeven()
    ensures CircularWindows([1, 2], 7) == [[1, 2, 1, 2, 1, 2, 1], [2, 1, 2, 1, 2, 1, 2]]
  {
    CircularWindowsUnique([1, 2], 7, [[1, 2, 1, 2, 1, 2, 1], [2, 1, 2, 1, 2, 1, 2]]);
  }

  lemma CircularFourWidthSeven()
    ensures CircularWindows([1, 2, 3, 4], 7) == [[1, 2, 3, 4, 1, 2, 3], [2, 3, 4, 1, 2, 3, 4], [3, 4, 1, 2, 3, 4, 1], [4, 1, 2, 3, 4, 1, 2]]
  {
    CircularWindowsUnique([1, 2, 3, 4], 7, [[1, 2, 3, 4, 1, 2, 3], [2, 3, 4, 1, 2, 3, 4], [3, 4, 1, 2, 3, 4, 1], [4, 1, 2, 3, 4, 1, 2]]);
  }
}
