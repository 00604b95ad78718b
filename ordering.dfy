/**
 * The two comparators main hands to qsort (Lab2.c:37-45, 207), and an
 * insertion sort standing in for qsort.
 */
module Ordering {
  import opened CStr
  import opened Names
  import opened Records

  /** cmpFilename: strcmp of the two file names. */
  function CmpFilename(x: FileInfo, y: FileInfo): (r: int)
    ensures NoNul(x.filename) && NoNul(y.filename) ==> (r == 0 <==> x.filename == y.filename)
  {
    StrCmp(x.filename, y.filename)
  }

  /** cmpFilename is a three-way comparison: the lexicographic order of the names. */
  lemma CmpFilenameIsOrder(x: FileInfo, y: FileInfo, z: FileInfo)
    requires NoNul(x.filename) && NoNul(y.filename) && NoNul(z.filename)
    ensures CmpFilename(y, x) == -CmpFilename(x, y)
    ensures CmpFilename(x, y) <= 0 && CmpFilename(y, z) <= 0 ==> CmpFilename(x, z) <= 0
    ensures var k := CommonPrefix(x.filename, y.filename);
      CmpFilename(x, y) < 0 <==>
        (k == |x.filename| < |y.filename|) ||
        (k < |x.filename| && k < |y.filename| && x.filename[k] < y.filename[k])
  {
    StrCmpAntisymmetric(x.filename, y.filename);
    if CmpFilename(x, y) <= 0 && CmpFilename(y, z) <= 0 {
      StrCmpTransitive(x.filename, y.filename, z.filename);
    }
    StrCmpIsLexicographic(x.filename, y.filename);
  }

  /**
   * cmpSize as written: the C comparison ">" yields 1 when the first size
   * is larger and 0 otherwise; it is never negative.
   */
  function CmpSize(x: FileInfo, y: FileInfo): (r: int)
    ensures 0 <= r <= 1
    ensures r == 1 <==> x.size > y.size
  {
    if x.size > y.size then 1 else 0
  }

  /**
   * qsort needs a comparator that is negative, zero or positive as the
   * first argument sorts before, with or after the second. cmpSize says
   * "same place" for a smaller first file but "after" for the same pair
   * swapped, so it orders no two different sizes consistently.
   */
  lemma CmpSizeInconsistent()
    ensures var small, large := FileInfo("/s/a", "a", 1), FileInfo("/s/b", "b", 2);
      CmpSize(small, large) == 0 && CmpSize(large, small) == 1
  {
  }

  /** The comparator cmpSize evidently means: ascending size, as a three-way result. */
  function CmpSizeThreeWay(x: FileInfo, y: FileInfo): (r: int)
    ensures r < 0 <==> x.size < y.size
    ensures r == 0 <==> x.size == y.size
    ensures r > 0 <==> x.size > y.size
  {
    if x.size < y.size then -1 else if x.size > y.size then 1 else 0
  }

  /**
   * The comparator chosen at Lab2.c:207: by name for BY_NAME, and (corrected)
   * by size otherwise.
   */
  function Compare(sortType: int, x: FileInfo, y: FileInfo): (r: int)
    ensures sortType == BY_NAME && NoNul(x.filename) && NoNul(y.filename) ==>
      (r == 0 <==> x.filename == y.filename)
    ensures sortType != BY_NAME ==> (r < 0 <==> x.size < y.size) && (r == 0 <==> x.size == y.size)
  {
    if sortType == BY_NAME then CmpFilename(x, y) else CmpSizeThreeWay(x, y)
  }

  predicate CNames(s: seq<FileInfo>) {
    forall i :: 0 <= i < |s| ==> NoNul(s[i].filename)
  }

  /** Every record is before or level with every later one. */
  predicate Sorted(sortType: int, s: seq<FileInfo>) {
    forall i, j :: 0 <= i < j < |s| ==> Compare(sortType, s[i], s[j]) <= 0
  }

  /** Every record is before or level with the next one. */
  predicate AdjacentSorted(sortType: int, s: seq<FileInfo>) {
    forall k :: 0 < k < |s| ==> Compare(sortType, s[k - 1], s[k]) <= 0
  }

  lemma CompareAntisymmetric(sortType: int, x: FileInfo, y: FileInfo)
    requires NoNul(x.filename) && NoNul(y.filename)
    ensures Compare(sortType, x, y) > 0 ==> Compare(sortType, y, x) < 0
  {
    if sortType == BY_NAME {
      StrCmpAntisymmetric(x.filename, y.filename);
    }
  }

  lemma CompareTransitive(sortType: int, x: FileInfo, y: FileInfo, z: FileInfo)
    requires NoNul(x.filename) && NoNul(y.filename) && NoNul(z.filename)
    requires Compare(sortType, x, y) <= 0 && Compare(sortType, y, z) <= 0
    ensures Compare(sortType, x, z) <= 0
  {
    if sortType == BY_NAME {
      StrCmpTransitive(x.filename, y.filename, z.filename);
    }
  }

  /** For a transitive comparator, neighbours in order means all pairs in order. */
  lemma {:induction false} AdjacentToSorted(sortType: int, s: seq<FileInfo>)
    requires CNames(s) && AdjacentSorted(sortType, s)
    ensures Sorted(sortType, s)
    decreases |s|
  {
    if |s| > 1 {
      var t := s[..|s| - 1];
      assert CNames(t) && AdjacentSorted(sortType, t);
      AdjacentToSorted(sortType, t);
      forall i, j | 0 <= i < j < |s| ensures Compare(sortType, s[i], s[j]) <= 0 {
        if j < |s| - 1 {
          assert s[i] == t[i] && s[j] == t[j];
        } else if i < j - 1 {
          assert Compare(sortType, t[i], t[j - 1]) <= 0;
          CompareTransitive(sortType, s[i], s[j - 1], s[j]);
        }
      }
    }
  }

  /** Exchanges two records of the array. */
  method Swap(a: array<FileInfo>, p: int, q: int)
    requires 0 <= p < a.Length && 0 <= q < a.Length
    modifies a
    ensures a[..] == old(a[..])[p := old(a[q])][q := old(a[p])]
    ensures multiset(a[..]) == multiset(old(a[..]))
  {
    a[p], a[q] := a[q], a[p];
  }

  /**
   * Midway through one pass of the insertion sort: record j is being
   * swapped down, and every neighbouring pair among the first i + 1
   * records is in order except possibly the pair ending at j.
   */
  predicate Inserting(sortType: int, s: seq<FileInfo>, i: int, j: int) {
    0 <= j <= i < |s| &&
    (forall k :: 0 < k <= i && k != j ==> Compare(sortType, s[k - 1], s[k]) <= 0) &&
    (0 < j < i ==> Compare(sortType, s[j - 1], s[j + 1]) <= 0)
  }

  /** Swapping an out-of-order pair moves the gap one place down. */
  lemma InsertingSwap(sortType: int, s: seq<FileInfo>, i: int, j: int)
    requires CNames(s) && Inserting(sortType, s, i, j)
    requires 0 < j && Compare(sortType, s[j - 1], s[j]) > 0
    ensures var t := s[j - 1 := s[j]][j := s[j - 1]];
      CNames(t) && Inserting(sortType, t, i, j - 1)
  {
    var t := s[j - 1 := s[j]][j := s[j - 1]];
    CompareAntisymmetric(sortType, s[j - 1], s[j]);
    assert t[j - 1] == s[j] && t[j] == s[j - 1];
    forall k | 0 < k <= i && k != j - 1 ensures Compare(sortType, t[k - 1], t[k]) <= 0 {
      if k == j {
      } else if k == j + 1 {
        assert t[k - 1] == s[j - 1] && t[k] == s[j + 1];
      } else if k == j - 1 {
      } else {
        assert t[k - 1] == s[k - 1] && t[k] == s[k];
      }
    }
    if 0 < j - 1 {
      assert t[j - 2] == s[j - 2];
      assert Compare(sortType, s[j - 2], s[j - 1]) <= 0;
    }
  }

  /** A pass ends when the gap closes: the first i + 1 records are in order. */
  lemma InsertingDone(sortType: int, s: seq<FileInfo>, i: int, j: int)
    requires Inserting(sortType, s, i, j)
    requires j == 0 || Compare(sortType, s[j - 1], s[j]) <= 0
    ensures AdjacentSorted(sortType, s[..i + 1])
  {
    var u := s[..i + 1];
    forall k | 0 < k < |u| ensures Compare(sortType, u[k - 1], u[k]) <= 0 {
      assert u[k - 1] == s[k - 1] && u[k] == s[k];
    }
  }

  lemma InsertingStart(sortType: int, s: seq<FileInfo>, i: int)
    requires 0 <= i < |s| && AdjacentSorted(sortType, s[..i])
    ensures Inserting(sortType, s, i, i)
  {
    forall k | 0 < k <= i && k != i ensures Compare(sortType, s[k - 1], s[k]) <= 0 {
      assert s[..i][k - 1] == s[k - 1] && s[..i][k] == s[k];
    }
  }

  /**
   * One pass of the insertion sort: with the first i records in order,
   * record i is swapped down until the first i + 1 records are in order.
   */
  method InsertStep(a: array<FileInfo>, sortType: int, i: int)
    requires 0 <= i < a.Length
    requires CNames(a[..]) && AdjacentSorted(sortType, a[..i])
    modifies a
    ensures CNames(a[..]) && AdjacentSorted(sortType, a[..i + 1])
    ensures multiset(a[..]) == multiset(old(a[..]))
  {
    InsertingStart(sortType, a[..], i);
    var j := i;
    while j > 0 && Compare(sortType, a[j - 1], a[j]) > 0
      invariant CNames(a[..]) && Inserting(sortType, a[..], i, j)
      invariant multiset(a[..]) == multiset(old(a[..]))
      decreases j
    {
      InsertingSwap(sortType, a[..], i, j);
      Swap(a, j - 1, j);
      j := j - 1;
    }
    InsertingDone(sortType, a[..], i, j);
  }

  /**
   * qsort (Lab2.c:207), here an insertion sort by adjacent swaps: the
   * records end up in comparator order and are a rearrangement of the
   * records that came in.
   */
  method Sort(a: array<FileInfo>, sortType: int)
    requires CNames(a[..])
    modifies a
    ensures Sorted(sortType, a[..])
    ensures multiset(a[..]) == multiset(old(a[..]))
  {
    var i := 0;
    while i < a.Length
      invariant 0 <= i <= a.Length
      invariant CNames(a[..])
      invariant AdjacentSorted(sortType, a[..i])
      invariant multiset(a[..]) == multiset(old(a[..]))
    {
      InsertStep(a, sortType, i);
      i := i + 1;
    }
    assert a[..i] == a[..];
    AdjacentToSorted(sortType, a[..]);
  }
}
