/** Vocabulary shared by every component: options, fixed-width bounds and small sequence helpers. */
module Common {
  datatype Option<+T> = None | Some(value: T)

  /** The bytes of files, buffers and UTF-8 strings. */
  type Byte = bv8

  const TWO_32: int := 0x1_0000_0000
  const TWO_63: int := 0x8000_0000_0000_0000
  const TWO_64: int := 0x1_0000_0000_0000_0000

  function Min(a: int, b: int): int {
    if a < b then a else b
  }

  function Max(a: int, b: int): int {
    if a < b then b else a
  }

  /** The cast to a 32-bit unsigned integer. */
  function Low32(n: nat): (r: nat)
    ensures r <= n && r < TWO_32
    ensures r == n <==> n < TWO_32
    ensures n == TWO_32 ==> r == 0
  {
    n % 0x1_0000_0000
  }

  /** Arithmetic of a 64-bit unsigned integer. */
  function Low64(n: nat): (r: nat)
    ensures r <= n && r < TWO_64
    ensures r == n <==> n < TWO_64
  {
    n % 0x1_0000_0000_0000_0000
  }

  ghost predicate NoDuplicates<T>(s: seq<T>) {
    forall i, j :: 0 <= i < j < |s| ==> s[i] != s[j]
  }

  lemma SliceOfSlice<T>(s: seq<T>, lo: nat, hi: nat, a: nat, b: nat)
    requires lo <= hi <= |s| && a <= b <= hi - lo
    ensures s[lo..hi][a..b] == s[lo + a..lo + b]
  {
    var x, y := s[lo..hi][a..b], s[lo + a..lo + b];
    forall i | 0 <= i < |y| ensures x[i] == y[i] {
      assert x[i] == s[lo..hi][a + i];
    }
    assert x == y;
  }

  /** Two sequences that agree up to `lo` and from `lo` to `hi` agree up to `hi`. */
  lemma PrefixesExtend<T>(a: seq<T>, b: seq<T>, lo: nat, hi: nat)
    requires lo <= hi <= |a| && hi <= |b| && a[..lo] == b[..lo] && a[lo..hi] == b[lo..hi]
    ensures a[..hi] == b[..hi]
  {
    forall i | 0 <= i < hi ensures a[i] == b[i] {
      if i < lo {
        assert a[i] == a[..lo][i] == b[..lo][i];
      } else {
        assert a[i] == a[lo..hi][i - lo] == b[lo..hi][i - lo];
      }
    }
    assert a[..hi] == b[..hi];
  }

  lemma Regrouped<T>(a: seq<T>, b: seq<T>, n: nat)
    requires n <= |b|
    ensures a + b == (a + b[..n]) + b[n..]
  {
    assert b == b[..n] + b[n..];
  }

  lemma {:induction false} CardinalityOfDistinct<T>(s: seq<T>, bound: set<T>)
    requires NoDuplicates(s)
    requires forall x :: x in s ==> x in bound
    ensures |s| <= |bound|
  {
    if s != [] {
      var last := s[|s| - 1];
      assert last in s;
      CardinalityOfDistinct(s[..|s| - 1], bound - {last});
    }
  }
}
