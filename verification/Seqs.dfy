/** Slices of sequences. */
module Seqs {
  lemma SliceOfSlice<T>(s: seq<T>, a: nat, b: nat, n: nat)
    requires a + n <= b <= |s|
    ensures s[a..b][..n] == s[a..a + n]
  {
    var x, y := s[a..b][..n], s[a..a + n];
    assert |x| == |y|;
    forall i | 0 <= i < n ensures x[i] == y[i] { assert x[i] == s[a..b][i] == s[a + i]; }
  }

  lemma SliceInParts<T>(s: seq<T>, k: nat, j: nat, m: nat)
    requires k <= j < m <= |s|
    ensures s[k..m] == s[k..j] + [s[j]] + s[j + 1..m]
  {
    var x, y := s[k..m], s[k..j] + [s[j]] + s[j + 1..m];
    assert |x| == |y|;
    forall i | 0 <= i < |x| ensures x[i] == y[i] {
      if i > j - k { assert y[i] == s[j + 1..m][i - (j - k) - 1]; }
    }
  }

  /** s without its element i. */
  function Without<T>(s: seq<T>, i: nat): (r: seq<T>)
    requires i < |s|
    ensures |r| == |s| - 1 && forall k | 0 <= k < |r| :: r[k] == if k < i then s[k] else s[k + 1]
  {
    s[..i] + s[i + 1..]
  }

  lemma WithoutKeeps<T>(s: seq<T>, i: nat, a: T)
    requires i < |s| && a in s && a != s[i]
    ensures a in Without(s, i)
  {
    var k :| 0 <= k < |s| && s[k] == a;
    var k' := if k < i then k else k - 1;
    assert Without(s, i)[k'] == a;
  }

  /** Of distinct elements, those left are distinct, and none is the one taken out. */
  lemma WithoutDistinct<T>(s: seq<T>, i: nat)
    requires i < |s| && forall j, k | 0 <= j < k < |s| :: s[j] != s[k]
    ensures var r := Without(s, i);
            && (forall j, k | 0 <= j < k < |r| :: r[j] != r[k])
            && (forall k | 0 <= k < |r| :: r[k] != s[i] && r[k] in s)
  {
  }
}
