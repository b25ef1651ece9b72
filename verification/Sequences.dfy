/** Slices of slices and of concatenations, and concatenation itself. */
module Sequences {

  lemma SliceOfSlice<T>(s: seq<T>, a: nat, b: nat, from: nat, to: nat)
    requires a <= b <= |s| && from <= to <= b - a
    ensures s[a..b][from..to] == s[a + from..a + to]
  {
    var part := s[a..b];
    var l, r := part[from..to], s[a + from..a + to];
    assert |l| == |r|;
    forall i | 0 <= i < |l| ensures l[i] == r[i] {
      assert l[i] == part[from + i] && part[from + i] == s[a + (from + i)];
      assert r[i] == s[(a + from) + i];
    }
  }

  lemma SlicesJoin<T>(s: seq<T>, a: nat, m: nat, b: nat)
    requires a <= m <= b <= |s|
    ensures s[a..m] + s[m..b] == s[a..b]
  {
  }

  /** A slice inside the first part. */
  lemma SliceOfFirst<T>(a: seq<T>, b: seq<T>, from: nat, to: nat)
    requires from <= to <= |a|
    ensures (a + b)[from..to] == a[from..to]
  {
    var l, r := (a + b)[from..to], a[from..to];
    forall i | 0 <= i < |l| ensures l[i] == r[i] {
      assert l[i] == (a + b)[from + i];
    }
  }

  /** A slice inside the second part. */
  lemma SliceOfSecond<T>(a: seq<T>, b: seq<T>, from: nat, to: nat)
    requires from <= to <= |b|
    ensures (a + b)[|a| + from..|a| + to] == b[from..to]
  {
    var l, r := (a + b)[|a| + from..|a| + to], b[from..to];
    forall i | 0 <= i < |l| ensures l[i] == r[i] {
      assert l[i] == (a + b)[|a| + (from + i)];
    }
  }

  /** The first k parts, end to end. */
  function Concatenated<T>(parts: seq<seq<T>>, k: nat): seq<T>
    requires k <= |parts|
  {
    if k == 0 then [] else Concatenated(parts, k - 1) + parts[k - 1]
  }
}
