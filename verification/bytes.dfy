/**
 Byte strings, Go's `bytes.Compare` order on them, and the ascending and
 descending listings of a finite set of keys that an ordered store's
 iterators walk through.
 */
module Bytes {

  type byte = b: int | 0 <= b < 0x100

  /** The largest Go `int`; a slice or string is never longer. */
  const MaxInt64: int := 0x7fff_ffff_ffff_ffff

  /** A store key or a row identifier. */
  type Key = seq<byte>

  predicate IsPrefix(p: seq<byte>, s: seq<byte>) {
    |p| <= |s| && s[..|p|] == p
  }

  /** A prefix of a prefix of s is a prefix of s. */
  lemma PrefixTransitive(a: seq<byte>, b: seq<byte>, c: seq<byte>)
    requires IsPrefix(a, b) && IsPrefix(b, c)
    ensures IsPrefix(a, c)
  {
    assert c[..|a|] == c[..|b|][..|a|];
  }

  /** `bytes.Compare`: -1, 0 or +1 by lexicographic byte order, a proper prefix sorting first. */
  function Compare(a: seq<byte>, b: seq<byte>): (c: int)
    ensures -1 <= c <= 1
    ensures c == 0 <==> a == b
    ensures IsPrefix(a, b) && a != b ==> c == -1
    ensures IsPrefix(b, a) && a != b ==> c == 1
    ensures |a| > 0 && |b| > 0 && a[0] != b[0] ==> (c == -1 <==> a[0] < b[0])
  {
    if |a| == 0 then (if |b| == 0 then 0 else -1)
    else if |b| == 0 then 1
    else if a[0] < b[0] then -1
    else if a[0] > b[0] then 1
    else
      var c := Compare(a[1..], b[1..]);
      assert a == [a[0]] + a[1..] && b == [b[0]] + b[1..];
      c
  }

  predicate Less(a: seq<byte>, b: seq<byte>) {
    Compare(a, b) < 0
  }

  lemma {:induction false} CompareAntisymmetric(a: seq<byte>, b: seq<byte>)
    ensures Compare(b, a) == -Compare(a, b)
    decreases |a|
  {
    if |a| > 0 && |b| > 0 && a[0] == b[0] {
      CompareAntisymmetric(a[1..], b[1..]);
    }
  }

  lemma {:induction false} LessTransitive(a: seq<byte>, b: seq<byte>, c: seq<byte>)
    requires Less(a, b) && Less(b, c)
    ensures Less(a, c)
    decreases |a|
  {
    if |a| > 0 && |b| > 0 && |c| > 0 && a[0] == b[0] == c[0] {
      LessTransitive(a[1..], b[1..], c[1..]);
    }
  }

  /** `Less` is a strict total order on byte strings. */
  lemma LessIsStrictTotalOrder()
    ensures forall a, b :: Less(a, b) ==> !Less(b, a)
    ensures forall a, b :: !Less(a, b) && !Less(b, a) ==> a == b
    ensures forall a, b, c :: Less(a, b) && Less(b, c) ==> Less(a, c)
  {
    forall a, b ensures Compare(b, a) == -Compare(a, b) {
      CompareAntisymmetric(a, b);
    }
    forall a, b, c | Less(a, b) && Less(b, c) ensures Less(a, c) {
      LessTransitive(a, b, c);
    }
  }

  /** m is the smallest member of s. */
  predicate IsLeast(m: Key, s: set<Key>) {
    m in s && forall k | k in s :: k == m || Less(m, k)
  }

  lemma {:induction false} LeastExists(s: set<Key>)
    requires s != {}
    ensures exists m :: IsLeast(m, s)
    decreases |s|
  {
    LessIsStrictTotalOrder();
    var x :| x in s;
    var rest := s - {x};
    if rest == {} {
      assert s == {x};
      assert IsLeast(x, s);
    } else {
      LeastExists(rest);
      var m :| IsLeast(m, rest);
      if Less(x, m) {
        assert IsLeast(x, s);
      } else {
        assert IsLeast(m, s);
      }
    }
  }

  /** The smallest key of a non-empty set: where an ascending iterator over it starts. */
  function Least(s: set<Key>): (m: Key)
    requires s != {}
    ensures m in s
    ensures forall k | k in s :: k == m || Less(m, k)
  {
    LeastExists(s);
    LessIsStrictTotalOrder();
    var m :| IsLeast(m, s);
    m
  }

  predicate StrictlyAscending(r: seq<Key>) {
    forall i, j | 0 <= i < j < |r| :: Less(r[i], r[j])
  }

  predicate StrictlyDescending(r: seq<Key>) {
    forall i, j | 0 <= i < j < |r| :: Less(r[j], r[i])
  }

  /** The members of s in ascending order: the visiting order of a forward iterator. */
  function Ascending(s: set<Key>): (r: seq<Key>)
    ensures StrictlyAscending(r)
    ensures forall k :: k in r <==> k in s
    ensures |r| == |s|
    decreases |s|
  {
    if s == {} then []
    else
      var m := Least(s);
      var rest := Ascending(s - {m});
      assert forall j | 0 <= j < |rest| :: Less(m, rest[j]) by {
        forall j | 0 <= j < |rest| ensures Less(m, rest[j]) {
          assert rest[j] in s - {m};
        }
      }
      [m] + rest
  }

  function Reverse(r: seq<Key>): (q: seq<Key>)
    ensures |q| == |r|
    ensures forall i | 0 <= i < |r| :: q[i] == r[|r| - 1 - i]
  {
    if r == [] then [] else Reverse(r[1..]) + [r[0]]
  }

  /** The members of s in descending order: the visiting order of a reverse iterator. */
  function Descending(s: set<Key>): (r: seq<Key>)
    ensures StrictlyDescending(r)
    ensures forall k :: k in r <==> k in s
    ensures |r| == |s|
  {
    var a := Ascending(s);
    var r := Reverse(a);
    assert forall k :: k in r <==> k in a by {
      forall k | k in a ensures k in r {
        var i :| 0 <= i < |a| && a[i] == k;
        assert r[|a| - 1 - i] == k;
      }
    }
    r
  }

  /** A slice of data from i to e holding w = a + b holds a up to p. */
  lemma Head(data: seq<byte>, i: nat, w: seq<byte>, a: seq<byte>, b: seq<byte>, p: nat, e: nat)
    requires w == a + b && e == i + |w| && e <= |data| && data[i..e] == w
    requires p == i + |a|
    ensures p <= e && data[i..p] == a
  {
    assert data[i..p] == w[..|a|];
  }

  /** A slice of data from i to e holding w = a + b holds b from p on. */
  lemma Tail(data: seq<byte>, i: nat, w: seq<byte>, a: seq<byte>, b: seq<byte>, p: nat, e: nat)
    requires w == a + b && e == i + |w| && e <= |data| && data[i..e] == w
    requires p == i + |a|
    ensures p + |b| == e && data[p..e] == b
  {
    assert data[p..e] == w[|a|..];
  }

  /** A slice of data at i holding w = x + y + z holds x up to p, y up to q and z up to e. */
  lemma ThreeParts(data: seq<byte>, i: nat, w: seq<byte>, x: seq<byte>, y: seq<byte>, z: seq<byte>, p: nat, q: nat, e: nat)
    requires w == x + y + z && i + |w| <= |data| && data[i..i + |w|] == w
    requires p == i + |x| && q == p + |y| && e == i + |w|
    ensures q + |z| == e
    ensures data[i..p] == x && data[p..q] == y && data[q..e] == z
  {
    assert w[..|x|] == x;
    assert w[|x|..] == y + z;
    assert data[i..p] == w[..|x|];
    assert data[p..e] == w[|x|..];
    assert data[p..q] == (y + z)[..|y|];
    assert data[q..e] == (y + z)[|y|..];
  }
}
