/** Byte strings as the program stores them, and the orders it compares them by. */
module Orders {

  /** One unsigned char. */
  type Byte = b: int | 0 <= b < 256

  /** A std::string: a sequence of bytes. */
  type Str = seq<Byte>

  /** The bytes of an ASCII literal. */
  function Text(s: string): (r: Str)
    ensures |r| == |s| && forall i :: 0 <= i < |s| && (s[i] as int) < 128 ==> r[i] == s[i] as int
  {
    seq(|s|, i requires 0 <= i < |s| => s[i] as int % 256)
  }

  /** No two keys are each below the other. */
  ghost predicate Asymmetric<K(!new)>(less: (K, K) -> bool) {
    forall x, y :: less(x, y) ==> !less(y, x)
  }

  /** What the tree template asks of its Compare parameter. */
  ghost predicate StrictTotal<K(!new)>(less: (K, K) -> bool) {
    && (forall x :: !less(x, x))
    && (forall x, y, z :: less(x, y) && less(y, z) ==> less(x, z))
    && (forall x, y :: less(x, y) || less(y, x) || x == y)
  }

  /** std::string's operator<: unsigned bytes, lexicographic, a proper prefix first. */
  predicate LexLess(a: Str, b: Str) {
    if b == [] then false
    else if a == [] then true
    else a[0] < b[0] || (a[0] == b[0] && LexLess(a[1..], b[1..]))
  }

  lemma {:induction false} LexIrreflexive(a: Str)
    ensures !LexLess(a, a)
  {
    if a != [] { LexIrreflexive(a[1..]); }
  }

  lemma {:induction false} LexTransitive(a: Str, b: Str, c: Str)
    requires LexLess(a, b) && LexLess(b, c)
    ensures LexLess(a, c)
  {
    if a != [] && a[0] == b[0] && b[0] == c[0] { LexTransitive(a[1..], b[1..], c[1..]); }
  }

  lemma {:induction false} LexConnected(a: Str, b: Str)
    ensures LexLess(a, b) || LexLess(b, a) || a == b
  {
    if a != [] && b != [] && a[0] == b[0] {
      LexConnected(a[1..], b[1..]);
      assert a == [a[0]] + a[1..] && b == [b[0]] + b[1..];
    }
  }

  /** A proper prefix is below, and otherwise the smaller byte at the first difference decides. */
  lemma {:induction false} LexLessMeaning(a: Str, b: Str)
    ensures LexLess(a, b)
            <==> exists k :: 0 <= k <= |a| && k < |b| && a[..k] == b[..k] && (k == |a| || a[k] < b[k])
    decreases |a|
  {
    if a != [] && b != [] {
      LexLessMeaning(a[1..], b[1..]);
      if a[0] == b[0] && LexLess(a[1..], b[1..]) {
        var k :| 0 <= k <= |a[1..]| && k < |b[1..]| && a[1..][..k] == b[1..][..k] && (k == |a[1..]| || a[1..][k] < b[1..][k]);
        assert a[..k + 1] == [a[0]] + a[1..][..k] && b[..k + 1] == [b[0]] + b[1..][..k];
      }
      if k :| 0 <= k <= |a| && k < |b| && a[..k] == b[..k] && (k == |a| || a[k] < b[k]) {
        if k > 0 {
          assert a[0] == a[..k][0] == b[..k][0] == b[0];
          assert a[1..][..k - 1] == a[..k][1..] && b[1..][..k - 1] == b[..k][1..];
        } else {
          assert a[0] < b[0];
        }
      }
    } else if a == [] && b != [] {
      assert a[..0] == b[..0];
    }
  }

  /** A sorted-set key: score first, then member. */
  datatype Entry = Entry(score: real, member: Str)

  predicate EntryLess(a: Entry, b: Entry) {
    if a.score != b.score then a.score < b.score else LexLess(a.member, b.member)
  }

  lemma EntryLessStrictTotal()
    ensures StrictTotal(EntryLess)
  {
    forall x: Entry ensures !EntryLess(x, x) { LexIrreflexive(x.member); }
    forall x, y, z | EntryLess(x, y) && EntryLess(y, z) ensures EntryLess(x, z) {
      if x.score == y.score == z.score { LexTransitive(x.member, y.member, z.member); }
    }
    forall x, y ensures EntryLess(x, y) || EntryLess(y, x) || x == y {
      LexConnected(x.member, y.member);
    }
  }
}
