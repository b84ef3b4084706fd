/** The binary wire format: type byte, four-byte little-endian length, data. */
module Wire {
  import opened Orders

  const TWO32: int := 0x1_0000_0000
  const TWO63: int := 0x8000_0000_0000_0000
  const TWO64: int := 0x1_0000_0000_0000_0000

  const LEN_BYTES: nat := 4
  const INT_BYTES: nat := 8

  type Int64 = v: int | -TWO63 <= v < TWO63

  /** A message; an array element is a pointer and may be null. */
  datatype Message =
    | Simple(text: Str)
    | Error(text: Str)
    | Integer(value: Int64)
    | Bulk(text: Str)
    | Array(items: seq<Pointer>)
    | Null

  datatype Pointer = NullPtr | To(msg: Message)

  // ---------- Little-endian numbers ----------

  /** The low `count` bytes of n, least significant first; a negative n is sign-extended. */
  function Le(n: int, count: nat): (b: Str)
    ensures |b| == count
    decreases count
  {
    if count == 0 then [] else [n % 256] + Le(n / 256, count - 1)
  }

  function FromLe(b: Str): nat {
    if b == [] then 0 else b[0] + 256 * FromLe(b[1..])
  }

  ghost function Pow256(k: nat): nat {
    if k == 0 then 1 else 256 * Pow256(k - 1)
  }

  lemma ModSplit(n: int, p: nat)
    requires p > 0
    ensures n % (256 * p) == n % 256 + 256 * ((n / 256) % p)
  {
    var q := n / 256;
    var r := n % 256 + 256 * (q % p);
    assert n == 256 * q + n % 256;
    assert q == p * (q / p) + q % p;
    assert n == (256 * p) * (q / p) + r by {
      assert 256 * q == 256 * (p * (q / p)) + 256 * (q % p);
      assert 256 * (p * (q / p)) == (256 * p) * (q / p);
    }
    assert 0 <= r < 256 * p by { assert q % p <= p - 1; }
    ModUnique(n, 256 * p, q / p, r);
  }

  lemma ModUnique(n: int, d: int, q: int, r: int)
    requires d > 0 && n == d * q + r && 0 <= r < d
    ensures n % d == r
  {
    var x := q - n / d;
    assert d * x == d * q - d * (n / d);
    assert d * x == n % d - r;
  }

  lemma {:induction false} ReadBack(n: int, count: nat)
    ensures Pow256(count) > 0 && FromLe(Le(n, count)) == n % Pow256(count)
    decreases count
  {
    if count > 0 {
      ReadBack(n / 256, count - 1);
      ModSplit(n, Pow256(count - 1));
      assert Le(n, count)[1..] == Le(n / 256, count - 1);
    }
  }

  lemma Digit(x: Byte, f: nat)
    ensures (x + 256 * f) % 256 == x && (x + 256 * f) / 256 == f
  {
  }

  lemma {:induction false} WriteBack(b: Str)
    ensures Le(FromLe(b), |b|) == b
  {
    if b != [] {
      WriteBack(b[1..]);
      Digit(b[0], FromLe(b[1..]));
    }
  }

  lemma {:induction false} FromLeBound(b: Str)
    ensures FromLe(b) < Pow256(|b|)
  {
    if b != [] { FromLeBound(b[1..]); }
  }

  lemma DivSplit(n: int, p: nat)
    requires p > 0
    ensures n / 256 / p == n / (256 * p)
  {
    ModSplit(n, p);
    var q := n / 256 / p;
    assert n / 256 == p * q + n / 256 % p;
    assert n == 256 * (p * q) + n % (256 * p);
    assert 256 * (p * q) == (256 * p) * q;
    SameQuotient(n, 256 * p, q, n % (256 * p));
  }

  lemma SameQuotient(n: int, d: int, q: int, r: int)
    requires d > 0 && n == d * q + r && 0 <= r < d
    ensures n / d == q
  {
    ModUnique(n, d, q, r);
    var x := q - n / d;
    assert d * x == d * q - d * (n / d) == 0;
    if x != 0 { NonZero(d, x); }
  }

  lemma NonZero(d: int, x: int)
    requires d > 0 && x != 0
    ensures d * x != 0
  {
    if x > 0 { assert d * x > 0; } else { assert d * -x > 0; }
  }

  /** Byte i is the i-th digit to base 256, the least significant first. */
  lemma {:induction false} DigitAt(n: int, count: nat, i: nat)
    requires i < count
    ensures Pow256(i) > 0 && Le(n, count)[i] == n / Pow256(i) % 256
    decreases count
  {
    if i > 0 {
      DigitAt(n / 256, count - 1, i - 1);
      DivSplit(n, Pow256(i - 1));
    }
  }

  /** The four bytes of b from `at` on, as numbers. */
  ghost predicate Spells32(b: Str, at: nat, n: int) {
    && at + 4 <= |b|
    && b[at] == n % 256
    && b[at + 1] == n / 256 % 256
    && b[at + 2] == n / 65536 % 256
    && b[at + 3] == n / 16777216 % 256
  }

  ghost predicate Spells64(b: Str, at: nat, n: int) {
    && at + 8 <= |b| && Spells32(b, at, n)
    && b[at + 4] == n / 4294967296 % 256
    && b[at + 5] == n / 1099511627776 % 256
    && b[at + 6] == n / 281474976710656 % 256
    && b[at + 7] == n / 72057594037927936 % 256
  }

  lemma {:induction false} LittleEndian32(n: int)
    ensures Spells32(Le(n, LEN_BYTES), 0, n)
  {
    forall i | 0 <= i < 4 { DigitAt(n, LEN_BYTES, i); }
    assert Pow256(1) == 256 && Pow256(2) == 65536 && Pow256(3) == 16777216;
  }

  lemma {:induction false} LittleEndian64(n: int)
    ensures Spells64(Le(n, INT_BYTES), 0, n)
  {
    var b := Le(n, INT_BYTES);
    DigitAt(n, INT_BYTES, 0);
    DigitAt(n, INT_BYTES, 1);
    DigitAt(n, INT_BYTES, 2);
    DigitAt(n, INT_BYTES, 3);
    DigitAt(n, INT_BYTES, 4);
    DigitAt(n, INT_BYTES, 5);
    DigitAt(n, INT_BYTES, 6);
    DigitAt(n, INT_BYTES, 7);
    SmallPowers();
  }

  lemma SmallPowers()
    ensures Pow256(0) == 1 && Pow256(1) == 256 && Pow256(2) == 65536 && Pow256(3) == 16777216
    ensures Pow256(4) == 4294967296 && Pow256(5) == 1099511627776
    ensures Pow256(6) == 281474976710656 && Pow256(7) == 72057594037927936
  {
  }

  /** Four bytes read back. */
  lemma {:induction false} Value32(b: Str)
    requires |b| == 4
    ensures FromLe(b) == b[0] as int + 256 * (b[1] as int) + 65536 * (b[2] as int) + 16777216 * (b[3] as int)
  {
    assert b[1..][1..] == b[2..] && b[2..][1..] == b[3..] && b[3..][1..] == [];
    assert FromLe(b[3..]) == b[3];
    assert FromLe(b[2..]) == b[2] as int + 256 * (b[3] as int);
  }

  lemma Powers()
    ensures Pow256(LEN_BYTES) == TWO32 && Pow256(INT_BYTES) == TWO64
  {
  }

  /** A 32-bit length survives; a longer one loses its high part. */
  lemma Length32(n: nat)
    ensures FromLe(Le(n, LEN_BYTES)) == n % TWO32
  {
    ReadBack(n, LEN_BYTES);
    Powers();
  }

  lemma Read32(b: Str)
    requires |b| == 4
    ensures FromLe(b) < TWO32 && Le(FromLe(b), LEN_BYTES) == b
  {
    FromLeBound(b);
    Powers();
    WriteBack(b);
  }

  /** The int64_t whose two's-complement pattern is u. */
  function Signed(u: nat): Int64
    requires u < TWO64
  {
    if u < TWO63 then u else u - TWO64
  }

  lemma Integer64(v: Int64)
    ensures FromLe(Le(v, INT_BYTES)) < TWO64 && Signed(FromLe(Le(v, INT_BYTES))) == v
  {
    ReadBack(v, INT_BYTES);
    Powers();
    if v < 0 { ModUnique(v, TWO64, -1, v + TWO64); } else { ModUnique(v, TWO64, 0, v); }
  }

  lemma ReadInt64(b: Str)
    requires |b| == 8
    ensures FromLe(b) < TWO64 && Le(Signed(FromLe(b)), INT_BYTES) == b
  {
    FromLeBound(b);
    Powers();
    WriteBack(b);
    var u := FromLe(b);
    if u >= TWO63 { SameLowBytes(u, u - TWO64, 1, INT_BYTES); }
  }

  /** Numbers that differ by a multiple of 256^count have the same low bytes. */
  lemma {:induction false} SameLowBytes(n: int, m: int, k: int, count: nat)
    requires n == m + Pow256(count) * k
    ensures Le(n, count) == Le(m, count)
    decreases count
  {
    if count > 0 {
      var pk := Pow256(count - 1) * k;
      assert n == m + 256 * pk;
      SameLowBytes(n / 256, m / 256, k, count - 1);
    }
  }
}
