/** Bytes, little-endian numbers and concatenation. */
module Bytes {

  type Byte = b: int | 0 <= b < 0x100

  /** The low `n` bytes of `v`, least significant first. */
  function LittleEndian(v: nat, n: nat): (bytes: seq<Byte>)
    ensures |bytes| == n
  {
    if n == 0 then [] else [v % 0x100] + LittleEndian(v / 0x100, n - 1)
  }

  function FromLittleEndian(bytes: seq<Byte>): (v: nat)
  {
    if bytes == [] then 0 else bytes[0] + 0x100 * FromLittleEndian(bytes[1..])
  }

  function Pow256(n: nat): (p: nat)
    ensures p > 0
  {
    if n == 0 then 1 else 0x100 * Pow256(n - 1)
  }

  lemma ModByte(v: nat, p: nat)
    requires p > 0
    ensures v % (0x100 * p) == v % 0x100 + 0x100 * ((v / 0x100) % p)
  {
    var q := (v / 0x100) / p;
    var r := v % 0x100 + 0x100 * ((v / 0x100) % p);
    assert v / 0x100 == q * p + (v / 0x100) % p;
    assert v == 0x100 * (v / 0x100) + v % 0x100;
    assert v == (0x100 * p) * q + r by {
      assert 0x100 * (q * p) == (0x100 * p) * q;
    }
    assert 0 <= r < 0x100 * p;
    DivModUnique(v, 0x100 * p, q, r);
  }

  lemma MultipleAwayFromZero(d: int, x: int)
    requires d > 0
    ensures x >= 1 ==> d * x >= d
    ensures x <= -1 ==> d * x <= -d
  {
  }

  lemma DivModUnique(v: int, d: int, q: int, r: int)
    requires 0 <= r < d
    requires v == d * q + r
    ensures v % d == r && v / d == q
  {
    var q' := v / d;
    assert v == d * q' + v % d;
    assert d * (q' - q) == d * q' - d * q;
    MultipleAwayFromZero(d, q' - q);
  }

  lemma {:induction false} LittleEndianRoundTrip(v: nat, n: nat)
    ensures FromLittleEndian(LittleEndian(v, n)) == v % Pow256(n)
  {
    if n == 0 {
    } else {
      LittleEndianRoundTrip(v / 0x100, n - 1);
      ModByte(v, Pow256(n - 1));
      assert LittleEndian(v, n)[1..] == LittleEndian(v / 0x100, n - 1);
    }
  }

  function WithoutBytes(v: nat, n: nat): nat {
    if n == 0 then v else WithoutBytes(v / 0x100, n - 1)
  }

  /** Byte `i` is what is left of the number without its first `i` bytes, modulo 256. */
  lemma {:induction false} LittleEndianDigit(v: nat, n: nat, i: nat)
    requires i < n
    ensures LittleEndian(v, n)[i] == WithoutBytes(v, i) % 0x100
  {
    if i > 0 {
      LittleEndianDigit(v / 0x100, n - 1, i - 1);
    }
  }

  /** A number over two fields is its low field before its high one. */
  lemma {:induction false} LittleEndianSplit(v: nat, m: nat, n: nat)
    ensures LittleEndian(v, m + n) == LittleEndian(v, m) + LittleEndian(WithoutBytes(v, m), n)
  {
    if m > 0 {
      LittleEndianSplit(v / 0x100, m - 1, n);
    }
  }

  function Join<T>(chunks: seq<seq<T>>): seq<T> {
    if chunks == [] then [] else chunks[0] + Join(chunks[1..])
  }

  lemma {:induction false} JoinAppend<T>(chunks: seq<seq<T>>, last: seq<T>)
    ensures Join(chunks + [last]) == Join(chunks) + last
  {
    if chunks == [] {
      assert [last][1..] == [];
    } else {
      JoinAppend(chunks[1..], last);
      assert (chunks + [last])[1..] == chunks[1..] + [last];
    }
  }
}
