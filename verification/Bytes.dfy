/** Bytes, big-endian integers and the sequence facts the codecs share. */
module Bytes {

  type byte = x: int | 0 <= x < 256

  type bytes = seq<byte>

  /** `to_be_bytes` of the low 16, 24 or 32 bits: a narrowing cast truncates. */
  function Be16(n: nat): bytes {
    [n / 0x100 % 0x100, n % 0x100]
  }

  function Be24(n: nat): bytes {
    [n / 0x100 / 0x100 % 0x100] + Be16(n)
  }

  function Be32(n: nat): bytes {
    [n / 0x100 / 0x100 / 0x100 % 0x100] + Be24(n)
  }

  function U16(a: byte, b: byte): nat {
    a * 0x100 + b
  }

  function U24(a: byte, b: byte, c: byte): nat {
    a * 0x1_0000 + b * 0x100 + c
  }

  function U32(a: byte, b: byte, c: byte, d: byte): nat {
    a * 0x100_0000 + b * 0x1_0000 + c * 0x100 + d
  }

  lemma Be16RoundTrip(n: nat)
    ensures |Be16(n)| == 2 && U16(Be16(n)[0], Be16(n)[1]) == n % 0x1_0000
  {
    Split256(n);
    Split256(n / 0x100);
    var q := n / 0x100 / 0x100;
    var r := U16(Be16(n)[0], Be16(n)[1]);
    assert n == 0x1_0000 * q + r;
    hide Be16, U16;
    Residue16(n, q, r);
  }

  lemma Residue16(n: nat, q: nat, r: nat)
    requires n == 0x1_0000 * q + r && r < 0x1_0000
    ensures n % 0x1_0000 == r
  {
  }

  lemma Be24RoundTrip(n: nat)
    ensures |Be24(n)| == 3 && U24(Be24(n)[0], Be24(n)[1], Be24(n)[2]) == n % 0x100_0000
  {
    Split256(n);
    Split256(n / 0x100);
    Split256(n / 0x100 / 0x100);
    var q := n / 0x100 / 0x100 / 0x100;
    var r := U24(Be24(n)[0], Be24(n)[1], Be24(n)[2]);
    assert n == 0x100_0000 * q + r;
    hide Be24, U24;
    Residue24(n, q, r);
  }

  lemma Residue24(n: nat, q: nat, r: nat)
    requires n == 0x100_0000 * q + r && r < 0x100_0000
    ensures n % 0x100_0000 == r
  {
  }

  lemma Be32RoundTrip(n: nat)
    ensures |Be32(n)| == 4 && U32(Be32(n)[0], Be32(n)[1], Be32(n)[2], Be32(n)[3]) == n % 0x1_0000_0000
  {
    Split256(n);
    Split256(n / 0x100);
    Split256(n / 0x100 / 0x100);
    Split256(n / 0x100 / 0x100 / 0x100);
    var q := n / 0x100 / 0x100 / 0x100 / 0x100;
    var r := U32(Be32(n)[0], Be32(n)[1], Be32(n)[2], Be32(n)[3]);
    assert n == 0x1_0000_0000 * q + r;
    hide Be32, U32;
    Residue32(n, q, r);
  }

  lemma Residue32(n: nat, q: nat, r: nat)
    requires n == 0x1_0000_0000 * q + r && r < 0x1_0000_0000
    ensures n % 0x1_0000_0000 == r
  {
  }

  /** The most significant byte comes first, in plain arithmetic. */
  lemma BigEndian(n: nat)
    ensures 256 * (Be16(n)[0] as int) + Be16(n)[1] as int == n % 0x1_0000
    ensures 256 * (256 * (Be24(n)[0] as int) + Be24(n)[1] as int) + Be24(n)[2] as int == n % 0x100_0000
    ensures 256 * (256 * (256 * (Be32(n)[0] as int) + Be32(n)[1] as int) + Be32(n)[2] as int) + Be32(n)[3] as int
            == n % 0x1_0000_0000
  {
    Be16RoundTrip(n);
    Be24RoundTrip(n);
    Be32RoundTrip(n);
    hide Be16, Be24, Be32;
  }

  /** Two-byte and three-byte numbers that fit come back exactly, and only their own bytes
      encode a number. */
  lemma Be16Exact(n: nat)
    requires n < 0x1_0000
    ensures |Be16(n)| == 2 && U16(Be16(n)[0], Be16(n)[1]) == n
  {
    Be16RoundTrip(n);
    hide Be16, U16;
  }

  lemma Be24Exact(n: nat)
    requires n < 0x100_0000
    ensures |Be24(n)| == 3 && U24(Be24(n)[0], Be24(n)[1], Be24(n)[2]) == n
  {
    Be24RoundTrip(n);
    hide Be24, U24;
  }

  lemma U16Inverse(a: byte, b: byte)
    ensures Be16(U16(a, b)) == [a, b] && U16(a, b) < 0x1_0000
  {
    assert U16(a, b) / 0x100 == a;
  }

  lemma U24Inverse(a: byte, b: byte, c: byte)
    ensures Be24(U24(a, b, c)) == [a, b, c]
  {
    var n := U24(a, b, c);
    assert n / 0x100 == a * 0x100 + b;
    assert n / 0x100 / 0x100 == a;
  }

  lemma U32Inverse(a: byte, b: byte, c: byte, d: byte)
    ensures Be32(U32(a, b, c, d)) == [a, b, c, d]
  {
    var n := U32(a, b, c, d);
    assert n / 0x100 == a * 0x1_0000 + b * 0x100 + c;
    assert n / 0x100 / 0x100 == a * 0x100 + b;
    assert n / 0x100 / 0x100 / 0x100 == a;
  }

  /** A number that fits comes back exactly. */
  lemma Be32Exact(n: nat)
    requires n < 0x1_0000_0000
    ensures |Be32(n)| == 4 && U32(Be32(n)[0], Be32(n)[1], Be32(n)[2], Be32(n)[3]) == n
  {
    Be32RoundTrip(n);
    hide Be32, U32;
  }

  lemma Split256(n: nat)
    ensures n == 0x100 * (n / 0x100) + n % 0x100
  {
  }

  /** Concatenation of chunks. */
  function Concat(parts: seq<bytes>): bytes {
    if parts == [] then [] else parts[0] + Concat(parts[1..])
  }

  lemma {:induction false} ConcatAppend(parts: seq<bytes>, last: bytes)
    ensures Concat(parts + [last]) == Concat(parts) + last
  {
    if parts == [] {
      assert parts + [last] == [last];
    } else {
      ConcatAppend(parts[1..], last);
      assert (parts + [last])[1..] == parts[1..] + [last];
    }
  }

  lemma Assoc(a: bytes, b: bytes, c: bytes)
    ensures (a + b) + c == a + (b + c)
  {
  }

  /** `part` stands at `pos`. */
  predicate At(msg: bytes, pos: nat, part: bytes) {
    pos + |part| <= |msg| && msg[pos..pos + |part|] == part
  }

  lemma AtSplit(msg: bytes, pos: nat, a: bytes, b: bytes)
    ensures At(msg, pos, a + b) <==> At(msg, pos, a) && At(msg, pos + |a|, b)
  {
    if pos + |a| + |b| <= |msg| {
      assert msg[pos..pos + |a + b|] == msg[pos..pos + |a|] + msg[pos + |a|..pos + |a| + |b|];
      assert At(msg, pos, a + b) ==> (a + b)[..|a|] == msg[pos..pos + |a|]
                                             && (a + b)[|a|..] == msg[pos + |a|..pos + |a| + |b|];
    }
  }

  lemma AtIndex(msg: bytes, pos: nat, part: bytes, i: nat)
    requires At(msg, pos, part) && i < |part|
    ensures pos + i < |msg| && msg[pos + i] == part[i]
  {
    assert msg[pos..pos + |part|][i] == part[i];
  }

  lemma Be16Stands(msg: bytes, pos: nat, n: nat)
    requires At(msg, pos, Be16(n)) && n < 0x1_0000
    ensures pos + 2 <= |msg| && U16(msg[pos], msg[pos + 1]) == n
  {
    Be16Exact(n);
    AtIndex(msg, pos, Be16(n), 0);
    AtIndex(msg, pos, Be16(n), 1);
    hide Be16, U16;
  }

  /** Bytes as one number, the most significant first. */
  function Number(o: bytes): nat {
    if o == [] then 0 else 256 * Number(o[..|o| - 1]) + o[|o| - 1]
  }

  lemma NumberOfFour(o: bytes)
    requires |o| == 4
    ensures Number(o) == 0x100_0000 * (o[0] as int) + 0x1_0000 * (o[1] as int) + 0x100 * (o[2] as int) + o[3] as int
  {
    assert o[..3][..2] == o[..2] && o[..2][..1] == o[..1] && o[..1][..0] == [];
    assert Number(o[..1]) == o[0] as int;
    assert Number(o[..2]) == 256 * Number(o[..1]) + o[1] as int;
    assert Number(o[..3]) == 256 * Number(o[..2]) + o[2] as int;
  }

  lemma NumberSplits(a: bytes, b: bytes)
    requires |b| == 4
    ensures Number(a + b) == 0x1_0000_0000 * Number(a) + Number(b)
  {
    var (s, n) := (a + b, |a|);
    assert s[..n + 3][..n + 2] == s[..n + 2] && s[..n + 2][..n + 1] == s[..n + 1] && s[..n + 1][..n] == s[..n] == a;
    assert Number(s[..n + 1]) == 256 * Number(a) + b[0];
    assert Number(s[..n + 2]) == 256 * Number(s[..n + 1]) + b[1];
    assert Number(s[..n + 3]) == 256 * Number(s[..n + 2]) + b[2];
    assert Number(s) == 256 * Number(s[..n + 3]) + b[3];
    NumberOfFour(b);
  }

  lemma NumberOfBe32(n: nat)
    requires n < 0x1_0000_0000
    ensures |Be32(n)| == 4 && Number(Be32(n)) == n
  {
    hide *;
    Be32Exact(n);
    FourBytes(Be32(n));
  }

  lemma FourBytes(o: bytes)
    requires |o| == 4
    ensures Number(o) == U32(o[0], o[1], o[2], o[3])
  {
    hide Number;
    NumberOfFour(o);
  }
}
