/** Rust strings as UTF-8 byte sequences: validity and lossy decoding, ASCII case, trimming,
    dotted labels and IPv4 literals. */
module Text {
  import opened Bytes

  // ---------------------------------------------------------------------------
  // UTF-8
  // ---------------------------------------------------------------------------

  predicate Continuation(b: byte) { 0x80 <= b <= 0xBF }

  /** Allowed second byte of a three- or four-byte sequence. */
  predicate SecondOk(first: byte, second: byte) {
    if first == 0xE0 then 0xA0 <= second <= 0xBF
    else if first == 0xED then 0x80 <= second <= 0x9F
    else if first == 0xF0 then 0x90 <= second <= 0xBF
    else if first == 0xF4 then 0x80 <= second <= 0x8F
    else Continuation(second)
  }

  /** The next chunk: its length, and whether it is one valid character. An invalid chunk
      is a maximal prefix of a valid sequence, or a single byte. */
  function Chunk(s: bytes): (r: (nat, bool))
    requires s != []
    ensures 1 <= r.0 <= 4 && r.0 <= |s|
  {
    var b := s[0];
    if b < 0x80 then (1, true)
    else if 0xC2 <= b <= 0xDF then
      (if |s| >= 2 && Continuation(s[1]) then (2, true) else (1, false))
    else if 0xE0 <= b <= 0xEF then
      (if |s| < 2 || !SecondOk(b, s[1]) then (1, false)
       else if |s| < 3 || !Continuation(s[2]) then (2, false)
       else (3, true))
    else if 0xF0 <= b <= 0xF4 then
      (if |s| < 2 || !SecondOk(b, s[1]) then (1, false)
       else if |s| < 3 || !Continuation(s[2]) then (2, false)
       else if |s| < 4 || !Continuation(s[3]) then (3, false)
       else (4, true))
    else (1, false)
  }

  predicate ValidUtf8(s: bytes) {
    s == [] || (Chunk(s).1 && ValidUtf8(s[Chunk(s).0..]))
  }

  const REPLACEMENT: bytes := [0xEF, 0xBF, 0xBD]

  /** `String::from_utf8_lossy` */
  function Lossy(s: bytes): bytes {
    if s == [] then []
    else
      var (n, ok) := Chunk(s);
      (if ok then s[..n] else REPLACEMENT) + Lossy(s[n..])
  }

  lemma {:induction false} LossyOfValid(s: bytes)
    requires ValidUtf8(s)
    ensures Lossy(s) == s
  {
    if s != [] {
      LossyOfValid(s[Chunk(s).0..]);
      assert s == s[..Chunk(s).0] + s[Chunk(s).0..];
    }
  }

  // ---------------------------------------------------------------------------
  // ASCII case
  // ---------------------------------------------------------------------------

  function LowerByte(b: byte): byte {
    if 'A' as int <= b <= 'Z' as int then b + 32 else b
  }

  /** `to_ascii_lowercase` */
  function Lower(s: bytes): (r: bytes)
    ensures |r| == |s| && forall i | 0 <= i < |s| :: r[i] == LowerByte(s[i])
  {
    seq(|s|, i requires 0 <= i < |s| => LowerByte(s[i]))
  }

  lemma LowerIdempotent(s: bytes)
    ensures Lower(Lower(s)) == Lower(s)
  {
  }

  lemma LowerSlice(s: bytes, i: nat, j: nat)
    requires i <= j <= |s|
    ensures Lower(s)[i..j] == Lower(s[i..j])
  {
  }

  lemma LowerChunk(s: bytes)
    requires s != []
    ensures Chunk(Lower(s)) == Chunk(s)
  {
    assert s[0] < 0x80 <==> Lower(s)[0] < 0x80;
    assert forall i | 0 <= i < |s| && s[i] >= 0x80 :: Lower(s)[i] == s[i];
    assert forall i | 0 <= i < |s| && s[i] < 0x80 :: Lower(s)[i] < 0x80;
  }

  lemma {:induction false} LowerValid(s: bytes)
    ensures ValidUtf8(Lower(s)) == ValidUtf8(s)
  {
    if s != [] {
      LowerChunk(s);
      var n := Chunk(s).0;
      LowerValid(s[n..]);
      assert Lower(s)[n..] == Lower(s[n..]);
    }
  }

  // ---------------------------------------------------------------------------
  // Trimming dots
  // ---------------------------------------------------------------------------

  const DOT: byte := 46

  /** `trim_end_matches('.')` */
  function TrimEndDots(s: bytes): bytes {
    if s != [] && s[|s| - 1] == DOT then TrimEndDots(s[..|s| - 1]) else s
  }

  /** `trim_start_matches('.')` */
  function TrimStartDots(s: bytes): bytes {
    if s != [] && s[0] == DOT then TrimStartDots(s[1..]) else s
  }

  lemma {:induction false} TrimEndDotsExact(s: bytes)
    ensures TrimEndDots(s) <= s
    ensures TrimEndDots(s) == [] || TrimEndDots(s)[|TrimEndDots(s)| - 1] != DOT
    ensures forall i | |TrimEndDots(s)| <= i < |s| :: s[i] == DOT
    ensures TrimEndDots(TrimEndDots(s)) == TrimEndDots(s)
  {
    if s != [] && s[|s| - 1] == DOT { TrimEndDotsExact(s[..|s| - 1]); }
  }

  /** Dropping a final ASCII byte keeps the rest valid. */
  lemma {:induction false} ValidWithoutAsciiEnd(s: bytes)
    requires s != [] && s[|s| - 1] < 0x80 && ValidUtf8(s)
    ensures ValidUtf8(s[..|s| - 1])
  {
    var n := Chunk(s).0;
    var t := s[..|s| - 1];
    if n < |s| {
      assert s[n..][|s[n..]| - 1] == s[|s| - 1];
      ValidWithoutAsciiEnd(s[n..]);
      assert s[n..][..|s[n..]| - 1] == t[n..];
      assert Chunk(t) == Chunk(s);
    }
  }

  lemma {:induction false} TrimEndDotsValid(s: bytes)
    requires ValidUtf8(s)
    ensures ValidUtf8(TrimEndDots(s))
  {
    if s != [] && s[|s| - 1] == DOT {
      ValidWithoutAsciiEnd(s);
      TrimEndDotsValid(s[..|s| - 1]);
    }
  }

  lemma {:induction false} LowerTrimEnd(s: bytes)
    ensures TrimEndDots(Lower(s)) == Lower(TrimEndDots(s))
  {
    if s != [] && s[|s| - 1] == DOT {
      LowerSlice(s, 0, |s| - 1);
      LowerTrimEnd(s[..|s| - 1]);
      assert Lower(s)[..|s| - 1] == Lower(s)[0..|s| - 1] && s[..|s| - 1] == s[0..|s| - 1];
    }
  }

  // ---------------------------------------------------------------------------
  // White space (`str::trim`)
  // ---------------------------------------------------------------------------

  /** Length of the white-space character that starts `s`, or 0. */
  function SpaceAtStart(s: bytes): nat
    ensures SpaceAtStart(s) <= |s|
  {
    if |s| >= 1 && (9 <= s[0] <= 13 || s[0] == 32) then 1
    else if |s| >= 2 && s[0] == 0xC2 && (s[1] == 0x85 || s[1] == 0xA0) then 2
    else if |s| >= 3 && IsWideSpace(s[0], s[1], s[2]) then 3
    else 0
  }

  function SpaceAtEnd(s: bytes): nat
    ensures SpaceAtEnd(s) <= |s|
  {
    var n := |s|;
    if n >= 1 && (9 <= s[n - 1] <= 13 || s[n - 1] == 32) then 1
    else if n >= 2 && s[n - 2] == 0xC2 && (s[n - 1] == 0x85 || s[n - 1] == 0xA0) then 2
    else if n >= 3 && IsWideSpace(s[n - 3], s[n - 2], s[n - 1]) then 3
    else 0
  }

  /** U+1680, U+2000..200A, U+2028, U+2029, U+202F, U+205F, U+3000. */
  predicate IsWideSpace(a: byte, b: byte, c: byte) {
    || (a == 0xE1 && b == 0x9A && c == 0x80)
    || (a == 0xE2 && b == 0x80 && (0x80 <= c <= 0x8A || c == 0xA8 || c == 0xA9 || c == 0xAF))
    || (a == 0xE2 && b == 0x81 && c == 0x9F)
    || (a == 0xE3 && b == 0x80 && c == 0x80)
  }

  function Trim(s: bytes): bytes {
    if SpaceAtStart(s) > 0 then Trim(s[SpaceAtStart(s)..])
    else if SpaceAtEnd(s) > 0 then Trim(s[..|s| - SpaceAtEnd(s)])
    else s
  }

  // ---------------------------------------------------------------------------
  // Dotted labels
  // ---------------------------------------------------------------------------

  /** `split('.')`: never empty. */
  function Split(s: bytes): (r: seq<bytes>)
    ensures r != []
  {
    if s == [] then [[]]
    else
      SplitStep(s[0], Split(s[1..]))
  }

  /** `join(".")` */
  function Join(labels: seq<bytes>): bytes {
    if labels == [] then []
    else if |labels| == 1 then labels[0]
    else labels[0] + [DOT] + Join(labels[1..])
  }

  predicate NoDot(l: bytes) { DOT !in l }

  lemma {:induction false} SplitConcat(a: bytes, b: bytes)
    ensures Split(a + [DOT] + b) == Split(a) + Split(b)
  {
    var s := a + [DOT] + b;
    if a == [] {
      assert s == [DOT] + b && s[1..] == b;
    } else {
      SplitConcat(a[1..], b);
      assert s[0] == a[0] && s[1..] == a[1..] + [DOT] + b;
      var r := Split(a[1..]);
      var t := Split(b);
      assert Split(s[1..]) == r + t && Split(s) == SplitStep(a[0], r + t) && Split(a) == SplitStep(a[0], r);
      hide Split;
      SplitStepConcat(a[0], r, t);
    }
  }

  function SplitStep(first: byte, rest: seq<bytes>): seq<bytes>
    requires rest != []
  {
    if first == DOT then [[]] + rest else [[first] + rest[0]] + rest[1..]
  }

  lemma SplitStepConcat(first: byte, r: seq<bytes>, t: seq<bytes>)
    requires r != []
    ensures SplitStep(first, r + t) == SplitStep(first, r) + t
  {
    assert (r + t)[0] == r[0] && (r + t)[1..] == r[1..] + t;
  }

  lemma {:induction false} JoinSplit(s: bytes)
    ensures Join(Split(s)) == s
    ensures forall i | 0 <= i < |Split(s)| :: NoDot(Split(s)[i])
  {
    if s != [] {
      JoinSplit(s[1..]);
      var r := Split(s[1..]);
      if s[0] == DOT {
        assert ([[]] + r)[1..] == r;
      } else {
        assert ([[s[0]] + r[0]] + r[1..])[1..] == r[1..];
      }
    }
  }

  lemma {:induction false} SplitOfLabel(l: bytes)
    requires NoDot(l)
    ensures Split(l) == [l]
  {
    if l != [] {
      assert NoDot(l[1..]);
      SplitOfLabel(l[1..]);
      assert [l[0]] + l[1..] == l;
    }
  }

  lemma {:induction false} SplitJoin(labels: seq<bytes>)
    requires labels != [] && forall i | 0 <= i < |labels| :: NoDot(labels[i])
    ensures Split(Join(labels)) == labels
  {
    if |labels| == 1 {
      SplitOfLabel(labels[0]);
    } else {
      SplitJoin(labels[1..]);
      SplitOfLabel(labels[0]);
      SplitConcat(labels[0], Join(labels[1..]));
      assert labels == [labels[0]] + labels[1..];
    }
  }

  predicate SuffixOf<T(==)>(a: seq<T>, b: seq<T>) {
    |a| <= |b| && b[|b| - |a|..] == a
  }

  // ---------------------------------------------------------------------------
  // IPv4 literals
  // ---------------------------------------------------------------------------

  predicate IsDigit(b: byte) { 48 <= b <= 57 }

  function DecimalValue(s: bytes): int
    requires forall i | 0 <= i < |s| :: IsDigit(s[i])
  {
    if s == [] then 0 else 10 * DecimalValue(s[..|s| - 1]) + ((s[|s| - 1] as int) - 48)
  }

  /** One octet: one to three digits, no leading zero, at most 255. */
  predicate IsOctet(l: bytes) {
    && 1 <= |l| <= 3
    && (forall i | 0 <= i < |l| :: IsDigit(l[i]))
    && (l[0] == 48 ==> |l| == 1)
    && DecimalValue(l) <= 255
  }

  predicate IsIpv4(s: bytes) {
    |Split(s)| == 4 && forall i | 0 <= i < 4 :: IsOctet(Split(s)[i])
  }

  lemma {:induction false} SplitLower(s: bytes)
    ensures |Split(Lower(s))| == |Split(s)|
    ensures forall k | 0 <= k < |Split(s)| :: Split(Lower(s))[k] == Lower(Split(s)[k])
  {
    if s != [] {
      SplitLower(s[1..]);
      assert Lower(s)[1..] == Lower(s[1..]);
      var (r, t) := (Split(s[1..]), Split(Lower(s[1..])));
      assert Split(s) == SplitStep(s[0], r) && Split(Lower(s)) == SplitStep(LowerByte(s[0]), t);
      hide Split;
      SplitStepLower(s[0], r, t);
    }
  }

  lemma SplitStepLower(first: byte, r: seq<bytes>, t: seq<bytes>)
    requires r != [] && |t| == |r| && forall k | 0 <= k < |r| :: t[k] == Lower(r[k])
    ensures var (a, b) := (SplitStep(first, r), SplitStep(LowerByte(first), t));
            |a| == |b| && forall k | 0 <= k < |a| :: b[k] == Lower(a[k])
  {
    if first != DOT {
      assert [LowerByte(first)] + Lower(r[0]) == Lower([first] + r[0]);
    }
  }

  lemma LowerOctet(l: bytes)
    requires IsOctet(Lower(l))
    ensures Lower(l) == l
  {
    forall i | 0 <= i < |l| ensures Lower(l)[i] == l[i] {
      assert IsDigit(Lower(l)[i]);
    }
  }

  /** Lower-casing does not make an IPv4 literal of something that was none. */
  lemma LowerIpv4(s: bytes)
    ensures IsIpv4(Lower(s)) == IsIpv4(s)
  {
    SplitLower(s);
    if IsIpv4(Lower(s)) {
      forall k | 0 <= k < 4 ensures IsOctet(Split(s)[k]) { LowerOctet(Split(s)[k]); }
    }
    if IsIpv4(s) {
      forall k | 0 <= k < 4 ensures IsOctet(Split(Lower(s))[k]) {
        assert Lower(Split(s)[k]) == Split(s)[k] by {
          forall i | 0 <= i < |Split(s)[k]| ensures LowerByte(Split(s)[k][i]) == Split(s)[k][i] {
            assert IsDigit(Split(s)[k][i]);
          }
        }
      }
    }
  }
}
