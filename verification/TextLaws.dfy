/** What the string functions mean, against independent definitions: UTF-8 by code points, ASCII
    case by the alphabet, white space by its list, and IPv4 literals by printing. */
module TextLaws {
  import opened Bytes
  import opened Text

  // ---------------------------------------------------------------------------
  // UTF-8 (section 3 of RFC 3629)
  // ---------------------------------------------------------------------------

  /** Unicode scalar values: no surrogates. */
  type scalar = c: int | 0 <= c < 0xD800 || 0xE000 <= c <= 0x10FFFF

  function Utf8(c: scalar): bytes {
    if c < 0x80 then [c]
    else if c < 0x800 then [0xC0 + c / 64, 0x80 + c % 64]
    else if c < 0x1_0000 then [0xE0 + c / 64 / 64, 0x80 + c / 64 % 64, 0x80 + c % 64]
    else [0xF0 + c / 64 / 64 / 64, 0x80 + c / 64 / 64 % 64, 0x80 + c / 64 % 64, 0x80 + c % 64]
  }

  function Utf8All(cs: seq<scalar>): bytes {
    if cs == [] then [] else Utf8(cs[0]) + Utf8All(cs[1..])
  }

  lemma Two(a: int, b: int, c: int)
    requires 0 <= a && 0 <= b < 64 && c == 64 * a + b
    ensures c / 64 == a && c % 64 == b
  {
  }

  lemma Three(a: int, b: int, d: int, c: int)
    requires 0 <= a && 0 <= b < 64 && 0 <= d < 64 && c == 64 * (64 * a + b) + d
    ensures c / 64 / 64 == a && c / 64 % 64 == b && c % 64 == d
  {
    Two(64 * a + b, d, c);
    Two(a, b, 64 * a + b);
  }

  lemma TwoIsChar(a: byte, b: byte) returns (c: scalar)
    requires 0xC2 <= a <= 0xDF && Continuation(b)
    ensures Utf8(c) == [a, b]
  {
    c := 64 * (a as int - 0xC0) + (b as int - 0x80);
    Two(a as int - 0xC0, b as int - 0x80, c);
  }

  lemma ThreeIsChar(a: byte, b: byte, d: byte) returns (c: scalar)
    requires 0xE0 <= a <= 0xEF && SecondOk(a, b) && Continuation(d)
    ensures Utf8(c) == [a, b, d]
  {
    c := 64 * (64 * (a as int - 0xE0) + (b as int - 0x80)) + (d as int - 0x80);
    Three(a as int - 0xE0, b as int - 0x80, d as int - 0x80, c);
  }

  lemma FourIsChar(a: byte, b: byte, d: byte, e: byte) returns (c: scalar)
    requires 0xF0 <= a <= 0xF4 && SecondOk(a, b) && Continuation(d) && Continuation(e)
    ensures Utf8(c) == [a, b, d, e]
  {
    var m := 64 * (64 * (a as int - 0xF0) + (b as int - 0x80)) + (d as int - 0x80);
    Three(a as int - 0xF0, b as int - 0x80, d as int - 0x80, m);
    c := 64 * m + (e as int - 0x80);
    Two(m, e as int - 0x80, c);
  }

  /** A valid chunk is one character. */
  lemma ChunkIsChar(s: bytes) returns (c: scalar)
    requires s != [] && Chunk(s).1
    ensures s[..Chunk(s).0] == Utf8(c)
  {
    hide SecondOk;
    var n := Chunk(s).0;
    if n == 1 {
      c := s[0];
    } else if n == 2 {
      c := TwoIsChar(s[0], s[1]);
    } else if n == 3 {
      c := ThreeIsChar(s[0], s[1], s[2]);
    } else {
      c := FourIsChar(s[0], s[1], s[2], s[3]);
    }
  }

  lemma SixBits(c: int)
    requires 0 <= c
    ensures c == 64 * (c / 64) + c % 64 && 0 <= c % 64 < 64
  {
  }

  lemma Utf8Size(c: scalar)
    ensures |Utf8(c)| == if c < 0x80 then 1 else if c < 0x800 then 2 else if c < 0x1_0000 then 3 else 4
  {
  }

  /** The bounds on the second byte are those of the code points. */
  lemma CharSecond(c: scalar)
    ensures c >= 0x800 ==> SecondOk(Utf8(c)[0], Utf8(c)[1])
  {
    if c >= 0x800 {
      SixBits(c);
      SixBits(c / 64);
      if c >= 0x1_0000 { SixBits(c / 64 / 64); }
    }
  }

  /** A character at the front is the next chunk. */
  lemma CharIsChunk(c: scalar, rest: bytes)
    ensures Chunk(Utf8(c) + rest) == (|Utf8(c)|, true)
  {
    var (u, s) := (Utf8(c), Utf8(c) + rest);
    assert forall i | 0 <= i < |u| :: s[i] == u[i];
    CharSecond(c);
    hide SecondOk;
  }

  lemma {:induction false} ValidIsChars(s: bytes) returns (cs: seq<scalar>)
    requires ValidUtf8(s)
    ensures s == Utf8All(cs)
  {
    hide Chunk, Utf8;
    if s == [] {
      cs := [];
    } else {
      var n := Chunk(s).0;
      var c := ChunkIsChar(s);
      var rest := ValidIsChars(s[n..]);
      cs := [c] + rest;
      assert cs[1..] == rest && s == s[..n] + s[n..];
    }
  }

  lemma {:induction false} CharsAreValid(cs: seq<scalar>)
    ensures ValidUtf8(Utf8All(cs))
  {
    if cs != [] {
      CharsAreValid(cs[1..]);
      var (u, rest) := (Utf8(cs[0]), Utf8All(cs[1..]));
      CharIsChunk(cs[0], rest);
      Utf8Size(cs[0]);
      hide Chunk, Utf8;
      assert (u + rest)[|u|..] == rest;
    }
  }

  /** Text is valid exactly if it is the encoding of some sequence of scalar values. */
  lemma ValidExactly(s: bytes)
    ensures ValidUtf8(s) <==> exists cs: seq<scalar> :: s == Utf8All(cs)
  {
    hide ValidUtf8, Utf8All;
    if ValidUtf8(s) { var cs := ValidIsChars(s); }
    forall cs: seq<scalar> | s == Utf8All(cs) ensures ValidUtf8(s) { CharsAreValid(cs); }
  }

  /** Lossy decoding always gives valid text, and leaves exactly valid text alone. */
  lemma {:induction false} LossyValid(s: bytes)
    ensures ValidUtf8(Lossy(s))
  {
    if s != [] {
      var (n, ok) := Chunk(s);
      LossyValid(s[n..]);
      var c: scalar := 0xFFFD;
      if ok { c := ChunkIsChar(s); } else { ReplacementIsChar(); }
      assert Lossy(s) == Utf8(c) + Lossy(s[n..]);
      hide Lossy, Chunk, Utf8;
      CharThenValid(c, Lossy(s[n..]));
    }
  }

  lemma ReplacementIsChar()
    ensures REPLACEMENT == Utf8(0xFFFD)
  {
  }

  lemma CharThenValid(c: scalar, t: bytes)
    requires ValidUtf8(t)
    ensures ValidUtf8(Utf8(c) + t)
  {
    CharIsChunk(c, t);
    Utf8Size(c);
    hide Chunk, Utf8;
    assert (Utf8(c) + t)[|Utf8(c)|..] == t;
  }

  lemma LossyExactly(s: bytes)
    ensures Lossy(s) == s <==> ValidUtf8(s)
  {
    LossyValid(s);
    if ValidUtf8(s) { LossyOfValid(s); }
  }

  /** An invalid chunk is the longest start of a character there is at this place, or one byte
      if none starts here. */
  lemma BadChunkMaximal(s: bytes, c: scalar)
    requires s != [] && !Chunk(s).1
    ensures var n := Chunk(s).0;
            |Utf8(c)| <= n || n == |s| || Utf8(c)[..n + 1] != s[..n + 1]
    ensures !(Utf8(c) <= s)
  {
    var (n, u) := (Chunk(s).0, Utf8(c));
    if u <= s {
      assert s == u + s[|u|..];
      CharIsChunk(c, s[|u|..]);
      assert false;
    }
    if n < |u| && n < |s| && u[..n + 1] == s[..n + 1] {
      assert forall i | 0 <= i <= n :: u[i] == u[..n + 1][i] == s[i];
      CharSecond(c);
      SecondIsContinuation(u[0], u[1]);
      hide SecondOk;
      assert false;
    }
  }

  lemma SecondIsContinuation(a: byte, b: byte)
    requires SecondOk(a, b)
    ensures Continuation(b)
  {
  }

  lemma BadChunkStarts(s: bytes)
    requires s != [] && !Chunk(s).1 && Chunk(s).0 > 1
    ensures exists c: scalar :: |Utf8(c)| > Chunk(s).0 && Utf8(c)[..Chunk(s).0] == s[..Chunk(s).0]
  {
    var n := Chunk(s).0;
    var full := if s[0] < 0xF0 then [s[0], s[1], 0x80] else [s[0], s[1], if n == 3 then s[2] else 0x80, 0x80];
    var c := ChunkIsChar(full);
    assert full[..|full|] == full;
  }

  // ---------------------------------------------------------------------------
  // ASCII case
  // ---------------------------------------------------------------------------

  const CAPITALS: string := "ABCDEFGHIJKLMNOPQRSTUVWXYZ"
  const SMALLS: string := "abcdefghijklmnopqrstuvwxyz"

  /** Each capital becomes its small letter. */
  lemma CapitalLowers(k: nat)
    requires k < 26
    ensures CAPITALS[k] as int == 65 + k && LowerByte(65 + k) == SMALLS[k] as int
  {
    CapitalAt(k);
    SmallAt(k);
  }

  lemma CapitalAt(k: nat)
    requires k < 26
    ensures CAPITALS[k] as int == 65 + k
  {
  }

  lemma SmallAt(k: nat)
    requires k < 26
    ensures SMALLS[k] as int == 97 + k
  {
  }

  /** No other byte changes. */
  lemma OthersStay(b: byte)
    requires forall k | 0 <= k < 26 :: b != CAPITALS[k] as int
    ensures LowerByte(b) == b
  {
    if 65 <= b <= 90 { CapitalAt(b - 65); assert false; }
  }

  // ---------------------------------------------------------------------------
  // Trimming
  // ---------------------------------------------------------------------------

  lemma {:induction false} TrimStartDotsExact(s: bytes)
    ensures var t := TrimStartDots(s);
            && |t| <= |s| && s[|s| - |t|..] == t && (t == [] || t[0] != DOT)
            && forall i | 0 <= i < |s| - |t| :: s[i] == DOT
  {
    if s != [] && s[0] == DOT {
      TrimStartDotsExact(s[1..]);
      var t := TrimStartDots(s[1..]);
      assert s[1..][|s[1..]| - |t|..] == s[|s| - |t|..];
      assert forall i | 1 <= i < |s| - |t| :: s[i] == s[1..][i - 1];
    }
  }

  /** The characters with the Unicode property White_Space. */
  predicate WhiteSpace(c: scalar) {
    || 9 <= c <= 13 || c == 32 || c == 0x85 || c == 0xA0 || c == 0x1680 || 0x2000 <= c <= 0x200A
    || c == 0x2028 || c == 0x2029 || c == 0x202F || c == 0x205F || c == 0x3000
  }

  ghost predicate Blank(s: bytes) {
    exists cs: seq<scalar> :: s == Utf8All(cs) && AllWhite(cs)
  }

  predicate AllWhite(cs: seq<scalar>) {
    forall i | 0 <= i < |cs| :: WhiteSpace(cs[i])
  }

  lemma AllWhiteMore(cs: seq<scalar>, c: scalar)
    requires AllWhite(cs) && WhiteSpace(c)
    ensures AllWhite([c] + cs) && AllWhite(cs + [c])
  {
    hide WhiteSpace;
  }

  lemma Utf8AllCons(cs: seq<scalar>, c: scalar)
    ensures Utf8All([c] + cs) == Utf8(c) + Utf8All(cs)
  {
    hide Utf8;
    assert ([c] + cs)[1..] == cs;
  }

  lemma SpaceStartsExactly(s: bytes)
    ensures SpaceAtStart(s) > 0 <==> exists c: scalar :: WhiteSpace(c) && Utf8(c) <= s
    ensures SpaceAtStart(s) > 0 ==> exists c: scalar :: WhiteSpace(c) && Utf8(c) == s[..SpaceAtStart(s)]
  {
    hide Utf8, WhiteSpace, SpaceAtStart;
    var n := SpaceAtStart(s);
    if n > 0 {
      StartSpace(s);
      var c := SpaceCode(s[..n]);
      assert Utf8(c) <= s;
    }
    forall c: scalar | WhiteSpace(c) && Utf8(c) <= s ensures n > 0 {
      SpaceBytes(c);
      SpaceSeenAtStart(s, Utf8(c));
    }
  }

  lemma SpaceEndsExactly(s: bytes)
    ensures SpaceAtEnd(s) > 0 <==>
            exists c: scalar :: WhiteSpace(c) && |Utf8(c)| <= |s| && s[|s| - |Utf8(c)|..] == Utf8(c)
    ensures SpaceAtEnd(s) > 0 ==> exists c: scalar :: WhiteSpace(c) && Utf8(c) == s[|s| - SpaceAtEnd(s)..]
  {
    hide Utf8, WhiteSpace, SpaceAtEnd;
    var n := SpaceAtEnd(s);
    if n > 0 {
      EndSpace(s);
      var c := SpaceCode(s[|s| - n..]);
      assert |Utf8(c)| == n;
    }
    forall c: scalar | WhiteSpace(c) && |Utf8(c)| <= |s| && s[|s| - |Utf8(c)|..] == Utf8(c) ensures n > 0 {
      SpaceBytes(c);
      SpaceSeenAtEnd(s, Utf8(c));
    }
  }

  predicate SpaceShape(u: bytes) {
    || (|u| == 1 && (9 <= u[0] <= 13 || u[0] == 32))
    || (|u| == 2 && u[0] == 0xC2 && (u[1] == 0x85 || u[1] == 0xA0))
    || (|u| == 3 && IsWideSpace(u[0], u[1], u[2]))
  }

  lemma EndSpace(s: bytes)
    requires SpaceAtEnd(s) > 0
    ensures SpaceShape(s[|s| - SpaceAtEnd(s)..])
  {
    hide IsWideSpace;
  }

  lemma SpaceSeenAtEnd(s: bytes, u: bytes)
    requires SpaceShape(u) && |u| <= |s| && s[|s| - |u|..] == u
    ensures SpaceAtEnd(s) > 0
  {
    hide IsWideSpace;
    var k := |s| - |u|;
    assert forall i | 0 <= i < |u| :: s[k + i] == s[k..][i];
  }

  lemma StartSpace(s: bytes)
    requires SpaceAtStart(s) > 0
    ensures SpaceShape(s[..SpaceAtStart(s)])
  {
    hide IsWideSpace;
  }

  lemma SpaceSeenAtStart(s: bytes, u: bytes)
    requires SpaceShape(u) && u <= s
    ensures SpaceAtStart(s) > 0
  {
    hide IsWideSpace;
    assert forall i | 0 <= i < |u| :: s[i] == u[i];
  }

  /** The one, two or three bytes of a space are those of a White_Space character. */
  lemma SpaceCode(u: bytes) returns (c: scalar)
    requires SpaceShape(u)
    ensures WhiteSpace(c) && Utf8(c) == u
  {
    var x := u[0] as int;
    if |u| == 1 {
      c := x;
    } else if |u| == 2 {
      c := u[1];
    } else {
      var (y, z) := (u[1] as int - 0x80, u[2] as int - 0x80);
      c := 64 * (64 * (x - 0xE0) + y) + z;
      Three(x - 0xE0, y, z, c);
    }
  }

  lemma SpaceBytes(c: scalar)
    requires WhiteSpace(c)
    ensures SpaceShape(Utf8(c))
  {
  }

  lemma BlankMore(a: bytes, c: scalar)
    requires Blank(a) && WhiteSpace(c)
    ensures Blank(Utf8(c) + a)
  {
    hide Utf8, WhiteSpace, Utf8All, AllWhite;
    var cs: seq<scalar> :| a == Utf8All(cs) && AllWhite(cs);
    AllWhiteMore(cs, c);
    Utf8AllCons(cs, c);
  }

  lemma {:induction false} Utf8AllSnoc(cs: seq<scalar>, c: scalar)
    ensures Utf8All(cs + [c]) == Utf8All(cs) + Utf8(c)
  {
    hide Utf8;
    if cs == [] {
      assert [] + [c] == [c] && [c][1..] == [];
      assert Utf8All([c]) == Utf8(c) + Utf8All([]);
    } else {
      Utf8AllSnoc(cs[1..], c);
      assert (cs + [c])[1..] == cs[1..] + [c];
    }
  }

  lemma BlankSnoc(a: bytes, c: scalar)
    requires Blank(a) && WhiteSpace(c)
    ensures Blank(a + Utf8(c))
  {
    hide Utf8, WhiteSpace, Utf8All, AllWhite;
    var cs: seq<scalar> :| a == Utf8All(cs) && AllWhite(cs);
    AllWhiteMore(cs, c);
    Utf8AllSnoc(cs, c);
  }

  lemma NothingBlank()
    ensures Blank([])
  {
    assert Utf8All([]) == [] && AllWhite([]);
  }

  lemma {:induction false} TrimEnds(s: bytes)
    ensures SpaceAtStart(Trim(s)) == 0 && SpaceAtEnd(Trim(s)) == 0
  {
    hide SpaceAtStart, SpaceAtEnd;
    if SpaceAtStart(s) > 0 {
      TrimEnds(s[SpaceAtStart(s)..]);
    } else if SpaceAtEnd(s) > 0 {
      TrimEnds(s[..|s| - SpaceAtEnd(s)]);
    }
  }

  lemma StartTaken(s: bytes, t: bytes, x: bytes, y: bytes, n: nat) returns (a: bytes)
    requires n <= |s| && s[n..] == x + t + y && Blank(x)
    requires exists c: scalar :: WhiteSpace(c) && Utf8(c) == s[..n]
    ensures s == a + t + y && Blank(a)
  {
    hide Blank, Utf8, WhiteSpace;
    var c: scalar :| WhiteSpace(c) && Utf8(c) == s[..n];
    BlankMore(x, c);
    a := Utf8(c) + x;
    assert s == s[..n] + s[n..];
  }

  lemma EndTaken(s: bytes, t: bytes, x: bytes, y: bytes, n: nat) returns (b: bytes)
    requires n <= |s| && s[..n] == x + t + y && Blank(y)
    requires exists c: scalar :: WhiteSpace(c) && Utf8(c) == s[n..]
    ensures s == x + t + b && Blank(b)
  {
    hide Blank, Utf8, WhiteSpace;
    var c: scalar :| WhiteSpace(c) && Utf8(c) == s[n..];
    BlankSnoc(y, c);
    b := y + Utf8(c);
    assert s == s[..n] + s[n..];
  }

  lemma {:induction false} TrimSplits(s: bytes) returns (a: bytes, b: bytes)
    ensures s == a + Trim(s) + b && Blank(a) && Blank(b)
  {
    hide Blank, Utf8, WhiteSpace, SpaceAtStart, SpaceAtEnd;
    if SpaceAtStart(s) > 0 {
      var n := SpaceAtStart(s);
      a, b := TrimSplits(s[n..]);
      SpaceStartsExactly(s);
      a := StartTaken(s, Trim(s), a, b, n);
    } else if SpaceAtEnd(s) > 0 {
      var n := |s| - SpaceAtEnd(s);
      a, b := TrimSplits(s[..n]);
      SpaceEndsExactly(s);
      b := EndTaken(s, Trim(s), a, b, n);
    } else {
      NothingBlank();
      a, b := [], [];
      assert s == [] + s + [];
    }
  }

  /** `trim` takes white space off both ends and all of it: the text is blank, the result, blank,
      and the result neither starts nor ends with a white-space character. */
  lemma TrimExactly(s: bytes) returns (a: bytes, b: bytes)
    ensures s == a + Trim(s) + b && Blank(a) && Blank(b)
    ensures forall c: scalar | WhiteSpace(c) :: !(Utf8(c) <= Trim(s))
    ensures forall c: scalar | WhiteSpace(c) ::
              !(|Utf8(c)| <= |Trim(s)| && Trim(s)[|Trim(s)| - |Utf8(c)|..] == Utf8(c))
  {
    hide *;
    a, b := TrimSplits(s);
    TrimEnds(s);
    SpaceStartsExactly(Trim(s));
    SpaceEndsExactly(Trim(s));
  }

  // ---------------------------------------------------------------------------
  // IPv4 literals
  // ---------------------------------------------------------------------------

  /** A number below 256 in decimal, without leading zeros. */
  function Printed(n: byte): bytes {
    if n < 10 then [48 + n] else if n < 100 then [48 + n / 10, 48 + n % 10]
    else [48 + n / 100, 48 + n / 10 % 10, 48 + n % 10]
  }

  lemma DigitsValue(s: bytes)
    requires |s| <= 3 && forall i | 0 <= i < |s| :: IsDigit(s[i])
    ensures |s| == 1 ==> DecimalValue(s) == s[0] as int - 48
    ensures |s| == 2 ==> DecimalValue(s) == 10 * (s[0] as int - 48) + (s[1] as int - 48)
    ensures |s| == 3 ==>
              DecimalValue(s) == 100 * (s[0] as int - 48) + 10 * (s[1] as int - 48) + (s[2] as int - 48)
  {
    assert DecimalValue([]) == 0;
    if |s| >= 1 { assert s[..1][..0] == [] && DecimalValue(s[..1]) == s[0] as int - 48; }
    if |s| >= 2 { assert s[..2][..1] == s[..1]; }
    if |s| == 1 { assert s[..1] == s; }
    if |s| == 2 { assert s[..2] == s; }
  }

  lemma ThreePrint(a: int, b: int, c: int)
    requires 1 <= a <= 9 && 0 <= b <= 9 && 0 <= c <= 9 && 100 * a + 10 * b + c < 256
    ensures Printed(100 * a + 10 * b + c) == [48 + a, 48 + b, 48 + c]
  {
    TwoDigits(a, 10 * b + c);
  }

  lemma TwoPrint(a: int, b: int)
    requires 1 <= a <= 9 && 0 <= b <= 9
    ensures Printed(10 * a + b) == [48 + a, 48 + b]
  {
  }

  lemma OctetPrints(l: bytes)
    requires IsOctet(l)
    ensures 0 <= DecimalValue(l) < 256 && l == Printed(DecimalValue(l))
  {
    DigitsValue(l);
    hide DecimalValue, Printed;
    if |l| == 3 {
      ThreePrint(l[0] as int - 48, l[1] as int - 48, l[2] as int - 48);
    } else if |l| == 2 {
      TwoPrint(l[0] as int - 48, l[1] as int - 48);
    } else {
      OnePrint(l[0] as int - 48);
    }
  }

  lemma OnePrint(a: int)
    requires 0 <= a <= 9
    ensures Printed(a) == [48 + a]
  {
  }

  lemma PrintedIsOctet(n: byte)
    ensures IsOctet(Printed(n)) && DecimalValue(Printed(n)) == n
  {
    PrintedDigits(n);
    DigitsValue(Printed(n));
    hide DecimalValue;
    Tens(n);
  }

  lemma Tens(n: byte)
    ensures n as int == 10 * (n / 10) + n % 10 && n as int == 100 * (n / 100) + 10 * (n / 10 % 10) + n % 10
  {
  }

  /** An octet is the printed form of exactly one number. */
  lemma OctetExactly(l: bytes, n: byte)
    ensures IsOctet(l) && DecimalValue(l) == n <==> l == Printed(n)
  {
    PrintedIsOctet(n);
    if IsOctet(l) { OctetPrints(l); }
    hide IsOctet, DecimalValue, Printed;
  }

  lemma TwoDigits(a: int, b: int)
    requires 0 <= a && 0 <= b < 100
    ensures (100 * a + b) / 100 == a && (100 * a + b) / 10 % 10 == b / 10 && (100 * a + b) % 10 == b % 10
  {
    assert (100 * a + b) / 10 == 10 * a + b / 10;
  }

  lemma PrintedDigits(n: byte)
    ensures 1 <= |Printed(n)| <= 3 && forall i | 0 <= i < |Printed(n)| :: IsDigit(Printed(n)[i])
  {
    assert n / 100 <= 2 && n / 10 % 10 <= 9 && n % 10 <= 9;
  }

  lemma PrintedNoDot(n: byte)
    ensures NoDot(Printed(n))
  {
    PrintedDigits(n);
  }

  function Dotted(a: byte, b: byte, c: byte, d: byte): bytes {
    Join([Printed(a), Printed(b), Printed(c), Printed(d)])
  }

  lemma DottedSplits(a: byte, b: byte, c: byte, d: byte)
    ensures Split(Dotted(a, b, c, d)) == [Printed(a), Printed(b), Printed(c), Printed(d)]
  {
    PrintedNoDot(a); PrintedNoDot(b); PrintedNoDot(c); PrintedNoDot(d);
    hide Printed, Split, Join;
    SplitJoin([Printed(a), Printed(b), Printed(c), Printed(d)]);
  }

  /** A literal is an IPv4 address exactly if it is four numbers printed with dots. */
  lemma Ipv4Exactly(s: bytes)
    ensures IsIpv4(s) <==> exists a: byte, b: byte, c: byte, d: byte :: s == Dotted(a, b, c, d)
  {
    hide Split, Join, IsOctet, Printed;
    if IsIpv4(s) {
      var l := Split(s);
      var (a, b, c, d) := (OctetNumber(l[0]), OctetNumber(l[1]), OctetNumber(l[2]), OctetNumber(l[3]));
      JoinSplit(s);
      assert l == [Printed(a), Printed(b), Printed(c), Printed(d)];
      assert s == Dotted(a, b, c, d);
    }
    forall a: byte, b: byte, c: byte, d: byte | s == Dotted(a, b, c, d) ensures IsIpv4(s) {
      DottedIsIpv4(a, b, c, d);
    }
  }

  function OctetNumber(l: bytes): (n: byte)
    requires IsOctet(l)
    ensures l == Printed(n)
  {
    OctetPrints(l);
    DecimalValue(l)
  }

  lemma DottedIsIpv4(a: byte, b: byte, c: byte, d: byte)
    ensures IsIpv4(Dotted(a, b, c, d))
  {
    DottedSplits(a, b, c, d);
    OctetExactly(Printed(a), a);
    OctetExactly(Printed(b), b);
    OctetExactly(Printed(c), c);
    OctetExactly(Printed(d), d);
    hide Split, Join, IsOctet, Printed;
  }
}
