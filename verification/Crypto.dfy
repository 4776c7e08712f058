/** The AEAD envelope of `crypto_layer.rs`: `[nonce 12][decoy_len][decoy][inner]`, encrypted
    after the nonce, followed by a 16-byte tag. */
module Crypto {
  import opened Prelude
  import opened Bytes
  import opened Frame

  /** ChaCha20-Poly1305 under one key: `enc` gives ciphertext and tag. */
  datatype Aead = Aead(enc: (bytes, bytes) -> (bytes, bytes), dec: (bytes, bytes, bytes) -> Option<bytes>)
  {
    /** All that is assumed of the cipher. */
    ghost predicate Lawful() {
      && (forall n, p :: |enc(n, p).0| == |p| && |enc(n, p).1| == 16)
      && (forall n, p :: dec(n, enc(n, p).0, enc(n, p).1) == Some(p))
      && (forall n, c, t :: dec(n, c, t).Some? ==> |dec(n, c, t).value| == |c|)
    }
  }

  // ---------------------------------------------------------------------------
  // Nonces
  // ---------------------------------------------------------------------------

  function Be64(n: u64): bytes {
    Be32(n / 0x1_0000_0000) + Be32(n % 0x1_0000_0000)
  }

  function Nonce(c: u64): bytes {
    [0, 0, 0, 0] + Be64(c)
  }

  lemma NonceShape(c: u64)
    ensures |Nonce(c)| == 12 && Nonce(c)[0] == 0
  {
    Be32RoundTrip(c / 0x1_0000_0000);
    Be32RoundTrip(c % 0x1_0000_0000);
  }

  /** The nonce is the counter as a number of twelve bytes. */
  lemma NonceValue(c: u64)
    ensures Number(Nonce(c)) == c
  {
    hide Number, Be32;
    var (h, l) := (c / 0x1_0000_0000, c % 0x1_0000_0000);
    NumberOfBe32(h);
    NumberOfBe32(l);
    NumberOfFour([0, 0, 0, 0]);
    NumberSplits([0, 0, 0, 0], Be32(h));
    NumberSplits([0, 0, 0, 0] + Be32(h), Be32(l));
    assert Nonce(c) == ([0, 0, 0, 0] + Be32(h)) + Be32(l);
  }

  lemma SameParts(p: bytes, x: bytes, y: bytes, x': bytes, y': bytes)
    requires p + (x + y) == p + (x' + y') && |x| == |x'|
    ensures x == x' && y == y'
  {
    var (u, v) := (p + (x + y), p + (x' + y'));
    assert x == u[|p|..|p| + |x|] && x' == v[|p|..|p| + |x|];
    assert y == u[|p| + |x|..] && y' == v[|p| + |x|..];
  }

  lemma NonceInjective(a: u64, b: u64)
    requires Nonce(a) == Nonce(b)
    ensures a == b
  {
    var (ah, al) := (a / 0x1_0000_0000, a % 0x1_0000_0000);
    var (bh, bl) := (b / 0x1_0000_0000, b % 0x1_0000_0000);
    assert a == ah * 0x1_0000_0000 + al && b == bh * 0x1_0000_0000 + bl;
    Be32Exact(ah); Be32Exact(al); Be32Exact(bh); Be32Exact(bl);
    hide Be32, U32;
    SameParts([0, 0, 0, 0], Be32(ah), Be32(al), Be32(bh), Be32(bl));
  }

  /** `fetch_update`: the counter stops at its maximum instead of wrapping. */
  function Advance(ctr: u64): u64 {
    if ctr == U64_MAX then ctr else ctr + 1
  }

  function Issued(ctr: u64): Option<bytes> {
    if ctr == U64_MAX then None else Some(Nonce(ctr))
  }

  /** The counter before each of a sequence of allocations, by whatever tasks. */
  ghost predicate CounterRun(ctrs: seq<u64>) {
    forall i | 0 <= i < |ctrs| - 1 :: ctrs[i + 1] == Advance(ctrs[i])
  }

  lemma {:induction false} CounterGrows(ctrs: seq<u64>, i: nat, j: nat)
    requires CounterRun(ctrs) && i <= j < |ctrs|
    ensures ctrs[i] <= ctrs[j] && (i < j && ctrs[i] < U64_MAX ==> ctrs[i] < ctrs[j])
    decreases j - i
  {
    if i < j { CounterGrows(ctrs, i, j - 1); }
  }

  /** No nonce is issued twice, and exhaustion is for ever. */
  lemma NoncesNeverRepeat(ctrs: seq<u64>, i: nat, j: nat)
    requires CounterRun(ctrs) && i < j < |ctrs|
    ensures Issued(ctrs[i]).Some? && Issued(ctrs[j]).Some? ==> Issued(ctrs[i]) != Issued(ctrs[j])
    ensures Issued(ctrs[i]).None? ==> Issued(ctrs[j]).None?
  {
    CounterGrows(ctrs, i, j);
    if Issued(ctrs[i]).Some? && Issued(ctrs[i]) == Issued(ctrs[j]) { NonceInjective(ctrs[i], ctrs[j]); }
  }

  // ---------------------------------------------------------------------------
  // Seal and open
  // ---------------------------------------------------------------------------

  function Plain(decoy: bytes, inner: bytes): bytes {
    [|decoy| % 256] + decoy + inner
  }

  function Sealed(a: Aead, nonce: bytes, decoy: bytes, inner: bytes): bytes {
    var (ct, tag) := a.enc(nonce, Plain(decoy, inner));
    nonce + ct + tag
  }

  function Opened(a: Aead, wire: bytes): Option<bytes> {
    if |wire| < 28 then None else
    var end := |wire| - 16;
    match a.dec(wire[..12], wire[12..end], wire[end..])
    case None => None
    case Some(p) =>
      if p == [] || 1 + (p[0] as int) > |p| then None else Some(p[1 + (p[0] as int)..])
  }

  /** Opening undoes sealing, whatever the nonce, the decoy and the inner bytes. */
  lemma OpenUndoesSeal(a: Aead, nonce: bytes, decoy: bytes, inner: bytes)
    requires a.Lawful() && |nonce| == 12 && |decoy| < 256
    ensures Opened(a, Sealed(a, nonce, decoy, inner)) == Some(inner)
  {
    var p := Plain(decoy, inner);
    var (ct, tag) := a.enc(nonce, p);
    var wire := Sealed(a, nonce, decoy, inner);
    assert |ct| == |p| && |tag| == 16;
    var end := |wire| - 16;
    assert wire[..12] == nonce && wire[12..end] == ct && wire[end..] == tag;
    assert a.dec(nonce, ct, tag) == Some(p);
    assert p[1 + |decoy|..] == inner;
  }

  lemma SealedSize(a: Aead, nonce: bytes, decoy: bytes, inner: bytes)
    requires a.Lawful() && |nonce| == 12
    ensures |Sealed(a, nonce, decoy, inner)| == 29 + |decoy| + |inner|
    ensures Sealed(a, nonce, decoy, inner)[..12] == nonce
  {
    var (ct, tag) := a.enc(nonce, Plain(decoy, inner));
    assert |ct| == |Plain(decoy, inner)| && |tag| == 16;
  }

  /** What stands in an envelope: the nonce, and encrypted under it the decoy after its length
      and then the inner bytes; the tag is last. */
  lemma EnvelopeLayout(a: Aead, nonce: bytes, decoy: bytes, inner: bytes)
    requires a.Lawful() && |nonce| == 12 && |decoy| < 256
    ensures var w := Sealed(a, nonce, decoy, inner); var end := |w| - 16;
            && end >= 12 && w[..12] == nonce
            && var p := a.dec(w[..12], w[12..end], w[end..]);
               && p.Some? && |p.value| == 1 + |decoy| + |inner| && p.value[0] == |decoy|
               && p.value[1..1 + |decoy|] == decoy && p.value[1 + |decoy|..] == inner
  {
    var p := Plain(decoy, inner);
    var (ct, tag) := a.enc(nonce, p);
    var w := Sealed(a, nonce, decoy, inner);
    assert |ct| == |p| && |tag| == 16 && a.dec(nonce, ct, tag) == Some(p);
    var end := |w| - 16;
    assert w[..12] == nonce && w[12..end] == ct && w[end..] == tag;
    hide Sealed;
  }

  /** What is opened was authenticated as a whole, and starts after its decoy. */
  lemma OpenedExactly(a: Aead, wire: bytes, inner: bytes)
    ensures Opened(a, wire) == Some(inner) <==>
            && |wire| >= 28
            && var end := |wire| - 16; var p := a.dec(wire[..12], wire[12..end], wire[end..]);
               && p.Some? && p.value != [] && 1 + p.value[0] as int + |inner| == |p.value|
               && p.value[1 + p.value[0] as int..] == inner
  {
  }

  lemma ShortRefused(a: Aead, wire: bytes)
    requires |wire| < 28
    ensures Opened(a, wire).None?
  {
  }

  lemma OpenedMeans(a: Aead, wire: bytes)
    requires |wire| >= 28
    ensures var end := |wire| - 16; var p := a.dec(wire[..12], wire[12..end], wire[end..]);
            Opened(a, wire) ==
            if p.None? || p.value == [] || 1 + p.value[0] as int > |p.value| then None
            else Some(p.value[1 + p.value[0] as int..])
  {
  }

  lemma AfterNonce(nonce: bytes, decoy: bytes, inner: bytes)
    requires |nonce| == 12 && |decoy| < 256
    ensures var out := ((nonce + [|decoy|]) + decoy) + inner; nonce <= out && out[12..] == Plain(decoy, inner)
  {
  }

  /** One direction of a session: the cipher and the nonce counter. */
  class ChaHalf {
    const aead: Aead
    var ctr: u64
    ghost var used: set<bytes>   // nonces issued so far

    /** Every nonce issued came from a counter value already passed. */
    ghost predicate Valid() reads this {
      forall n | n in used :: exists k: u64 | k < ctr :: n == Nonce(k)
    }

    constructor (aead: Aead)
      ensures Valid() && this.aead == aead && ctr == 0 && used == {}
    {
      this.aead := aead;
      ctr, used := 0, {};
    }

    /** A nonce never issued before, or none for ever. */
    method NextNonce() returns (n: Option<bytes>)
      requires Valid()
      modifies this
      ensures Valid() && n == Issued(old(ctr)) && ctr == Advance(old(ctr))
      ensures n.Some? ==> n.value !in old(used) && used == old(used) + {n.value}
      ensures n.None? ==> used == old(used) && ctr == old(ctr)
    {
      if ctr == U64_MAX { return None; }
      n := Some([0, 0, 0, 0] + Be64(ctr));
      ghost var c := ctr;
      assert n.value == Nonce(c);
      hide Nonce;
      if n.value in used {
        var k: u64 :| k < c && n.value == Nonce(k);
        NonceInjective(k, c);
        assert false;
      }
      used := used + {n.value};
      ctr := ctr + 1;
    }

    /** Encrypt `out[12..]` in place and append the tag. */
    method Finish(nonce: bytes, out: bytes) returns (wire: bytes)
      requires |nonce| == 12 && nonce <= out
      ensures wire == nonce + aead.enc(nonce, out[12..]).0 + aead.enc(nonce, out[12..]).1
    {
      var (ct, tag) := aead.enc(nonce, out[12..]);
      wire := out[..12] + ct;
      wire := wire + tag;
    }

    /** `seal`: the inner bytes are copied in. `decoy` is the random decoy, chosen by the caller. */
    method Seal(decoy: bytes, inner: bytes) returns (r: Option<bytes>)
      requires |decoy| < 256
      requires Valid()
      modifies this
      ensures Valid() && ctr == Advance(old(ctr))
      ensures r == match Issued(old(ctr)) case None => None case Some(n) => Some(Sealed(aead, n, decoy, inner))
    {
      var n := NextNonce();
      if n.None? { return None; }
      var nonce := n.value;
      NonceShape(old(ctr));
      hide Nonce, Plain, Valid;
      var out := nonce + [|decoy|];
      out := out + decoy;
      out := out + inner;
      AfterNonce(nonce, decoy, inner);
      var wire := Finish(nonce, out);
      return Some(wire);
    }

    /** `seal_frame`: the prepared frame is appended straight into the buffer. */
    method SealFrame(decoy: bytes, frame: Prepared, pad: bytes) returns (r: Option<bytes>)
      requires |decoy| < 256
      requires frame.len == |Concat(frame.parts)| && frame.padLen == |pad| < 256
      requires Valid()
      modifies this
      ensures Valid() && ctr == Advance(old(ctr))
      ensures r == match Issued(old(ctr))
                   case None => None
                   case Some(n) => Some(Sealed(aead, n, decoy, FrameBytes(pad, Concat(frame.parts))))
    {
      var n := NextNonce();
      if n.None? { return None; }
      var nonce := n.value;
      NonceShape(old(ctr));
      hide Nonce, FrameBytes, Plain, Valid;
      var out := nonce + [|decoy|];
      out := out + decoy;
      out := AppendTo(out, frame, pad);
      AfterNonce(nonce, decoy, FrameBytes(pad, Concat(frame.parts)));
      var wire := Finish(nonce, out);
      return Some(wire);
    }

    /** Copy, pad, then seal: `write_padded_frame_with_mode_state` followed by `seal`. */
    method PadThenSeal(decoy: bytes, payload: bytes, padLen: nat, pad: bytes) returns (r: Option<bytes>)
      requires |decoy| < 256 && padLen == |pad| < 256
      requires Valid()
      modifies this
      ensures Valid() && ctr == Advance(old(ctr))
      ensures r == match Issued(old(ctr))
                   case None => None
                   case Some(n) => Some(Sealed(aead, n, decoy, FrameBytes(pad, payload)))
    {
      assert Concat([payload]) == payload + Concat([]) == payload;
      var buf := AppendTo([], Prepared([payload], |payload|, padLen), pad);
      assert buf == FrameBytes(pad, payload);
      hide FrameBytes;
      r := Seal(decoy, buf);
    }

    /** Decrypt in place; the payload is the returned range of the same buffer. */
    method OpenRange(wire: array<byte>) returns (range: Option<(nat, nat)>)
      requires aead.Lawful()
      modifies wire
      ensures range.None? <==> Opened(aead, old(wire[..])).None?
      ensures range.Some? ==>
                && range.value.0 <= range.value.1 <= wire.Length
                && Some(wire[range.value.0..range.value.1]) == Opened(aead, old(wire[..]))
    {
      hide Opened;
      ghost var sent := wire[..];
      if wire.Length < 28 {
        ShortRefused(aead, sent);
        return None;
      }
      var end := wire.Length - 16;
      var p := aead.dec(wire[..12], wire[12..end], wire[end..]);
      assert sent[..12] == wire[..12] && sent[12..end] == wire[12..end] && sent[end..] == wire[end..];
      OpenedMeans(aead, sent);
      if p.None? { return None; }
      WriteBack(wire, p.value);
      if end == 12 { return None; }
      var start: nat := 13 + (wire[12] as int);
      if start > end { return None; }
      assert wire[start..end] == wire[12..end][start - 12..];
      return Some((start, end));
    }

    /** The plaintext takes the place of the ciphertext. */
    method WriteBack(wire: array<byte>, plain: bytes)
      requires wire.Length == 28 + |plain|
      modifies wire
      ensures wire[12..12 + |plain|] == plain && (plain != [] ==> wire[12] == plain[0])
    {
      forall i | 12 <= i < 12 + |plain| { wire[i] := plain[i - 12]; }
    }

    /** `open` copies the buffer and moves the payload to its front. */
    method Open(wire: bytes) returns (r: Option<bytes>)
      requires aead.Lawful()
      ensures r == Opened(aead, wire)
    {
      var out := new byte[|wire|](i requires 0 <= i < |wire| => wire[i]);
      assert out[..] == wire;
      var range := OpenRange(out);
      if range.None? { return None; }
      var (start, end) := range.value;
      var kept := out[..end];
      return Some(kept[start..]);
    }

    /** `open_owned` slices the buffer it was given. */
    method OpenOwned(wire: array<byte>) returns (r: Option<bytes>)
      requires aead.Lawful()
      modifies wire
      ensures r == Opened(aead, old(wire[..]))
    {
      var range := OpenRange(wire);
      if range.None? { return None; }
      var (start, end) := range.value;
      return Some(wire[start..end]);
    }
  }
}
