/** Bypass-list matching of `domain_route.rs`: a string test that means label suffix. */
module Bypass {
  import opened Bytes
  import opened Text

  /** `normalize_domain` */
  function Norm(d: bytes): bytes { Lower(TrimEndDots(d)) }

  /** A list entry without white space and dots around it. */
  function Stripped(raw: bytes): bytes { TrimEndDots(TrimStartDots(Trim(raw))) }

  predicate EndsWith(s: bytes, t: bytes) {
    |t| <= |s| && s[|s| - |t|..] == t
  }

  /** The test of the code: equal, or ending in a dot and the entry. */
  predicate HitsEntry(d: bytes, raw: bytes) {
    var b := Lower(Stripped(raw));
    b != [] && (d == b || EndsWith(d, [DOT] + b))
  }

  predicate Matches(domain: bytes, bypass: seq<bytes>) {
    Norm(domain) != [] && exists i | 0 <= i < |bypass| :: HitsEntry(Norm(domain), bypass[i])
  }

  /** Labels of `a` are the last labels of `b`, up to ASCII case. */
  predicate LabelSuffix(a: seq<bytes>, b: seq<bytes>) {
    |a| <= |b| && forall k | 0 <= k < |a| :: Lower(a[k]) == Lower(b[|b| - |a| + k])
  }

  lemma {:induction false} JoinConcat(p: seq<bytes>, q: seq<bytes>)
    requires p != [] && q != []
    ensures Join(p + q) == Join(p) + [DOT] + Join(q)
  {
    assert (p + q)[0] == p[0] && (p + q)[1..] == p[1..] + q;
    if |p| > 1 {
      JoinConcat(p[1..], q);
      assert p[0] + [DOT] + (Join(p[1..]) + [DOT] + Join(q)) == (p[0] + [DOT] + Join(p[1..])) + [DOT] + Join(q);
    }
  }

  lemma DottedGivesLabels(d: bytes, b: bytes)
    requires EndsWith(d, [DOT] + b)
    ensures SuffixOf(Split(b), Split(d))
  {
    hide Split;
    var p := d[..|d| - |b| - 1];
    assert d == p + [DOT] + b;
    SplitConcat(p, b);
  }

  lemma LabelsGiveDotted(d: bytes, b: bytes)
    requires SuffixOf(Split(b), Split(d))
    ensures d == b || EndsWith(d, [DOT] + b)
  {
    hide Split, Join;
    var n := |Split(d)| - |Split(b)|;
    var p := Split(d)[..n];
    JoinSplit(b);
    JoinSplit(d);
    assert Split(d) == p + Split(b);
    if n > 0 {
      JoinConcat(p, Split(b));
      var j := Join(p);
      assert d == j + ([DOT] + b);
    } else {
      assert p + Split(b) == Split(b);
    }
  }

  lemma LoweredSuffix(a: seq<bytes>, b: seq<bytes>, la: seq<bytes>, lb: seq<bytes>)
    requires |la| == |a| && |lb| == |b|
    requires forall k | 0 <= k < |a| :: la[k] == Lower(a[k])
    requires forall k | 0 <= k < |b| :: lb[k] == Lower(b[k])
    ensures SuffixOf(la, lb) <==> LabelSuffix(a, b)
  {
    hide Lower;
    if |a| <= |b| {
      var t := lb[|lb| - |la|..];
      assert |t| == |la| && forall k | 0 <= k < |a| :: t[k] == Lower(b[|b| - |a| + k]);
      assert LabelSuffix(a, b) <==> forall k | 0 <= k < |a| :: la[k] == t[k];
    }
  }

  /** An entry hits a domain exactly when its labels end the labels of the domain. */
  lemma HitsExactly(domain: bytes, raw: bytes)
    ensures HitsEntry(Norm(domain), raw) <==>
            Stripped(raw) != [] && LabelSuffix(Split(Stripped(raw)), Split(TrimEndDots(domain)))
  {
    hide Stripped, TrimEndDots, Split, EndsWith, LabelSuffix, SuffixOf;
    var (a, b) := (Stripped(raw), TrimEndDots(domain));
    SplitLower(a);
    SplitLower(b);
    LoweredSuffix(Split(a), Split(b), Split(Lower(a)), Split(Lower(b)));
    if SuffixOf(Split(Lower(a)), Split(Lower(b))) { LabelsGiveDotted(Lower(b), Lower(a)); }
    if EndsWith(Lower(b), [DOT] + Lower(a)) { DottedGivesLabels(Lower(b), Lower(a)); }
    if Lower(b) == Lower(a) { SuffixRefl(Split(Lower(a))); }
    assert Lower(a) == [] <==> a == [];
  }

  lemma SuffixRefl(a: seq<bytes>)
    ensures SuffixOf(a, a)
  {
  }

  /** Some non-empty cleaned entry is a label suffix of the name. */
  ghost predicate Bypassed(name: bytes, bypass: seq<bytes>) {
    && TrimEndDots(name) != []
    && exists i | 0 <= i < |bypass| ::
         Stripped(bypass[i]) != [] && LabelSuffix(Split(Stripped(bypass[i])), Split(TrimEndDots(name)))
  }

  lemma MatchesExactly(name: bytes, bypass: seq<bytes>)
    ensures Matches(name, bypass) <==> Bypassed(name, bypass)
  {
    hide Stripped, TrimEndDots, Split, LabelSuffix, HitsEntry;
    forall i | 0 <= i < |bypass|
      ensures HitsEntry(Norm(name), bypass[i]) <==>
              Stripped(bypass[i]) != [] && LabelSuffix(Split(Stripped(bypass[i])), Split(TrimEndDots(name)))
    {
      HitsExactly(name, bypass[i]);
    }
  }

  /** The same labels up to ASCII case, whatever dots follow. */
  ghost predicate SameName(a: bytes, b: bytes) {
    var (x, y) := (Split(TrimEndDots(a)), Split(TrimEndDots(b)));
    |x| == |y| && forall k | 0 <= k < |x| :: Lower(x[k]) == Lower(y[k])
  }

  lemma SameNameExactly(a: bytes, b: bytes)
    ensures Norm(a) == Norm(b) <==> SameName(a, b)
  {
    hide TrimEndDots, Split, Lower;
    var (x, y) := (TrimEndDots(a), TrimEndDots(b));
    SplitLower(x);
    SplitLower(y);
    if SameName(a, b) {
      assert Split(Lower(x)) == Split(Lower(y));
      JoinSplit(Lower(x));
      JoinSplit(Lower(y));
    }
  }

  /** `matches_bypass`: some cleaned non-empty entry is a label suffix of the domain. */
  method MatchesBypass(domain: bytes, bypass: seq<bytes>) returns (hit: bool)
    ensures hit == Matches(domain, bypass)
    ensures hit <==> Bypassed(domain, bypass)
  {
    MatchesExactly(domain, bypass);
    hide Bypassed;
    var d := Lower(TrimEndDots(domain));
    if d == [] { return false; }
    var i := 0;
    while i < |bypass|
      invariant 0 <= i <= |bypass|
      invariant forall k | 0 <= k < i :: !HitsEntry(d, bypass[k])
    {
      var b := Lower(TrimEndDots(TrimStartDots(Trim(bypass[i]))));
      if b != [] && (d == b || EndsWith(d, [DOT] + b)) { return true; }
      i := i + 1;
    }
    return false;
  }
}
