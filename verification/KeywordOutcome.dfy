/** What a run of the filter amounts to, and the keywords for which every run masks exactly what is covered. */
module KeywordOutcome {
  import opened Bytes
  import opened Keywords
  import opened KeywordTrie
  import opened KeywordLinks
  import opened KeywordStream

  /** The positions of `cov` are marked exactly where a keyword covers them; behind them exactly `mi` are covered. */
  ghost predicate Masks(kws: set<seq<Byte>>, input: seq<Byte>, cov: seq<bool>, mi: nat) {
    && |cov| + mi <= |input| && cov == Coverage(kws, input)[..|cov|]
    && forall k :: |cov| <= k < |input| ==> (Covered(kws, input, k) <==> k < |cov| + mi)
  }

  /** The last position of the input is masked, or due to be masked. */
  predicate EndsDue(input: seq<Byte>, cov: seq<bool>, mi: nat)
    requires input != []
  {
    if |cov| == |input| then cov[|input|-1] else |cov| + mi == |input|
  }

  /** The last position of the input is covered, but neither masked nor due to be masked. */
  ghost predicate Misses(kws: set<seq<Byte>>, input: seq<Byte>, cov: seq<bool>, mi: nat) {
    input != [] && Covered(kws, input, |input| - 1) && !EndsDue(input, cov, mi)
  }

  /**
   A beginning `w` of a keyword at the end of the input is all that is held back, or starts inside the
   stretch due to be masked; the end is due to be masked exactly if `w` is a keyword.
   */
  ghost predicate HoldsBack(kws: set<seq<Byte>>, input: seq<Byte>, cov: seq<bool>, mi: nat, w: seq<Byte>) {
    && (w == [] || IsPrefixOfSome(w, kws)) && IsSuffix(w, input) && (IsPrefixOfSome(input, kws) ==> w == input)
    && (if mi == 0 then |cov| + |w| == |input| else |input| < |cov| + mi + |w|)
    && (input != [] ==> (EndsDue(input, cov, mi) <==> w != [] && w in kws))
  }

  lemma StandsHoldsBack(t: Tables, mask: seq<Byte>, input: seq<Byte>, u: nat, r: Run, cov: seq<bool>)
    requires Ready(t) && Standing(t, mask, input, u, r, cov)
    ensures HoldsBack(t.kws, input, cov, r.mi, t.names[u])
  {
    var w := t.names[u];
    assert w in t.names && StateName(t.names, t.kws, w) && StateName(t.names, t.kws, input);
    SuffixTrans(w, r.buf, input);
    if input != [] { assert EndsDue(input, cov, r.mi) <==> Marked(r, cov, |input| - 1); }
  }

  lemma Outcome(t: Tables, mask: seq<Byte>, input: seq<Byte>, u: nat, r: Run, cov: seq<bool>)
    requires Ready(t) && Standing(t, mask, input, u, r, cov)
    ensures |cov| + r.mi <= |input| && r.out == Render(mask, input[..|cov|], cov)
    ensures forall k :: 0 <= k < |cov| && cov[k] ==> Covered(t.kws, input, k)
    ensures forall k :: |cov| <= k < |cov| + r.mi ==> Covered(t.kws, input, k)
    ensures exists w :: HoldsBack(t.kws, input, cov, r.mi, w)
    ensures Exactly(t) ==> Masks(t.kws, input, cov, r.mi)
    ensures HidesKeyword(t.kws, input) || (NoInner(t.kws) && Drops(t.kws, t.bytes, input)) ==>
      Misses(t.kws, input, cov, r.mi)
  {
    StandsHoldsBack(t, mask, input, u, r, cov);
    forall k: nat | k < |input| && Marked(r, cov, k) ensures Covered(t.kws, input, k) {
    }
    forall k | 0 <= k < |cov| && cov[k] ensures Covered(t.kws, input, k) { assert Marked(r, cov, k); }
    forall k | |cov| <= k < |cov| + r.mi ensures Covered(t.kws, input, k) { assert Marked(r, cov, k); }
    if Exactly(t) { StandsExactly(t, mask, input, u, r, cov); }
    if HidesKeyword(t.kws, input) { MissesHidden(t, mask, input, u, r, cov); }
    if NoInner(t.kws) && Drops(t.kws, t.bytes, input) { MissesDropped(t, mask, input, u, r, cov); }
  }

  /** A keyword at the end of the beginning of another is missed. */
  lemma MissesHidden(t: Tables, mask: seq<Byte>, input: seq<Byte>, u: nat, r: Run, cov: seq<bool>)
    requires Ready(t) && Standing(t, mask, input, u, r, cov) && HidesKeyword(t.kws, input)
    ensures Misses(t.kws, input, cov, r.mi)
  {
    assert StateName(t.names, t.kws, input);
    var kw :| kw in t.kws && kw != [] && IsSuffix(kw, input);
    SuffixCovers(t.kws, input, kw, |input| - 1);
  }

  // ----- forks, in the keywords and in the states

  /** At the states or in the keywords, it is the same that the landings decline. */
  lemma DeclinesIff(t: Tables)
    requires TrieOk(t.cm, t.tm, t.am, t.bytes, t.names, t.kws, true)
    ensures Declines(t.names, t.tm) <==> Declining(t.kws, t.bytes)
  {
    if Declines(t.names, t.tm) {
      forall w, c: nat, d: nat | ForksAt(t.kws, t.bytes, w, c, d) ensures LandsLower(t.kws, w, t.bytes[c], t.bytes[d]) {
        var r := StateOf(t, w, t.bytes[c]);
        ForkIff(t, r, c, d);
        NearerIff(t, r, c, d);
      }
    }
    if Declining(t.kws, t.bytes) {
      forall r: nat, c: nat, d: nat | IsFork(t.tm, r, c, d) ensures Nearer(t.names, t.tm, r, c, d) {
        ForkIff(t, r, c, d);
        NearerIff(t, r, c, d);
      }
    }
  }

  /** The state of a beginning of a keyword that goes on. */
  lemma StateOf(t: Tables, w: seq<Byte>, b: Byte) returns (s: nat)
    requires TrieOk(t.cm, t.tm, t.am, t.bytes, t.names, t.kws, true) && IsPrefixOfSome(w + [b], t.kws)
    ensures s < |t.names| && t.names[s] == w && (w != [] ==> s > 0)
  {
    PrefixShorter(w, w + [b], t.kws);
    assert StateName(t.names, t.kws, w);
    s :| 0 <= s < |t.names| && t.names[s] == w;
  }

  /** A state has a child for a byte if keywords go on with it. */
  lemma GoesOnIff(t: Tables, s: nat, c: nat)
    requires TrieOk(t.cm, t.tm, t.am, t.bytes, t.names, t.kws, true) && 0 < s < |t.names| && c < |t.bytes|
    ensures |t.tm| == |t.names| && |t.tm[s]| == |t.bytes|
    ensures t.tm[s][c] != -1 <==> IsPrefixOfSome(t.names[s] + [t.bytes[c]], t.kws)
  {
    assert EdgeOk(t.tm[s][c], s, t.names, t.names[s] + [t.bytes[c]], true);
    assert StateName(t.names, t.kws, t.names[s] + [t.bytes[c]]);
  }

  lemma ForkIff(t: Tables, r: nat, c: nat, d: nat)
    requires TrieOk(t.cm, t.tm, t.am, t.bytes, t.names, t.kws, true) && r < |t.names|
    ensures r > 0 ==> (IsFork(t.tm, r, c, d) <==> ForksAt(t.kws, t.bytes, t.names[r], c, d))
    ensures IsFork(t.tm, r, c, d) ==> d < |t.bytes|
  {
    if r > 0 {
      assert HasParent(t.names, r);
      if c < d < |t.bytes| {
        GoesOnIff(t, r, c);
        GoesOnIff(t, r, d);
      }
    }
  }

  lemma LandsIff(t: Tables, r: nat, c: nat, u: nat)
    requires TrieOk(t.cm, t.tm, t.am, t.bytes, t.names, t.kws, true) && r < |t.names| && c < |t.bytes|
    requires 0 < u < |t.names|
    ensures Lands(t.names, t.tm, r, c, u) <==> LandsAt(t.kws, t.names[r], t.bytes[c], t.names[u])
  {
    GoesOnIff(t, u, c);
  }

  lemma NearerIff(t: Tables, r: nat, c: nat, d: nat)
    requires TrieOk(t.cm, t.tm, t.am, t.bytes, t.names, t.kws, true) && r < |t.names| && c < |t.bytes| && d < |t.bytes|
    ensures Nearer(t.names, t.tm, r, c, d) <==> LandsLower(t.kws, t.names[r], t.bytes[c], t.bytes[d])
  {
    var w, b, e := t.names[r], t.bytes[c], t.bytes[d];
    if Nearer(t.names, t.tm, r, c, d) {
      forall y | LandsAt(t.kws, w, e, y) && y != [] ensures !NoLongerLanding(t.kws, w, b, y) {
        var u := StateOf(t, y, e);
        LandsIff(t, r, d, u);
        var z: nat :| Lands(t.names, t.tm, r, c, z) && |t.names[z]| > |t.names[u]|;
        LandsIff(t, r, c, z);
      }
    }
    if LandsLower(t.kws, w, b, e) {
      forall u: nat | Lands(t.names, t.tm, r, d, u)
        ensures exists z: nat :: Lands(t.names, t.tm, r, c, z) && |t.names[z]| > |t.names[u]|
      {
        LandsIff(t, r, d, u);
        assert HasParent(t.names, u) && !NoLongerLanding(t.kws, w, b, t.names[u]);
        var y :| LandsAt(t.kws, w, b, y) && |y| > |t.names[u]|;
        var z := StateOf(t, y, b);
        LandsIff(t, r, c, z);
      }
    }
  }

  // ----- links that are too short

  /**
   At a fork where the landings do not decline, the link of the later child is no longer than the
   landing for the earlier one.
   */
  lemma LinkTooShort(t: Tables, w: seq<Byte>, c: nat, d: nat, y: seq<Byte>, s: nat)
    requires Ready(t) && ForksAt(t.kws, t.bytes, w, c, d) && y != [] && NoLongerLanding(t.kws, w, t.bytes[c], y)
    requires s < |t.names| && t.names[s] == w + [t.bytes[d]]
    ensures LinkLength(t.names, t.fm, s) <= |y|
  {
    var r := StateOf(t, w, t.bytes[d]);
    ForkIff(t, r, c, d);
    var a := t.tm[r][c];
    assert EdgeOk(a, r, t.names, w + [t.bytes[c]], true) && EdgeOk(t.tm[r][d], r, t.names, w + [t.bytes[d]], true);
    SameState(t.names, t.tm[r][d], s);
    assert Falls(t.names, t.tm, t.fm, r, |t.tm[r]|) && LinksLower(t.names, t.fm, a, s);
    LinkLands(t, r, w, c, a);
    if t.fm[a] > 0 {
      var z := ParentOf(t.names, t.fm[a], w, t.bytes[c]);
      assert LandsAt(t.kws, w, t.bytes[c], t.names[z]);
    }
  }

  /** What the link of a child of `r` is, and that its name begins a keyword. */
  lemma LinkLands(t: Tables, r: nat, w: seq<Byte>, c: nat, a: nat)
    requires Ready(t) && 0 < r < |t.names| && c < |t.bytes| && t.names[r] == w && 0 < a < |t.names|
    requires t.names[a] == w + [t.bytes[c]]
    ensures 0 <= t.fm[a] < |t.names| && |t.names[t.fm[a]]| <= |w| && IsSuffix(t.names[t.fm[a]], w + [t.bytes[c]])
    ensures t.fm[a] > 0 ==> IsPrefixOfSome(t.names[t.fm[a]], t.kws)
    ensures t.fm[a] == 0 ==> LinkLength(t.names, t.fm, a) == 0
  {
    assert LinkOk(t.names, a, t.fm[a]);
    assert StateName(t.names, t.kws, t.names[t.fm[a]]);
    if t.fm[a] > 0 { assert HasParent(t.names, t.fm[a]) && t.names[t.fm[a]] in t.names; }
  }

  /** A keyword that the link skips is missed. */
  lemma MissesDropped(t: Tables, mask: seq<Byte>, input: seq<Byte>, u: nat, r: Run, cov: seq<bool>)
    requires Ready(t) && Standing(t, mask, input, u, r, cov) && NoInner(t.kws) && Drops(t.kws, t.bytes, input)
    ensures Misses(t.kws, input, cov, r.mi)
  {
    var w, c: nat, d: nat, y, rest :| DropsAt(t.kws, t.bytes, w, c, d, y, rest) && input == w + [t.bytes[d]] + rest;
    var b := t.bytes[d];
    var s := StateAt(t, w + [b]);
    LinkTooShort(t, w, c, d, y, s);
    SuffixAppend(y, w, b);
    SuffixOn(y + [b], w + [b], rest);
    MissesSkipped(t, mask, input, u, r, cov, s, y + [b] + rest);
  }

  lemma MissesSkipped(t: Tables, mask: seq<Byte>, input: seq<Byte>, u: nat, r: Run, cov: seq<bool>, s: nat,
                      kw: seq<Byte>)
    requires Ready(t) && Standing(t, mask, input, u, r, cov) && NoInner(t.kws)
    requires kw in t.kws && kw != [] && |kw| < |input| && IsSuffix(kw, input)
    requires BeginsWith(t, input, s) && |input| + LinkLength(t.names, t.fm, s) < |kw| + |t.names[s]|
    ensures Misses(t.kws, input, cov, r.mi)
  {
    SuffixCovers(t.kws, input, kw, |input| - 1);
    if Marked(r, cov, |input| - 1) {
      assert EndsMarked(t, input, u, r, cov);
      SuffixTrans(t.names[u], r.buf, input);
      NotAlsoKeyword(t.kws, input, kw, t.names[u]);
      assert false;
    }
  }

  /** Where no keyword is inside another, neither the whole text nor a shorter end of it can be a keyword too. */
  lemma NotAlsoKeyword(kws: set<seq<Byte>>, input: seq<Byte>, kw: seq<Byte>, v: seq<Byte>)
    requires NoInner(kws) && kw in kws && kw != [] && IsSuffix(kw, input) && |kw| < |input|
    requires v in kws && IsSuffix(v, input) && (v == input || |v| < |kw|)
    ensures v == []
  {
    if v == input {
      SuffixOccurs(kw, input, input);
    } else {
      SuffixOfSuffix(v, kw, input);
      SuffixOccurs(v, kw, kw);
    }
  }

  lemma StateAt(t: Tables, v: seq<Byte>) returns (s: nat)
    requires Ready(t) && IsPrefixOfSome(v, t.kws)
    ensures s < |t.names| && t.names[s] == v
  {
    assert StateName(t.names, t.kws, v);
    s :| 0 <= s < |t.names| && t.names[s] == v;
  }

  // ----- the masking is exact

  /** The loop gets through every text. */
  lemma {:induction false} RunsThrough(t: Tables, mask: seq<Byte>, T: seq<Byte>)
    returns (u: nat, r: Run, cov: seq<bool>)
    requires Ready(t)
    ensures Standing(t, mask, T, u, r, cov)
    decreases |T|
  {
    if T == [] {
      StandsAtStart(t, mask);
      u, r, cov := 0, Run([], 0, [], false), [];
    } else {
      var k := |T| - 1;
      u, r, cov := RunsThrough(t, mask, T[..k]);
      StartsMoving(t, mask, T[..k], T[k], u, r, cov);
      assert T[..k] + [T[k]] == T;
      u, r, cov := GetsThrough(t, mask, T[..k], T[k], u, r, cov);
    }
  }

  lemma {:induction false} GetsThrough(t: Tables, mask: seq<Byte>, T: seq<Byte>, c: Byte, u: nat, r: Run,
                                       cov: seq<bool>)
    returns (u': nat, r': Run, cov': seq<bool>)
    requires Ready(t) && Moving(t, mask, T, c, u, r, cov)
    ensures Standing(t, mask, T + [c], u', r', cov')
    decreases |t.names[u]|
  {
    if t.names[u] + [c] in t.names {
      u' :| 0 <= u' < |t.names| && t.names[u'] == t.names[u] + [c];
      MovesKept(t, mask, T, c, u, r, cov, u');
      r', cov' := Kept(t, r, u', c), cov;
    } else if u == 0 {
      MovesRaw(t, mask, T, c, r, cov);
      u', r', cov' := 0, r.(out := r.out + [c], flag := false), cov + [false];
    } else {
      FallsBack(t, mask, T, c, u, r, cov);
      var f := t.fm[u];
      u', r', cov' := GetsThrough(t, mask, T, c, f, FellBack(t, mask, r, f), CovBack(t, r, cov, f));
    }
  }

  /**
   Where no keyword is inside another, every input is masked exactly where keywords cover it if
   and only if the landings decline at every fork.
   */
  lemma ExactIff(t: Tables, mask: seq<Byte>)
    requires Ready(t) && (LongestLinks(t.names, t.fm) <==> Declining(t.kws, t.bytes)) && NoInner(t.kws)
    ensures Declining(t.kws, t.bytes) <==>
      forall input, u, r, cov :: Standing(t, mask, input, u, r, cov) ==> Masks(t.kws, input, cov, r.mi)
  {
    NoInnerIsSuffixClosed(t.kws);
    if Declining(t.kws, t.bytes) {
      forall input, u, r, cov | Standing(t, mask, input, u, r, cov) ensures Masks(t.kws, input, cov, r.mi) {
        Outcome(t, mask, input, u, r, cov);
      }
    } else {
      var input := Dropped(t.kws, t.bytes);
      var u, r, cov := RunsThrough(t, mask, input);
      MissesDropped(t, mask, input, u, r, cov);
      MissesIsNotMasks(t, mask, input, u, r, cov);
    }
  }

  /** Where all links are longest, the same holds if and only if no beginning of a keyword hides another one. */
  lemma ExactIffClosed(t: Tables, mask: seq<Byte>)
    requires Ready(t) && LongestLinks(t.names, t.fm)
    ensures SuffixClosed(t.kws) <==>
      forall input, u, r, cov :: Standing(t, mask, input, u, r, cov) ==> Masks(t.kws, input, cov, r.mi)
  {
    if SuffixClosed(t.kws) {
      forall input, u, r, cov | Standing(t, mask, input, u, r, cov) ensures Masks(t.kws, input, cov, r.mi) {
        Outcome(t, mask, input, u, r, cov);
      }
    } else {
      var input :| HidesKeyword(t.kws, input);
      var u, r, cov := RunsThrough(t, mask, input);
      MissesHidden(t, mask, input, u, r, cov);
      MissesIsNotMasks(t, mask, input, u, r, cov);
    }
  }

  lemma MissesIsNotMasks(t: Tables, mask: seq<Byte>, input: seq<Byte>, u: nat, r: Run, cov: seq<bool>)
    requires Standing(t, mask, input, u, r, cov) && Misses(t.kws, input, cov, r.mi)
    ensures !Masks(t.kws, input, cov, r.mi)
  {
  }
}
