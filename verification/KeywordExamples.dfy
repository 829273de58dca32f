/** Concrete keyword sets: one that the filter fails on, and the one of the filter's own documentation. */
module KeywordExamples {
  import opened Bytes
  import opened Keywords
  import opened KeywordTrie
  import opened KeywordLinks
  import opened KeywordStream
  import opened KeywordOutcome
  import opened KeywordFilter

  /** What a filter made of the keywords, and after it the loop over the input, can come to. */
  ghost predicate IsRun(keywords: seq<seq<Byte>>, t: Tables, mask: seq<Byte>, input: seq<Byte>, u: nat, r: Run,
                        cov: seq<bool>) {
    && Ready(t) && t.kws == KeywordSet(keywords) && t.bytes == Numbering(keywords)
    && (LongestLinks(t.names, t.fm) <==> Declining(t.kws, t.bytes)) && Standing(t, mask, input, u, r, cov)
  }

  const A: Byte := 97
  const B: Byte := 98
  const C: Byte := 99
  const D: Byte := 100
  const E: Byte := 101
  const F: Byte := 102

  /** "abc", "abde" and "bdf". */
  const FORKED: seq<seq<Byte>> := [[A, B, C], [A, B, D, E], [B, D, F]]

  lemma ForkedNumbering()
    ensures Numbering(FORKED) == [A, B, C, D, E, F]
  {
    FirstWord();
    SecondWord();
    ThirdWord();
    assert FORKED[1..] == [[A, B, D, E], [B, D, F]] && FORKED[1..][1..] == [[B, D, F]] && FORKED[1..][1..][1..] == [];
    assert Numbering(FORKED) == NumberedAll([A, B, C], FORKED[1..]);
    assert NumberedAll([A, B, C], FORKED[1..]) == NumberedAll([A, B, C, D, E], FORKED[1..][1..]);
  }

  lemma FirstWord()
    ensures Numbered([], [A, B, C]) == [A, B, C]
  {
    Next([], [A], [A, B, C], [B, C]);
    Next([A], [A, B], [B, C], [C]);
    Next([A, B], [A, B, C], [C], []);
  }

  lemma SecondWord()
    ensures Numbered([A, B, C], [A, B, D, E]) == [A, B, C, D, E]
  {
    Next([A, B, C], [A, B, C], [A, B, D, E], [B, D, E]);
    Next([A, B, C], [A, B, C], [B, D, E], [D, E]);
    Next([A, B, C], [A, B, C, D], [D, E], [E]);
    Next([A, B, C, D], [A, B, C, D, E], [E], []);
  }

  lemma ThirdWord()
    ensures Numbered([A, B, C, D, E], [B, D, F]) == [A, B, C, D, E, F]
  {
    Next([A, B, C, D, E], [A, B, C, D, E], [B, D, F], [D, F]);
    Next([A, B, C, D, E], [A, B, C, D, E], [D, F], [F]);
    Next([A, B, C, D, E], [A, B, C, D, E, F], [F], []);
  }

  lemma Next(bytes: seq<Byte>, more: seq<Byte>, kw: seq<Byte>, rest: seq<Byte>)
    requires kw != [] && kw[1..] == rest && more == if kw[0] in bytes then bytes else bytes + [kw[0]]
    ensures Numbered(bytes, kw) == Numbered(more, rest)
  {
  }

  /**
   No keyword is inside another, and the filter is made, but every run lets through the end of "abdf",
   which ends with "bdf": behind "ab" the child for 'c' takes the search to the root, and that for 'd'
   starts there.
   */
  lemma ForkDropsKeyword()
    ensures Enterable(FORKED) && NoInner(KeywordSet(FORKED))
    ensures Drops(KeywordSet(FORKED), Numbering(FORKED), [A, B, D, F])
    ensures !Declining(KeywordSet(FORKED), Numbering(FORKED))
    ensures forall t, mask, u, r, cov :: IsRun(FORKED, t, mask, [A, B, D, F], u, r, cov) ==>
      Misses(KeywordSet(FORKED), [A, B, D, F], cov, r.mi)
  {
    var kws, bytes := KeywordSet(FORKED), Numbering(FORKED);
    ForkedNumbering();
    ForkedSet();
    ForkedEnters();
    assert [A, B] + [C] == [A, B, C] && [A, B] + [D] <= [A, B, D, E] && [B] + [D] <= [B, D, F];
    assert IsPrefixOfSome([A, B] + [C], kws) && IsPrefixOfSome([A, B] + [D], kws) && IsPrefixOfSome([B] + [D], kws);
    assert ForksAt(kws, bytes, [A, B], 2, 3) && LandsAt(kws, [A, B], D, [B]);
    assert [B] + [D] + [F] == [B, D, F] && [A, B] + [D] + [F] == [A, B, D, F];
    assert DropsAt(kws, bytes, [A, B], 2, 3, [B], [F]);
    DropsNotDeclining(kws, bytes, [A, B, D, F]);
    forall t, mask, u, r, cov | IsRun(FORKED, t, mask, [A, B, D, F], u, r, cov)
      ensures Misses(kws, [A, B, D, F], cov, r.mi)
    {
      MissesDropped(t, mask, [A, B, D, F], u, r, cov);
    }
  }

  lemma ForkedEnters()
    ensures Enterable(FORKED)
  {
    assert FORKED[0] != [];
    assert FORKED[0] == [A, B, C] && FORKED[1] == [A, B, D, E] && FORKED[2] == [B, D, F];
    assert [A, B, D, E][2] != [A, B, C][2] && [B, D, F][0] != [A, B, C][0] == [A, B, D, E][0];
    forall i, j | 0 <= i < j < |FORKED| && FORKED[j] != [] ensures !(FORKED[j] <= FORKED[i]) {
      assert j == 1 || j == 2;
    }
  }

  lemma ForkedSet()
    ensures KeywordSet(FORKED) == {[A, B, C], [A, B, D, E], [B, D, F]} && NoInner(KeywordSet(FORKED))
  {
    var kws := KeywordSet(FORKED);
    assert FORKED[0] in FORKED && FORKED[1] in FORKED && FORKED[2] in FORKED;
    forall kw, other, j: nat | kw in kws && other in kws && OccursAt(kw, other, j) ensures j == 0 {
      Occurs(kw, other, j, 0);
      Occurs(kw, other, j, 2);
    }
  }

  lemma Occurs(kw: seq<Byte>, other: seq<Byte>, j: nat, k: nat)
    requires OccursAt(kw, other, j) && k < |kw|
    ensures kw[k] == other[j+k]
  {
    assert other[j..j+|kw|][k] == other[j+k];
  }

  /** "abcd" and "bc". */
  const INNER: seq<seq<Byte>> := [[A, B, C, D], [B, C]]

  /** The second is hidden in the first: every run lets it through at the end of the input "abc". */
  lemma InnerKeywordHidden()
    ensures Enterable(INNER) && HidesKeyword(KeywordSet(INNER), [A, B, C]) && !SuffixClosed(KeywordSet(INNER))
    ensures forall t, mask, u, r, cov :: IsRun(INNER, t, mask, [A, B, C], u, r, cov) ==>
      Misses(KeywordSet(INNER), [A, B, C], cov, r.mi)
  {
    var kws := KeywordSet(INNER);
    InnerSet(kws);
    assert [A, B, C] <= [A, B, C, D];
    assert IsSuffix([B, C], [A, B, C]);
    assert HidesKeyword(kws, [A, B, C]);
    assert !SuffixClosed(kws);
    forall t, mask, u, r, cov | IsRun(INNER, t, mask, [A, B, C], u, r, cov)
      ensures Misses(kws, [A, B, C], cov, r.mi)
    {
      MissesHidden(t, mask, [A, B, C], u, r, cov);
    }
  }

  lemma InnerSet(kws: set<seq<Byte>>)
    requires kws == KeywordSet(INNER)
    ensures Enterable(INNER) && [A, B, C, D] in kws && [B, C] in kws && [A, B, C] !in kws
  {
    assert INNER[0] == [A, B, C, D] && INNER[1] == [B, C] && INNER[0] in INNER && INNER[1] in INNER;
    assert [B, C][0] != [A, B, C, D][0];
    assert |[A, B, C]| == 3;
  }

  /** "hello", "world", "who", "are" and "you". */
  const DOCUMENTED: seq<seq<Byte>> :=
    [[104, 101, 108, 108, 111], [119, 111, 114, 108, 100], [119, 104, 111], [97, 114, 101], [121, 111, 117]]

  lemma Documented(v: seq<Byte>)
    requires v in KeywordSet(DOCUMENTED)
    ensures v == DOCUMENTED[0] || v == DOCUMENTED[1] || v == DOCUMENTED[2] || v == DOCUMENTED[3] || v == DOCUMENTED[4]
  {
  }

  /** The keywords fork, */
  lemma DocumentedForks(keywords: seq<seq<Byte>>)
    requires keywords == DOCUMENTED
    ensures exists w, c: nat, d: nat :: ForksAt(KeywordSet(keywords), Numbering(keywords), w, c, d)
  {
    DocumentedFork(keywords, Numbering(keywords));
  }

  /** but behind a single byte only, and so every run masks its input exactly as it should. */
  lemma DocumentedDeclines(keywords: seq<seq<Byte>>)
    requires keywords == DOCUMENTED
    ensures Declining(KeywordSet(keywords), Numbering(keywords)) && NoInner(KeywordSet(keywords))
    ensures forall t, mask, input, u, r, cov :: IsRun(keywords, t, mask, input, u, r, cov) ==>
      Masks(KeywordSet(keywords), input, cov, r.mi)
  {
    DocumentedAgree(KeywordSet(keywords));
    DocumentedApart(KeywordSet(keywords));
    EarlyForks(keywords);
  }

  lemma EarlyForks(keywords: seq<seq<Byte>>)
    requires NoLateFork(KeywordSet(keywords)) && NoInner(KeywordSet(keywords))
    ensures Declining(KeywordSet(keywords), Numbering(keywords))
    ensures forall t, mask, input, u, r, cov :: IsRun(keywords, t, mask, input, u, r, cov) ==>
      Masks(KeywordSet(keywords), input, cov, r.mi)
  {
    NoLateForkKeywords(keywords);
    DecliningMasks(keywords);
  }

  lemma DecliningMasks(keywords: seq<seq<Byte>>)
    requires Declining(KeywordSet(keywords), Numbering(keywords)) && NoInner(KeywordSet(keywords))
    ensures forall t, mask, input, u, r, cov :: IsRun(keywords, t, mask, input, u, r, cov) ==>
      Masks(KeywordSet(keywords), input, cov, r.mi)
  {
    forall t, mask, input, u, r, cov | IsRun(keywords, t, mask, input, u, r, cov)
      ensures Masks(t.kws, input, cov, r.mi)
    {
      ExactIff(t, mask);
    }
  }

  /** "world" and "who" fork behind the first byte. */
  lemma DocumentedFork(keywords: seq<seq<Byte>>, bytes: seq<Byte>)
    requires |keywords| == 5 && keywords[0] == [104, 101, 108, 108, 111]
    requires keywords[1] == [119, 111, 114, 108, 100] && keywords[2] == [119, 104, 111]
    requires bytes == Numbering(keywords)
    ensures exists w, c: nat, d: nat :: ForksAt(KeywordSet(keywords), bytes, w, c, d)
  {
    DocumentedFirst(104, 101, 108, 111);
    MoreNumbered([104, 101, 108, 111], keywords[1..]);
    assert bytes[0] == [104, 101, 108, 111][0] && bytes[3] == [104, 101, 108, 111][3];
    assert keywords[1] in keywords && keywords[2] in keywords;
    ForksBehind(KeywordSet(keywords), bytes, 0, 3, keywords[2], keywords[1]);
  }

  lemma ForksBehind(kws: set<seq<Byte>>, bytes: seq<Byte>, c: nat, d: nat, v: seq<Byte>, x: seq<Byte>)
    requires c < d < |bytes| && v in kws && x in kws && |v| > 1 && |x| > 1
    requires v[0] == x[0] && v[1] == bytes[c] && x[1] == bytes[d]
    ensures ForksAt(kws, bytes, [v[0]], c, d)
  {
    assert [v[0]] + [bytes[c]] <= v && [v[0]] + [bytes[d]] <= x;
  }

  /** The word "hello" has four bytes. */
  lemma {:induction false} DocumentedFirst(h: Byte, e: Byte, l: Byte, o: Byte)
    requires h != e && h != l && h != o && e != l && e != o && l != o
    ensures Numbered([], [h, e, l, l, o]) == [h, e, l, o]
  {
    Next([], [h], [h, e, l, l, o], [e, l, l, o]);
    Next([h], [h, e], [e, l, l, o], [l, l, o]);
    Next([h, e], [h, e, l], [l, l, o], [l, o]);
    Next([h, e, l], [h, e, l], [l, o], [o]);
    Next([h, e, l], [h, e, l, o], [o], []);
  }

  lemma {:induction false} MoreNumbered(bytes: seq<Byte>, keywords: seq<seq<Byte>>)
    ensures bytes <= NumberedAll(bytes, keywords)
    decreases |keywords|
  {
    if keywords != [] {
      MoreLetters(bytes, keywords[0]);
      MoreNumbered(Numbered(bytes, keywords[0]), keywords[1..]);
    }
  }

  lemma {:induction false} MoreLetters(bytes: seq<Byte>, kw: seq<Byte>)
    ensures bytes <= Numbered(bytes, kw)
    decreases |kw|
  {
    if kw != [] { MoreLetters(if kw[0] in bytes then bytes else bytes + [kw[0]], kw[1..]); }
  }

  lemma DocumentedAgree(kws: set<seq<Byte>>)
    requires kws == KeywordSet(DOCUMENTED)
    ensures NoLateFork(kws)
  {
    forall w, a: Byte, b: Byte | |w| > 1 && IsPrefixOfSome(w + [a], kws) && IsPrefixOfSome(w + [b], kws)
      ensures a == b
    {
      var v :| v in kws && w + [a] <= v;
      var x :| x in kws && w + [b] <= x;
      SameStart(w, v, a);
      SameStart(w, x, b);
      TwoBytesApart(v, x);
    }
  }

  lemma DocumentedApart(kws: set<seq<Byte>>)
    requires kws == KeywordSet(DOCUMENTED)
    ensures NoInner(kws)
  {
    forall kw, other, j: nat | kw in kws && other in kws && OccursAt(kw, other, j) ensures j == 0 {
      InsideNone(kw, other, j);
    }
  }

  lemma TwoBytesApart(v: seq<Byte>, x: seq<Byte>)
    requires v in KeywordSet(DOCUMENTED) && x in KeywordSet(DOCUMENTED)
    requires |v| > 1 && |x| > 1 && v[0] == x[0] && v[1] == x[1]
    ensures v == x
  {
    Documented(v);
    Documented(x);
  }

  lemma InsideNone(kw: seq<Byte>, other: seq<Byte>, j: nat)
    requires kw in KeywordSet(DOCUMENTED) && other in KeywordSet(DOCUMENTED) && OccursAt(kw, other, j)
    ensures j == 0
  {
    Documented(kw);
    Documented(other);
    Occurs(kw, other, j, 0);
  }

  lemma SameStart(w: seq<Byte>, v: seq<Byte>, a: Byte)
    requires |w| > 1 && w + [a] <= v
    ensures |w| < |v| && v[0] == w[0] && v[1] == w[1] && v[|w|] == a
  {
    assert (w + [a])[|w|] == a;
  }
}
