/**
 The same relations read segment by segment: the reference a reader has in mind for what a
 pattern matches and when two patterns conflict.
 */
module RouteSegments {
  import opened Options
  import opened RoutePatterns

  function Join(ss: seq<string>): string
    requires ss != []
  {
    if |ss| == 1 then ss[0] else ss[0] + "/" + Join(ss[1..])
  }

  predicate WildSegment(s: string) { s != "" && IsWild(s[0]) }

  /** Literal segments are equal, ':name' takes a non-empty segment, '*name' the non-empty rest. */
  function MatchSegments(ps: seq<string>, rs: seq<string>): Option<seq<Binding>> {
    if ps == [] || rs == [] then (if ps == rs then Some([]) else None)
    else if ps[0] != "" && ps[0][0] == '*' then
      if Join(rs) == "" then None else Some([Binding(ps[0][1..], Join(rs))])
    else if ps[0] != "" && ps[0][0] == ':' then
      if rs[0] == "" then None
      else match MatchSegments(ps[1..], rs[1..])
           case None => None
           case Some(b) => Some([Binding(ps[0][1..], rs[0])] + b)
    else if ps[0] == rs[0] then MatchSegments(ps[1..], rs[1..])
    else None
  }

  /** The first differing segment is a wildcard in one of the two, and neither has ended before it. */
  predicate SegmentConflict(ps: seq<string>, qs: seq<string>) {
    if ps == [] || qs == [] || ps == [""] || qs == [""] then false
    else if ps[0] == qs[0] then SegmentConflict(ps[1..], qs[1..])
    else WildSegment(ps[0]) || WildSegment(qs[0])
  }

  lemma {:induction false} JoinSegments(s: string)
    ensures Join(Segments(s)) == s
    decreases |s|
  {
    var e := SegEnd(s);
    if e == |s| {
      assert Segments(s) == [s];
    } else {
      var rest := s[e+1..];
      JoinSegments(rest);
      JoinHead(s[..e], Segments(rest));
      assert Segments(s) == [s[..e]] + Segments(rest);
      assert s == s[..e] + "/" + rest;
    }
  }

  lemma {:induction false} JoinHead(a: string, ss: seq<string>)
    requires ss != []
    ensures Join([a] + ss) == a + "/" + Join(ss)
  {
    assert ([a] + ss)[1..] == ss;
  }

  lemma SegmentsHead(s: string)
    ensures Segments(s)[0] == s[..SegEnd(s)]
    ensures SegEnd(s) == |s| ==> Segments(s)[1..] == []
    ensures SegEnd(s) < |s| ==> Segments(s)[1..] == Segments(s[SegEnd(s)+1..])
  {
  }

  /** What is left to match behind the first segments of `p` and `r`. */
  function MatchRest(p: string, r: string): Option<seq<Binding>> {
    var e, f := SegEnd(p), SegEnd(r);
    if e == |p| then (if f == |r| then Some([]) else None)
    else if f == |r| then None else Match(p[e+1..], r[f+1..])
  }

  /** A match of a literal segment is equality of the segments. */
  lemma MatchLiteralSegment(p: string, r: string)
    requires NoWild(p[..SegEnd(p)])
    ensures Match(p, r) == if p[..SegEnd(p)] == r[..SegEnd(r)] then MatchRest(p, r) else None
  {
    if SegEnd(p) == 0 {
      MatchAtSlash(p, r);
      assert |r[..SegEnd(r)]| == SegEnd(r);
    } else {
      SegmentSplits(p);
      MatchLiteral(p[..SegEnd(p)], p[SegEnd(p)..], r);
      MatchBehind(p, p[..SegEnd(p)], p[SegEnd(p)..], r);
    }
  }

  /** A segment, and what is left of the text from its end on. */
  lemma SegmentSplits(p: string)
    ensures p == p[..SegEnd(p)] + p[SegEnd(p)..] && SegEnd(p[SegEnd(p)..]) == 0
    ensures SegEnd(p) < |p| ==> p[SegEnd(p)..] != "" && p[SegEnd(p)..][1..] == p[SegEnd(p)+1..]
  {
  }

  lemma MatchBehind(p: string, a: string, q: string, r: string)
    requires a != "" && |a| == SegEnd(p) && p[..SegEnd(p)] == a && q == p[SegEnd(p)..]
    ensures (if a <= r then Match(q, r[|a|..]) else None) == if a == r[..SegEnd(r)] then MatchRest(p, r) else None
  {
    SegmentSplits(p);
    if a <= r {
      var t := r[|a|..];
      PrefixSegment(p, a, r, t);
      MatchAtSlash(q, t);
    } else {
      assert r[..SegEnd(r)] <= r;
    }
  }

  /** A segment that the request starts with is its first segment if that ends there. */
  lemma PrefixSegment(p: string, a: string, r: string, t: string)
    requires |a| == SegEnd(p) && p[..SegEnd(p)] == a && a <= r && t == r[|a|..]
    ensures SegEnd(r) == |a| + SegEnd(t) && (a == r[..SegEnd(r)] <==> SegEnd(t) == 0)
    ensures |a| < |r| ==> t != "" && t[1..] == r[|a|+1..]
  {
    BeforeSegEnd(p);
    assert r == a + t;
    assert forall k :: 0 <= k < |a| ==> a[k] == p[k];
    SegEndLiteral(a, t);
  }

  /** At the end of a segment of the pattern, the request has to be at the end of a segment. */
  lemma MatchAtSlash(q: string, t: string)
    requires SegEnd(q) == 0
    ensures Match(q, t) ==
      if SegEnd(t) != 0 then None
      else if q == "" || t == "" then (if q == t then Some([]) else None) else Match(q[1..], t[1..])
  {
  }

  function Bound(b: Binding, m: Option<seq<Binding>>): Option<seq<Binding>> {
    match m case None => None case Some(bs) => Some([b] + bs)
  }

  lemma MatchNameSegment(p: string, r: string, ctx: Context)
    requires p != "" && p[0] == ':' && PatternFrom(p, ctx)
    ensures Match(p, r) ==
      if SegEnd(r) == 0 then None else Bound(Binding(p[1..SegEnd(p)], r[..SegEnd(r)]), MatchRest(p, r))
  {
    var e, f := SegEnd(p), SegEnd(r);
    MatchAtSlash(p[e..], r[f..]);
    if e < |p| { assert p[e..][1..] == p[e+1..]; }
    if f < |r| { assert r[f..][1..] == r[f+1..]; }
  }

  /** `s` starts a segment: only whole segments are wildcards. */
  lemma {:induction false} LiteralSegment(s: string, ctx: Context)
    requires PatternFrom(s, ctx) && (s == "" || !IsWild(s[0]))
    ensures NoWild(s[..SegEnd(s)])
    ensures SegEnd(s) < |s| ==>
      PatternFrom(s[SegEnd(s)+1..], if ctx == AfterName && SegEnd(s) == 0 then AfterNameSlash else AfterSlash)
    decreases |s|
  {
    if s != "" && s[0] != '/' {
      var t := s[1..];
      assert !ctx.Step(s[0]).AllowsWild();
      LiteralSegment(t, Mid);
      assert s[..SegEnd(s)] == [s[0]] + t[..SegEnd(t)];
      if SegEnd(s) < |s| { assert s[SegEnd(s)+1..] == t[SegEnd(t)+1..]; }
    }
  }

  lemma NameSegment(s: string, ctx: Context)
    requires s != "" && s[0] == ':' && PatternFrom(s, ctx) && SegEnd(s) < |s|
    ensures PatternFrom(s[SegEnd(s)+1..], AfterNameSlash)
  {
    assert s[SegEnd(s)..][1..] == s[SegEnd(s)+1..];
  }

  /** A pattern matches a request exactly when its segments match the request's, with the same bindings. */
  lemma {:induction false} MatchIsSegmentwise(p: string, r: string, ctx: Context)
    requires PatternFrom(p, ctx)
    ensures Match(p, r) == MatchSegments(Segments(p), Segments(r))
    decreases |p|
  {
    var e, f := SegEnd(p), SegEnd(r);
    SegmentsHead(p);
    SegmentsHead(r);
    if p != "" && p[0] == '*' {
      JoinSegments(r);
      assert p[..e] == p;
    } else {
      if p != "" && p[0] == ':' {
        assert p[1..e] == p[..e][1..];
        MatchNameSegment(p, r, ctx);
      } else {
        LiteralSegment(p, ctx);
        MatchLiteralSegment(p, r);
      }
      RestIsSegmentwise(p, r, ctx);
    }
  }

  lemma {:induction false} RestIsSegmentwise(p: string, r: string, ctx: Context)
    requires PatternFrom(p, ctx) && (p == "" || p[0] != '*')
    ensures MatchRest(p, r) == MatchSegments(Segments(p)[1..], Segments(r)[1..])
    decreases |p|, 0
  {
    var e, f := SegEnd(p), SegEnd(r);
    SegmentsHead(p);
    SegmentsHead(r);
    if e < |p| {
      if p[0] == ':' { NameSegment(p, ctx); } else { LiteralSegment(p, ctx); }
      if f < |r| {
        var behind := if p[0] == ':' || (ctx == AfterName && e == 0) then AfterNameSlash else AfterSlash;
        MatchIsSegmentwise(p[e+1..], r[f+1..], behind);
      }
    }
  }

  /** Literal segments that differ do not conflict. */
  lemma {:induction false} ConflictLiteralSegment(p: string, q: string)
    requires NoWild(p[..SegEnd(p)]) && NoWild(q[..SegEnd(q)])
    ensures var e, f := SegEnd(p), SegEnd(q);
      Conflict(p, q) == (p[..e] == q[..f] && e < |p| && f < |q| && Conflict(p[e+1..], q[f+1..]))
    decreases |p|
  {
    if p != "" && q != "" {
      var e, f := SegEnd(p), SegEnd(q);
      if e > 0 { assert p[..e][0] == p[0]; }
      if f > 0 { assert q[..f][0] == q[0]; }
      if p[0] == q[0] && p[0] != '/' {
        var p', q' := p[1..], q[1..];
        assert p[..e] == [p[0]] + p'[..SegEnd(p')] && q[..f] == [q[0]] + q'[..SegEnd(q')];
        assert forall k :: 0 <= k < e - 1 ==> p'[..SegEnd(p')][k] == p[..e][k+1];
        assert forall k :: 0 <= k < f - 1 ==> q'[..SegEnd(q')][k] == q[..f][k+1];
        assert p[..e] == q[..f] ==> p'[..SegEnd(p')] == p[..e][1..] == q[..f][1..] == q'[..SegEnd(q')];
        ConflictLiteralSegment(p', q');
        if e < |p| && f < |q| {
          assert p[e+1..] == p'[SegEnd(p')+1..] && q[f+1..] == q'[SegEnd(q')+1..];
        }
      }
    }
  }

  lemma ConflictNameSegment(p: string, q: string, ctx: Context)
    requires PatternFrom(p, ctx) && PatternFrom(q, ctx) && p != "" && q != "" && (IsWild(p[0]) || IsWild(q[0]))
    ensures var e, f := SegEnd(p), SegEnd(q);
      Conflict(p, q) == if p[..e] == q[..f] then e < |p| && f < |q| && Conflict(p[e+1..], q[f+1..]) else true
    ensures var e, f := SegEnd(p), SegEnd(q);
      p[..e] == q[..f] && e < |p| && f < |q| ==> p[0] == ':' && q[0] == ':'
  {
    var e, f := SegEnd(p), SegEnd(q);
    if p[..e] == q[..f] {
      assert e == |p[..e]| == |q[..f]| == f;
      SameWild(p, q, ctx);
      ConflictAtSlash(p[e..], q[f..]);
      SegmentSplits(p);
      SegmentSplits(q);
    }
  }

  lemma SameWild(p: string, q: string, ctx: Context)
    requires PatternFrom(p, ctx) && PatternFrom(q, ctx) && p != "" && q != "" && (IsWild(p[0]) || IsWild(q[0]))
    requires SegEnd(p) == SegEnd(q) && p[..SegEnd(p)] == q[..SegEnd(q)]
    ensures SegEnd(p) > 0 && p[0] == q[0] && (SegEnd(p) < |p| ==> p[0] == ':')
  {
    var e := SegEnd(p);
    assert e > 0;
    assert p[..e][0] == q[..e][0];
  }

  lemma ConflictAtSlash(p: string, q: string)
    requires SegEnd(p) == 0 && SegEnd(q) == 0
    ensures Conflict(p, q) == (p != "" && q != "" && Conflict(p[1..], q[1..]))
  {
  }

  /** Conflict, segment by segment. */
  lemma ConflictStep(p: string, q: string, ctx: Context)
    requires PatternFrom(p, ctx) && PatternFrom(q, ctx) && p != "" && q != ""
    ensures var e, f := SegEnd(p), SegEnd(q);
      Conflict(p, q) ==
        if p[..e] == q[..f] then e < |p| && f < |q| && Conflict(p[e+1..], q[f+1..]) else IsWild(p[0]) || IsWild(q[0])
  {
    if IsWild(p[0]) || IsWild(q[0]) {
      ConflictNameSegment(p, q, ctx);
    } else {
      LiteralSegment(p, ctx);
      LiteralSegment(q, ctx);
      ConflictLiteralSegment(p, q);
    }
  }

  lemma SegmentConflictStep(p: string, q: string)
    requires p != "" && q != ""
    ensures var e, f := SegEnd(p), SegEnd(q);
      SegmentConflict(Segments(p), Segments(q)) ==
      if p[..e] == q[..f] then e < |p| && f < |q| && SegmentConflict(Segments(p[e+1..]), Segments(q[f+1..]))
      else WildSegment(p[..e]) || WildSegment(q[..f])
  {
    SegmentsHead(p);
    SegmentsHead(q);
    NotAlone(p);
    NotAlone(q);
  }

  lemma NotAlone(p: string)
    requires p != ""
    ensures Segments(p) != [""] && |Segments(p)| >= 1
  {
  }

  /** What follows a segment of a pattern, in the context that the segment leaves. */
  lemma RestOfPattern(p: string, ctx: Context)
    requires p != "" && PatternFrom(p, ctx) && SegEnd(p) < |p|
    ensures PatternFrom(p[SegEnd(p)+1..], RestContext(p, ctx))
  {
    if p[0] == ':' { NameSegment(p, ctx); } else { LiteralSegment(p, ctx); }
  }

  function RestContext(p: string, ctx: Context): Context
    requires p != ""
  {
    if p[0] == ':' || (ctx == AfterName && p[0] == '/') then AfterNameSlash else AfterSlash
  }

  lemma SameHead(p: string, q: string)
    requires p != "" && q != "" && p[..SegEnd(p)] == q[..SegEnd(q)] && SegEnd(p) < |p| && SegEnd(q) < |q|
    ensures p[0] == q[0]
  {
    assert |p[..SegEnd(p)]| == SegEnd(p) && |q[..SegEnd(q)]| == SegEnd(q);
    if SegEnd(p) > 0 { assert p[..SegEnd(p)][0] == q[..SegEnd(q)][0]; }
  }

  /** Two patterns conflict exactly when their first differing segments do. */
  lemma {:induction false} ConflictIsSegmentwise(p: string, q: string, ctx: Context)
    requires PatternFrom(p, ctx) && PatternFrom(q, ctx)
    ensures Conflict(p, q) == SegmentConflict(Segments(p), Segments(q))
    decreases |p|
  {
    if p != "" && q != "" {
      ConflictStep(p, q, ctx);
      SegmentConflictStep(p, q);
      if p[..SegEnd(p)] == q[..SegEnd(q)] {
        if SegEnd(p) < |p| && SegEnd(q) < |q| {
          SameHead(p, q);
          RestOfPattern(p, ctx);
          RestOfPattern(q, ctx);
          ConflictIsSegmentwise(p[SegEnd(p)+1..], q[SegEnd(q)+1..], RestContext(p, ctx));
        }
      } else {
        WildHeads(p, q);
      }
    }
  }

  lemma WildHeads(p: string, q: string)
    requires p != "" && q != ""
    ensures WildSegment(p[..SegEnd(p)]) <==> IsWild(p[0])
    ensures WildSegment(q[..SegEnd(q)]) <==> IsWild(q[0])
  {
  }
}
