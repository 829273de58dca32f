/**
 The literal form of route patterns: well-formedness, the conflict relation between two
 patterns and the meaning of a pattern on a request.  Nothing in this module knows about trees.
 */
module RoutePatterns {
  import opened Options

  datatype Binding = Binding(key: string, value: string)

  predicate IsWild(c: char) { c == ':' || c == '*' }

  predicate NoWild(s: string) { forall k :: 0 <= k < |s| ==> !IsWild(s[k]) }

  /** Index of the first '/' of `s`, or its length: the end of the segment `s` starts in. */
  function SegEnd(s: string): (e: nat)
    ensures e <= |s| && (e < |s| ==> s[e] == '/')
  {
    if s == "" || s[0] == '/' then 0 else 1 + SegEnd(s[1..])
  }

  lemma {:induction false} BeforeSegEnd(s: string)
    ensures forall k :: 0 <= k < SegEnd(s) ==> s[k] != '/'
  {
    if s != "" && s[0] != '/' {
      BeforeSegEnd(s[1..]);
      assert forall k :: 0 < k < |s| ==> s[k] == s[1..][k-1];
    }
  }

  /** The stretches between the slashes, some of which may be empty. */
  function Segments(s: string): seq<string>
    ensures Segments(s) != []
    decreases |s|
  {
    var e := SegEnd(s);
    if e == |s| then [s] else [s[..e]] + Segments(s[e+1..])
  }

  /**
   What precedes a position of a pattern.  `AfterName` is the end of a ':name', where only a
   '/' or the end of the pattern may follow; `AfterNameSlash` is behind that '/', where a second
   '/' may not follow; `Ended` is behind a '*name', where nothing may follow.
   */
  datatype Context = Mid | AfterSlash | AfterName | AfterNameSlash | Ended {
    predicate AllowsWild() { AfterSlash? || AfterNameSlash? }

    predicate Allows(c: char) {
      match this
      case AfterName => c == '/'
      case AfterNameSlash => c != '/'
      case Ended => false
      case _ => true
    }

    function Step(c: char): Context {
      if c != '/' then Mid else if AfterName? then AfterNameSlash else AfterSlash
    }
  }

  /**
   `s` may follow a position of context `ctx`: a wildcard fills a whole segment and has a
   non-empty name without ':' and '*', a '*name' comes last, and no "//" follows a ':name'.
   */
  predicate PatternFrom(s: string, ctx: Context)
    decreases |s|
  {
    if s == "" then true
    else if IsWild(s[0]) then
      var e := SegEnd(s);
      ctx.AllowsWild() && e > 1 && NoWild(s[1..e]) && (if s[0] == ':' then PatternFrom(s[e..], AfterName) else e == |s|)
    else ctx.Allows(s[0]) && PatternFrom(s[1..], ctx.Step(s[0]))
  }

  predicate IsPattern(s: string) { s != "" && s[0] == '/' && PatternFrom(s, Mid) }

  /** The context behind `s`, when `s` stands behind `ctx`. */
  function After(s: string, ctx: Context): Context
    decreases |s|
  {
    if s == "" then ctx
    else if s[0] == ':' && SegEnd(s) > 0 then After(s[SegEnd(s)..], AfterName)
    else if s[0] == '*' then Ended
    else After(s[1..], ctx.Step(s[0]))
  }

  /**
   Two patterns conflict: the first token in which they differ is a wildcard in at least one of
   them, and neither of them has ended there.
   */
  predicate Conflict(p: string, q: string)
    decreases |p|
  {
    if p == "" || q == "" then false
    else if IsWild(p[0]) || IsWild(q[0]) then
      var e, f := SegEnd(p), SegEnd(q);
      if p[..e] == q[..f] && e > 0 then Conflict(p[e..], q[f..]) else true
    else p[0] == q[0] && Conflict(p[1..], q[1..])
  }

  /**
   The conflict the parameter branches of `add` overlook: at the first differing token, the
   name of the ':name' that `q` has is a proper prefix of the one that `p` has.
   */
  predicate Overlooked(p: string, q: string)
    decreases |p|
  {
    if p == "" || q == "" then false
    else if IsWild(p[0]) || IsWild(q[0]) then
      var e, f := SegEnd(p), SegEnd(q);
      if p[..e] == q[..f] && e > 0 then Overlooked(p[e..], q[f..])
      else q[0] == ':' && f < e && q[..f] == p[..f]
    else p[0] == q[0] && Overlooked(p[1..], q[1..])
  }

  /** The bindings with which pattern `p` matches request `r`, if it does. */
  function Match(p: string, r: string): Option<seq<Binding>>
    decreases |p|
  {
    if p == "" then (if r == "" then Some([]) else None)
    else if p[0] == ':' then
      var e, f := SegEnd(p), SegEnd(r);
      if f == 0 || e == 0 then None
      else match Match(p[e..], r[f..])
           case None => None
           case Some(b) => Some([Binding(p[1..e], r[..f])] + b)
    else if p[0] == '*' then (if r == "" then None else Some([Binding(p[1..], r)]))
    else if r != "" && r[0] == p[0] then Match(p[1..], r[1..])
    else None
  }

  /** No "//": every segment but a last empty one is non-empty. */
  predicate NoDoubleSlash(r: string) { forall k :: 0 <= k < |r| - 1 ==> !(r[k] == '/' && r[k+1] == '/') }

  predicate IsCleanRequest(r: string) { r != "" && r[0] == '/' && NoDoubleSlash(r) }

  // ----- literal prefixes

  lemma {:induction false} SegEndLiteral(a: string, s: string)
    requires forall k :: 0 <= k < |a| ==> a[k] != '/'
    ensures SegEnd(a + s) == |a| + SegEnd(s)
    decreases |a|
  {
    if a == "" {
      assert a + s == s;
    } else {
      assert (a + s)[1..] == a[1..] + s;
      SegEndLiteral(a[1..], s);
    }
  }

  lemma {:induction false} AfterLiteral(a: string, ctx: Context)
    requires NoWild(a) && a != ""
    ensures After(a, ctx).AllowsWild() <==> a[|a|-1] == '/'
    ensures ctx != Ended ==> After(a, ctx) != AfterName && After(a, ctx) != Ended
    decreases |a|
  {
    if |a| > 1 { AfterLiteral(a[1..], ctx.Step(a[0])); }
  }

  /** A wildcard-free prefix of a pattern is checked character by character. */
  lemma {:induction false} PatternLiteral(a: string, s: string, ctx: Context)
    requires NoWild(a)
    ensures PatternFrom(a + s, ctx) <==> PatternFrom(a, ctx) && PatternFrom(s, After(a, ctx))
    decreases |a|
  {
    if a == "" {
      assert a + s == s;
    } else {
      assert (a + s)[1..] == a[1..] + s;
      PatternLiteral(a[1..], s, ctx.Step(a[0]));
    }
  }

  lemma {:induction false} AfterConcat(a: string, s: string, ctx: Context)
    requires NoWild(a)
    ensures After(a + s, ctx) == After(s, After(a, ctx))
    decreases |a|
  {
    if a == "" {
      assert a + s == s;
    } else {
      assert (a + s)[1..] == a[1..] + s;
      AfterConcat(a[1..], s, ctx.Step(a[0]));
    }
  }

  /** Splitting a relation or a match at a common literal prefix. */
  lemma {:induction false} StripLiteral(a: string, p: string, q: string)
    requires NoWild(a)
    ensures Conflict(a + p, a + q) == Conflict(p, q)
    ensures Overlooked(a + p, a + q) == Overlooked(p, q)
    decreases |a|
  {
    if a == "" {
      assert a + p == p && a + q == q;
    } else {
      assert (a + p)[1..] == a[1..] + p && (a + q)[1..] == a[1..] + q;
      StripLiteral(a[1..], p, q);
    }
  }

  lemma {:induction false} MatchLiteral(a: string, p: string, r: string)
    requires NoWild(a)
    ensures Match(a + p, r) == if a <= r then Match(p, r[|a|..]) else None
    decreases |a|
  {
    if a == "" {
      assert a + p == p && r[|a|..] == r;
    } else {
      assert (a + p)[1..] == a[1..] + p;
      if r != "" && r[0] == a[0] {
        MatchLiteral(a[1..], p, r[1..]);
        if a[1..] <= r[1..] {
          assert a == [a[0]] + a[1..] && r == [r[0]] + r[1..];
          assert a <= r && r[1..][|a| - 1..] == r[|a|..];
        }
      }
    }
  }

  /** The context of a longer run of text only ever forbids more. */
  lemma {:induction false} PatternWeaken(s: string, ctx: Context)
    requires PatternFrom(s, ctx)
    requires ctx == AfterName || ctx == Mid || ctx == AfterNameSlash
    ensures PatternFrom(s, if ctx == AfterNameSlash then AfterSlash else Mid)
    decreases |s|
  {
    if s != "" && !IsWild(s[0]) {
      if ctx == AfterName { PatternWeaken(s[1..], AfterNameSlash); }
    }
  }
}
