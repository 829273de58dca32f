/**
 On a clean request, the walk down the tree finds exactly the registered pattern that matches,
 with exactly its bindings.
 */
module RouteGet {
  import opened Options
  import opened RoutePatterns
  import opened RouteTree
  import opened RouteShape
  import opened RouteAdd
  import opened RouteConflicts

  /** `r` is what is left of a clean request at a position of context `ctx`. */
  predicate CleanRest(r: string, ctx: Context) {
    r != "" && NoDoubleSlash(r) && (ctx.AllowsWild() ==> r[0] != '/')
  }

  /** The walk does not stop inside the path of `n`. */
  predicate Passes(n: Node, r: string) {
    match n.kind
    case Static => n.path <= r
    case Param => LastChar(n.path) == '/' ==> SegEnd(r) < |r|
    case CatchAll => true
  }

  function Prepend(bs: seq<Binding>, m: Option<seq<Binding>>): Option<seq<Binding>> {
    match m case None => None case Some(b) => Some(bs + b)
  }

  /** A node consumes of the request what its path matches, and binds the same values. */
  lemma NodeMatch(n: Node, ctx: Context, t: string, r: string)
    requires Labelled(n) && PatternFrom(n.path, ctx) && CleanRest(r, ctx)
    requires n.kind == Param && LastChar(n.path) != '/' ==> SegEnd(t) == 0
    requires n.kind == CatchAll ==> t == ""
    ensures !Passes(n, r) ==> Match(n.path + t, r) == None
    ensures Passes(n, r) ==> Match(n.path + t, r) == Prepend(Consume(n, r).1, Match(t, r[Consume(n, r).0..]))
  {
    match n.kind
    case Static =>
      MatchLiteral(n.path, t, r);
      LcpIsLongest(n.path, r, |n.path|);
      if Passes(n, r) { PrependNothing(Match(t, r[|n.path|..])); }
    case Param => ParamMatch(n, ctx, t, r);
    case CatchAll =>
      assert n.path + t == n.path;
      assert r[|r|..] == "" && Consume(n, r).1 + [] == Consume(n, r).1;
  }

  lemma PrependNothing(m: Option<seq<Binding>>)
    ensures Prepend([], m) == m
  {
    if m.Some? { assert [] + m.value == m.value; }
  }

  lemma {:induction false} ParamMatch(n: Node, ctx: Context, t: string, r: string)
    requires Labelled(n) && n.kind == Param && PatternFrom(n.path, ctx) && CleanRest(r, ctx)
    requires LastChar(n.path) != '/' ==> SegEnd(t) == 0
    ensures !Passes(n, r) ==> Match(n.path + t, r) == None
    ensures Passes(n, r) ==> Match(n.path + t, r) == Prepend(Consume(n, r).1, Match(t, r[Consume(n, r).0..]))
  {
    ParamShape(n.path, ctx);
    ParamToken(n.path, t);
    if LastChar(n.path) == '/' {
      var a := n.path[..|n.path|-1];
      assert n.path == a + "/" && n.path[1..|n.path|-1] == a[1..];
      SlashedMatch(a, t, r);
    } else {
      NameMatch(n.path, t, r);
    }
  }

  /** A name and its '/' take a segment and a '/' of the request. */
  lemma {:induction false} SlashedMatch(a: string, t: string, r: string)
    requires a != "" && a[0] == ':' && SegEnd(a + "/" + t) == |a| && r != "" && r[0] != '/'
    ensures var f := SegEnd(r);
      Match(a + "/" + t, r) ==
        if f == |r| then None else Prepend([Binding(a[1..], r[..f])], Match(t, r[f+1..]))
  {
    var f := SegEnd(r);
    assert a + "/" + t == a + ("/" + t);
    NameMatch(a, "/" + t, r);
    SlashMatch(t, r[f..]);
    if f < |r| { RestBehindSlash(r, f); }
  }

  /** A name takes a segment of the request. */
  lemma {:induction false} NameMatch(a: string, q: string, r: string)
    requires a != "" && a[0] == ':' && SegEnd(a + q) == |a|
    ensures Match(a + q, r) ==
            if SegEnd(r) == 0 then None else Prepend([Binding(a[1..], r[..SegEnd(r)])], Match(q, r[SegEnd(r)..]))
  {
    assert (a + q)[|a|..] == q && (a + q)[1..|a|] == a[1..];
  }

  lemma SlashMatch(t: string, r: string)
    ensures Match("/" + t, r) == if r != "" && r[0] == '/' then Match(t, r[1..]) else None
  {
    assert ("/" + t)[1..] == t;
  }

  lemma RestBehindSlash(r: string, f: nat)
    requires f < |r|
    ensures r[f..] != "" && r[f..][0] == r[f] && r[f..][1..] == r[f+1..]
  {
  }

  lemma CleanSuffix(r: string, i: nat)
    requires NoDoubleSlash(r) && 0 < i < |r|
    ensures NoDoubleSlash(r[i..]) && (r[i-1] == '/' ==> r[i..][0] != '/')
  {
    assert forall k :: 0 <= k < |r| - i ==> r[i..][k] == r[i + k];
  }

  /** What the request has left below a node is clean there. */
  lemma CleanBelow(n: Node, ctx: Context, r: string)
    requires Labelled(n) && PatternFrom(n.path, ctx) && CleanRest(r, ctx) && n.kind != CatchAll
    requires Passes(n, r) && Consume(n, r).0 < |r|
    ensures CleanRest(r[Consume(n, r).0..], After(n.path, ctx))
  {
    var i := Consume(n, r).0;
    if n.kind == Static {
      LcpIsLongest(n.path, r, |n.path|);
      AfterLiteral(n.path, ctx);
      assert n.path[i-1] == r[i-1];
    } else {
      ParamShape(n.path, ctx);
    }
    CleanSuffix(r, i);
  }

  /** One step of a walk that passes the node. */
  lemma WalkPasses(parent: Option<Node>, n: Node, r: string, bs: seq<Binding>)
    requires r != "" && Labelled(n)
    ensures !Passes(n, r) ==> Walk(parent, n, r, bs).handle == None
    ensures Passes(n, r) ==>
      var (i, xs) := Consume(n, r);
      Walk(parent, n, r, bs) ==
        if i == |r| then Stop(parent, n, r, i, n.handle, bs + xs)
        else
          var k := ChildIndex(n.children, r[i]);
          if k < |n.children| then Walk(Some(n), n.children[k], r[i..], bs + xs)
          else Stop(parent, n, r, i, None, bs + xs)
  {
    PrefixIff(n.path, r);
  }

  lemma PrefixIff(a: string, r: string)
    ensures a <= r <==> Lcp(a, r) == |a|
  {
    LcpIsLongest(a, r, |a|);
  }

  /** A pattern found in a child matches what the node leaves of the request, and its bindings go on from there. */
  lemma MatchBelow(n: Node, ctx: Context, t: string, r: string, bs: seq<Binding>)
    requires Ok(n, ctx) && CleanRest(r, ctx) && Passes(n, r) && Find(n, n.path + t).Some?
    ensures var m := Match(t, r[Consume(n, r).0..]);
      && Match(n.path + t, r) == Prepend(Consume(n, r).1, m)
      && (m.Some? ==> bs + Match(n.path + t, r).value == bs + Consume(n, r).1 + m.value)
  {
    FoundBelow(n, ctx, t);
    NodeMatch(n, ctx, t, r);
    Prepended(bs, Consume(n, r).1, Match(t, r[Consume(n, r).0..]));
  }

  lemma Prepended(bs: seq<Binding>, xs: seq<Binding>, m: Option<seq<Binding>>)
    ensures m.Some? ==> bs + Prepend(xs, m).value == bs + xs + m.value
  {
  }

  /** Behind a ':name' without its '/' every pattern goes on with '/', and behind a '*name' none does. */
  lemma FoundBelow(n: Node, ctx: Context, t: string)
    requires Ok(n, ctx) && Find(n, n.path + t).Some?
    ensures n.kind == Param && LastChar(n.path) != '/' ==> SegEnd(t) == 0
    ensures n.kind == CatchAll ==> t == ""
  {
    assert (n.path + t)[|n.path|..] == t;
    if n.kind == Param && LastChar(n.path) != '/' { BelowName(n, ctx, n.path + t); }
    if n.kind == CatchAll { ContextEnded(n, ctx); }
  }

  lemma {:induction false} WalkFinds(parent: Option<Node>, n: Node, ctx: Context, r: string, bs: seq<Binding>)
    returns (s: string)
    requires Ok(n, ctx) && CleanRest(r, ctx) && Walk(parent, n, r, bs).handle.Some?
    ensures Find(n, s) == Walk(parent, n, r, bs).handle
    ensures Match(s, r).Some? && Walk(parent, n, r, bs).bindings == bs + Match(s, r).value
    decreases n
  {
    WalkPasses(parent, n, r, bs);
    var (i, xs) := Consume(n, r);
    var t := "";
    if i < |r| {
      var k, after := ChildIndex(n.children, r[i]), After(n.path, ctx);
      var c := n.children[k];
      assert Ok(c, after);
      if n.kind == CatchAll { ContextEnded(n, ctx); }
      CleanBelow(n, ctx, r);
      t := WalkFinds(Some(n), c, after, r[i..], bs + xs);
      FindBelow(n, ctx, k, t);
    } else {
      assert n.path + "" == n.path && r[i..] == "" && bs + xs + [] == bs + xs;
    }
    s := n.path + t;
    MatchBelow(n, ctx, t, r, bs);
  }

  lemma {:induction false} WalkMeetsMatch(parent: Option<Node>, n: Node, ctx: Context, r: string, bs: seq<Binding>,
                                          s: string)
    requires Ok(n, ctx) && CleanRest(r, ctx) && Find(n, s).Some? && Match(s, r).Some?
    ensures Walk(parent, n, r, bs).handle == Find(n, s)
    ensures Walk(parent, n, r, bs).bindings == bs + Match(s, r).value
    decreases n
  {
    var t, after := s[|n.path|..], After(n.path, ctx);
    assert s == n.path + t;
    MatchPasses(n, ctx, s, r);
    MatchBelow(n, ctx, t, r, bs);
    WalkPasses(parent, n, r, bs);
    var (i, xs) := Consume(n, r);
    if t == "" {
      assert bs + xs + [] == bs + xs && s == n.path;
    } else {
      if n.kind == CatchAll { ContextEnded(n, ctx); }
      var c := FindInSome(n.children, t);
      FindMeetsRequest(n, ctx, t, c, r[i..]);
      CleanBelow(n, ctx, r);
      WalkMeetsMatch(Some(n), c, after, r[i..], bs + xs, t);
    }
  }

  lemma MatchPasses(n: Node, ctx: Context, s: string, r: string)
    requires Ok(n, ctx) && CleanRest(r, ctx) && Find(n, s).Some? && Match(s, r).Some?
    ensures Passes(n, r)
  {
    var t := s[|n.path|..];
    assert s == n.path + t;
    if n.kind == Param && LastChar(n.path) != '/' { BelowName(n, ctx, s); }
    if n.kind == CatchAll { ContextEnded(n, ctx); }
    NodeMatch(n, ctx, t, r);
  }

  /** The child that holds a matching pattern is the child the walk descends to. */
  lemma FindMeetsRequest(n: Node, ctx: Context, t: string, c: Node, q: string)
    requires Ok(n, ctx) && t != "" && c in n.children && Head(c) == t[0] && Match(t, q).Some?
    ensures q != "" && ChildIndex(n.children, q[0]) < |n.children| && n.children[ChildIndex(n.children, q[0])] == c
    ensures Ok(c, After(n.path, ctx))
  {
    MatchedHead(t, q);
    ChildFound(n.children, After(n.path, ctx), c, t[0], q);
  }

  /** A request that is matched starts as the pattern does, unless that starts with a wildcard. */
  lemma MatchedHead(t: string, q: string)
    requires t != "" && Match(t, q).Some?
    ensures q != "" && (IsWild(t[0]) || t[0] == q[0])
  {
  }

  lemma ChildFound(cs: seq<Node>, ctx: Context, c: Node, b: char, q: string)
    requires Siblings(cs) && AllOk(cs, ctx) && c in cs && Head(c) == b && q != "" && (IsWild(b) || b == q[0])
    ensures ChildIndex(cs, q[0]) < |cs| && cs[ChildIndex(cs, q[0])] == c && Ok(c, ctx)
  {
    var j :| 0 <= j < |cs| && cs[j] == c;
    assert Ok(cs[j], ctx);
    if IsWild(b) {
      assert c.kind != Static && j == 0;
    } else {
      ChildIndexIsHeadIndex(cs, ctx, b);
      HeadIndexOf(cs, j, b);
    }
  }

  lemma HeadIndexOf(cs: seq<Node>, j: nat, b: char)
    requires DistinctHeads(cs) && j < |cs| && cs[j].path != "" && Head(cs[j]) == b
    ensures HeadIndex(cs, b) == j
  {
    var h := HeadIndex(cs, b);
  }
}
