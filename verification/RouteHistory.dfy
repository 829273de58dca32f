/**
 The tree is a function of what is registered in it: two well-formed trees that hold the same
 patterns are equal field for field, whatever operations produced them.
 */
module RouteHistory {
  import opened Options
  import opened RoutePatterns
  import opened RouteTree
  import opened RouteShape
  import opened RouteAdd

  ghost predicate SameFinds(n: Node, m: Node) { forall s :: Find(n, s) == Find(m, s) }

  ghost predicate SameFindIns(cs: seq<Node>, ds: seq<Node>) { forall t | t != "" :: FindIn(cs, t) == FindIn(ds, t) }

  lemma {:induction false} Unique(n: Node, m: Node, ctx: Context)
    requires Ok(n, ctx) && Ok(m, ctx) && SameFinds(n, m)
    ensures n == m
    decreases n, 1
  {
    SameKind(n, m, ctx);
    match n.kind {
      case Static => StaticPath(n, m, ctx); StaticPath(m, n, ctx);
      case Param => ParamPath(n, m, ctx);
      case CatchAll =>
        ContextEnded(n, ctx);
        ContextEnded(m, ctx);
        assert Find(m, n.path).Some? && Find(n, m.path).Some?;
    }
    assert n.path == m.path;
    assert Find(n, n.path) == Find(m, n.path);
    var after := After(n.path, ctx);
    forall t | t != "" ensures FindIn(n.children, t) == FindIn(m.children, t) {
      assert (n.path + t)[|n.path|..] == t;
      assert Find(n, n.path + t) == Find(m, n.path + t);
    }
    UniqueChildren(n.children, m.children, after);
    UniqueChildrenBack(n.children, m.children, after);
    SortedUnique(n.children, m.children);
  }

  lemma {:induction false} SameKind(n: Node, m: Node, ctx: Context)
    requires Ok(n, ctx) && Ok(m, ctx) && SameFinds(n, m)
    ensures Head(n) == Head(m) && n.kind == m.kind && n.index == m.index
    ensures n.path <= m.path || m.path <= n.path
  {
    var s := Inhabited(n, ctx);
    assert n.path <= s && m.path <= s;
    assert n.path[0] == s[0] && m.path[0] == s[0];
    if |n.path| <= |m.path| {
      assert n.path == s[..|n.path|] == m.path[..|n.path|];
    } else {
      assert m.path == s[..|m.path|] == n.path[..|m.path|];
    }
  }

  /** A compressed static node is as long as its patterns allow. */
  lemma StaticPath(n: Node, m: Node, ctx: Context)
    requires Ok(n, ctx) && Ok(m, ctx) && SameFinds(n, m) && n.kind == Static && m.kind == Static
    requires n.path <= m.path || m.path <= n.path
    ensures m.path <= n.path
  {
    if |n.path| < |m.path| {
      assert Find(n, n.path) == Find(m, n.path);
      var b := m.path[|n.path|];
      var s := ChildStart(n, m, ctx, 0);
      if |n.children| >= 2 { var r := ChildStart(n, m, ctx, 1); }
    }
  }

  /** Every child of `n` starts with the character `m` has behind the path of `n`. */
  lemma ChildStart(n: Node, m: Node, ctx: Context, k: nat) returns (s: string)
    requires Ok(n, ctx) && Ok(m, ctx) && SameFinds(n, m) && k < |n.children| && n.path <= m.path && |n.path| < |m.path|
    ensures Head(n.children[k]) == m.path[|n.path|]
  {
    var c, after := n.children[k], After(n.path, ctx);
    assert Ok(c, after);
    var t := Inhabited(c, after);
    FindInMember(n.children, c, t);
    s := n.path + t;
    assert s[|n.path|..] == t;
    assert Find(n, s) == Find(m, s);
    assert m.path[|n.path|] == s[|n.path|];
  }

  lemma ParamPath(n: Node, m: Node, ctx: Context)
    requires Ok(n, ctx) && Ok(m, ctx) && SameFinds(n, m) && n.kind == Param && m.kind == Param
    requires n.path <= m.path || m.path <= n.path
    ensures n.path == m.path
  {
    ParamShape(n.path, ctx);
    ParamShape(m.path, ctx);
    assert Find(n, n.path) == Find(m, n.path) && Find(n, m.path) == Find(m, m.path);
    var s := Inhabited(n, ctx);
    TokenOf(n, ctx, s);
    TokenOf(m, ctx, s);
  }

  lemma TokenOf(n: Node, ctx: Context, s: string)
    requires Ok(n, ctx) && n.kind == Param && Find(n, s).Some?
    ensures SegEnd(s) == SegEnd(n.path)
  {
    ParamShape(n.path, ctx);
    assert s == n.path + s[|n.path|..];
    if LastChar(n.path) != '/' { BelowName(n, ctx, s); }
    ParamToken(n.path, s[|n.path|..]);
  }

  lemma {:induction false} UniqueChildren(cs: seq<Node>, ds: seq<Node>, ctx: Context)
    requires Siblings(cs) && AllOk(cs, ctx) && Siblings(ds) && AllOk(ds, ctx) && SameFindIns(cs, ds)
    ensures forall c :: c in cs ==> c in ds
    decreases cs, 0
  {
    forall c | c in cs ensures c in ds {
      var t, d := Counterpart(cs, ds, ctx, c);
      Unique(c, d, ctx);
    }
  }

  lemma {:induction false} UniqueChildrenBack(cs: seq<Node>, ds: seq<Node>, ctx: Context)
    requires Siblings(cs) && AllOk(cs, ctx) && Siblings(ds) && AllOk(ds, ctx) && SameFindIns(cs, ds)
    ensures forall d :: d in ds ==> d in cs
    decreases cs, 0
  {
    forall d | d in ds ensures d in cs {
      var t, c := Counterpart(ds, cs, ctx, d);
      Unique(c, d, ctx);
    }
  }

  /** The child of `ds` that holds what the child `c` of `cs` holds. */
  lemma Counterpart(cs: seq<Node>, ds: seq<Node>, ctx: Context, c: Node) returns (t: string, d: Node)
    requires Siblings(cs) && AllOk(cs, ctx) && Siblings(ds) && AllOk(ds, ctx) && SameFindIns(cs, ds) && c in cs
    ensures d in ds && Ok(c, ctx) && Ok(d, ctx) && SameFinds(c, d) && SameFinds(d, c)
  {
    var j :| 0 <= j < |cs| && cs[j] == c;
    assert Ok(cs[j], ctx);
    t := Inhabited(c, ctx);
    FindInMember(cs, c, t);
    d := FindInSome(ds, t);
    var i :| 0 <= i < |ds| && ds[i] == d;
    assert Ok(ds[i], ctx);
    SameHeadSameFinds(cs, ds, ctx, c, d);
  }

  lemma SameHeadSameFinds(cs: seq<Node>, ds: seq<Node>, ctx: Context, c: Node, d: Node)
    requires Siblings(cs) && Siblings(ds) && SameFindIns(cs, ds) && c in cs && d in ds && Ok(c, ctx) && Ok(d, ctx)
    requires Head(c) == Head(d)
    ensures SameFinds(c, d) && SameFinds(d, c)
  {
    forall s ensures Find(c, s) == Find(d, s) {
      if s != "" && s[0] == Head(c) {
        FindInMember(cs, c, s);
        FindInMember(ds, d, s);
      }
    }
  }
}
