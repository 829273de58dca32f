/** `Remove` keeps the shape of the tree, and removes exactly the given literal. */
module RouteRemove {
  import opened Options
  import opened RoutePatterns
  import opened RouteTree
  import opened RouteShape
  import opened RouteAdd

  /** `m` is `n` without `path`, and nothing else about `n` has changed. */
  ghost predicate Removed(n: Node, m: Node, ctx: Context, path: string) {
    && Ok(m, ctx) && m.kind == n.kind && Head(m) == Head(n)
    && forall s :: Find(m, s) == if s == path then None else Find(n, s)
  }

  /** `r` is what removing `path` from `n` must give, before the path of a node without handles is cleared. */
  ghost predicate Reducing(n: Node, r: Outcome, ctx: Context, path: string) {
    && (r.ok <==> Find(n, path).Some?)
    && (!r.ok ==> r.node == n)
    && (r.ok ==> n.priority > 0 && r.node.priority == n.priority - 1)
    && (r.ok && r.node.priority > 0 ==> Removed(n, r.node, ctx, path))
    && (r.ok && r.node.priority == 0 ==> forall s :: s != path ==> Find(n, s).None?)
  }

  ghost predicate Removal(n: Node, r: Outcome, ctx: Context, path: string) {
    Reducing(n, r, ctx, path) && (r.ok && r.node.priority == 0 ==> r.node.path == "")
  }

  // ----- the handle of the node itself

  /** A ':name' without handle takes over the '/' that starts its only child. */
  lemma ConcatName(n: Node, ctx: Context)
    requires Framed(n, ctx) && n.kind == Param && LastChar(n.path) != '/' && n.handle.None? && |n.children| == 1
    requires Ok(n.children[0], After(n.path, ctx))
    ensures Ok(Concat(n), ctx) && Head(Concat(n)) == Head(n) && Concat(n).kind == Param
    ensures Concat(n).priority == n.priority
    ensures forall s :: Find(Concat(n), s) == Find(n, s)
  {
    ParamShape(n.path, ctx);
    var child := n.children[0];
    assert n.children[1..] == [];
    assert Priorities(n.children) == child.priority && MaxParams(n.children) == child.maxParams;
    assert child.kind == Static && child.path[0] == '/';
    SlashedName(n.path, ctx);
    if child.path == "/" { ConcatSlash(n, ctx); } else { ConcatLonger(n, ctx); }
  }

  lemma ConcatSlash(n: Node, ctx: Context)
    requires Framed(n, ctx) && n.kind == Param && n.handle.None? && |n.children| == 1 && n.children[0].path == "/"
    requires Ok(n.children[0], AfterName) && n.priority == n.children[0].priority
    requires MaxParams(n.children) == n.children[0].maxParams
    requires n.children[0].kind == Static && n.path[0] == ':' && SegEnd(n.path + "/") == |n.path|
    requires PatternFrom(n.path + "/", ctx) && After(n.path + "/", ctx) == AfterNameSlash
    ensures Ok(Concat(n), ctx) && Head(Concat(n)) == Head(n) && Concat(n).kind == Param
    ensures Concat(n).priority == n.priority
    ensures forall s :: Find(Concat(n), s) == Find(n, s)
  {
    var m := Concat(n);
    assert After("/", AfterName) == AfterNameSlash by { assert "/"[1..] == ""; }
    JoinFind(n, m);
    forall s ensures Find(m, s) == Find(n, s) {
      if s == n.path { assert !(m.path <= s); }
    }
  }

  lemma ConcatLonger(n: Node, ctx: Context)
    requires Framed(n, ctx) && n.kind == Param && n.handle.None? && |n.children| == 1 && n.children[0].path != "/"
    requires Ok(n.children[0], AfterName) && n.priority == n.children[0].priority
    requires MaxParams(n.children) == n.children[0].maxParams
    requires n.children[0].kind == Static && n.children[0].path[0] == '/' && n.path[0] == ':'
    requires SegEnd(n.path + "/") == |n.path|
    requires PatternFrom(n.path + "/", ctx) && After(n.path + "/", ctx) == AfterNameSlash
    ensures Ok(Concat(n), ctx) && Head(Concat(n)) == Head(n) && Concat(n).kind == Param
    ensures Concat(n).priority == n.priority
    ensures forall s :: Find(Concat(n), s) == Find(n, s)
  {
    var child, m := n.children[0], Concat(n);
    assert child.path == "/" + child.path[1..];
    assert After(child.path, AfterName) == After(child.path[1..], AfterNameSlash);
    assert m.children[1..] == [];
    assert Ok(m.children[0], AfterNameSlash);
    ShiftFind(n, m);
  }

  lemma SlashedName(a: string, ctx: Context)
    requires a != "" && a[0] == ':' && SegEnd(a) == |a| && PatternFrom(a, ctx)
    ensures PatternFrom(a + "/", ctx) && SegEnd(a + "/") == |a| && After(a + "/", ctx) == AfterNameSlash
  {
    ParamShape(a, ctx);
    assert PatternFrom("/", AfterName);
    ParamConcat(a, "/", ctx);
    BeforeSegEnd(a);
    SegEndLiteral(a, "/");
    ParamShape(a + "/", ctx);
  }

  lemma ShiftFind(n: Node, m: Node)
    requires |n.children| == 1 && n.handle.None? && m.handle.None? && |n.children[0].path| > 1
    requires n.children[0].path[0] == '/'
    requires m.path == n.path + "/" && |m.children| == 1 && m.children[0].path == n.children[0].path[1..]
    requires m.children[0].children == n.children[0].children && m.children[0].handle == n.children[0].handle
    ensures forall s :: Find(m, s) == Find(n, s)
  {
    var c, d := n.children[0], m.children[0];
    assert m.path[|n.path|] == '/' && m.path[..|n.path|] == n.path;
    forall s ensures Find(m, s) == Find(n, s) {
      if n.path <= s && |s| > |n.path| && s[|n.path|] == '/' {
        var t := s[|n.path|..];
        assert s == n.path + t;
        FindInMember(n.children, c, t);
        assert s == m.path + t[1..];
        assert s[|m.path|..] == t[1..];
        ChildShift(c, d, t);
        if |t| > 1 && t[1] == Head(d) { FindInMember(m.children, d, t[1..]); }
      }
    }
  }

  lemma ChildShift(c: Node, d: Node, t: string)
    requires |c.path| > 1 && d.path == c.path[1..] && d.children == c.children && d.handle == c.handle && t != ""
    requires t[0] == c.path[0]
    ensures Find(c, t) == Find(d, t[1..])
  {
    assert c.path == [c.path[0]] + d.path && t == [t[0]] + t[1..];
    assert c.path <= t <==> d.path <= t[1..];
    if c.path <= t { assert t[|c.path|..] == t[1..][|d.path|..]; }
  }

  /** Joining a node that has lost its handle, or one of two children, keeps the invariant. */
  lemma JoinedOk(n: Node, ctx: Context)
    requires Framed(n, ctx) && AllOk(n.children, After(n.path, ctx)) && n.priority > 0
    requires n.handle.Some? ==> Compressed(n)
    ensures var m := Joined(n);
      && Ok(m, ctx) && Head(m) == Head(n) && m.kind == n.kind && m.priority == n.priority
      && forall s :: Find(m, s) == Find(n, s)
  {
    if n.handle.None? {
      if n.kind == Param { ParamShape(n.path, ctx); }
      if n.kind == CatchAll { ContextEnded(n, ctx); }
      if |n.children| == 1 {
        match n.kind
        case Static => ConcatStatic(n, ctx);
        case Param =>
          if LastChar(n.path) != '/' {
            ConcatName(n, ctx);
          } else {
            assert Ok(n.children[0], AfterNameSlash);
          }
        case CatchAll =>
      } else if |n.children| > 1 {
        assert Ok(n.children[0], After(n.path, ctx)) && Ok(n.children[1], After(n.path, ctx));
      }
    }
  }

  /** `m` holds what `n` holds without `path`; joined, it is what is left of `n`. */
  lemma Settled(n: Node, m: Node, ctx: Context, path: string)
    requires Framed(m, ctx) && AllOk(m.children, After(m.path, ctx)) && (m.handle.Some? ==> Compressed(m))
    requires m.kind == n.kind && m.path == n.path && m.priority + 1 == n.priority
    requires forall s :: Find(m, s) == if s == path then None else Find(n, s)
    ensures Joined(m).priority == m.priority
    ensures m.priority > 0 ==> Removed(n, Joined(m), ctx, path)
    ensures m.priority == 0 ==> forall s :: s != path ==> Find(n, s).None?
  {
    if m.priority > 0 { JoinedOk(m, ctx); } else { NothingLeft(m, ctx); }
  }

  lemma NothingLeft(n: Node, ctx: Context)
    requires Framed(n, ctx) && AllOk(n.children, After(n.path, ctx)) && n.priority == 0
    ensures n.children == [] && n.handle.None? && forall s :: Find(n, s).None?
  {
    if n.children != [] {
      PriorityMember(n.children, n.children[0]);
      PriorityPositive(n.children[0], After(n.path, ctx));
    }
  }

  // ----- the handle of a descendant

  /** Children `ds` are children `cs` without `rest`. */
  ghost predicate Lost(cs: seq<Node>, ds: seq<Node>, ctx: Context, rest: string) {
    && Siblings(ds) && AllOk(ds, ctx)
    && Priorities(ds) + 1 == Priorities(cs)
    && forall t | t != "" :: FindIn(ds, t) == if t == rest then None else FindIn(cs, t)
  }

  lemma LostReplace(cs: seq<Node>, ctx: Context, k: nat, c: Node, rest: string)
    requires Siblings(cs) && AllOk(cs, ctx) && k < |cs| && rest != "" && rest[0] == Head(cs[k])
    requires Removed(cs[k], c, ctx, rest) && c.priority + 1 == cs[k].priority
    ensures Lost(cs, cs[k := c], ctx, rest)
  {
    var ds := cs[k := c];
    FindInUpdate(cs, k, c, rest);
    forall j | 0 <= j < |ds| ensures Ok(ds[j], ctx) && (ds[j].kind != Static ==> |ds| == 1) {
      assert Ok(cs[j], ctx);
    }
    forall t | t != "" ensures FindIn(ds, t) == if t == rest then None else FindIn(cs, t) {
      FindInUpdate(cs, k, c, t);
    }
    SumsUpdate(cs, k, c);
  }

  lemma LostDrop(cs: seq<Node>, ctx: Context, k: nat, rest: string)
    requires Siblings(cs) && AllOk(cs, ctx) && k < |cs| && rest != "" && rest[0] == Head(cs[k]) && cs[k].priority == 1
    requires forall s :: s != rest ==> Find(cs[k], s).None?
    ensures Lost(cs, cs[..k] + cs[k+1..], ctx, rest)
  {
    forall t | t != "" ensures FindIn(cs[..k] + cs[k+1..], t) == if t == rest then None else FindIn(cs, t) {
      LostDropAt(cs, ctx, k, rest, t);
    }
    DropKeeps(cs, ctx, k);
    SumsDrop(cs, k);
  }

  lemma DropKeeps(cs: seq<Node>, ctx: Context, k: nat)
    requires Siblings(cs) && AllOk(cs, ctx) && k < |cs|
    ensures Siblings(cs[..k] + cs[k+1..]) && AllOk(cs[..k] + cs[k+1..], ctx)
  {
    var ds := cs[..k] + cs[k+1..];
    assert forall j :: 0 <= j < |ds| ==> ds[j] == if j < k then cs[j] else cs[j+1];
  }

  lemma LostDropAt(cs: seq<Node>, ctx: Context, k: nat, rest: string, t: string)
    requires Siblings(cs) && AllOk(cs, ctx) && k < |cs| && rest != "" && rest[0] == Head(cs[k]) && t != ""
    requires forall s :: s != rest ==> Find(cs[k], s).None?
    ensures FindIn(cs[..k] + cs[k+1..], t) == if t == rest then None else FindIn(cs, t)
  {
    var ds, h := cs[..k] + cs[k+1..], HeadIndex(cs, t[0]);
    forall j | 0 <= j < |ds| ensures ds[j] == cs[if j < k then j else j + 1] {
    }
    if h < |cs| && h != k {
      assert Ok(cs[h], ctx) && cs[h] == ds[if h < k then h else h - 1];
      FindInMember(ds, cs[h], t);
      FindInMember(cs, cs[h], t);
    } else {
      assert HeadIndex(ds, t[0]) == |ds|;
    }
  }

  lemma LostFind(n: Node, m: Node, cs: seq<Node>, ctx: Context, rest: string)
    requires rest != "" && Lost(n.children, cs, ctx, rest)
    requires m.path == n.path && m.handle == n.handle && m.children == Resort(cs)
    ensures forall s :: Find(m, s) == if s == n.path + rest then None else Find(n, s)
  {
    ResortOk(cs, ctx);
    forall s ensures Find(m, s) == if s == n.path + rest then None else Find(n, s) {
      BehindPath(n.path, rest, s);
    }
  }

  lemma BehindPath(a: string, rest: string, s: string)
    requires rest != ""
    ensures s == a + rest <==> a <= s && |s| > |a| && s[|a|..] == rest
  {
    assert (a + rest)[|a|..] == rest && (a + rest)[..|a|] == a;
    if a <= s { assert s == a + s[|a|..]; }
  }

  lemma LostChild(cs: seq<Node>, ctx: Context, k: nat, r: Outcome, rest: string)
    requires Siblings(cs) && AllOk(cs, ctx) && k < |cs| && rest != "" && rest[0] == Head(cs[k])
    requires r.ok && Removal(cs[k], r, ctx, rest)
    ensures Lost(cs, if r.node.priority == 0 then cs[..k] + cs[k+1..] else cs[k := r.node], ctx, rest)
  {
    if r.node.priority == 0 { LostDrop(cs, ctx, k, rest); } else { LostReplace(cs, ctx, k, r.node, rest); }
  }

  lemma LostFramed(n: Node, ctx: Context, cs: seq<Node>, rest: string)
    requires Ok(n, ctx) && Lost(n.children, cs, After(n.path, ctx), rest) && n.priority > 0
    ensures var m := Reduced(n, cs);
      Framed(m, ctx) && AllOk(m.children, After(m.path, ctx)) && (m.handle.Some? ==> Compressed(m))
  {
    ResortIsPermutation(cs);
    ResortOk(cs, After(n.path, ctx));
  }

  lemma ShrunkCorrect(n: Node, ctx: Context, k: nat, r: Outcome, rest: string)
    requires Ok(n, ctx) && k < |n.children| && rest != "" && rest[0] == Head(n.children[k]) && n.priority > 0
    requires r.ok && Removal(n.children[k], r, After(n.path, ctx), rest)
    ensures var m := Shrunk(n, k, r.node);
      && m.priority == n.priority - 1
      && (m.priority > 0 ==> Removed(n, m, ctx, n.path + rest))
      && (m.priority == 0 ==> forall s :: s != n.path + rest ==> Find(n, s).None?)
  {
    var cs := if r.node.priority == 0 then n.children[..k] + n.children[k+1..] else n.children[k := r.node];
    LostChild(n.children, After(n.path, ctx), k, r, rest);
    LostFind(n, Reduced(n, cs), cs, After(n.path, ctx), rest);
    LostFramed(n, ctx, cs, rest);
    Settled(n, Reduced(n, cs), ctx, n.path + rest);
  }

  // ----- remove

  lemma {:induction false} RemoveCorrect(n: Node, ctx: Context, path: string)
    requires Ok(n, ctx)
    ensures Removal(n, Remove(n, path), ctx, path)
    decreases n, 1
  {
    var i := Lcp(n.path, path);
    PriorityPositive(n, ctx);
    if i == |n.path| && i < |path| {
      BelowCorrect(n, ctx, path);
    } else if i == |n.path| {
      HereCorrect(n, ctx);
      assert path == n.path;
    }
  }

  lemma {:induction false} HereCorrect(n: Node, ctx: Context)
    requires Ok(n, ctx)
    ensures Reducing(n, Unregister(n), ctx, n.path)
  {
    PriorityPositive(n, ctx);
    if n.handle.Some? {
      var m := n.(priority := n.priority - 1, handle := None);
      Bare(n, m, ctx);
      Settles(n, m, ctx, n.path);
    }
  }

  lemma {:induction false} Settles(n: Node, m: Node, ctx: Context, path: string)
    requires Framed(m, ctx) && AllOk(m.children, After(m.path, ctx)) && (m.handle.Some? ==> Compressed(m))
    requires m.kind == n.kind && m.path == n.path && m.priority + 1 == n.priority && Find(n, path).Some?
    requires forall s :: Find(m, s) == if s == path then None else Find(n, s)
    ensures Reducing(n, Outcome(Joined(m), true), ctx, path)
  {
    Settled(n, m, ctx, path);
  }

  lemma {:induction false} Bare(n: Node, m: Node, ctx: Context)
    requires Ok(n, ctx) && n.handle.Some? && n.priority > 0 && m == n.(priority := n.priority - 1, handle := None)
    ensures Framed(m, ctx) && AllOk(m.children, After(m.path, ctx))
    ensures forall s :: Find(m, s) == if s == n.path then None else Find(n, s)
  {
  }

  lemma {:induction false} BelowCorrect(n: Node, ctx: Context, path: string)
    requires Ok(n, ctx) && n.path <= path && |n.path| < |path|
    ensures Reducing(n, RemoveBelow(n, |n.path|, path), ctx, path)
    decreases n, 0
  {
    var i, after := |n.path|, After(n.path, ctx);
    var rest := path[i..];
    assert path == n.path + rest && rest[0] == path[i] && AllOk(n.children, after);
    PriorityPositive(n, ctx);
    var k := HeadIndex(n.children, path[i]);
    if k < |n.children| {
      var c := n.children[k];
      RemoveCorrect(c, after, rest);
      var r := Remove(c, rest);
      if r.ok {
        ShrunkCorrect(n, ctx, k, r, rest);
      } else {
        assert n.children[k := c] == n.children;
      }
    }
  }
}
