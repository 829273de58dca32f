/**
 `Add` keeps the shape of the tree, registers exactly the new pattern, and is refused exactly
 when the pattern is registered or conflicts with a registered one (up to the conflicts of
 `Overlooked`).
 */
module RouteAdd {
  import opened Options
  import opened RoutePatterns
  import opened RouteTree
  import opened RouteShape

  // ----- construct

  lemma IndexOfNameEnd(path: string, ctx: Context)
    requires path != "" && IsWild(path[0]) && PatternFrom(path, ctx)
    ensures IndexAny(path[1..], ":*/") == (if SegEnd(path) == |path| then -1 else SegEnd(path) - 1)
  {
    BeforeSegEnd(path);
    var e, j := SegEnd(path), IndexAny(path[1..], ":*/");
    assert forall k :: 0 <= k < e - 1 ==> path[1..e][k] == path[1..][k];
    if e < |path| {
      assert path[1..][e-1] == '/';
      assert '/' in ":*/";
    }
    assert forall k :: 0 <= k < |path| - 1 ==> path[1..][k] == path[k+1];
  }

  ghost predicate HoldsExactly(n: Node, path: string, handle: Handle) {
    forall s :: Find(n, s) == if s == path then Some(handle) else None
  }

  lemma LeafHolds(n: Node, handle: Handle)
    requires n.children == [] && n.handle == Some(handle)
    ensures HoldsExactly(n, n.path, handle)
  {
    forall s ensures Find(n, s) == if s == n.path then Some(handle) else None {
      if n.path <= s && |s| == |n.path| { assert s == n.path; }
    }
  }

  lemma ChainHolds(n: Node, rest: string, handle: Handle)
    requires |n.children| == 1 && n.handle == None && rest != ""
    requires Head(n.children[0]) == rest[0] && n.children[0].path != "" && HoldsExactly(n.children[0], rest, handle)
    ensures HoldsExactly(n, n.path + rest, handle)
  {
    forall s ensures Find(n, s) == if s == n.path + rest then Some(handle) else None {
      if n.path <= s && |s| > |n.path| {
        var t := s[|n.path|..];
        assert s == n.path + t;
        if t[0] == rest[0] {
          FindInMember(n.children, n.children[0], t);
        } else {
          assert t != rest;
        }
      } else {
        assert (n.path + rest)[..|n.path|] == n.path;
      }
    }
  }

  lemma {:induction false} ConstructCorrect(path: string, ctx: Context, handle: Handle) returns (c: Node)
    requires path != "" && PatternFrom(path, ctx)
    ensures Construct(path, handle) == Some(c)
    ensures Ok(c, ctx) && Head(c) == path[0] && c.priority == 1 && (c.kind == Static <==> !IsWild(path[0]))
    ensures HoldsExactly(c, path, handle)
    decreases |path|, 1
  {
    if path[0] == ':' {
      c := ConstructParam(path, ctx, handle);
    } else if path[0] == '*' {
      IndexOfNameEnd(path, ctx);
      c := Construct(path, handle).value;
      LeafHolds(c, handle);
    } else {
      c := ConstructStatic(path, ctx, handle);
    }
  }

  lemma {:induction false} ConstructStatic(path: string, ctx: Context, handle: Handle) returns (c: Node)
    requires path != "" && !IsWild(path[0]) && PatternFrom(path, ctx)
    ensures Construct(path, handle) == Some(c)
    ensures Ok(c, ctx) && Head(c) == path[0] && c.priority == 1 && c.kind == Static
    ensures HoldsExactly(c, path, handle)
    decreases |path|, 0
  {
    var i := IndexAny(path, ":*");
    if i == -1 {
      c := Construct(path, handle).value;
      LeafHolds(c, handle);
    } else {
      var a, rest := path[..i], path[i..];
      assert path == a + rest && a != "" && IsWild(rest[0]);
      PatternLiteral(a, rest, ctx);
      var child := ConstructCorrect(rest, After(a, ctx), handle);
      c := Node(a, child.maxParams, path[0], Static, 1, [child], None);
      assert Construct(path, handle) == Some(c);
      ChainHolds(c, rest, handle);
      ChainOk(c, ctx);
    }
  }

  lemma ChainOk(n: Node, ctx: Context)
    requires |n.children| == 1 && n.handle.None? && Labelled(n) && PatternFrom(n.path, ctx)
    requires Ok(n.children[0], After(n.path, ctx)) && (n.kind == Static ==> n.children[0].kind != Static)
    requires n.kind == CatchAll || LastChar(n.path) != '/' ==> n.kind == Static
    requires n.priority == n.children[0].priority
    requires n.maxParams == n.children[0].maxParams + if n.kind == Static then 0 else 1
    ensures Ok(n, ctx)
  {
    assert n.children == [n.children[0]] && n.children[1..] == [];
  }

  lemma SlashedParam(path: string, ctx: Context) returns (a: string, rest: string)
    requires path != "" && path[0] == ':' && PatternFrom(path, ctx) && SegEnd(path) < |path|
    ensures path == a + rest && a == path[..SegEnd(path)+1]
    ensures a[0] == ':' && PatternFrom(a, ctx) && SegEnd(a) == |a| - 1 && LastChar(a) == '/'
    ensures After(a, ctx) == AfterNameSlash && PatternFrom(rest, AfterNameSlash)
  {
    var e := SegEnd(path);
    BeforeSegEnd(path);
    a, rest := path[..e+1], path[e+1..];
    assert path == path[..e] + path[e..] && a == path[..e] + "/" && path == a + rest;
    SegEndLiteral(path[..e], path[e..]);
    SegEndLiteral(path[..e], "/");
    assert a[1..e] == path[1..e] && a[e..] == "/" && path[e..] == "/" + rest;
    assert path[e..][1..] == rest;
    assert PatternFrom("/", AfterName);
    ParamShape(a, ctx);
  }

  /** A name with its '/', in front of what is constructed from the rest. */
  lemma ConstructSlashed(path: string, ctx: Context, handle: Handle, child: Node)
    requires path != "" && path[0] == ':' && PatternFrom(path, ctx) && SegEnd(path) + 1 < |path|
    requires Construct(path[SegEnd(path)+1..], handle) == Some(child)
    ensures Construct(path, handle) == Some(Node(path[..SegEnd(path)+1], 1 + child.maxParams, NO_INDEX, Param, 1,
      [child], None))
  {
    IndexOfNameEnd(path, ctx);
    assert path[SegEnd(path)] == '/' && SegEnd(path) > 1;
  }

  lemma {:induction false} ConstructParam(path: string, ctx: Context, handle: Handle) returns (c: Node)
    requires path != "" && path[0] == ':' && PatternFrom(path, ctx)
    ensures Construct(path, handle) == Some(c)
    ensures Ok(c, ctx) && Head(c) == ':' && c.priority == 1 && c.kind == Param
    ensures HoldsExactly(c, path, handle)
    decreases |path|, 0
  {
    IndexOfNameEnd(path, ctx);
    var e := SegEnd(path);
    if e == |path| {
      c := Node(path, 1, NO_INDEX, Param, 1, [], Some(handle));
      LeafHolds(c, handle);
      ParamShape(path, ctx);
    } else {
      var a, rest := SlashedParam(path, ctx);
      if rest == "" {
        c := Node(a, 1, NO_INDEX, Param, 1, [], Some(handle));
        assert a == path;
        LeafHolds(c, handle);
      } else {
        var child := ConstructCorrect(rest, AfterNameSlash, handle);
        c := Node(a, 1 + child.maxParams, NO_INDEX, Param, 1, [child], None);
        assert rest == path[e+1..];
        ConstructSlashed(path, ctx, handle, child);
        ChainHolds(c, rest, handle);
        ChainOk(c, ctx);
      }
    }
  }

  // ----- one more handle below a node

  /** `m` is `n` with `path` registered, and nothing else about `n` has changed. */
  ghost predicate Added(n: Node, m: Node, ctx: Context, path: string, handle: Handle) {
    && Ok(m, ctx) && m.kind == n.kind && Head(m) == Head(n)
    && m.priority == n.priority + 1 && m.maxParams >= n.maxParams
    && forall s :: Find(m, s) == if s == path then Some(handle) else Find(n, s)
  }

  /** No pattern of `n` conflicts with `path` in the way `add` overlooks. */
  ghost predicate Safe(n: Node, path: string) { forall s :: Find(n, s).Some? ==> !Overlooked(path, s) }

  lemma StaticIndices(cs: seq<Node>, ctx: Context)
    requires Siblings(cs) && AllOk(cs, ctx)
    ensures DistinctIndices(cs)
  {
    forall j, k | 0 <= j < k < |cs| ensures cs[j].index != cs[k].index {
      assert Ok(cs[j], ctx) && Ok(cs[k], ctx);
    }
  }

  lemma ResortOk(cs: seq<Node>, ctx: Context)
    requires Siblings(cs) && AllOk(cs, ctx)
    ensures Siblings(Resort(cs)) && AllOk(Resort(cs), ctx) && Sorted(Resort(cs))
    ensures |cs| == 1 ==> Resort(cs) == cs
    ensures forall s | s != "" :: FindIn(Resort(cs), s) == FindIn(cs, s)
  {
    ResortIsPermutation(cs);
    StaticIndices(cs, ctx);
    ResortSorts(cs);
    var rs := Resort(cs);
    forall k | 0 <= k < |rs| ensures Ok(rs[k], ctx) && (rs[k].kind != Static ==> |rs| == 1) {
      assert rs[k] in cs;
    }
    forall s | s != "" ensures FindIn(rs, s) == FindIn(cs, s) {
      FindInSame(rs, cs, s);
    }
    if |cs| == 1 { assert rs[0] in cs; }
  }

  lemma FindInUpdate(cs: seq<Node>, k: nat, c: Node, s: string)
    requires DistinctHeads(cs) && k < |cs| && Head(c) == Head(cs[k]) && s != ""
    ensures DistinctHeads(cs[k := c])
    ensures FindIn(cs[k := c], s) == if Head(c) == s[0] then Find(c, s) else FindIn(cs, s)
    ensures Head(c) == s[0] ==> FindIn(cs, s) == Find(cs[k], s)
  {
    var ds := cs[k := c];
    forall i, j | 0 <= i < j < |ds| ensures Head(ds[i]) != Head(ds[j]) {
      assert Head(ds[i]) == Head(cs[i]) && Head(ds[j]) == Head(cs[j]);
    }
    var h, g := HeadIndex(ds, s[0]), HeadIndex(cs, s[0]);
    assert forall j :: 0 <= j < |cs| ==> Head(cs[j]) == Head(ds[j]);
    assert h == g;
    if Head(c) == s[0] {
      assert h <= k;
      assert h == k;
    }
  }

  /** Children `ds` are children `cs` with `rest` registered below one of them. */
  ghost predicate Gained(cs: seq<Node>, ds: seq<Node>, ctx: Context, rest: string, handle: Handle) {
    && rest != "" && ds != [] && Siblings(ds) && AllOk(ds, ctx)
    && Priorities(ds) == Priorities(cs) + 1
    && forall t | t != "" :: FindIn(ds, t) == if t == rest then Some(handle) else FindIn(cs, t)
  }

  lemma GrownFind(n: Node, cs: seq<Node>, c: Node, ctx: Context, rest: string, handle: Handle)
    requires Gained(n.children, cs, ctx, rest, handle)
    ensures forall s :: Find(Grown(n, cs, c), s) == if s == n.path + rest then Some(handle) else Find(n, s)
  {
    ResortOk(cs, ctx);
    forall s ensures Find(Grown(n, cs, c), s) == if s == n.path + rest then Some(handle) else Find(n, s) {
      if n.path <= s && |s| > |n.path| {
        var t := s[|n.path|..];
        assert s == n.path + t;
        assert (n.path + rest)[|n.path|..] == rest;
        assert t == rest <==> s == n.path + rest;
      } else {
        assert (n.path + rest)[..|n.path|] == n.path;
      }
    }
  }

  lemma GrownOk(n: Node, ctx: Context, cs: seq<Node>, c: Node, rest: string, handle: Handle)
    requires Framed(n, ctx) && Gained(n.children, cs, After(n.path, ctx), rest, handle)
    requires MaxParams(cs) == Max(MaxParams(n.children), c.maxParams)
    requires n.handle.Some? || |cs| >= 2 || (n.kind == Static && cs[0].kind != Static) ||
      (n.kind == Param && LastChar(n.path) == '/')
    requires n.kind == CatchAll || (n.kind == Param && LastChar(n.path) != '/') ==> n.handle.Some?
    ensures Added(n, Grown(n, cs, c), ctx, n.path + rest, handle)
  {
    GrownFind(n, cs, c, After(n.path, ctx), rest, handle);
    ResortOk(cs, After(n.path, ctx));
    ResortIsPermutation(cs);
    assert Compressed(Grown(n, cs, c));
  }

  lemma GrownReplace(n: Node, ctx: Context, k: nat, c: Node, rest: string, handle: Handle)
    requires Ok(n, ctx) && k < |n.children| && rest != "" && rest[0] == Head(n.children[k])
    requires Added(n.children[k], c, After(n.path, ctx), rest, handle)
    ensures Added(n, Grown(n, n.children[k := c], c), ctx, n.path + rest, handle)
  {
    var cs := n.children[k := c];
    GainedReplace(n.children, After(n.path, ctx), k, c, rest, handle);
    SumsUpdate(n.children, k, c);
    GrownOk(n, ctx, cs, c, rest, handle);
  }

  lemma GainedReplace(bs: seq<Node>, ctx: Context, k: nat, c: Node, rest: string, handle: Handle)
    requires Siblings(bs) && AllOk(bs, ctx) && k < |bs| && rest != "" && rest[0] == Head(bs[k])
    requires Added(bs[k], c, ctx, rest, handle)
    ensures Gained(bs, bs[k := c], ctx, rest, handle)
  {
    var cs := bs[k := c];
    FindInUpdate(bs, k, c, rest);
    forall j | 0 <= j < |cs| ensures Ok(cs[j], ctx) && (cs[j].kind != Static ==> |cs| == 1) {
      assert Ok(bs[j], ctx);
    }
    forall t | t != "" ensures FindIn(cs, t) == if t == rest then Some(handle) else FindIn(bs, t) {
      FindInUpdate(bs, k, c, t);
    }
    SumsUpdate(bs, k, c);
  }

  lemma GrownAppend(n: Node, ctx: Context, c: Node, rest: string, handle: Handle)
    requires Framed(n, ctx) && AllOk(n.children, After(n.path, ctx))
    requires Compressed(n) || (n.kind == Static && |n.children| == 1)
    requires rest != "" && Ok(c, After(n.path, ctx)) && c.priority == 1 && Head(c) == rest[0]
    requires HoldsExactly(c, rest, handle)
    requires n.children != [] ==> c.kind == Static && n.children[0].kind == Static
    requires forall k :: 0 <= k < |n.children| ==> Head(n.children[k]) != rest[0]
    ensures Added(n, Grown(n, n.children + [c], c), ctx, n.path + rest, handle)
  {
    GainedAppend(n.children, After(n.path, ctx), c, rest, handle);
    SumsAppend(n.children, c);
    GrownOk(n, ctx, n.children + [c], c, rest, handle);
  }

  lemma GainedAppend(bs: seq<Node>, ctx: Context, c: Node, rest: string, handle: Handle)
    requires Siblings(bs) && AllOk(bs, ctx)
    requires rest != "" && Ok(c, ctx) && c.priority == 1 && Head(c) == rest[0] && HoldsExactly(c, rest, handle)
    requires bs != [] ==> c.kind == Static && bs[0].kind == Static
    requires forall k :: 0 <= k < |bs| ==> Head(bs[k]) != rest[0]
    ensures Gained(bs, bs + [c], ctx, rest, handle)
  {
    forall t | t != "" ensures FindIn(bs + [c], t) == if t == rest then Some(handle) else FindIn(bs, t) {
      AppendedAt(bs, c, t);
    }
    AppendKeeps(bs, ctx, c);
    SumsAppend(bs, c);
  }

  /** A child with a head of its own is found behind that head, and hides nothing. */
  lemma AppendedAt(bs: seq<Node>, c: Node, t: string)
    requires DistinctHeads(bs) && t != "" && c.path != ""
    requires forall k :: 0 <= k < |bs| ==> bs[k].path != "" && Head(bs[k]) != Head(c)
    ensures DistinctHeads(bs + [c])
    ensures FindIn(bs + [c], t) == if t[0] == Head(c) then Find(c, t) else FindIn(bs, t)
    ensures t[0] == Head(c) ==> FindIn(bs, t) == None
  {
    var cs, h := bs + [c], HeadIndex(bs, t[0]);
    assert forall k :: 0 <= k < |bs| ==> cs[k] == bs[k];
    if h < |bs| {
      FindInMember(cs, bs[h], t);
      FindInMember(bs, bs[h], t);
    } else if t[0] == Head(c) {
      FindInMember(cs, c, t);
    } else {
      assert HeadIndex(cs, t[0]) == |cs|;
    }
  }

  lemma AppendKeeps(bs: seq<Node>, ctx: Context, c: Node)
    requires Siblings(bs) && AllOk(bs, ctx) && Ok(c, ctx)
    requires bs != [] ==> c.kind == Static && bs[0].kind == Static
    requires forall k :: 0 <= k < |bs| ==> Head(bs[k]) != Head(c)
    ensures Siblings(bs + [c]) && AllOk(bs + [c], ctx)
  {
  }

  // ----- splitting and joining nodes

  /** A node and its only child hold what one node with the joined path holds. */
  lemma JoinFind(m: Node, n: Node)
    requires |m.children| == 1 && m.children[0].path != "" && n.path == m.path + m.children[0].path
    requires n.children == m.children[0].children && n.handle == m.children[0].handle
    ensures forall s :: Find(m, s) == if s == m.path then m.handle else Find(n, s)
  {
    var cut := m.children[0];
    assert n.path[..|m.path|] == m.path;
    forall s ensures Find(m, s) == if s == m.path then m.handle else Find(n, s) {
      if m.path <= s && |s| > |m.path| {
        var t := s[|m.path|..];
        assert s == m.path + t;
        assert n.path <= s <==> cut.path <= t;
        if t[0] == Head(cut) { FindInMember(m.children, cut, t); }
        if cut.path <= t { assert s[|n.path|..] == t[|cut.path|..]; }
      } else if m.path <= s {
        assert s == m.path;
      }
    }
  }

  lemma SplitStatic(n: Node, ctx: Context, i: nat, handle: Option<Handle>)
    requires Ok(n, ctx) && n.kind == Static && 0 < i < |n.path|
    ensures var m := Split(n, i, handle);
      && Framed(m, ctx) && |m.children| == 1 && AllOk(m.children, After(m.path, ctx))
      && m.children[0].kind == Static && Head(m.children[0]) == n.path[i] && m.children[0].path == n.path[i..]
      && forall s :: Find(m, s) == if s == n.path[..i] then handle else Find(n, s)
  {
    var m := Split(n, i, handle);
    var a, b := n.path[..i], n.path[i..];
    assert n.path == a + b && b[0] == n.path[i];
    PatternLiteral(a, b, ctx);
    AfterConcat(a, b, ctx);
    JoinFind(m, n);
    assert m.children[1..] == [];
    assert Ok(m.children[0], After(a, ctx));
  }

  lemma SplitParam(n: Node, ctx: Context, handle: Handle)
    requires Ok(n, ctx) && n.kind == Param && LastChar(n.path) == '/'
    ensures var m := Split(n, |n.path| - 1, Some(handle));
      && Framed(m, ctx) && |m.children| == 1 && m.children[0].kind == Static && m.children[0].path == "/"
      && Framed(m.children[0], AfterName) && AllOk(m.children[0].children, AfterNameSlash)
      && After(m.path, ctx) == AfterName && LastChar(m.path) != '/'
      && forall s :: Find(m, s) == if s == m.path then Some(handle) else Find(n, s)
  {
    var e := |n.path| - 1;
    var m := Split(n, e, Some(handle));
    ParamShape(n.path, ctx);
    NameWithoutSlash(n.path, n.path[..e], ctx);
    SlashCut(n, ctx, m.children[0]);
    NameCut(n, ctx, handle, m);
    JoinFind(m, n);
  }

  lemma {:induction false} SlashCut(n: Node, ctx: Context, c: Node)
    requires Ok(n, ctx) && n.kind == Param && LastChar(n.path) == '/' && After(n.path, ctx) == AfterNameSlash
    requires c == n.(path := "/", index := '/', kind := Static, maxParams := MaxParams(n.children))
    ensures Framed(c, AfterName) && AllOk(c.children, AfterNameSlash)
  {
    assert PatternFrom("/", AfterName) && After("/", AfterName) == After("", AfterNameSlash);
  }

  lemma {:induction false} NameCut(n: Node, ctx: Context, handle: Handle, m: Node)
    requires Ok(n, ctx) && n.kind == Param && |n.path| > 1 && m == Split(n, |n.path| - 1, Some(handle))
    requires m.path != "" && SegEnd(m.path) == |m.path| && PatternFrom(m.path, ctx)
    ensures Framed(m, ctx)
  {
    assert m.children[1..] == [];
  }

  lemma {:induction false} NameWithoutSlash(p: string, a: string, ctx: Context)
    requires p != "" && p[0] == ':' && SegEnd(p) == |p| - 1 && PatternFrom(p, ctx) && a == p[..|p|-1]
    ensures a != "" && a[0] == ':' && SegEnd(a) == |a| && PatternFrom(a, ctx)
    ensures After(a, ctx) == AfterName && LastChar(a) != '/' && p == a + "/" && p[|p|-1..] == "/"
  {
    var e := |a|;
    BeforeSegEnd(p);
    assert forall k :: 0 <= k < e ==> a[k] == p[k];
    assert SegEnd(a) == e by { SegEndLiteral(a, ""); assert a + "" == a; }
    assert a[1..e] == p[1..e] && a[e..] == "";
    ParamShape(p, ctx);
    ParamShape(a, ctx);
  }

  /** Joining a handle-less static node with its only child, or leaving it above a wildcard. */
  lemma ConcatStatic(n: Node, ctx: Context)
    requires Framed(n, ctx) && n.kind == Static && n.handle.None? && |n.children| == 1
    requires Ok(n.children[0], After(n.path, ctx))
    ensures Ok(Concat(n), ctx) && Head(Concat(n)) == Head(n) && Concat(n).kind == Static
    ensures Concat(n).priority == n.priority && Concat(n).maxParams == n.maxParams
    ensures forall s :: Find(Concat(n), s) == Find(n, s)
  {
    var child := n.children[0];
    assert n.children[1..] == [];
    assert Priorities(n.children) == child.priority && MaxParams(n.children) == child.maxParams;
    if child.kind == Static {
      var m := Concat(n);
      PatternLiteral(n.path, child.path, ctx);
      AfterConcat(n.path, child.path, ctx);
      JoinFind(n, m);
      forall s ensures Find(m, s) == Find(n, s) {
        if s == n.path { assert !(m.path <= s); }
      }
    }
  }

  lemma SplitSlashAdds(n: Node, ctx: Context, handle: Handle)
    requires Ok(n, ctx) && n.kind == Param && LastChar(n.path) == '/'
    ensures Added(n, SplitSlash(n, handle), ctx, n.path[..|n.path|-1], handle)
  {
    SplitParam(n, ctx, handle);
    var m := Split(n, |n.path| - 1, Some(handle));
    var child, r := m.children[0], SplitSlash(n, handle);
    assert m.children == [child] && m.children[1..] == [];
    if child.handle.None? && |child.children| == 1 {
      ConcatStatic(child, AfterName);
      assert r.children == [Concat(child)] && r.children[1..] == [];
      OnlyChildFinds(m, r, child, Concat(child));
    } else {
      assert Ok(child, AfterName);
    }
  }

  /** A node finds the same with another only child that finds the same. */
  lemma OnlyChildFinds(m: Node, r: Node, c: Node, d: Node)
    requires m.children == [c] && r.children == [d] && m.path == r.path && m.handle == r.handle
    requires c.path != "" && d.path != "" && Head(c) == Head(d) && forall s :: Find(c, s) == Find(d, s)
    ensures forall s :: Find(r, s) == Find(m, s)
  {
    forall t | t != "" ensures FindIn([c], t) == FindIn([d], t) {
      FindInOnly(c, t);
      FindInOnly(d, t);
    }
  }

  lemma FindInOnly(c: Node, t: string)
    requires c.path != "" && t != ""
    ensures FindIn([c], t) == if Head(c) == t[0] then Find(c, t) else None
  {
    if Head(c) != t[0] { assert HeadIndex([c], t[0]) == 1; }
  }

  // ----- add

  /** `path` may be handed to `n`: it starts like a static node, or with a wildcard. */
  predicate Reaches(n: Node, path: string) {
    path != "" && (n.kind == Static && path[0] != Head(n) ==> IsWild(path[0]))
  }

  /** Conflicts of patterns that start with the path of a node are conflicts of their rests. */
  lemma StripNode(n: Node, ctx: Context, p: string, q: string)
    requires Labelled(n) && PatternFrom(n.path, ctx) && n.kind != CatchAll
    requires n.kind == Param && LastChar(n.path) != '/' ==> SegEnd(p) == 0 && SegEnd(q) == 0
    ensures Conflict(n.path + p, n.path + q) == Conflict(p, q)
    ensures Overlooked(n.path + p, n.path + q) == Overlooked(p, q)
  {
    if n.kind == Static {
      StripLiteral(n.path, p, q);
    } else {
      ParamShape(n.path, ctx);
      ParamToken(n.path, p);
      ParamToken(n.path, q);
      StripLiteral("/", p, q);
    }
  }

  /** Below a ':name' without its '/', everything starts with '/'. */
  lemma BelowName(n: Node, ctx: Context, s: string)
    requires Ok(n, ctx) && n.kind == Param && LastChar(n.path) != '/' && Find(n, s).Some?
    ensures SegEnd(s[|n.path|..]) == 0
  {
    var t := s[|n.path|..];
    ParamShape(n.path, ctx);
    if t != "" {
      var c := FindInSome(n.children, t);
      assert Ok(c, AfterName);
    }
  }

  /** A pattern that goes on where the name of `n` ends has a longer name than `n`. */
  lemma LongerName(n: Node, ctx: Context, path: string, s: string)
    requires Ok(n, ctx) && n.kind == Param && PatternFrom(path, ctx) && Find(n, s).Some?
    requires n.path[..SegEnd(n.path)] <= path
    ensures SegEnd(path) > SegEnd(n.path) ==> Overlooked(path, s) && Conflict(path, s)
  {
    ParamShape(n.path, ctx);
    var t := s[|n.path|..];
    assert s == n.path + t;
    if LastChar(n.path) != '/' { BelowName(n, ctx, s); }
    ParamToken(n.path, t);
    var f := SegEnd(n.path);
    assert |path[..SegEnd(path)]| == SegEnd(path) && |s[..f]| == f;
  }

  lemma SafeBelow(n: Node, ctx: Context, k: nat, p: string)
    requires Ok(n, ctx) && k < |n.children| && Safe(n, n.path + p) && n.kind != CatchAll
    requires n.kind == Param && LastChar(n.path) != '/' ==> SegEnd(p) == 0
    ensures Safe(n.children[k], p)
  {
    var c := n.children[k];
    forall t | Find(c, t).Some? ensures !Overlooked(p, t) {
      var s := n.path + t;
      assert Ok(c, After(n.path, ctx));
      FindInMember(n.children, c, t);
      assert s[|n.path|..] == t;
      assert Find(n, s).Some?;
      if n.kind == Param && LastChar(n.path) != '/' { BelowName(n, ctx, s); }
      StripNode(n, ctx, p, t);
    }
  }

  lemma ContextEnded(n: Node, ctx: Context)
    requires Labelled(n) && n.kind == CatchAll && AllOk(n.children, After(n.path, ctx))
    ensures n.children == []
  {
    assert After(n.path, ctx) == Ended;
    NoneEnded(n.children);
  }

  lemma NoneEnded(cs: seq<Node>)
    ensures AllOk(cs, Ended) ==> cs == []
  {
    if cs != [] { assert !Ok(cs[0], Ended); }
  }

  lemma {:induction false} AddCorrect(n: Node, ctx: Context, path: string, handle: Handle)
    requires Ok(n, ctx) && PatternFrom(path, ctx) && Reaches(n, path) && Safe(n, path)
    ensures Add(n, path, handle).ok ==> Added(n, Add(n, path, handle).node, ctx, path, handle)
    decreases |path|, n, 1
  {
    if Add(n, path, handle).ok {
      var i := Lcp(path, n.path);
      if n.kind == Static && 0 < i < |n.path| {
        AddSplitCorrect(n, ctx, path, handle);
      } else if i == |n.path| < |path| {
        NextCorrect(n, ctx, path, handle);
      } else if n.kind == Param && i == |n.path| - 1 && LastChar(n.path) == '/' {
        AddSlashCorrect(n, ctx, path, handle);
      } else {
        assert path == n.path;
        RegisterCorrect(n, ctx, handle);
      }
    }
  }

  lemma RegisterCorrect(n: Node, ctx: Context, handle: Handle)
    requires Ok(n, ctx)
    ensures Register(n, handle).ok ==> Added(n, Register(n, handle).node, ctx, n.path, handle)
  {
  }

  lemma NoSlashBefore(b: string, e: nat)
    requires e <= SegEnd(b)
    ensures forall k :: 0 <= k < e ==> b[..e][k] != '/'
  {
    BeforeSegEnd(b);
  }

  /** The name that `b` has, with something behind it. */
  lemma NamePrefix(b: string, a: string, q: string)
    requires b != "" && SegEnd(b) == |b| - 1 && a == b[..|b|-1]
    ensures SegEnd(a + q) == |a| + SegEnd(q)
  {
    NoSlashBefore(b, |b| - 1);
    SegEndLiteral(a, q);
  }

  lemma TakeDrop(s: string, e: nat)
    requires e <= |s|
    ensures s == s[..e] + s[e..]
  {
  }

  lemma EndsWithName(n: Node, ctx: Context, path: string)
    requires Ok(n, ctx) && PatternFrom(path, ctx) && path != "" && Safe(n, path)
    requires n.kind == Param && SegEnd(n.path) == |n.path| - 1 && Lcp(path, n.path) == |n.path| - 1
    ensures path == n.path[..|n.path|-1]
  {
    var e := |n.path| - 1;
    var a, q := path[..e], path[e..];
    TakeDrop(path, e);
    NamePrefix(n.path, a, q);
    var s := Inhabited(n, ctx);
    LongerName(n, ctx, path, s);
  }

  lemma WildRefused(n: Node, path: string, handle: Handle)
    requires Labelled(n) && path != ""
    ensures n.kind == Static && IsWild(path[0]) ==> !Add(n, path, handle).ok
  {
  }

  lemma AddSlashCorrect(n: Node, ctx: Context, path: string, handle: Handle)
    requires Ok(n, ctx) && PatternFrom(path, ctx) && path != "" && Safe(n, path)
    requires n.kind == Param && LastChar(n.path) == '/' && Lcp(path, n.path) == |n.path| - 1
    ensures Added(n, SplitSlash(n, handle), ctx, path, handle)
  {
    ParamShape(n.path, ctx);
    EndsWithName(n, ctx, path);
    SplitSlashAdds(n, ctx, handle);
  }

  lemma AddSplitCorrect(n: Node, ctx: Context, path: string, handle: Handle)
    requires Ok(n, ctx) && PatternFrom(path, ctx) && n.kind == Static && 0 < Lcp(path, n.path) < |n.path|
    requires Add(n, path, handle).ok
    ensures Added(n, Add(n, path, handle).node, ctx, path, handle)
  {
    var i := Lcp(path, n.path);
    var a, rest := n.path[..i], path[i..];
    assert path == a + rest;
    if i == |path| {
      SplitStatic(n, ctx, i, Some(handle));
      assert path == a;
    } else {
      WildRefused(Split(n, i, None).children[0], rest, handle);
      PatternLiteral(a, rest, ctx);
      SplitAppend(n, ctx, i, rest, handle);
    }
  }

  /** Below a node that has been split, a new child for what goes on otherwise. */
  lemma SplitAppend(n: Node, ctx: Context, i: nat, rest: string, handle: Handle)
    requires Ok(n, ctx) && n.kind == Static && 0 < i < |n.path| && rest != "" && rest[0] != n.path[i]
    requires !IsWild(rest[0])
    requires PatternFrom(rest, After(n.path[..i], ctx))
    ensures Next(Split(n, i, None), i, n.path[..i] + rest, handle).ok
    ensures Added(n, Next(Split(n, i, None), i, n.path[..i] + rest, handle).node, ctx, n.path[..i] + rest, handle)
  {
    var a, m := n.path[..i], Split(n, i, None);
    SplitStatic(n, ctx, i, None);
    var c := ConstructCorrect(rest, After(a, ctx), handle);
    assert ChildIndex(m.children, rest[0]) == 1;
    assert (a + rest)[i] == rest[0] && (a + rest)[i..] == rest;
    GrownAppend(m, ctx, c, rest, handle);
    forall s ensures Find(n, s) == Find(m, s) {
      if s == a { assert !(n.path <= s); }
    }
  }

  lemma {:induction false} NextCorrect(n: Node, ctx: Context, path: string, handle: Handle)
    requires Ok(n, ctx) && PatternFrom(path, ctx) && Reaches(n, path) && Safe(n, path)
    requires Lcp(path, n.path) == |n.path| < |path| && n.kind != CatchAll
    requires Next(n, |n.path|, path, handle).ok
    ensures Added(n, Next(n, |n.path|, path, handle).node, ctx, path, handle)
    decreases |path|, n, 0
  {
    var i := |n.path|;
    var rest, after := path[i..], After(n.path, ctx);
    assert path == n.path + rest;
    RestIsPattern(n, ctx, path);
    assert n.children != [] ==> Ok(n.children[0], after);
    if !(n.children != [] && IsWild(path[i]) && n.children[0].kind == Static) {
      ChildIndexIsHeadIndex(n.children, after, path[i]);
      var k := ChildIndex(n.children, path[i]);
      if k < |n.children| {
        assert Ok(n.children[k], after);
        SafeBelow(n, ctx, k, rest);
        AddCorrect(n.children[k], after, rest, handle);
        AddedHead(n.children[k], after, rest, handle);
        GrownReplace(n, ctx, k, Add(n.children[k], rest, handle).node, rest, handle);
      } else {
        var c := ConstructCorrect(rest, after, handle);
        forall j | 0 <= j < |n.children| ensures Head(n.children[j]) != rest[0] {
          assert Ok(n.children[j], after);
        }
        GrownAppend(n, ctx, c, rest, handle);
      }
    }
  }

  /** A successful `Add` below a wildcard has started with that wildcard. */
  lemma AddedHead(n: Node, ctx: Context, path: string, handle: Handle)
    requires Ok(n, ctx) && Reaches(n, path) && Add(n, path, handle).ok
    ensures path[0] == Head(n)
  {
    if n.kind == Param { ParamShape(n.path, ctx); }
  }

  /** What is left of a pattern behind the path of a node fits the context there. */
  lemma RestIsPattern(n: Node, ctx: Context, path: string)
    requires Ok(n, ctx) && PatternFrom(path, ctx) && n.kind != CatchAll && Safe(n, path)
    requires n.path <= path && |n.path| < |path|
    ensures PatternFrom(path[|n.path|..], After(n.path, ctx))
    ensures n.kind == Param && LastChar(n.path) != '/' ==> SegEnd(path[|n.path|..]) == 0
  {
    var rest := path[|n.path|..];
    assert path == n.path + rest;
    if n.kind == Static {
      PatternLiteral(n.path, rest, ctx);
    } else {
      ParamShape(n.path, ctx);
      var e := SegEnd(n.path);
      if e == |n.path| {
        NameThenRest(n, ctx, path, rest);
      } else {
        ParamToken(n.path, rest);
        assert ("/" + rest)[1..] == rest;
      }
    }
  }

  /** Behind a whole name, a pattern without a longer name has the end of the segment. */
  lemma NameThenRest(n: Node, ctx: Context, path: string, rest: string)
    requires Ok(n, ctx) && n.kind == Param && SegEnd(n.path) == |n.path| && Safe(n, path)
    requires PatternFrom(path, ctx) && path == n.path + rest
    ensures SegEnd(rest) == 0 && PatternFrom(rest, AfterName)
  {
    ParamShape(n.path, ctx);
    BeforeSegEnd(n.path);
    SegEndLiteral(n.path, rest);
    assert path[|n.path|..] == rest;
    var s := Inhabited(n, ctx);
    LongerName(n, ctx, path, s);
  }
}
