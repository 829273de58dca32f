/** When `Add` is refused, and that a refused `Add` leaves the tree as it was. */
module RouteConflicts {
  import opened Options
  import opened RoutePatterns
  import opened RouteTree
  import opened RouteShape
  import opened RouteAdd

  // ----- an accepted pattern conflicts with nothing

  /** Where a successful `Next` goes. */
  lemma NextDescends(n: Node, ctx: Context, path: string, handle: Handle) returns (k: nat)
    requires Ok(n, ctx) && |n.path| < |path| && Next(n, |n.path|, path, handle).ok
    ensures k == HeadIndex(n.children, path[|n.path|])
    ensures k < |n.children| ==> Add(n.children[k], path[|n.path|..], handle).ok
    ensures k == |n.children| && k > 0 ==>
      !IsWild(path[|n.path|]) && forall j :: 0 <= j < k ==> n.children[j].kind == Static
  {
    var i, after := |n.path|, After(n.path, ctx);
    var rest := path[i..];
    assert rest[0] == path[i] && AllOk(n.children, after);
    if n.children != [] { WildRefused(n.children[0], rest, handle); }
    ChildIndexIsHeadIndex(n.children, after, rest[0]);
    k := HeadIndex(n.children, rest[0]);
    var c := ChildIndex(n.children, rest[0]);
    if c < |n.children| { AddedHead(n.children[c], after, rest, handle); }
  }

  lemma {:induction false} AcceptedIsNew(n: Node, ctx: Context, path: string, handle: Handle, s: string)
    requires Ok(n, ctx) && PatternFrom(path, ctx) && Reaches(n, path) && Safe(n, path)
    requires Add(n, path, handle).ok && Find(n, s).Some?
    ensures s != path && !Conflict(path, s)
    decreases |path|, n, 1
  {
    var i := Lcp(path, n.path);
    if n.kind == Static && i < |n.path| {
      SplitIsNew(n, ctx, path, handle, s);
    } else if i == |n.path| < |path| {
      NextIsNew(n, ctx, path, handle, s);
    } else {
      EndIsNew(n, ctx, path, handle, s);
    }
  }

  lemma {:induction false} SplitIsNew(n: Node, ctx: Context, path: string, handle: Handle, s: string)
    requires Ok(n, ctx) && n.kind == Static && Lcp(path, n.path) < |n.path| && Reaches(n, path)
    requires Add(n, path, handle).ok && Find(n, s).Some?
    ensures s != path && !Conflict(path, s)
  {
    var i := Lcp(path, n.path);
    var rest, t := path[i..], s[i..];
    LiteralStripped(n.path, i, path, s);
    if rest != "" {
      assert t[0] == n.path[i];
      if IsWild(rest[0]) { WildRefused(Split(n, i, None).children[0], rest, handle); }
    }
  }

  /** The common beginning of two strings does not matter for a conflict, if it is literal. */
  lemma {:induction false} LiteralStripped(a: string, i: nat, path: string, s: string)
    requires i < |a| && i <= |path| && path[..i] == a[..i] && NoWild(a[..i]) && a <= s
    ensures path == s <==> path[i..] == s[i..]
    ensures Conflict(path, s) <==> Conflict(path[i..], s[i..])
  {
    assert path == a[..i] + path[i..] && s == a[..i] + s[i..];
    StripLiteral(a[..i], path[i..], s[i..]);
  }

  lemma EndIsNew(n: Node, ctx: Context, path: string, handle: Handle, s: string)
    requires Ok(n, ctx) && PatternFrom(path, ctx) && path != "" && Safe(n, path)
    requires Add(n, path, handle).ok && Find(n, s).Some? && (n.kind == Param || Lcp(path, n.path) == |n.path|)
    requires !(|n.path| < |path| && Lcp(path, n.path) == |n.path|)
    ensures s != path && !Conflict(path, s)
  {
    if Lcp(path, n.path) == |n.path| {
      assert path == n.path;
      EndAtNode(n, ctx, s);
    } else {
      ParamShape(n.path, ctx);
      EndsWithName(n, ctx, path);
      EndAtName(n, ctx, path, s);
    }
  }

  lemma EndAtNode(n: Node, ctx: Context, s: string)
    requires Ok(n, ctx) && PatternFrom(n.path, ctx) && Find(n, s).Some? && n.handle.None?
    ensures !Conflict(n.path, s)
  {
    var t := s[|n.path|..];
    assert s == n.path + t && n.path + "" == n.path;
    if n.kind == Param && LastChar(n.path) != '/' { BelowName(n, ctx, s); }
    StripNode(n, ctx, "", t);
  }

  lemma EndAtName(n: Node, ctx: Context, path: string, s: string)
    requires Ok(n, ctx) && n.kind == Param && SegEnd(n.path) == |n.path| - 1 && path == n.path[..|n.path|-1]
    requires path != "" && Find(n, s).Some?
    ensures s != path && !Conflict(path, s)
  {
    var t := s[|n.path|..];
    assert s == n.path + t;
    ParamShape(n.path, ctx);
    ParamToken(n.path, t);
    NoSlashBefore(n.path, |n.path| - 1);
    NameAlone(path, s);
  }

  /** A name that is the first one of another pattern does not conflict with it. */
  lemma NameAlone(p: string, q: string)
    requires p != "" && IsWild(p[0]) && |p| <= |q| && p == q[..SegEnd(q)] && forall k :: 0 <= k < |p| ==> p[k] != '/'
    ensures !Conflict(p, q)
  {
    SegEndLiteral(p, "");
    assert p + "" == p && p[..|p|] == p;
  }

  lemma {:induction false} NextIsNew(n: Node, ctx: Context, path: string, handle: Handle, s: string)
    requires Ok(n, ctx) && PatternFrom(path, ctx) && Reaches(n, path) && Safe(n, path) && n.kind != CatchAll
    requires n.path <= path && |n.path| < |path| && Next(n, |n.path|, path, handle).ok && Find(n, s).Some?
    ensures s != path && !Conflict(path, s)
    decreases |path|, n, 0
  {
    var rest, t, after := path[|n.path|..], s[|n.path|..], After(n.path, ctx);
    assert path == n.path + rest && s == n.path + t;
    RestIsPattern(n, ctx, path);
    if n.kind == Param && LastChar(n.path) != '/' { BelowName(n, ctx, s); }
    StripNode(n, ctx, rest, t);
    if t != "" {
      var c := FindInSome(n.children, t);
      var k := NextDescends(n, ctx, path, handle);
      BelowIsNew(n, ctx, k, c, rest, t);
      if t[0] == rest[0] {
        SafeBelow(n, ctx, k, rest);
        AcceptedIsNew(c, after, rest, handle, t);
      }
    }
  }

  /** A sibling of the child to descend to holds no conflicting pattern. */
  lemma BelowIsNew(n: Node, ctx: Context, k: nat, c: Node, rest: string, t: string)
    requires Ok(n, ctx) && c in n.children && t != "" && rest != "" && Head(c) == t[0]
    requires k == HeadIndex(n.children, rest[0])
    requires k == |n.children| ==> !IsWild(rest[0]) && forall j :: 0 <= j < k ==> n.children[j].kind == Static
    ensures t[0] == rest[0] ==> k < |n.children| && n.children[k] == c && Ok(c, After(n.path, ctx))
    ensures t[0] != rest[0] ==> t != rest && !Conflict(rest, t)
  {
    var after := After(n.path, ctx);
    assert AllOk(n.children, after);
    var j :| 0 <= j < |n.children| && n.children[j] == c;
    assert j == HeadIndex(n.children, t[0]);
    if t[0] != rest[0] && k < |n.children| {
      assert n.children[j].kind == Static && n.children[k].kind == Static;
    }
  }

  // ----- a refused pattern is registered or conflicts

  lemma {:induction false} RefusedConflicts(n: Node, ctx: Context, path: string, handle: Handle) returns (s: string)
    requires Ok(n, ctx) && PatternFrom(path, ctx) && Reaches(n, path)
    requires !Add(n, path, handle).ok
    ensures Find(n, s).Some? && (s == path || Conflict(path, s))
    decreases |path|, n, 1
  {
    var i := Lcp(path, n.path);
    if i == |n.path| && n.kind != CatchAll {
      if i == |path| {
        s := path;
      } else {
        s := NextRefused(n, ctx, path, handle);
      }
    } else {
      s := Inhabited(n, ctx);
      match n.kind
      case Static => StaticRefused(n, ctx, path, handle, s);
      case Param => ParamRefused(n, ctx, path, s);
      case CatchAll => CatchAllRefused(n, ctx, path, s);
    }
  }

  lemma StaticRefused(n: Node, ctx: Context, path: string, handle: Handle, s: string)
    requires Ok(n, ctx) && n.kind == Static && PatternFrom(path, ctx) && Reaches(n, path) && Find(n, s).Some?
    requires Lcp(path, n.path) < |n.path| && !Add(n, path, handle).ok
    ensures Conflict(path, s)
  {
    var i := Lcp(path, n.path);
    SplitAccepts(n, ctx, path, handle);
    CommonParts(path, n.path, s, i);
    StripLiteral(n.path[..i], path[i..], s[i..]);
    WildAgainstLiteral(path[i..], s[i..]);
  }

  lemma CommonParts(path: string, a: string, s: string, i: nat)
    requires a <= s && i <= |path| && i < |a| && path[..i] == a[..i]
    ensures path == a[..i] + path[i..] && s == a[..i] + s[i..] && s[i..] != "" && s[i..][0] == a[i]
  {
    assert s[..i] == a[..i];
  }

  lemma WildAgainstLiteral(p: string, q: string)
    requires p != "" && q != "" && IsWild(p[0]) && !IsWild(q[0])
    ensures Conflict(p, q)
  {
    var e, f := SegEnd(p), SegEnd(q);
    if e > 0 && f > 0 { assert p[..e][0] == p[0] && q[..f][0] == q[0]; }
    assert |p[..e]| == e && |q[..f]| == f;
  }

  lemma SplitAccepts(n: Node, ctx: Context, path: string, handle: Handle)
    requires Ok(n, ctx) && n.kind == Static && PatternFrom(path, ctx) && Lcp(path, n.path) < |n.path| && path != ""
    ensures Lcp(path, n.path) == |path| || (!IsWild(path[Lcp(path, n.path)]) && Reaches(n, path)) ==>
      Add(n, path, handle).ok
  {
    var i := Lcp(path, n.path);
    var a, rest := n.path[..i], path[i..];
    assert path == a + rest;
    PatternLiteral(a, rest, ctx);
    if i < |path| && !IsWild(path[i]) && Reaches(n, path) {
      var m := Split(n, i, None);
      assert ChildIndex(m.children, rest[0]) == 1;
      var c := ConstructCorrect(rest, After(a, ctx), handle);
    }
  }

  lemma ParamRefused(n: Node, ctx: Context, path: string, s: string)
    requires Ok(n, ctx) && n.kind == Param && PatternFrom(path, ctx) && path != "" && Find(n, s).Some?
    requires Lcp(path, n.path) < |n.path| && (Lcp(path, n.path) == |n.path| - 1 ==> LastChar(n.path) != '/')
    ensures Conflict(path, s)
  {
    ParamShape(n.path, ctx);
    var f, t := SegEnd(n.path), s[|n.path|..];
    assert s == n.path + t;
    if LastChar(n.path) != '/' { BelowName(n, ctx, s); }
    ParamToken(n.path, t);
    LcpIsLongest(path, n.path, f);
    assert s[..f] == n.path[..f];
  }

  lemma {:induction false} LcpIsLongest(a: string, b: string, k: nat)
    ensures k <= |a| && k <= |b| && a[..k] == b[..k] ==> k <= Lcp(a, b)
  {
    if k <= |a| && k <= |b| && a[..k] == b[..k] {
      assert forall i :: 0 <= i < k ==> a[i] == a[..k][i] && b[i] == b[..k][i];
    }
  }

  lemma CatchAllRefused(n: Node, ctx: Context, path: string, s: string)
    requires Ok(n, ctx) && n.kind == CatchAll && PatternFrom(path, ctx) && path != "" && Find(n, s).Some?
    ensures s == path || Conflict(path, s)
  {
    ContextEnded(n, ctx);
    assert s == n.path;
    var e := SegEnd(path);
    assert s[..|s|] == s && path[..|path|] == path;
    assert path[..e] == s && e > 0 ==> path[0] == '*' && e == |path|;
  }

  lemma {:induction false} NextRefused(n: Node, ctx: Context, path: string, handle: Handle) returns (s: string)
    requires Ok(n, ctx) && PatternFrom(path, ctx) && Reaches(n, path) && n.kind != CatchAll
    requires Lcp(path, n.path) == |n.path| < |path| && !Next(n, |n.path|, path, handle).ok
    ensures Find(n, s).Some? && (s == path || Conflict(path, s))
    decreases |path|, n, 0
  {
    var k := NextFails(n, ctx, path, handle);
    var c, after, rest := n.children[k], After(n.path, ctx), path[|n.path|..];
    assert path == n.path + rest;
    var t;
    if IsWild(rest[0]) && c.kind == Static {
      t := Inhabited(c, after);
      WildAgainstLiteral(rest, t);
    } else {
      t := RefusedConflicts(c, after, rest, handle);
    }
    s := n.path + t;
    FindBelow(n, ctx, k, t);
    RefusedBelow(n, ctx, path, rest, t);
  }

  lemma RefusedBelow(n: Node, ctx: Context, path: string, rest: string, t: string)
    requires Ok(n, ctx) && n.kind != CatchAll && path == n.path + rest && (t == rest || Conflict(rest, t))
    requires Find(n, n.path + t).Some?
    requires n.kind == Param && LastChar(n.path) != '/' ==> SegEnd(rest) == 0
    ensures n.path + t == path || Conflict(path, n.path + t)
  {
    assert (n.path + t)[|n.path|..] == t;
    if n.kind == Param && LastChar(n.path) != '/' { BelowName(n, ctx, n.path + t); }
    StripNode(n, ctx, rest, t);
  }

  /** What a child holds, its parent holds behind its own path. */
  lemma FindBelow(n: Node, ctx: Context, k: nat, t: string)
    requires Ok(n, ctx) && k < |n.children| && Find(n.children[k], t).Some?
    ensures (n.path + t)[|n.path|..] == t && t != "" && Head(n.children[k]) == t[0]
    ensures Find(n, n.path + t) == Find(n.children[k], t)
  {
    var c := n.children[k];
    assert Ok(c, After(n.path, ctx));
    FindInMember(n.children, c, t);
    assert (n.path + t)[|n.path|..] == t;
  }

  /** The child below which a `Next` fails. */
  lemma NextFails(n: Node, ctx: Context, path: string, handle: Handle) returns (k: nat)
    requires Ok(n, ctx) && PatternFrom(path, ctx) && n.kind != CatchAll
    requires n.path <= path && |n.path| < |path| && !Next(n, |n.path|, path, handle).ok
    ensures k < |n.children| && Ok(n.children[k], After(n.path, ctx))
    ensures PatternFrom(path[|n.path|..], After(n.path, ctx))
    ensures n.kind == Param && LastChar(n.path) != '/' ==> SegEnd(path[|n.path|..]) == 0
    ensures (IsWild(path[|n.path|]) && n.children[k].kind == Static) ||
            (Reaches(n.children[k], path[|n.path|..]) && !Add(n.children[k], path[|n.path|..], handle).ok)
  {
    var i, after := |n.path|, After(n.path, ctx);
    var rest := path[i..];
    LongerIsAccepted(n, ctx, path, handle);
    NameEnds(n, ctx, path);
    assert AllOk(n.children, after) && rest[0] == path[i];
    ChildIndexIsHeadIndex(n.children, after, rest[0]);
    if n.children != [] && IsWild(rest[0]) && n.children[0].kind == Static {
      k := 0;
    } else {
      k := ChildIndex(n.children, rest[0]);
      var c := ConstructCorrect(rest, after, handle);
    }
  }

  /** Behind the whole name of a parameter, what is left of a pattern fits the context. */
  lemma NameEnds(n: Node, ctx: Context, path: string)
    requires Ok(n, ctx) && PatternFrom(path, ctx) && n.kind != CatchAll && n.path <= path && |n.path| < |path|
    requires n.kind == Param && LastChar(n.path) != '/' ==> SegEnd(path[|n.path|..]) == 0
    ensures PatternFrom(path[|n.path|..], After(n.path, ctx))
  {
    var rest := path[|n.path|..];
    assert path == n.path + rest;
    if n.kind == Static {
      PatternLiteral(n.path, rest, ctx);
    } else {
      ParamShape(n.path, ctx);
      ParamToken(n.path, rest);
      if LastChar(n.path) == '/' { assert ("/" + rest)[1..] == rest; }
    }
  }

  // ----- what `add` overlooks

  /** A longer name behind the whole path of a parameter node is taken for new text. */
  lemma LongerIsAccepted(n: Node, ctx: Context, path: string, handle: Handle)
    requires Ok(n, ctx) && PatternFrom(path, ctx) && n.path <= path && |n.path| < |path|
    ensures n.kind == Param && LastChar(n.path) != '/' && SegEnd(path[|n.path|..]) > 0 ==>
      Next(n, |n.path|, path, handle).ok
  {
    if n.kind == Param && LastChar(n.path) != '/' {
      ParamShape(n.path, ctx);
      var rest := path[|n.path|..];
      assert path == n.path + rest;
      if SegEnd(rest) > 0 {
        LongerRest(n.path, rest, ctx);
        var c := ConstructCorrect(rest, Mid, handle);
        forall k | 0 <= k < |n.children| ensures n.children[k].kind == Static && n.children[k].index == '/' {
          assert Ok(n.children[k], AfterName);
        }
        assert ChildIndex(n.children, rest[0]) == |n.children|;
      }
    }
  }

  /** What goes on in a longer name, as a pattern of its own. */
  lemma LongerRest(a: string, rest: string, ctx: Context)
    requires a != "" && a[0] == ':' && SegEnd(a) == |a| && PatternFrom(a + rest, ctx) && SegEnd(rest) > 0
    ensures PatternFrom(rest, Mid) && rest[0] != '/' && !IsWild(rest[0])
  {
    var path := a + rest;
    NameGoesOn(a, rest);
    var u, v := rest[..SegEnd(rest)], rest[SegEnd(rest)..];
    assert rest == u + v && path[SegEnd(path)..] == v;
    forall k | 0 <= k < |u| ensures !IsWild(u[k]) && u[k] != '/' {
      BeforeSegEnd(rest);
      assert u[k] == path[1..SegEnd(path)][|a| - 1 + k];
    }
    LiteralName(u);
    PatternWeaken(v, AfterName);
    PatternLiteral(u, v, Mid);
    assert rest[0] == u[0];
  }

  lemma NameGoesOn(a: string, rest: string)
    requires SegEnd(a) == |a|
    ensures SegEnd(a + rest) == |a| + SegEnd(rest)
  {
    BeforeSegEnd(a);
    SegEndLiteral(a, rest);
  }

  lemma {:induction false} LiteralName(u: string)
    requires forall k :: 0 <= k < |u| ==> !IsWild(u[k]) && u[k] != '/'
    ensures PatternFrom(u, Mid) && After(u, Mid) == Mid
    decreases |u|
  {
    if u != "" { LiteralName(u[1..]); }
  }

  lemma {:induction false} OverlookedLiteral(a: string, p: string, q: string)
    requires NoWild(a) && Overlooked(p, a + q)
    ensures a <= p && Overlooked(p[|a|..], q)
    decreases |a|
  {
    if a == "" {
      assert a + q == q;
    } else {
      assert (a + q)[1..] == a[1..] + q && !IsWild(a[0]);
      assert (a + q)[0] == a[0];
      if !IsWild(p[0]) {
        OverlookedLiteral(a[1..], p[1..], q);
        assert p == [p[0]] + p[1..] && a == [a[0]] + a[1..];
      }
    }
  }

  lemma {:induction false} OverlookedIsAccepted(n: Node, ctx: Context, path: string, handle: Handle, s: string)
    requires Ok(n, ctx) && PatternFrom(path, ctx) && Find(n, s).Some? && Overlooked(path, s)
    ensures Add(n, path, handle).ok
    decreases |path|, n, 2
  {
    var t := s[|n.path|..];
    assert s == n.path + t;
    match n.kind
    case Static =>
      OverlookedLiteral(n.path, path, t);
      LcpIsLongest(path, n.path, |n.path|);
      NextOverlooked(n, ctx, path, handle, s);
    case Param => ParamOverlooked(n, ctx, path, handle, s);
    case CatchAll =>
      ContextEnded(n, ctx);
      NothingBehind(path, s);
  }

  lemma NothingBehind(p: string, q: string)
    requires q != "" && q[0] == '*' && SegEnd(q) == |q|
    ensures !Overlooked(p, q)
  {
    assert q[SegEnd(q)..] == "";
  }

  lemma {:induction false} ParamOverlooked(n: Node, ctx: Context, path: string, handle: Handle, s: string)
    requires Ok(n, ctx) && n.kind == Param && PatternFrom(path, ctx) && Find(n, s).Some? && Overlooked(path, s)
    ensures Add(n, path, handle).ok
    decreases |path|, n, 1
  {
    var t := s[|n.path|..];
    assert s == n.path + t;
    ParamShape(n.path, ctx);
    if LastChar(n.path) != '/' { BelowName(n, ctx, s); }
    ParamToken(n.path, t);
    var e, f := SegEnd(path), SegEnd(n.path);
    assert path[..f] == n.path[..f] by {
      if e == f { assert path[..e] == s[..f]; }
    }
    if e == f {
      OverlookedBelow(n, path, t, ctx);
      NextOverlooked(n, ctx, path, handle, s);
    } else {
      LongerOverlooked(n, ctx, path, handle);
    }
  }

  /** An overlooked conflict of equal names is one behind them. */
  lemma OverlookedBehind(p: string, q: string, e: nat)
    requires p != "" && q != "" && SegEnd(p) == e == SegEnd(q) && p[..e] == q[..e] && (IsWild(p[0]) || IsWild(q[0]))
    requires Overlooked(p, q)
    ensures e < |p| && p[e] == '/'
  {
  }

  lemma OverlookedBelow(n: Node, path: string, t: string, ctx: Context)
    requires Labelled(n) && n.kind == Param && PatternFrom(n.path, ctx) && PatternFrom(path, ctx)
    requires SegEnd(path) == SegEnd(n.path) && path[..SegEnd(path)] == n.path[..SegEnd(n.path)]
    requires Overlooked(path, n.path + t)
    requires LastChar(n.path) != '/' ==> SegEnd(t) == 0
    ensures Lcp(path, n.path) == |n.path| && n.path <= path && Overlooked(path[|n.path|..], t)
    ensures LastChar(n.path) != '/' ==> SegEnd(path[|n.path|..]) == 0
  {
    ParamShape(n.path, ctx);
    ParamToken(n.path, t);
    OverlookedBehind(path, n.path + t, SegEnd(n.path));
    SameName(n.path, path, SegEnd(n.path));
    LcpIsLongest(path, n.path, |n.path|);
    var rest := path[|n.path|..];
    assert path == n.path + rest;
    ParamToken(n.path, rest);
    StripNode(n, ctx, rest, t);
  }

  lemma SameName(a: string, b: string, f: nat)
    requires f <= |a| <= f + 1 && f < |b| && a[..f] == b[..f] && (f < |a| ==> a[f] == b[f])
    ensures a <= b
  {
    assert a == a[..f] + a[f..] && b[..f+1] == b[..f] + [b[f]];
  }

  lemma {:induction false} LongerOverlooked(n: Node, ctx: Context, path: string, handle: Handle)
    requires Ok(n, ctx) && n.kind == Param && PatternFrom(path, ctx) && SegEnd(path) > SegEnd(n.path)
    requires path[..SegEnd(n.path)] == n.path[..SegEnd(n.path)]
    ensures Add(n, path, handle).ok
  {
    ParamShape(n.path, ctx);
    LongNameAt(path, n.path);
    if SegEnd(n.path) == |n.path| { LongerIsAccepted(n, ctx, path, handle); }
  }

  lemma {:induction false} LongNameAt(path: string, a: string)
    requires SegEnd(path) > SegEnd(a) && path[..SegEnd(a)] == a[..SegEnd(a)]
    ensures Lcp(path, a) == SegEnd(a) && (SegEnd(a) == |a| ==> a <= path && SegEnd(path[|a|..]) > 0)
  {
    var f := SegEnd(a);
    LcpIsLongest(path, a, f);
    BeforeSegEnd(path);
    if f == |a| {
      assert path == a + path[f..];
      NameGoesOn(a, path[f..]);
    }
  }

  lemma {:induction false} OverlookedHead(p: string, q: string)
    requires Overlooked(p, q)
    ensures p[0] == q[0]
  {
    if IsWild(p[0]) || IsWild(q[0]) {
      var e, f := SegEnd(p), SegEnd(q);
      if p[..e] == q[..f] && e > 0 {
        assert p[..e][0] == p[0] && q[..f][0] == q[0];
      } else {
        assert f > 0 && q[..f][0] == q[0] && p[..f][0] == p[0];
      }
    }
  }

  lemma {:induction false} NextOverlooked(n: Node, ctx: Context, path: string, handle: Handle, s: string)
    requires Ok(n, ctx) && PatternFrom(path, ctx) && n.kind != CatchAll && n.path <= path && Find(n, s).Some?
    requires n.kind == Param && LastChar(n.path) != '/' ==> SegEnd(path[|n.path|..]) == 0
    requires Overlooked(path[|n.path|..], s[|n.path|..])
    ensures |n.path| < |path| && Next(n, |n.path|, path, handle).ok
    decreases |path|, n, 0
  {
    var rest, t, after := path[|n.path|..], s[|n.path|..], After(n.path, ctx);
    assert path == n.path + rest && s == n.path + t;
    NameEnds(n, ctx, path);
    var c := FindInSome(n.children, t);
    OverlookedHead(rest, t);
    var k := HeadIndex(n.children, rest[0]);
    assert c == n.children[k] && Ok(c, after);
    OverlookedIsAccepted(c, after, rest, handle, t);
    NextGoesInto(n, after, path, handle, k);
  }

  lemma {:induction false} NextGoesInto(n: Node, after: Context, path: string, handle: Handle, k: nat)
    requires Siblings(n.children) && AllOk(n.children, after) && |n.path| < |path|
    requires k == HeadIndex(n.children, path[|n.path|]) < |n.children|
    requires Add(n.children[k], path[|n.path|..], handle).ok
    ensures Next(n, |n.path|, path, handle).ok
  {
    ChildIndexIsHeadIndex(n.children, after, path[|n.path|]);
    assert Ok(n.children[k], after) && Ok(n.children[0], after);
  }

  // ----- a refused `Add` changes nothing

  /** For every string, well-formed or not, the nested splits of a failed `Add` are undone. */
  lemma {:induction false} RefusedUnchanged(n: Node, ctx: Context, path: string, handle: Handle)
    requires Ok(n, ctx) && (path == "" || Reaches(n, path))
    requires !Add(n, path, handle).ok
    ensures Add(n, path, handle).node == n
    decreases |path|, n, 1
  {
    if path != "" {
      var i := Lcp(path, n.path);
      if n.kind == Static && 0 < i < |path| && i < |n.path| {
        SplitUndone(n, i, path, handle);
      } else if i == |n.path| < |path| && n.kind != CatchAll {
        NextUnchanged(n, ctx, path, handle);
      }
    }
  }

  lemma SplitUndone(n: Node, i: nat, path: string, handle: Handle)
    requires Labelled(n) && n.kind == Static && 0 < i < |n.path| && i < |path| && path[i] != n.path[i]
    ensures !Next(Split(n, i, None), i, path, handle).ok ==>
      Combine(Split(n, i, None)) == n && Next(Split(n, i, None), i, path, handle).node == Split(n, i, None)
  {
    var m, rest := Split(n, i, None), path[i..];
    var cut := m.children[0];
    assert n.path == n.path[..i] + n.path[i..];
    assert ChildIndex(m.children, path[i]) == 1;
    assert cut.path != "" && cut.path[0] == n.path[i] && Lcp(rest, cut.path) == 0;
    assert IsWild(rest[0]) ==> Add(cut, rest, handle) == Outcome(cut, false);
    assert m.children[0 := cut] == m.children;
  }

  lemma {:induction false} NextUnchanged(n: Node, ctx: Context, path: string, handle: Handle)
    requires Ok(n, ctx) && |n.path| < |path| && n.path <= path && !Next(n, |n.path|, path, handle).ok
    ensures Next(n, |n.path|, path, handle).node == n
    decreases |path|, n, 0
  {
    var i, after := |n.path|, After(n.path, ctx);
    var rest := path[i..];
    assert AllOk(n.children, after) && rest[0] == path[i];
    ChildIndexIsHeadIndex(n.children, after, path[i]);
    var k := ChildIndex(n.children, path[i]);
    if n.children != [] && IsWild(path[i]) && n.children[0].kind == Static { k := 0; }
    if k < |n.children| {
      RefusedUnchanged(n.children[k], after, rest, handle);
      assert n.children[k := n.children[k]] == n.children;
    }
  }
}
