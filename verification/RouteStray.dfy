/** When the advice to add a slash leads nowhere, read off the registered patterns. */
module RouteStray {
  import opened Options
  import opened RoutePatterns
  import opened RouteTree
  import opened RouteShape
  import opened RouteAdd
  import opened RouteConflicts
  import opened RouteGet
  import opened RouteAdvice

  /** No pattern goes on behind `p` with `b` or with a wildcard. */
  ghost predicate NoneGoesOn(reg: iset<string>, p: string, b: char) {
    forall s :: s in reg && p <= s && |s| > |p| ==> s[|p|] != b && !IsWild(s[|p|])
  }

  /** `p` is registered, or goes on in other ways than with a '/'. */
  ghost predicate Branches(reg: iset<string>, p: string) {
    exists s :: s in reg && p <= s && (|s| == |p| || s[|p|] != '/')
  }

  /**
   The pattern `p + "/"` is registered and `p` meets the first `k` bytes of the request, but no
   pattern goes on there as the request does: behind a literal `p` that branches, or behind the
   '/' of a ':name' that is not registered without it.
   */
  ghost predicate StrayAt(reg: iset<string>, ctx: Context, q: string, p: string, k: nat) {
    && k < |q| && p + "/" in reg && Match(p, q[..k]).Some?
    && if After(p, ctx) == AfterName then
         p != "" && q[k] == '/' && k + 1 < |q| && p !in reg && NoneGoesOn(reg, p + "/", q[k+1])
       else q[k] != '/' && Branches(reg, p) && NoneGoesOn(reg, p, q[k])
  }

  ghost predicate Stray(reg: iset<string>, ctx: Context, q: string) { exists p, k: nat :: StrayAt(reg, ctx, q, p, k) }

  ghost function FoundIn(n: Node): iset<string> { iset s | Find(n, s).Some? }

  // ----- the beginning of a request

  lemma CutClean(q: string, ctx: Context, k: nat)
    requires CleanRest(q, ctx) && 0 < k <= |q|
    ensures CleanRest(q[..k], ctx)
  {
    assert forall j :: 0 <= j < k ==> q[..k][j] == q[j];
  }

  lemma {:induction false} SegEndCut(q: string, k: nat)
    requires k <= |q|
    ensures SegEnd(q[..k]) == if SegEnd(q) <= k then SegEnd(q) else k
  {
    if k > 0 && q[0] != '/' {
      assert q[..k][1..] == q[1..][..k-1];
      SegEndCut(q[1..], k - 1);
    }
  }

  /** A node takes as much of the beginning of a request as of all of it. */
  lemma ConsumeCut(n: Node, q: string, k: nat)
    requires Labelled(n) && n.kind != CatchAll && 0 < k <= |q|
    ensures Passes(n, q) && Consume(n, q).0 <= k ==> Passes(n, q[..k]) && Consume(n, q[..k]).0 == Consume(n, q).0
    ensures var i := if Passes(n, q[..k]) then Consume(n, q[..k]).0 else 0;
      Passes(n, q[..k]) && !(i == k < |q| && n.kind == Param && LastChar(n.path) != '/' && q[k] != '/') ==>
        Passes(n, q) && Consume(n, q).0 == i
  {
    SegEndCut(q, k);
    if n.kind == Static {
      PrefixIff(n.path, q);
      PrefixIff(n.path, q[..k]);
      if n.path <= q && |n.path| <= k { assert n.path == q[..|n.path|] == q[..k][..|n.path|]; }
      if n.path <= q[..k] { assert n.path == q[..k][..|n.path|] == q[..|n.path|]; }
    } else if k < |q| && q[k] == '/' {
      SegEndAt(q, k);
    }
  }

  lemma {:induction false} SegEndAt(q: string, k: nat)
    requires k < |q| && q[k] == '/'
    ensures SegEnd(q) <= k
  {
    if k > 0 && q[0] != '/' { SegEndAt(q[1..], k - 1); }
  }

  // ----- one node

  lemma AfterNode(n: Node, ctx: Context, t: string)
    requires Labelled(n) && n.kind != CatchAll && PatternFrom(n.path, ctx)
    requires n.kind == Param && LastChar(n.path) != '/' ==> SegEnd(t) == 0
    ensures After(n.path + t, ctx) == After(t, After(n.path, ctx))
  {
    if n.kind == Static {
      AfterConcat(n.path, t, ctx);
    } else {
      ParamShape(n.path, ctx);
      ParamToken(n.path, t);
      if LastChar(n.path) == '/' { assert ("/" + t)[1..] == t; }
    }
  }

  /** What a child holds is what its parent holds behind its own path. */
  lemma HeldBelow(n: Node, ctx: Context, j: nat, s: string)
    requires Ok(n, ctx) && j < |n.children| && s != "" && s[0] == Head(n.children[j])
    ensures n.path + s in FoundIn(n) <==> s in FoundIn(n.children[j])
  {
    assert Ok(n.children[j], After(n.path, ctx));
    assert (n.path + s)[|n.path|..] == s;
    FindInMember(n.children, n.children[j], s);
  }

  /** Something that is registered goes on into the child. */
  lemma GoesOnBelow(n: Node, ctx: Context, j: nat, b: char)
    requires Ok(n, ctx) && j < |n.children| && (Head(n.children[j]) == b || n.children[j].kind != Static)
    ensures !NoneGoesOn(FoundIn(n), n.path, b)
  {
    var c := n.children[j];
    assert Ok(c, After(n.path, ctx));
    var s := Inhabited(c, After(n.path, ctx));
    HeldBelow(n, ctx, j, s);
    assert (n.path + s)[|n.path|] == s[0];
  }

  lemma StrayIsBehind(n: Node, q: string, ctx: Context, p: string, k: nat)
    requires Ok(n, ctx) && StrayAt(FoundIn(n), ctx, q, p, k)
    ensures p + "/" == n.path || (n.path <= p && p == n.path + p[|n.path|..])
  {
    if |n.path| <= |p| { assert n.path == (p + "/")[..|n.path|] == p[..|n.path|]; }
  }

  /** If `p` goes on behind the node, the request passes the node, and the rest of `p` meets what follows. */
  lemma StrayPasses(n: Node, ctx: Context, q: string, t: string, k: nat)
    requires Ok(n, ctx) && n.kind != CatchAll && CleanRest(q, ctx) && StrayAt(FoundIn(n), ctx, q, n.path + t, k)
    ensures n.kind == Param && LastChar(n.path) != '/' ==> SegEnd(t) == 0
    ensures Passes(n, q) && Consume(n, q).0 <= k && Match(t, q[Consume(n, q).0..k]).Some?
  {
    var p, r := n.path + t, q[..k];
    assert p + "/" == n.path + (t + "/");
    FoundBelow(n, ctx, t + "/");
    if t != "" && SegEnd(t + "/") == 0 { assert t[0] == (t + "/")[0]; }
    assert k > 0;
    CutClean(q, ctx, k);
    NodeMatch(n, ctx, t, r);
    var j := Consume(n, r).0;
    if j == k && n.kind == Param && LastChar(n.path) != '/' {
      assert r[j..] == "" && t == "";
      AfterNode(n, ctx, t);
      ParamShape(n.path, ctx);
    }
    ConsumeCut(n, q, k);
    assert r[j..] == q[j..k];
  }

  /** No request strays at the slash that ends a literal node. */
  lemma NotAtLiteral(n: Node, ctx: Context, q: string, p: string, k: nat)
    requires Ok(n, ctx) && n.kind == Static && Meets(n, q) && p + "/" == n.path
    ensures !StrayAt(FoundIn(n), ctx, q, p, k)
  {
    BranchesNowhere(n, p);
    assert forall j :: 0 <= j < |p| ==> p[j] == n.path[j];
    if p == "" {
      assert n.path[0] == '/';
    } else {
      assert ctx != Ended;
      AfterLiteral(p, ctx);
    }
  }

  lemma BranchesNowhere(n: Node, p: string)
    requires p + "/" == n.path
    ensures !Branches(FoundIn(n), p)
  {
    forall s | s in FoundIn(n) ensures |s| > |p| && s[|p|] == '/' {
      assert s[|p|] == n.path[|p|];
    }
  }

  /** At the slash that ends a ':name/', the request has come just behind it. */
  lemma AtName(n: Node, ctx: Context, q: string, p: string, k: nat)
    requires Ok(n, ctx) && n.kind == Param && p + "/" == n.path && StrayAt(FoundIn(n), ctx, q, p, k)
    ensures LastChar(n.path) == '/' && n.handle.Some? && Passes(n, q) && Consume(n, q).0 == k + 1 < |q|
    ensures NoneGoesOn(FoundIn(n), n.path, q[k+1])
  {
    ParamShape(n.path, ctx);
    assert p == n.path[..|n.path|-1] && SegEnd(n.path) == |p|;
    SegEndCut(n.path, |p|);
    assert p[|p|..] == "" && After(p, ctx) == AfterName;
    var f := SegEnd(q[..k]);
    assert Match("", q[..k][f..]).Some? && f == k > 0;
    SegEndCut(q, k);
    SegEndAt(q, k);
  }

  // ----- from a node to its child

  /** The child that the request goes on in. */
  ghost predicate Leads(n: Node, ctx: Context, q: string, i: nat, j: nat) {
    && Ok(n, ctx) && n.kind != CatchAll && CleanRest(q, ctx) && Passes(n, q) && i == Consume(n, q).0 < |q|
    && j < |n.children| && j == ChildIndex(n.children, q[i])
  }

  lemma LedHead(n: Node, ctx: Context, q: string, i: nat, j: nat)
    requires Leads(n, ctx, q, i, j)
    ensures Ok(n.children[j], After(n.path, ctx)) && (Head(n.children[j]) == q[i] || n.children[j].kind != Static)
    ensures i > 0
  {
    assert Ok(n.children[j], After(n.path, ctx));
    ChildIndexIsHeadIndex(n.children, After(n.path, ctx), q[i]);
    if n.kind == Param { ParamShape(n.path, ctx); }
  }

  lemma NoneGoesOnBelow(n: Node, ctx: Context, j: nat, t: string, b: char)
    requires Ok(n, ctx) && j < |n.children| && t != "" && t[0] == Head(n.children[j])
    ensures NoneGoesOn(FoundIn(n), n.path + t, b) <==> NoneGoesOn(FoundIn(n.children[j]), t, b)
  {
    var c, p := n.children[j], n.path + t;
    if NoneGoesOn(FoundIn(n), p, b) {
      forall s | s in FoundIn(c) && t <= s && |s| > |t| ensures s[|t|] != b && !IsWild(s[|t|]) {
        HeldBelow(n, ctx, j, s);
        assert p <= n.path + s && (n.path + s)[|p|] == s[|t|];
      }
    }
    if NoneGoesOn(FoundIn(c), t, b) {
      forall s | s in FoundIn(n) && p <= s && |s| > |p| ensures s[|p|] != b && !IsWild(s[|p|]) {
        Behind(n.path, t, s);
        HeldBelow(n, ctx, j, s[|n.path|..]);
      }
    }
  }

  lemma Behind(a: string, t: string, s: string)
    requires a + t <= s && t != ""
    ensures s == a + s[|a|..] && t <= s[|a|..] && s[|a|..] != "" && s[|a|..][0] == t[0]
    ensures |s| > |a + t| ==> s[|a|..][|t|] == s[|a + t|]
  {
    assert t == (a + t)[|a|..] == s[..|a+t|][|a|..];
  }

  lemma BranchesBelow(n: Node, ctx: Context, j: nat, t: string)
    requires Ok(n, ctx) && j < |n.children| && t != "" && t[0] == Head(n.children[j])
    ensures Branches(FoundIn(n), n.path + t) <==> Branches(FoundIn(n.children[j]), t)
  {
    var c, p := n.children[j], n.path + t;
    if s :| s in FoundIn(n) && p <= s && (|s| == |p| || s[|p|] != '/') {
      Behind(n.path, t, s);
      HeldBelow(n, ctx, j, s[|n.path|..]);
    }
    if s :| s in FoundIn(c) && t <= s && (|s| == |t| || s[|t|] != '/') {
      HeldBelow(n, ctx, j, s);
      assert p <= n.path + s && (|s| > |t| ==> (n.path + s)[|p|] == s[|t|]);
    }
  }

  /** What straying is made of, in two sets of patterns. */
  lemma SameStray(reg: iset<string>, reg': iset<string>, ctx: Context, ctx': Context, q: string, q': string, p: string,
                  t: string, k: nat, m: nat)
    requires k <= |q| && m <= |q'| && q[k..] == q'[m..] && p != "" && t != "" && After(p, ctx) == After(t, ctx')
    requires (p + "/" in reg <==> t + "/" in reg') && (p in reg <==> t in reg')
    requires Match(p, q[..k]).Some? <==> Match(t, q'[..m]).Some?
    requires Branches(reg, p) <==> Branches(reg', t)
    requires forall b :: NoneGoesOn(reg, p, b) <==> NoneGoesOn(reg', t, b)
    requires forall b :: NoneGoesOn(reg, p + "/", b) <==> NoneGoesOn(reg', t + "/", b)
    ensures StrayAt(reg, ctx, q, p, k) <==> StrayAt(reg', ctx', q', t, m)
  {
    assert |q| - k == |q[k..]| == |q'[m..]| == |q'| - m;
    assert k < |q| ==> q[k] == q[k..][0] == q'[m..][0] == q'[m];
    assert k + 1 < |q| ==> q[k+1] == q[k..][1] == q'[m..][1] == q'[m+1];
  }

  /** The request strays behind the node exactly if what follows, `r`, strays in the child. */
  lemma StrayShifts(n: Node, ctx: Context, q: string, r: string, j: nat, t: string, k: nat, m: nat)
    requires Ok(n, ctx) && n.kind != CatchAll && j < |n.children| && t != "" && t[0] == Head(n.children[j])
    requires k <= |q| && m <= |r| && q[k..] == r[m..]
    requires n.kind == Param && LastChar(n.path) != '/' ==> SegEnd(t) == 0
    requires Match(n.path + t, q[..k]).Some? <==> Match(t, r[..m]).Some?
    ensures StrayAt(FoundIn(n), ctx, q, n.path + t, k) <==> StrayAt(FoundIn(n.children[j]), After(n.path, ctx), r, t, m)
  {
    SlashHeld(n, ctx, j, t);
    HeldBelow(n, ctx, j, t);
    AfterNode(n, ctx, t);
    BranchesBelow(n, ctx, j, t);
    NoneBelow(n, ctx, j, t);
    SameStray(FoundIn(n), FoundIn(n.children[j]), ctx, After(n.path, ctx), q, r, n.path + t, t, k, m);
  }

  lemma CutTwice(q: string, i: nat, m: nat)
    requires i + m <= |q|
    ensures q[i..][m..] == q[i+m..] && q[..i+m][i..] == q[i..][..m] && m <= |q[i..]|
  {
  }

  lemma NoneBelow(n: Node, ctx: Context, j: nat, t: string)
    requires Ok(n, ctx) && j < |n.children| && t != "" && t[0] == Head(n.children[j])
    ensures forall b :: NoneGoesOn(FoundIn(n), n.path + t, b) <==> NoneGoesOn(FoundIn(n.children[j]), t, b)
  {
    forall b ensures NoneGoesOn(FoundIn(n), n.path + t, b) <==> NoneGoesOn(FoundIn(n.children[j]), t, b) {
      NoneGoesOnBelow(n, ctx, j, t, b);
    }
  }

  lemma SlashHeld(n: Node, ctx: Context, j: nat, t: string)
    requires Ok(n, ctx) && j < |n.children| && t != "" && t[0] == Head(n.children[j])
    ensures n.path + t + "/" in FoundIn(n) <==> t + "/" in FoundIn(n.children[j])
    ensures forall b :: NoneGoesOn(FoundIn(n), n.path + t + "/", b) <==> NoneGoesOn(FoundIn(n.children[j]), t + "/", b)
  {
    assert n.path + t + "/" == n.path + (t + "/");
    HeldBelow(n, ctx, j, t + "/");
    forall b ensures NoneGoesOn(FoundIn(n), n.path + t + "/", b) <==> NoneGoesOn(FoundIn(n.children[j]), t + "/", b) {
      NoneGoesOnBelow(n, ctx, j, t + "/", b);
    }
  }

  lemma StrayDown(n: Node, ctx: Context, q: string, i: nat, j: nat, p: string, k: nat)
    requires Leads(n, ctx, q, i, j) && Meets(n, q) && StrayAt(FoundIn(n), ctx, q, p, k)
    ensures Stray(FoundIn(n.children[j]), After(n.path, ctx), q[i..])
  {
    LedHead(n, ctx, q, i, j);
    StrayIsBehind(n, q, ctx, p, k);
    GoesOnBelow(n, ctx, j, q[i]);
    if p + "/" == n.path {
      if n.kind == Static { NotAtLiteral(n, ctx, q, p, k); } else { AtName(n, ctx, q, p, k); }
    } else if p == n.path {
      AtNode(n, ctx, q, k);
    } else {
      StrayBelow(n, ctx, q, i, j, p[|n.path|..], k);
    }
  }

  lemma StrayBelow(n: Node, ctx: Context, q: string, i: nat, j: nat, t: string, k: nat)
    requires Leads(n, ctx, q, i, j) && t != "" && StrayAt(FoundIn(n), ctx, q, n.path + t, k)
    ensures Stray(FoundIn(n.children[j]), After(n.path, ctx), q[i..])
  {
    StrayPasses(n, ctx, q, t, k);
    var c := StrayChild(n, ctx, q, t, k);
    var m := k - i;
    assert q[i..][..m] == q[i..k] && q[i..][m..] == q[k..];
    StrayShifts(n, ctx, q, q[i..], j, t, k, m);
  }

  /** A request that strays at the end of the node does so where the node ends. */
  lemma AtNode(n: Node, ctx: Context, q: string, k: nat)
    requires Ok(n, ctx) && n.kind != CatchAll && CleanRest(q, ctx) && StrayAt(FoundIn(n), ctx, q, n.path, k)
    ensures Passes(n, q) && Consume(n, q).0 == k && After(n.path, ctx) != AfterName
    ensures NoneGoesOn(FoundIn(n), n.path, q[k])
  {
    assert n.path + "" == n.path;
    StrayPasses(n, ctx, q, "", k);
    if n.kind == Param {
      ParamShape(n.path, ctx);
      assert n.handle.Some? ==> n.path in FoundIn(n);
    } else {
      assert ctx != Ended;
      AfterLiteral(n.path, ctx);
    }
  }

  /** The child that holds the pattern is the one that the request goes on in. */
  lemma StrayChild(n: Node, ctx: Context, q: string, t: string, k: nat) returns (j: nat)
    requires Ok(n, ctx) && n.kind != CatchAll && CleanRest(q, ctx) && Passes(n, q) && t != ""
    requires n.path + t + "/" in FoundIn(n)
    requires Consume(n, q).0 <= k < |q| && Match(t, q[Consume(n, q).0..k]).Some?
    ensures Consume(n, q).0 < k && j < |n.children| && j == ChildIndex(n.children, q[Consume(n, q).0])
    ensures t[0] == Head(n.children[j])
  {
    var i := Consume(n, q).0;
    assert n.path + t + "/" == n.path + (t + "/") && (n.path + (t + "/"))[|n.path|..] == t + "/";
    var c := FindInSome(n.children, t + "/");
    FindMeetsRequest(n, ctx, t, c, q[i..k]);
    j := ChildIndex(n.children, q[i]);
  }

  lemma StrayUp(n: Node, ctx: Context, q: string, i: nat, j: nat, r: string, t: string, m: nat)
    requires Leads(n, ctx, q, i, j) && r == q[i..] && Meets(n.children[j], r)
    requires StrayAt(FoundIn(n.children[j]), After(n.path, ctx), r, t, m)
    ensures Stray(FoundIn(n), ctx, q)
  {
    LedHead(n, ctx, q, i, j);
    StartsAtHead(n.children[j], After(n.path, ctx), r, t, m);
    var k := InCut(q, i, r, m);
    StrayAbove(n, ctx, q, i, j, r, t, k, m);
  }

  lemma InCut(q: string, i: nat, r: string, m: nat) returns (k: nat)
    requires i <= |q| && r == q[i..] && m < |r|
    ensures k == i + m < |q|
  {
    k := i + m;
  }

  lemma StrayAbove(n: Node, ctx: Context, q: string, i: nat, j: nat, r: string, t: string, k: nat, m: nat)
    requires Ok(n, ctx) && n.kind != CatchAll && CleanRest(q, ctx) && Passes(n, q) && i == Consume(n, q).0 && 0 < i
    requires k == i + m <= |q|
    requires r == q[i..] && j < |n.children| && t != "" && t[0] == Head(n.children[j])
    requires StrayAt(FoundIn(n.children[j]), After(n.path, ctx), r, t, m)
    ensures StrayAt(FoundIn(n), ctx, q, n.path + t, k)
  {
    SlashHeld(n, ctx, j, t);
    NamedBelow(n, ctx, t);
    MatchUp(n, ctx, q, r, i, t, k, m);
    StrayShifts(n, ctx, q, r, j, t, k, m);
  }

  lemma MatchUp(n: Node, ctx: Context, q: string, r: string, i: nat, t: string, k: nat, m: nat)
    requires Ok(n, ctx) && n.kind != CatchAll && CleanRest(q, ctx) && Passes(n, q) && i == Consume(n, q).0 && 0 < i
    requires k == i + m <= |q|
    requires n.kind == Param && LastChar(n.path) != '/' ==> SegEnd(t) == 0
    requires r == q[i..]
    ensures m <= |r| && q[k..] == r[m..] && (Match(n.path + t, q[..k]).Some? <==> Match(t, r[..m]).Some?)
  {
    CutClean(q, ctx, k);
    ConsumeCut(n, q, k);
    CutTwice(q, i, m);
    assert Passes(n, q[..k]) && Consume(n, q[..k]).0 == i;
    NodeMatch(n, ctx, t, q[..k]);
  }

  lemma StartsAtHead(c: Node, ctx: Context, q: string, t: string, m: nat)
    requires Ok(c, ctx) && Meets(c, q) && StrayAt(FoundIn(c), ctx, q, t, m)
    ensures t != "" && t[0] == Head(c)
  {
    StrayIsBehind(c, q, ctx, t, m);
    if t == "" {
      assert c.path[0] == '/';
      NotAtLiteral(c, ctx, q, t, m);
    }
    assert t[0] == (t + "/")[0];
  }

  lemma NamedBelow(n: Node, ctx: Context, t: string)
    requires Ok(n, ctx) && t != "" && n.path + t + "/" in FoundIn(n)
    ensures n.kind == Param && LastChar(n.path) != '/' ==> SegEnd(t) == 0
  {
    assert n.path + t + "/" == n.path + (t + "/") && (t + "/")[0] == t[0];
    FoundBelow(n, ctx, t + "/");
  }

  // ----- where the walk stops

  /** The request does not get beyond the node, or ends with it. */
  lemma StraysNowhere(n: Node, ctx: Context, q: string)
    requires Ok(n, ctx) && n.kind != CatchAll && CleanRest(q, ctx) && Meets(n, q)
    requires Passes(n, q) ==> Consume(n, q).0 == |q|
    ensures !Stray(FoundIn(n), ctx, q)
  {
    forall p, k: nat ensures !StrayAt(FoundIn(n), ctx, q, p, k) {
      if StrayAt(FoundIn(n), ctx, q, p, k) {
        StrayIsBehind(n, q, ctx, p, k);
        if p + "/" != n.path {
          StrayPasses(n, ctx, q, p[|n.path|..], k);
        } else if n.kind == Static {
          NotAtLiteral(n, ctx, q, p, k);
        } else {
          AtName(n, ctx, q, p, k);
        }
        assert false;
      }
    }
  }

  /** The walk stops at `n`: no child goes on as the request does. */
  ghost predicate StopsAt(n: Node, ctx: Context, q: string, i: nat) {
    && Ok(n, ctx) && n.kind != CatchAll && CleanRest(q, ctx) && Meets(n, q) && Passes(n, q)
    && i == Consume(n, q).0 < |q| && ChildIndex(n.children, q[i]) == |n.children|
  }

  lemma NoneFollows(n: Node, ctx: Context, b: char)
    requires Ok(n, ctx) && ChildIndex(n.children, b) == |n.children|
    ensures NoneGoesOn(FoundIn(n), n.path, b)
  {
    var after := After(n.path, ctx);
    ChildIndexIsHeadIndex(n.children, after, b);
    forall s | s in FoundIn(n) && n.path <= s && |s| > |n.path| ensures s[|n.path|] != b && !IsWild(s[|n.path|]) {
      var t := s[|n.path|..];
      var c := FindInSome(n.children, t);
      assert Ok(c, after);
      if Head(c) == b || IsWild(Head(c)) { ChildFound(n.children, after, c, Head(c), [b]); }
    }
  }

  lemma SlashRegistered(n: Node, ctx: Context)
    requires Ok(n, ctx)
    ensures n.path + "/" in FoundIn(n) <==> HasSlashChild(n)
  {
    assert (n.path + "/")[|n.path|..] == "/";
    if n.path + "/" in FoundIn(n) {
      var c := FindInSome(n.children, "/");
      assert Ok(c, After(n.path, ctx));
      assert c.path == "/";
    }
    if HasSlashChild(n) {
      var j :| 0 <= j < |n.children| && n.children[j].path == "/" && n.children[j].handle.Some?;
      HeldBelow(n, ctx, j, "/");
    }
  }

  lemma SlashBranches(n: Node, ctx: Context)
    requires Ok(n, ctx) && n.kind == Static && HasSlashChild(n)
    ensures Branches(FoundIn(n), n.path)
  {
    var after := After(n.path, ctx);
    var j :| 0 <= j < |n.children| && n.children[j].path == "/" && n.children[j].handle.Some?;
    assert Ok(n.children[j], after);
    if n.handle.Some? {
      assert n.path in FoundIn(n);
    } else {
      var l := if j == 0 then 1 else 0;
      var c := n.children[l];
      assert Ok(c, after);
      var s := Inhabited(c, after);
      HeldBelow(n, ctx, l, s);
      assert (n.path + s)[|n.path|] == s[0] == Head(c) != '/';
    }
  }

  lemma StopsWithSlash(n: Node, ctx: Context, q: string, i: nat)
    requires StopsAt(n, ctx, q, i) && HasSlashChild(n)
    ensures n.kind == Static && StrayAt(FoundIn(n), ctx, q, n.path, i)
  {
    var after := After(n.path, ctx);
    var j :| 0 <= j < |n.children| && n.children[j].path == "/" && n.children[j].handle.Some?;
    assert Ok(n.children[j], after) && Head(n.children[j]) == '/';
    ChildIndexIsHeadIndex(n.children, after, q[i]);
    assert q[i] != '/';
    if n.kind == Param { ParamShape(n.path, ctx); }
    assert ctx != Ended;
    AfterLiteral(n.path, ctx);
    SlashRegistered(n, ctx);
    SlashBranches(n, ctx);
    NoneFollows(n, ctx, q[i]);
    PrefixIff(n.path, q);
    MatchLiteral(n.path, "", q[..i]);
    assert n.path + "" == n.path && q[..i][|n.path|..] == "";
  }

  lemma StopsBehindName(n: Node, ctx: Context, q: string, i: nat)
    requires StopsAt(n, ctx, q, i) && n.kind == Param && LastChar(n.path) == '/' && n.handle.Some?
    ensures Stray(FoundIn(n), ctx, q)
  {
    var a, k := n.path[..|n.path|-1], i - 1;
    ParamShape(n.path, ctx);
    assert n.path == a + "/" && n.path in FoundIn(n) && a !in FoundIn(n);
    SegEndCut(n.path, |a|);
    NameMeets(a, ctx, q, k);
    NoneFollows(n, ctx, q[i]);
    assert StrayAt(FoundIn(n), ctx, q, a, k);
  }

  /** A name alone meets the first segment. */
  lemma NameMeets(a: string, ctx: Context, q: string, k: nat)
    requires a != "" && a[0] == ':' && SegEnd(a) == |a| && 0 < k <= |q| && SegEnd(q) == k
    ensures After(a, ctx) == AfterName && Match(a, q[..k]).Some?
  {
    var r := q[..k];
    SegEndCut(q, k);
    assert a[|a|..] == "" && r[k..] == "" && SegEnd(r) == k;
    assert Match("", "").Some?;
  }

  /** Where the walk stops before the request ends, the advice is given exactly if the request strays. */
  lemma StopsStray(n: Node, ctx: Context, q: string, i: nat)
    requires StopsAt(n, ctx, q, i)
    ensures Stray(FoundIn(n), ctx, q) <==>
      HasSlashChild(n) || (n.kind == Param && LastChar(n.path) == '/' && n.handle.Some?)
  {
    if HasSlashChild(n) { StopsWithSlash(n, ctx, q, i); }
    if n.kind == Param && LastChar(n.path) == '/' && n.handle.Some? { StopsBehindName(n, ctx, q, i); }
    if p, k: nat :| StrayAt(FoundIn(n), ctx, q, p, k) { StopsOnly(n, ctx, q, i, p, k); }
  }

  lemma StopsOnly(n: Node, ctx: Context, q: string, i: nat, p: string, k: nat)
    requires StopsAt(n, ctx, q, i) && StrayAt(FoundIn(n), ctx, q, p, k)
    ensures HasSlashChild(n) || (n.kind == Param && LastChar(n.path) == '/' && n.handle.Some?)
  {
    StrayIsBehind(n, q, ctx, p, k);
    if p + "/" == n.path {
      if n.kind == Static { NotAtLiteral(n, ctx, q, p, k); } else { AtName(n, ctx, q, p, k); }
    } else if p == n.path {
      SlashRegistered(n, ctx);
    } else {
      StrayPasses(n, ctx, q, p[|n.path|..], k);
      var j := StrayChild(n, ctx, q, p[|n.path|..], k);
    }
  }

  // ----- the advice

  /**
   Advice to add a slash although the walk has not used up the request: exactly where the request
   strays from the registered patterns.
   */
  lemma {:induction false} AddStray(parent: Option<Node>, n: Node, ctx: Context, q: string, bs: seq<Binding>)
    requires Ok(n, ctx) && q != "" && CleanRest(q + "/", ctx) && Meets(n, q) && Hit(n, q) == None
    ensures var s := Walk(parent, n, q, bs);
      Advice(s) == AddSlash && !UsedUp(s) <==> Stray(FoundIn(n), ctx, q)
    decreases n, 1
  {
    if n.kind == CatchAll {
      HitCatchAll(None, n, ctx, q, []);
    } else {
      StepOfCorrect(n, ctx, q);
      match StepOf(n, q)
      case Both(i) =>
        if i == |q| {
          WalkPasses(parent, n, q, bs);
          StraysNowhere(n, ctx, q);
        } else {
          AddStrayBelow(parent, n, ctx, q, bs);
        }
      case SlashOnly =>
        if n.kind == Static { AddHereStatic(parent, n, q, bs); }
        StraysNowhere(n, ctx, q);
      case Neither =>
        AddNowhere(parent, n, ctx, q, bs);
        StraysNowhere(n, ctx, q);
    }
  }

  lemma {:induction false} AddStrayBelow(parent: Option<Node>, n: Node, ctx: Context, q: string, bs: seq<Binding>)
    requires Ok(n, ctx) && q != "" && CleanRest(q + "/", ctx) && Meets(n, q) && Hit(n, q) == None
    requires n.kind != CatchAll && StepOf(n, q).Both? && StepOf(n, q).i < |q|
    ensures var s := Walk(parent, n, q, bs);
      Advice(s) == AddSlash && !UsedUp(s) <==> Stray(FoundIn(n), ctx, q)
    decreases n, 0
  {
    var i, after := StepOf(n, q).i, After(n.path, ctx);
    StepOfCorrect(n, ctx, q);
    HitStep(n, q);
    WalkPasses(parent, n, q, bs);
    var j := ChildIndex(n.children, q[i]);
    if j < |n.children| {
      BelowClean(n, ctx, q, i, j);
      AddStray(Some(n), n.children[j], after, q[i..], bs + Consume(n, q).1);
      StrayBoth(n, ctx, q, i, j);
    } else {
      StopsStray(n, ctx, q, i);
    }
  }

  lemma BelowClean(n: Node, ctx: Context, q: string, i: nat, j: nat)
    requires Leads(n, ctx, q, i, j) && CleanRest(q + "/", ctx) && Passes(n, q + "/") && Consume(n, q + "/").0 == i
    ensures Ok(n.children[j], After(n.path, ctx)) && CleanRest(q[i..] + "/", After(n.path, ctx))
    ensures Meets(n.children[j], q[i..])
  {
    Descent(n, ctx, q + "/");
    Descent(n, ctx, q);
    SlashBehind(q, i);
  }

  lemma StrayBoth(n: Node, ctx: Context, q: string, i: nat, j: nat)
    requires Leads(n, ctx, q, i, j) && Meets(n, q) && Meets(n.children[j], q[i..])
    ensures Stray(FoundIn(n), ctx, q) <==> Stray(FoundIn(n.children[j]), After(n.path, ctx), q[i..])
  {
    if p, k: nat :| StrayAt(FoundIn(n), ctx, q, p, k) { StrayDown(n, ctx, q, i, j, p, k); }
    var c, r := n.children[j], q[i..];
    if t, m: nat :| StrayAt(FoundIn(c), After(n.path, ctx), r, t, m) { StrayUp(n, ctx, q, i, j, r, t, m); }
  }
}
