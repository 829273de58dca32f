/**
 Which strings `add` accepts, patterns or not, read off what is registered, and which literal it
 registers for them.
 */
module RouteAccepts {
  import opened Options
  import opened RoutePatterns
  import opened RouteTree
  import opened RouteShape
  import opened RouteAdd
  import opened RouteConflicts
  import opened RouteSyntax
  import opened RouteGet
  import opened RouteStray
  import opened RouteLoose

  /** How far `p` goes along with the pattern `q`: character by character, and over whole names of `q`. */
  function Agreement(p: string, q: string): (k: nat)
    ensures k <= |p| && k <= |q| && p[..k] == q[..k]
    decreases |q|
  {
    if p == "" || q == "" || q[0] == '*' then 0
    else if q[0] == ':' then
      var e := SegEnd(q);
      if q[..e] <= p then
        var k := Agreement(p[e..], q[e..]);
        assert p[..e+k] == p[..e] + p[e..][..k] && q[..e+k] == q[..e] + q[e..][..k];
        e + k
      else 0
    else if p[0] != q[0] then 0
    else
      var k := Agreement(p[1..], q[1..]);
      assert p[..1+k] == p[..1] + p[1..][..k] && q[..1+k] == q[..1] + q[1..][..k];
      1 + k
  }

  /** The longest agreement with something registered. */
  ghost function Longest(reg: iset<string>, p: string): (k: nat)
    ensures k <= |p|
  {
    LongestUpTo(reg, p, |p|)
  }

  ghost function LongestUpTo(reg: iset<string>, p: string, m: nat): (k: nat)
    ensures k <= m
  {
    if m == 0 || exists q :: q in reg && Agreement(p, q) == m then m else LongestUpTo(reg, p, m - 1)
  }

  lemma {:induction false} LongestMeans(reg: iset<string>, p: string, m: nat)
    requires forall q :: q in reg ==> Agreement(p, q) <= m
    ensures forall q :: q in reg ==> Agreement(p, q) <= LongestUpTo(reg, p, m)
    ensures LongestUpTo(reg, p, m) > 0 ==> exists q :: q in reg && Agreement(p, q) == LongestUpTo(reg, p, m)
  {
    if m > 0 && !exists q :: q in reg && Agreement(p, q) == m { LongestMeans(reg, p, m - 1); }
  }

  /**
   Both go on behind their agreement, and `q` has a wildcard there, or `p` has one; but a wildcard
   of `p` behind a name of `q` is no clash unless that name ends a registered pattern.
   */
  ghost predicate Clashes(reg: iset<string>, ctx: Context, p: string, q: string) {
    var k := Agreement(p, q);
    && k < |p| && k < |q|
    && (IsWild(q[k]) || (IsWild(p[k]) && (k > 0 && After(q[..k], ctx) == AfterName ==> p[..k] in reg)))
  }

  /** `p` goes on behind a name that is registered only with a '/' behind it, and not with that '/'. */
  ghost predicate CutsOff(reg: iset<string>, ctx: Context, p: string) {
    var k := Longest(reg, p);
    0 < k < |p| && After(p[..k], ctx) == AfterName && p[..k] !in reg
  }

  ghost predicate Accepts(reg: iset<string>, ctx: Context, p: string) {
    && p !in reg && (forall q :: q in reg ==> !Clashes(reg, ctx, p, q))
    && (CutsOff(reg, ctx, p) || WellNamed(p[Longest(reg, p)..]))
  }

  /** What is registered for an accepted `p`: where it cuts off, nothing behind the name. */
  ghost function LiteralOf(reg: iset<string>, ctx: Context, p: string): string {
    if CutsOff(reg, ctx, p) then p[..Longest(reg, p)] else p
  }

  // ----- agreement, one node at a time

  lemma {:induction false} AgreementLiteral(a: string, p: string, s: string)
    requires NoWild(a)
    ensures Agreement(p, a + s) == if a <= p then |a| + Agreement(p[|a|..], s) else Lcp(p, a)
    decreases |a|
  {
    if a == "" {
      assert a + s == s && p[0..] == p;
    } else {
      assert (a + s)[1..] == a[1..] + s;
      if p != "" && p[0] == a[0] {
        AgreementLiteral(a[1..], p[1..], s);
        assert a == [a[0]] + a[1..] && p == [p[0]] + p[1..];
        assert a <= p <==> a[1..] <= p[1..];
        if a <= p { assert p[1..][|a|-1..] == p[|a|..]; }
      }
    }
  }

  lemma {:induction false} AgreementName(a: string, p: string, s: string)
    requires a != "" && a[0] == ':' && SegEnd(a + s) == |a| && p != ""
    ensures Agreement(p, a + s) == if a <= p then |a| + Agreement(p[|a|..], s) else 0
  {
    assert (a + s)[..|a|] == a && (a + s)[|a|..] == s;
  }

  lemma {:induction false} AgreementSlash(p: string, s: string)
    ensures Agreement(p, "/" + s) == if p != "" && p[0] == '/' then 1 + Agreement(p[1..], s) else 0
  {
    assert ("/" + s)[1..] == s;
  }

  lemma LongestIs(reg: iset<string>, p: string, k: nat)
    requires (forall q :: q in reg ==> Agreement(p, q) <= k) && exists q :: q in reg && Agreement(p, q) == k
    ensures Longest(reg, p) == k
  {
    LongestMeans(reg, p, |p|);
  }

  lemma AgreementNode(n: Node, ctx: Context, path: string, s: string)
    requires Labelled(n) && PatternFrom(n.path, ctx) && n.kind != CatchAll && path != ""
    requires n.kind == Param && LastChar(n.path) != '/' ==> SegEnd(s) == 0
    ensures Agreement(path, n.path + s) ==
      if n.path <= path then |n.path| + Agreement(path[|n.path|..], s)
      else if n.kind == Static then Lcp(path, n.path)
      else if LastChar(n.path) == '/' && Lcp(path, n.path) == |n.path| - 1 then |n.path| - 1
      else 0
  {
    if n.kind == Static {
      AgreementLiteral(n.path, path, s);
    } else {
      ParamShape(n.path, ctx);
      ParamToken(n.path, s);
      if LastChar(n.path) == '/' {
        SlashedAgreement(n.path, n.path[..|n.path|-1], path, s);
      } else {
        AgreementName(n.path, path, s);
      }
    }
  }

  lemma {:induction false} SlashedAgreement(b: string, a: string, path: string, s: string)
    requires a != "" && a[0] == ':' && b == a + "/" && SegEnd(b + s) == |a| && path != ""
    ensures Agreement(path, b + s) ==
      if b <= path then |b| + Agreement(path[|b|..], s) else if Lcp(path, b) == |a| then |a| else 0
  {
    assert b + s == a + ("/" + s);
    AgreementName(a, path, "/" + s);
    LcpIsLongest(path, b, |a|);
    var i := Lcp(path, b);
    assert path[..i] == b[..i] && b[..|a|] == a;
    if a <= path {
      AgreementSlash(path[|a|..], s);
      assert b[..|a|] == a == path[..|a|];
      if |a| < |path| { assert path[|a|..][1..] == path[|b|..] && path[|a|..][0] == path[|a|]; }
      PrefixByOne(a, b, path);
    }
  }

  lemma PrefixByOne(a: string, b: string, path: string)
    requires b == a + "/" && a <= path
    ensures b <= path <==> |a| < |path| && path[|a|] == '/'
    ensures !(b <= path) ==> Lcp(path, b) == |a|
  {
    LcpIsLongest(path, b, |a|);
    assert b[..|a|] == a == path[..|a|] && b[|a|] == '/';
    if b <= path { assert path[|a|] == b[|a|]; }
    if |a| < |path| && path[|a|] == '/' { assert path[..|b|] == path[..|a|] + [path[|a|]]; }
    if Lcp(path, b) == |b| { assert b == path[..|b|]; }
  }

  /** What is behind the path of a node in something it holds. */
  lemma HeldParts(n: Node, ctx: Context, q: string) returns (s: string)
    requires Ok(n, ctx) && q in FoundIn(n)
    ensures q == n.path + s && s == q[|n.path|..]
    ensures n.kind == Param && LastChar(n.path) != '/' ==> SegEnd(s) == 0
    ensures n.kind == CatchAll ==> s == ""
  {
    s := q[|n.path|..];
    assert q == n.path + s;
    FoundBelow(n, ctx, s);
  }

  // ----- where the walk of `Add` stops

  /** Everything in `n` agrees with `path` up to `k` only. */
  ghost predicate AgreesTo(n: Node, path: string, k: nat) {
    (exists q :: q in FoundIn(n)) && forall q :: q in FoundIn(n) ==> Agreement(path, q) == k
  }

  /** `Add` answers, and registers, as `Accepts` and `LiteralOf` say. */
  ghost predicate Answers(n: Node, ctx: Context, path: string, handle: Handle) {
    && (Add(n, path, handle).ok <==> Accepts(FoundIn(n), ctx, path))
    && (Add(n, path, handle).ok ==> Registered(n, path) == LiteralOf(FoundIn(n), ctx, path))
  }

  lemma AtCatchAll(n: Node, ctx: Context, path: string, handle: Handle)
    requires Ok(n, ctx) && n.kind == CatchAll && path != ""
    ensures Answers(n, ctx, path, handle)
  {
    assert n.path in FoundIn(n);
    assert Clashes(FoundIn(n), ctx, path, n.path);
  }

  /** A parameter whose name does not fit. */
  lemma AtOtherName(n: Node, ctx: Context, path: string, handle: Handle)
    requires Ok(n, ctx) && n.kind == Param && path != "" && !(n.path <= path)
    requires !(LastChar(n.path) == '/' && Lcp(path, n.path) == |n.path| - 1)
    ensures Answers(n, ctx, path, handle)
  {
    var q := Inhabited(n, ctx);
    var s := HeldParts(n, ctx, q);
    AgreementNode(n, ctx, path, s);
    PrefixIff(n.path, path);
    LcpPrefix(path, n.path);
    assert Clashes(FoundIn(n), ctx, path, q);
  }

  lemma LcpPrefix(path: string, a: string)
    ensures a <= path <==> Lcp(path, a) == |a|
  {
    LcpIsLongest(path, a, |a|);
    if Lcp(path, a) == |a| { assert path[..|a|] == a[..|a|] == a; }
  }

  /** A ':name/' whose name fits, but not its '/'. */
  lemma AtSlash(n: Node, ctx: Context, path: string, handle: Handle)
    requires Ok(n, ctx) && n.kind == Param && path != "" && !(n.path <= path)
    requires LastChar(n.path) == '/' && Lcp(path, n.path) == |n.path| - 1
    ensures Answers(n, ctx, path, handle)
  {
    var a := n.path[..|n.path|-1];
    ParamShape(n.path, ctx);
    AgreesAtName(n, ctx, path);
    NameAfter(a, n.path, ctx);
    TakesName(path, a, n.path);
    NotHeld(n, a, path);
    StopsAtSlash(FoundIn(n), ctx, path, a, n.path);
    AddAtSlash(n, path, handle);
  }

  lemma AddAtSlash(n: Node, path: string, handle: Handle)
    requires n.kind == Param && path != "" && n.path != ""
    requires LastChar(n.path) == '/' && Lcp(path, n.path) == |n.path| - 1
    ensures Add(n, path, handle).ok && Registered(n, path) == path[..|n.path|-1]
  {
  }

  lemma TakesName(path: string, a: string, b: string)
    requires b != "" && a == b[..|b|-1] && Lcp(path, b) == |a|
    ensures a <= path && path[..|a|] == a
  {
  }

  lemma NotHeld(n: Node, a: string, path: string)
    requires |a| < |n.path| && !(n.path <= path)
    ensures a !in FoundIn(n) && path !in FoundIn(n) && forall q :: q in FoundIn(n) ==> n.path <= q
  {
  }

  lemma StopsAtSlash(reg: iset<string>, ctx: Context, path: string, a: string, b: string)
    requires a != "" && a <= path && After(a, ctx) == AfterName && a !in reg && path !in reg && exists q :: q in reg
    requires |b| == |a| + 1 && b[|a|] == '/' && forall q :: q in reg ==> Agreement(path, q) == |a| && b <= q
    ensures Accepts(reg, ctx, path) && LiteralOf(reg, ctx, path) == a
  {
    LongestIs(reg, path, |a|);
    forall q | q in reg ensures !Clashes(reg, ctx, path, q) {
      SlashIsNoClash(reg, ctx, path, q, a, b);
    }
    assert path[..|a|] == a;
    if |path| == |a| { assert path[|a|..] == "" && WellNamed(""); }
  }

  lemma SlashIsNoClash(reg: iset<string>, ctx: Context, path: string, q: string, a: string, b: string)
    requires a != "" && a <= path && After(a, ctx) == AfterName && a !in reg
    requires |b| == |a| + 1 && b[|a|] == '/' && Agreement(path, q) == |a| && b <= q
    ensures !Clashes(reg, ctx, path, q)
  {
    assert path[..|a|] == a == q[..|a|] && b[|a|] == q[|a|];
  }

  lemma NameAfter(a: string, b: string, ctx: Context)
    requires b != "" && a == b[..|b|-1] && a != "" && a[0] == ':' && SegEnd(b) == |a|
    ensures After(a, ctx) == AfterName
  {
    SegEndCut(b, |a|);
    assert a[|a|..] == "";
  }

  lemma AgreesAtName(n: Node, ctx: Context, path: string)
    requires Ok(n, ctx) && n.kind == Param && path != "" && !(n.path <= path)
    requires LastChar(n.path) == '/' && Lcp(path, n.path) == |n.path| - 1
    ensures AgreesTo(n, path, |n.path| - 1)
  {
    var held := Inhabited(n, ctx);
    assert held in FoundIn(n);
    forall q | q in FoundIn(n) ensures Agreement(path, q) == |n.path| - 1 {
      var s := HeldParts(n, ctx, q);
      AgreementNode(n, ctx, path, s);
    }
  }

  /** A literal node that `path` does not get through. */
  lemma AtLiteral(n: Node, ctx: Context, path: string, handle: Handle)
    requires Ok(n, ctx) && n.kind == Static && path != "" && Reaches(n, path) && !(n.path <= path)
    ensures Answers(n, ctx, path, handle)
  {
    LcpPrefix(path, n.path);
    AgreesAtLiteral(n, ctx, path);
    LiteralAfter(n, ctx, Lcp(path, n.path));
    StopsAtLiteral(FoundIn(n), ctx, path, n.path, Lcp(path, n.path));
    AddAtLiteral(n, path, handle);
  }

  lemma StopsAtLiteral(reg: iset<string>, ctx: Context, path: string, a: string, k: nat)
    requires k <= |path| && k < |a| && path[..k] == a[..k] && !IsWild(a[k]) && path !in reg && exists q :: q in reg
    requires k > 0 ==> After(a[..k], ctx) != AfterName
    requires forall q :: q in reg ==> Agreement(path, q) == k && a <= q
    ensures Accepts(reg, ctx, path) <==> (k < |path| ==> !IsWild(path[k])) && WellNamed(path[k..])
    ensures LiteralOf(reg, ctx, path) == path
  {
    LongestIs(reg, path, k);
    forall q | q in reg ensures Clashes(reg, ctx, path, q) <==> k < |path| && IsWild(path[k]) {
      assert q[..k] == a[..k] && q[k] == a[k];
    }
  }

  lemma LiteralAfter(n: Node, ctx: Context, i: nat)
    requires Labelled(n) && PatternFrom(n.path, ctx) && n.kind == Static && i <= |n.path|
    ensures i > 0 ==> After(n.path[..i], ctx) != AfterName
  {
    if i > 0 {
      assert ctx != Ended;
      AfterLiteral(n.path[..i], ctx);
    }
  }

  lemma AgreesAtLiteral(n: Node, ctx: Context, path: string)
    requires Ok(n, ctx) && n.kind == Static && path != "" && !(n.path <= path)
    ensures AgreesTo(n, path, Lcp(path, n.path))
  {
    var held := Inhabited(n, ctx);
    assert held in FoundIn(n);
    forall q | q in FoundIn(n) ensures Agreement(path, q) == Lcp(path, n.path) {
      var s := HeldParts(n, ctx, q);
      AgreementNode(n, ctx, path, s);
    }
  }

  lemma AddAtLiteral(n: Node, path: string, handle: Handle)
    requires Labelled(n) && n.kind == Static && path != "" && Reaches(n, path) && Lcp(path, n.path) < |n.path|
    ensures var i := Lcp(path, n.path);
      Add(n, path, handle).ok <==> (i < |path| ==> !IsWild(path[i])) && WellNamed(path[i..])
  {
    var i := Lcp(path, n.path);
    var rest := path[i..];
    if i < |path| {
      if i > 0 {
        var m := Split(n, i, None);
        assert rest[0] == path[i] && m.children[0].path[0] == n.path[i];
        WildRefused(m.children[0], rest, handle);
        ConstructIff(rest, handle);
        if !IsWild(rest[0]) { assert ChildIndex(m.children, rest[0]) == 1; }
      }
    } else {
      assert rest == "" && WellNamed("");
    }
  }

  /** `path` ends where the node does. */
  lemma AtEnd(n: Node, ctx: Context, path: string, handle: Handle)
    requires Ok(n, ctx) && n.kind != CatchAll && path == n.path
    ensures Answers(n, ctx, path, handle)
  {
    AgreesAtEnd(n, ctx, path);
    LcpPrefix(path, n.path);
    StopsAtEnd(FoundIn(n), ctx, path);
    if n.handle.None? { assert path !in FoundIn(n); }
  }

  lemma AgreesAtEnd(n: Node, ctx: Context, path: string)
    requires Ok(n, ctx) && n.kind != CatchAll && path == n.path
    ensures AgreesTo(n, path, |path|)
  {
    var held := Inhabited(n, ctx);
    assert held in FoundIn(n);
    forall q | q in FoundIn(n) ensures Agreement(path, q) == |path| {
      var s := HeldParts(n, ctx, q);
      AgreementNode(n, ctx, path, s);
    }
  }

  lemma StopsAtEnd(reg: iset<string>, ctx: Context, path: string)
    requires exists q :: q in reg
    requires forall q :: q in reg ==> Agreement(path, q) == |path|
    ensures (Accepts(reg, ctx, path) <==> path !in reg) && LiteralOf(reg, ctx, path) == path
  {
    LongestIs(reg, path, |path|);
    assert path[|path|..] == "" && WellNamed("");
  }

  // ----- no child goes on as the path does

  /** `path` goes on behind the node, and no child starts as it does there. */
  ghost predicate GoesBeyond(n: Node, ctx: Context, path: string) {
    && Ok(n, ctx) && n.kind != CatchAll && n.path <= path && |n.path| < |path|
    && ChildIndex(n.children, path[|n.path|]) == |n.children|
  }

  lemma OtherChild(n: Node, ctx: Context, path: string, s: string)
    requires GoesBeyond(n, ctx, path) && s != "" && Find(n, n.path + s).Some?
    ensures !IsWild(s[0]) && s[0] != path[|n.path|]
  {
    assert (n.path + s)[|n.path|..] == s;
    var c := FindInSome(n.children, s);
    assert Ok(c, After(n.path, ctx));
  }

  lemma AgreesBeyond(n: Node, ctx: Context, path: string)
    requires GoesBeyond(n, ctx, path)
    ensures AgreesTo(n, path, |n.path|)
    ensures forall q :: q in FoundIn(n) ==>
      n.path <= q && (|q| > |n.path| ==> !IsWild(q[|n.path|]) && q[|n.path|] != path[|n.path|])
  {
    var held := Inhabited(n, ctx);
    assert held in FoundIn(n);
    forall q | q in FoundIn(n)
      ensures Agreement(path, q) == |n.path|
      ensures |q| > |n.path| ==> !IsWild(q[|n.path|]) && q[|n.path|] != path[|n.path|]
    {
      var s := HeldParts(n, ctx, q);
      AgreementNode(n, ctx, path, s);
      if s != "" { OtherChild(n, ctx, path, s); }
      NoAgreement(path[|n.path|..], s);
    }
  }

  lemma NoAgreement(p: string, q: string)
    requires p != "" && (q == "" || (!IsWild(q[0]) && q[0] != p[0]))
    ensures Agreement(p, q) == 0
  {
  }

  /** Where a name without '/' is, it has a handle. */
  lemma NameIsHeld(n: Node, ctx: Context)
    requires Ok(n, ctx) && n.kind != CatchAll
    ensures After(n.path, ctx) == AfterName ==> n.path in FoundIn(n)
  {
    if n.kind == Static {
      LiteralAfter(n, ctx, |n.path|);
      assert n.path[..|n.path|] == n.path;
    } else {
      ParamShape(n.path, ctx);
    }
  }

  lemma StopsBeyond(reg: iset<string>, ctx: Context, path: string, a: string)
    requires a <= path && |a| < |path| && path !in reg && (After(a, ctx) == AfterName ==> a in reg)
    requires exists q :: q in reg
    requires forall q :: q in reg ==>
      Agreement(path, q) == |a| && a <= q && (|q| > |a| ==> !IsWild(q[|a|]) && q[|a|] != path[|a|])
    ensures Accepts(reg, ctx, path) <==>
      (IsWild(path[|a|]) ==> forall q :: q in reg ==> |q| == |a|) && WellNamed(path[|a|..])
    ensures LiteralOf(reg, ctx, path) == path
  {
    LongestIs(reg, path, |a|);
    assert path[..|a|] == a;
    forall q | q in reg ensures Clashes(reg, ctx, path, q) <==> |a| < |q| && IsWild(path[|a|]) {
      assert q[..|a|] == a;
    }
  }

  lemma AddBeyond(n: Node, ctx: Context, path: string, handle: Handle)
    requires GoesBeyond(n, ctx, path)
    ensures Add(n, path, handle).ok <==>
      (IsWild(path[|n.path|]) ==> n.children == []) && WellNamed(path[|n.path|..])
    ensures Registered(n, path) == path
  {
    var rest := path[|n.path|..];
    LcpPrefix(path, n.path);
    ConstructIff(rest, handle);
    if n.children != [] {
      assert Ok(n.children[0], After(n.path, ctx));
      WildRefused(n.children[0], rest, handle);
    }
  }

  lemma ChildrenHold(n: Node, ctx: Context)
    requires Ok(n, ctx)
    ensures (forall q :: q in FoundIn(n) ==> |q| == |n.path|) <==> n.children == []
  {
    if n.children != [] {
      var c := n.children[0];
      assert Ok(c, After(n.path, ctx));
      var s := Inhabited(c, After(n.path, ctx));
      HeldBelow(n, ctx, 0, s);
      assert n.path + s in FoundIn(n) && |n.path + s| > |n.path|;
    } else {
      forall q | q in FoundIn(n) ensures |q| == |n.path| {
        assert Find(n, q).Some? && n.path <= q;
      }
    }
  }

  lemma AtLast(n: Node, ctx: Context, path: string, handle: Handle)
    requires GoesBeyond(n, ctx, path)
    ensures Answers(n, ctx, path, handle)
  {
    AgreesBeyond(n, ctx, path);
    NameIsHeld(n, ctx);
    assert path !in FoundIn(n);
    StopsBeyond(FoundIn(n), ctx, path, n.path);
    ChildrenHold(n, ctx);
    AddBeyond(n, ctx, path, handle);
  }

  // ----- a child goes on as the path does

  /** `path` goes on in child `j`. */
  ghost predicate GoesInto(n: Node, ctx: Context, path: string, j: nat) {
    && Ok(n, ctx) && n.kind != CatchAll && n.path <= path && |n.path| < |path|
    && j < |n.children| && j == ChildIndex(n.children, path[|n.path|])
  }

  lemma IntoHead(n: Node, ctx: Context, path: string, j: nat)
    requires GoesInto(n, ctx, path, j)
    ensures Ok(n.children[j], After(n.path, ctx)) && Reaches(n.children[j], path[|n.path|..])
    ensures n.children[j].kind != Static || (Head(n.children[j]) == path[|n.path|] && !IsWild(path[|n.path|]))
  {
    assert Ok(n.children[j], After(n.path, ctx));
  }

  /** Whatever is not in the child ends with the node, or goes on with another literal. */
  lemma NotInto(n: Node, ctx: Context, path: string, j: nat, q: string)
    requires GoesInto(n, ctx, path, j) && q in FoundIn(n)
    requires |q| == |n.path| || q[|n.path|] != Head(n.children[j])
    ensures n.path <= q && Agreement(path, q) == |n.path|
    ensures |q| > |n.path| ==> !IsWild(q[|n.path|]) && !IsWild(path[|n.path|])
  {
    var s := HeldParts(n, ctx, q);
    AgreementNode(n, ctx, path, s);
    IntoHead(n, ctx, path, j);
    if s != "" {
      var c := FindInSome(n.children, s);
      assert Ok(c, After(n.path, ctx)) && Head(c) == s[0];
    }
    NoAgreement(path[|n.path|..], s);
  }

  lemma Into(n: Node, ctx: Context, path: string, j: nat, s: string)
    requires GoesInto(n, ctx, path, j) && s in FoundIn(n.children[j])
    ensures s != "" && s[0] == Head(n.children[j]) && n.path + s in FoundIn(n)
    ensures n.kind == Param && LastChar(n.path) != '/' ==> s[0] == '/'
    ensures Agreement(path, n.path + s) == |n.path| + Agreement(path[|n.path|..], s)
  {
    var c := n.children[j];
    assert Ok(c, After(n.path, ctx)) && c.path <= s;
    HeldBelow(n, ctx, j, s);
    FoundBelow(n, ctx, s);
    AgreementNode(n, ctx, path, s);
  }

  lemma LongestInto(n: Node, ctx: Context, path: string, j: nat)
    requires GoesInto(n, ctx, path, j)
    ensures Longest(FoundIn(n), path) == |n.path| + Longest(FoundIn(n.children[j]), path[|n.path|..])
  {
    var c, rest := n.children[j], path[|n.path|..];
    var k := Longest(FoundIn(c), rest);
    assert Ok(c, After(n.path, ctx));
    var held := Inhabited(c, After(n.path, ctx));
    LongestMeans(FoundIn(c), rest, |rest|);
    var s := held;
    if k > 0 { s := LongestHeld(FoundIn(c), rest, k); }
    Into(n, ctx, path, j, s);
    forall q | q in FoundIn(n) ensures Agreement(path, q) <= |n.path| + k {
      var t := HeldParts(n, ctx, q);
      if t == "" || t[0] != Head(c) {
        NotInto(n, ctx, path, j, q);
      } else {
        HeldBelow(n, ctx, j, t);
        Into(n, ctx, path, j, t);
      }
    }
    LongestIs(FoundIn(n), path, |n.path| + k);
  }

  lemma LongestHeld(reg: iset<string>, p: string, k: nat) returns (q: string)
    requires k == Longest(reg, p) > 0
    ensures q in reg && Agreement(p, q) == k <= |q| && p[..k] == q[..k]
  {
    LongestMeans(reg, p, |p|);
    q :| q in reg && Agreement(p, q) == k;
  }

  /** The part of a path up to some point, in the node and in its child. */
  lemma CutInto(n: Node, ctx: Context, j: nat, path: string, a: string)
    requires GoesInto(n, ctx, path, j) && a != "" && a[0] == Head(n.children[j])
    requires n.kind == Param && LastChar(n.path) != '/' ==> a[0] == '/'
    ensures PartsAgree(n, ctx, j, a)
  {
    AfterNode(n, ctx, a);
    HeldBelow(n, ctx, j, a);
  }

  lemma {:induction false} ClashInto(n: Node, ctx: Context, path: string, j: nat, s: string)
    requires GoesInto(n, ctx, path, j) && s in FoundIn(n.children[j])
    ensures Clashes(FoundIn(n), ctx, path, n.path + s) <==>
      Clashes(FoundIn(n.children[j]), After(n.path, ctx), path[|n.path|..], s)
  {
    var rest := path[|n.path|..];
    var k := Agreement(rest, s);
    ClashFacts(n, ctx, path, j, s, rest, k);
    SameClash(FoundIn(n), FoundIn(n.children[j]), ctx, After(n.path, ctx), n.path, path, rest, s, k);
  }

  lemma {:induction false} ClashFacts(n: Node, ctx: Context, path: string, j: nat, s: string, rest: string, k: nat)
    requires GoesInto(n, ctx, path, j) && s in FoundIn(n.children[j]) && rest == path[|n.path|..]
    requires k == Agreement(rest, s)
    ensures path == n.path + rest && Agreement(path, n.path + s) == |n.path| + k
    ensures n.path + s in FoundIn(n) && (After(n.path, ctx) == AfterName ==> n.path in FoundIn(n))
    ensures k > 0 ==> PartsAgree(n, ctx, j, s[..k])
  {
    Into(n, ctx, path, j, s);
    NameIsHeld(n, ctx);
    if k > 0 {
      CutHead(s, k, s[..k]);
      CutInto(n, ctx, j, path, s[..k]);
    }
  }

  /** The context behind a part of a path, and whether it is held, are the same in the node and in its child. */
  ghost predicate PartsAgree(n: Node, ctx: Context, j: nat, a: string)
    requires j < |n.children|
  {
    && After(n.path + a, ctx) == After(a, After(n.path, ctx))
    && (n.path + a in FoundIn(n) <==> a in FoundIn(n.children[j]))
  }

  lemma SameClash(reg: iset<string>, reg': iset<string>, ctx: Context, ctx': Context, a: string, path: string,
                  rest: string,
                  s: string, k: nat)
    requires k == Agreement(rest, s) && path == a + rest && a != "" && Agreement(path, a + s) == |a| + k
    requires After(a, ctx) == AfterName ==> a in reg
    requires k > 0 ==> After(a + s[..k], ctx) == After(s[..k], ctx') && (a + s[..k] in reg <==> s[..k] in reg')
    ensures Clashes(reg, ctx, path, a + s) <==> Clashes(reg', ctx', rest, s)
  {
    CutBehind(a, s, k);
    CutBehind(a, rest, k);
    assert rest[..k] == s[..k];
  }

  lemma CutBehind(a: string, s: string, k: nat)
    requires k <= |s|
    ensures (a + s)[..|a|+k] == a + s[..k] && (k == 0 ==> (a + s)[..|a|+k] == a)
    ensures k < |s| ==> (a + s)[|a|+k] == s[k]
    ensures (a + s)[|a|+k..] == s[k..]
  {
  }

  lemma {:induction false} CutsInto(n: Node, ctx: Context, path: string, j: nat, rest: string, k: nat)
    requires GoesInto(n, ctx, path, j) && rest == path[|n.path|..] && k == Longest(FoundIn(n.children[j]), rest)
    ensures CutsOff(FoundIn(n), ctx, path) <==> CutsOff(FoundIn(n.children[j]), After(n.path, ctx), rest)
    ensures LiteralOf(FoundIn(n), ctx, path) == n.path + LiteralOf(FoundIn(n.children[j]), After(n.path, ctx), rest)
    ensures Longest(FoundIn(n), path) == |n.path| + k && path[|n.path|+k..] == rest[k..]
  {
    LongestInto(n, ctx, path, j);
    CutFacts(n, ctx, path, j, rest, k, rest[..k]);
    NameIsHeld(n, ctx);
    assert path == n.path + rest;
    SameCut(FoundIn(n), FoundIn(n.children[j]), ctx, After(n.path, ctx), n.path, path, rest, k);
  }

  lemma {:induction false} CutFacts(n: Node, ctx: Context, path: string, j: nat, rest: string, k: nat, a: string)
    requires GoesInto(n, ctx, path, j) && rest == path[|n.path|..] && k == Longest(FoundIn(n.children[j]), rest)
    requires a == rest[..k]
    ensures k > 0 ==> PartsAgree(n, ctx, j, a)
  {
    if k > 0 {
      var s := LongestHeld(FoundIn(n.children[j]), rest, k);
      CutHead(s, k, a);
      Into(n, ctx, path, j, s);
      CutInto(n, ctx, j, path, a);
    }
  }

  lemma CutHead(s: string, k: nat, a: string)
    requires 0 < k <= |s| && a == s[..k]
    ensures a != "" && a[0] == s[0]
  {
  }

  lemma SameCut(reg: iset<string>, reg': iset<string>, ctx: Context, ctx': Context, a: string, path: string,
                rest: string, k: nat)
    requires k == Longest(reg', rest) && path == a + rest && a != "" && Longest(reg, path) == |a| + k
    requires After(a, ctx) == AfterName ==> a in reg
    requires k > 0 ==> After(a + rest[..k], ctx) == After(rest[..k], ctx')
    requires k > 0 ==> (a + rest[..k] in reg <==> rest[..k] in reg')
    ensures CutsOff(reg, ctx, path) <==> CutsOff(reg', ctx', rest)
    ensures LiteralOf(reg, ctx, path) == a + LiteralOf(reg', ctx', rest)
    ensures path[|a|+k..] == rest[k..]
  {
    CutBehind(a, rest, k);
  }

  lemma HeldInto(n: Node, ctx: Context, path: string, j: nat)
    requires GoesInto(n, ctx, path, j)
    ensures path in FoundIn(n) <==> path[|n.path|..] in FoundIn(n.children[j])
  {
    var rest := path[|n.path|..];
    assert path == n.path + rest;
    IntoHead(n, ctx, path, j);
    if path in FoundIn(n) {
      var c := FindInSome(n.children, rest);
      assert Ok(c, After(n.path, ctx));
      ItselfInto(n, ctx, path, j);
    }
    if rest in FoundIn(n.children[j]) { Into(n, ctx, path, j, rest); }
  }

  /** What is held of the path itself is held in the child. */
  lemma ItselfInto(n: Node, ctx: Context, path: string, j: nat)
    requires GoesInto(n, ctx, path, j) && path in FoundIn(n)
    ensures path[|n.path|] == Head(n.children[j]) && path[|n.path|..] in FoundIn(n.children[j])
  {
    var rest := path[|n.path|..];
    var c := FindInSome(n.children, rest);
    IntoHead(n, ctx, path, j);
    assert path == n.path + rest && Ok(c, After(n.path, ctx));
    if n.children[j].kind != Static { assert |n.children| == 1; }
    HeldBelow(n, ctx, j, rest);
  }

  lemma ClashesInto(n: Node, ctx: Context, path: string, j: nat)
    requires GoesInto(n, ctx, path, j)
    ensures (forall q :: q in FoundIn(n) ==> !Clashes(FoundIn(n), ctx, path, q)) <==>
      forall s :: s in FoundIn(n.children[j]) ==>
        !Clashes(FoundIn(n.children[j]), After(n.path, ctx), path[|n.path|..], s)
  {
    var c := n.children[j];
    forall s | s in FoundIn(c)
      ensures n.path + s in FoundIn(n) && (Clashes(FoundIn(n), ctx, path, n.path + s) <==>
        Clashes(FoundIn(c), After(n.path, ctx), path[|n.path|..], s))
    {
      Into(n, ctx, path, j, s);
      ClashInto(n, ctx, path, j, s);
    }
    forall q | q in FoundIn(n) && (|q| == |n.path| || q[|n.path|] != Head(c))
      ensures !Clashes(FoundIn(n), ctx, path, q)
    {
      NotInto(n, ctx, path, j, q);
    }
    forall q | q in FoundIn(n) && |q| > |n.path| && q[|n.path|] == Head(c)
      ensures q[|n.path|..] in FoundIn(c) && q == n.path + q[|n.path|..]
    {
      var s := HeldParts(n, ctx, q);
      HeldBelow(n, ctx, j, s);
    }
  }

  lemma AnswersInto(n: Node, ctx: Context, path: string, handle: Handle, j: nat)
    requires GoesInto(n, ctx, path, j) && Answers(n.children[j], After(n.path, ctx), path[|n.path|..], handle)
    ensures Answers(n, ctx, path, handle)
  {
    AcceptsInto(n, ctx, path, j, path[|n.path|..]);
    AddInto(n, ctx, path, handle, j);
  }

  lemma {:induction false} AcceptsInto(n: Node, ctx: Context, path: string, j: nat, rest: string)
    requires GoesInto(n, ctx, path, j) && rest == path[|n.path|..]
    ensures Accepts(FoundIn(n), ctx, path) <==> Accepts(FoundIn(n.children[j]), After(n.path, ctx), rest)
    ensures LiteralOf(FoundIn(n), ctx, path) == n.path + LiteralOf(FoundIn(n.children[j]), After(n.path, ctx), rest)
  {
    var k := Longest(FoundIn(n.children[j]), rest);
    CutsInto(n, ctx, path, j, rest, k);
    HeldInto(n, ctx, path, j);
    ClashesInto(n, ctx, path, j);
    SameAccepts(FoundIn(n), FoundIn(n.children[j]), ctx, After(n.path, ctx), path, rest, |n.path| + k, k);
  }

  lemma {:induction false} SameAccepts(reg: iset<string>, reg': iset<string>, ctx: Context, ctx': Context,
                                       path: string, rest: string, m: nat, k: nat)
    requires m == Longest(reg, path) && k == Longest(reg', rest) && path[m..] == rest[k..]
    requires CutsOff(reg, ctx, path) <==> CutsOff(reg', ctx', rest)
    requires path in reg <==> rest in reg'
    requires (forall q :: q in reg ==> !Clashes(reg, ctx, path, q)) <==>
      forall q :: q in reg' ==> !Clashes(reg', ctx', rest, q)
    ensures Accepts(reg, ctx, path) <==> Accepts(reg', ctx', rest)
  {
  }

  lemma AddInto(n: Node, ctx: Context, path: string, handle: Handle, j: nat)
    requires GoesInto(n, ctx, path, j)
    ensures Add(n, path, handle).ok == Add(n.children[j], path[|n.path|..], handle).ok
    ensures Registered(n, path) == n.path + Registered(n.children[j], path[|n.path|..])
  {
    LcpPrefix(path, n.path);
    IntoHead(n, ctx, path, j);
    assert n.children[j].kind != Static ==> |n.children| == 1;
  }

  // ----- every string

  /** For every string, `Add` accepts, and registers, what `Accepts` and `LiteralOf` say. */
  lemma {:induction false} AddAnswers(n: Node, ctx: Context, path: string, handle: Handle)
    requires Ok(n, ctx) && path != "" && Reaches(n, path)
    ensures Answers(n, ctx, path, handle)
    decreases n
  {
    if n.kind == CatchAll {
      AtCatchAll(n, ctx, path, handle);
    } else if n.path <= path {
      if |path| == |n.path| {
        AtEnd(n, ctx, path, handle);
      } else {
        var j := ChildIndex(n.children, path[|n.path|]);
        if j < |n.children| {
          IntoHead(n, ctx, path, j);
          AddAnswers(n.children[j], After(n.path, ctx), path[|n.path|..], handle);
          AnswersInto(n, ctx, path, handle, j);
        } else {
          AtLast(n, ctx, path, handle);
        }
      }
    } else if n.kind == Static {
      AtLiteral(n, ctx, path, handle);
    } else if LastChar(n.path) == '/' && Lcp(path, n.path) == |n.path| - 1 {
      AtSlash(n, ctx, path, handle);
    } else {
      AtOtherName(n, ctx, path, handle);
    }
  }

  // ----- the canonical form

  /** A path that cuts off leaves the canonical form behind, with the name registered. */
  lemma {:induction false} CutAdds(n: Node, ctx: Context, path: string, handle: Handle)
    requires Ok(n, ctx) && path != "" && Reaches(n, path) && CutsOff(FoundIn(n), ctx, path) && Add(n, path, handle).ok
    ensures Added(n, Add(n, path, handle).node, ctx, Registered(n, path), handle)
    decreases n
  {
    AddAnswers(n, ctx, path, handle);
    var l := Registered(n, path);
    assert |l| < |path|;
    LcpPrefix(path, n.path);
    if n.path <= path {
      var j := ChildIndex(n.children, path[|n.path|]);
      IntoHead(n, ctx, path, j);
      AddInto(n, ctx, path, handle, j);
      CutsInto(n, ctx, path, j, path[|n.path|..], Longest(FoundIn(n.children[j]), path[|n.path|..]));
      CutAdds(n.children[j], After(n.path, ctx), path[|n.path|..], handle);
      AddedInto(n, ctx, path, handle, j);
    } else {
      SplitSlashAdds(n, ctx, handle);
      assert path[..|n.path|-1] == n.path[..|n.path|-1];
    }
  }

  lemma {:induction false} AddedInto(n: Node, ctx: Context, path: string, handle: Handle, j: nat)
    requires GoesInto(n, ctx, path, j) && Add(n.children[j], path[|n.path|..], handle).ok
    requires Added(n.children[j], Add(n.children[j], path[|n.path|..], handle).node, After(n.path, ctx),
               Registered(n.children[j], path[|n.path|..]), handle)
    ensures Added(n, Add(n, path, handle).node, ctx, n.path + Registered(n.children[j], path[|n.path|..]), handle)
  {
    var c, rest := n.children[j], path[|n.path|..];
    var r, l := Add(c, rest, handle), Registered(c, rest);
    LcpPrefix(path, n.path);
    IntoHead(n, ctx, path, j);
    assert n.children[j].kind != Static ==> |n.children| == 1;
    assert Find(r.node, l).Some? && r.node.path <= l && l[0] == Head(c);
    GrownReplace(n, ctx, j, r.node, l, handle);
  }

  /** What a canonical tree holds is free of conflicts. */
  lemma {:induction false} HeldIsFree(n: Node, ctx: Context, p: string, q: string)
    requires Ok(n, ctx) && p in FoundIn(n) && q in FoundIn(n) && p != q
    ensures !Conflict(p, q)
    decreases n
  {
    var s := HeldParts(n, ctx, p);
    var t := HeldParts(n, ctx, q);
    if n.kind != CatchAll {
      StripNode(n, ctx, s, t);
      if s != "" && t != "" {
        var c := FindInSome(n.children, s);
        var d := FindInSome(n.children, t);
        assert Ok(c, After(n.path, ctx)) && Ok(d, After(n.path, ctx));
        if s[0] == t[0] {
          assert c == d;
          HeldIsFree(c, After(n.path, ctx), s, t);
        }
      }
    }
  }
}
