/** What the bookkeeping fields of a node count, and which requests `get` needs to be clean. */
module RouteCounts {
  import opened Options
  import opened RoutePatterns
  import opened RouteTree
  import opened RouteShape
  import opened RouteAdd
  import opened RouteConflicts
  import opened RouteGet
  import opened RouteAdvice
  import opened RouteRuns

  // ----- priority

  function Behind(p: string, ss: set<string>): set<string> { set s | s in ss :: p + s }

  /** The literals registered in `n`. */
  function Literals(n: Node): set<string>
    decreases n
  {
    (if n.handle.Some? then {n.path} else {}) + Behind(n.path, LiteralsIn(n.children))
  }

  function LiteralsIn(cs: seq<Node>): set<string>
    decreases cs
  {
    if cs == [] then {} else Literals(cs[0]) + LiteralsIn(cs[1..])
  }

  lemma {:induction false} BehindSize(p: string, ss: set<string>)
    ensures |Behind(p, ss)| == |ss|
  {
    if ss != {} {
      var s :| s in ss;
      BehindSize(p, ss - {s});
      assert forall t :: t in ss && p + t == p + s ==> t == s by {
        forall t | t in ss && p + t == p + s ensures t == s { assert t == (p + t)[|p|..] && s == (p + s)[|p|..]; }
      }
      assert Behind(p, ss) == Behind(p, ss - {s}) + {p + s};
      assert p + s !in Behind(p, ss - {s});
    }
  }

  lemma {:induction false} LiteralsAreFinds(n: Node, ctx: Context, s: string)
    requires Ok(n, ctx)
    ensures s in Literals(n) <==> Find(n, s).Some?
    decreases n, 1
  {
    if n.path <= s && |s| > |n.path| {
      var t := s[|n.path|..];
      assert s == n.path + t;
      LiteralsInAreFinds(n.children, After(n.path, ctx), t);
      forall u | u in LiteralsIn(n.children) && n.path + u == s ensures u == t {
        assert u == (n.path + u)[|n.path|..];
      }
    } else {
      LiteralsInAreFinds(n.children, After(n.path, ctx), "");
      forall u | u in LiteralsIn(n.children) ensures n.path + u != s {
        assert (n.path + u)[..|n.path|] == n.path;
      }
      if n.path <= s { assert s == n.path; }
    }
  }

  lemma {:induction false} LiteralsInAreFinds(cs: seq<Node>, ctx: Context, t: string)
    requires Siblings(cs) && AllOk(cs, ctx)
    ensures t in LiteralsIn(cs) <==> t != "" && FindIn(cs, t).Some?
    decreases cs, 0
  {
    if cs != [] {
      assert Ok(cs[0], ctx);
      LiteralsAreFinds(cs[0], ctx, t);
      LiteralsInAreFinds(cs[1..], ctx, t);
      if t != "" {
        if Head(cs[0]) == t[0] {
          FindInMember(cs, cs[0], t);
          assert HeadIndex(cs[1..], t[0]) == |cs[1..]|;
        }
      }
    }
  }

  lemma {:induction false} LiteralsSize(n: Node, ctx: Context)
    requires Ok(n, ctx)
    ensures |Literals(n)| == n.priority
    decreases n, 1
  {
    LiteralsInSize(n.children, After(n.path, ctx));
    BehindSize(n.path, LiteralsIn(n.children));
    LiteralsInAreFinds(n.children, After(n.path, ctx), "");
    forall u | u in LiteralsIn(n.children) ensures n.path + u != n.path {
      assert |n.path + u| > |n.path|;
    }
    assert n.path !in Behind(n.path, LiteralsIn(n.children));
  }

  lemma {:induction false} LiteralsInSize(cs: seq<Node>, ctx: Context)
    requires Siblings(cs) && AllOk(cs, ctx)
    ensures |LiteralsIn(cs)| == Priorities(cs)
    decreases cs, 0
  {
    if cs != [] {
      assert Ok(cs[0], ctx);
      LiteralsSize(cs[0], ctx);
      LiteralsInSize(cs[1..], ctx);
      LiteralsApart(cs, ctx);
    }
  }

  /** What the first child holds, no other one does. */
  lemma LiteralsApart(cs: seq<Node>, ctx: Context)
    requires Siblings(cs) && AllOk(cs, ctx) && cs != []
    ensures Literals(cs[0]) !! LiteralsIn(cs[1..])
  {
    forall t | t in Literals(cs[0]) ensures t !in LiteralsIn(cs[1..]) {
      assert Ok(cs[0], ctx);
      LiteralsAreFinds(cs[0], ctx, t);
      LiteralsInAreFinds(cs[1..], ctx, t);
      assert cs[0].path <= t;
      if t in LiteralsIn(cs[1..]) { var c := FindInSome(cs[1..], t); }
    }
  }

  /** The priority of the root is the number of registered patterns. */
  lemma PriorityCounts(n: Node, t: Table)
    requires RootOk(n) && Holds(n, t)
    ensures n.priority == |t|
  {
    if n == EMPTY_NODE {
      EmptyTable(t);
    } else {
      LiteralsSize(n, Mid);
      forall s ensures s in Literals(n) <==> s in t {
        LiteralsAreFinds(n, Mid, s);
        assert Find(n, s) == Lookup(t, s);
      }
      assert Literals(n) == t.Keys;
    }
  }

  // ----- maxParams

  function Wildcards(s: string): nat {
    if s == "" then 0 else (if IsWild(s[0]) then 1 else 0) + Wildcards(s[1..])
  }

  lemma {:induction false} WildcardsConcat(a: string, b: string)
    ensures Wildcards(a + b) == Wildcards(a) + Wildcards(b)
    decreases |a|
  {
    if a == "" {
      assert a + b == b;
    } else {
      assert (a + b)[1..] == a[1..] + b;
      WildcardsConcat(a[1..], b);
    }
  }

  lemma {:induction false} NoWildcards(s: string)
    requires NoWild(s)
    ensures Wildcards(s) == 0
  {
    if s != "" { NoWildcards(s[1..]); }
  }

  lemma WildcardsOfPath(n: Node, ctx: Context)
    requires Labelled(n) && PatternFrom(n.path, ctx)
    ensures Wildcards(n.path) == if n.kind == Static then 0 else 1
  {
    if n.kind == Static {
      NoWildcards(n.path);
    } else {
      var e := SegEnd(n.path);
      forall k | 0 <= k < |n.path| - 1 ensures !IsWild(n.path[1..][k]) {
        if k + 1 < e { assert n.path[1..][k] == n.path[1..e][k]; }
      }
      NoWildcards(n.path[1..]);
    }
  }

  lemma {:induction false} MaxParamsMember(cs: seq<Node>, c: Node)
    requires c in cs
    ensures c.maxParams <= MaxParams(cs)
  {
    if c != cs[0] { MaxParamsMember(cs[1..], c); }
  }

  lemma {:induction false} MaxParamsReached(cs: seq<Node>) returns (c: Node)
    requires cs != []
    ensures c in cs && c.maxParams == MaxParams(cs)
  {
    c := cs[0];
    if |cs| > 1 {
      var d := MaxParamsReached(cs[1..]);
      if d.maxParams > c.maxParams { c := d; }
    }
  }

  lemma {:induction false} MaxParamsBounds(n: Node, ctx: Context, s: string)
    requires Ok(n, ctx) && Find(n, s).Some?
    ensures Wildcards(s) <= n.maxParams
    decreases n
  {
    var t := s[|n.path|..];
    assert s == n.path + t;
    WildcardsOfPath(n, ctx);
    WildcardsConcat(n.path, t);
    if t != "" {
      var c := FindInSome(n.children, t);
      assert AllOk(n.children, After(n.path, ctx));
      MaxParamsMember(n.children, c);
      MaxParamsBounds(c, After(n.path, ctx), t);
    }
  }

  lemma {:induction false} MaxParamsAttained(n: Node, ctx: Context) returns (s: string)
    requires Ok(n, ctx)
    ensures Find(n, s).Some? && Wildcards(s) == n.maxParams
    decreases n
  {
    WildcardsOfPath(n, ctx);
    if n.children == [] {
      s := n.path;
    } else {
      var c := MaxParamsReached(n.children);
      var k :| 0 <= k < |n.children| && n.children[k] == c;
      assert Ok(n.children[k], After(n.path, ctx));
      var t := MaxParamsAttained(c, After(n.path, ctx));
      FindBelow(n, ctx, k, t);
      s := n.path + t;
      WildcardsConcat(n.path, t);
    }
  }

  /** `maxParams` of the root is the largest number of wildcards of a registered pattern. */
  lemma MaxParamsCounts(n: Node, t: Table) returns (most: string)
    requires RootOk(n) && Holds(n, t) && t != map[]
    ensures forall p :: p in t ==> Wildcards(p) <= n.maxParams
    ensures most in t && Wildcards(most) == n.maxParams
  {
    assert n != EMPTY_NODE by { if n == EMPTY_NODE { EmptyTable(t); } }
    forall p | p in t ensures Wildcards(p) <= n.maxParams {
      assert Find(n, p) == Lookup(t, p);
      MaxParamsBounds(n, Mid, p);
    }
    most := MaxParamsAttained(n, Mid);
    assert Find(n, most) == Lookup(t, most);
  }

  // ----- the widths of the fields

  const UINT8: nat := 0x100
  const UINT32: nat := 0x1_0000_0000

  /** Fewer than 256 wildcards in a pattern, and fewer patterns than 32 bits can count. */
  predicate IsModest(t: Table) { |t| < UINT32 && forall p :: p in t ==> Wildcards(p) < UINT8 }

  /** The counts of all nodes fit the fields that the program keeps them in. */
  predicate FitsFields(n: Node) {
    n.maxParams < UINT8 && n.priority < UINT32 && forall k :: 0 <= k < |n.children| ==> FitsFields(n.children[k])
  }

  /** No count of a tree wraps around exactly if its table is modest. */
  lemma FitsIffModest(n: Node, t: Table)
    requires RootOk(n) && Holds(n, t)
    ensures FitsFields(n) <==> IsModest(t)
  {
    PriorityCounts(n, t);
    if n == EMPTY_NODE {
      EmptyTable(t);
    } else {
      var s := Inhabited(n, Mid);
      assert Find(n, s) == Lookup(t, s);
      var most := MaxParamsCounts(n, t);
      if n.maxParams < UINT8 && n.priority < UINT32 { AllFit(n, Mid); }
    }
  }

  lemma {:induction false} AllFit(n: Node, ctx: Context)
    requires Ok(n, ctx) && n.maxParams < UINT8 && n.priority < UINT32
    ensures FitsFields(n)
    decreases n
  {
    forall k | 0 <= k < |n.children| ensures FitsFields(n.children[k]) {
      var c := n.children[k];
      MaxParamsMember(n.children, c);
      PriorityMember(n.children, c);
      AllFit(c, After(n.path, ctx));
    }
  }

  // ----- clean requests

  /** A pattern with a parameter for every segment of `r` up to its first empty one, and a catch-all behind that. */
  function Pitfall(r: string): (p: string)
    ensures p != ""
    decreases |r|
  {
    var e := SegEnd(r);
    ":a/" + if e == 0 || e == |r| then "*a" else Pitfall(r[e+1..])
  }

  lemma PitfallConstruct(path: string, handle: Handle, c: Node)
    requires |path| > 3 && SegEnd(path) == 2 && path[..3] == ":a/" && Construct(path[3..], handle) == Some(c)
    requires PatternFrom(path, AfterSlash)
    ensures Construct(path, handle) == Some(Node(":a/", 1 + c.maxParams, NO_INDEX, Param, 1, [c], None))
  {
    assert path[0] == path[..3][0] == ':';
    ConstructSlashed(path, AfterSlash, handle, c);
  }

  lemma SlashedA()
    ensures SegEnd(":a/") == 2
  {
    assert ":a/"[1..] == "a/" && "a/"[1..] == "/";
  }

  lemma PitfallParts(rest: string)
    requires PatternFrom(rest, AfterNameSlash)
    ensures var path := ":a/" + rest;
      && path[0] == ':' && SegEnd(path) == 2 && path[2..] == "/" + rest && path[..3] == ":a/" && path[3..] == rest
      && PatternFrom(path, AfterSlash) && PatternFrom(path, AfterNameSlash)
  {
    var path := ":a/" + rest;
    assert path == ":a" + ("/" + rest);
    assert SegEnd(":a") == 2 by { assert ":a"[1..] == "a" && "a"[1..] == ""; }
    SegEndLiteral(":a", "/" + rest);
    assert path[2..] == "/" + rest && path[1..2] == "a" && ("/" + rest)[1..] == rest;
    assert PatternFrom(path[2..], AfterName);
  }

  lemma {:induction false} PitfallMissed(r: string, handle: Handle)
    requires !NoDoubleSlash("/" + r)
    ensures PatternFrom(Pitfall(r), AfterSlash) && PatternFrom(Pitfall(r), AfterNameSlash) && Pitfall(r)[0] == ':'
    ensures Match(Pitfall(r), r) == None
    ensures Construct(Pitfall(r), handle).Some? && Hit(Construct(Pitfall(r), handle).value, r) == Some(handle)
    decreases |r|
  {
    DoubleSlashBehind(r);
    if SegEnd(r) == 0 {
      PitfallLeaf(r, handle);
    } else {
      PitfallMissed(r[SegEnd(r)+1..], handle);
      PitfallNode(r, handle);
    }
  }

  lemma PitfallLeaf(r: string, handle: Handle)
    requires r != "" && r[0] == '/'
    ensures PatternFrom(Pitfall(r), AfterSlash) && PatternFrom(Pitfall(r), AfterNameSlash) && Pitfall(r)[0] == ':'
    ensures Match(Pitfall(r), r) == None
    ensures Construct(Pitfall(r), handle).Some? && Hit(Construct(Pitfall(r), handle).value, r) == Some(handle)
  {
    assert "*a"[1..] == "a" && SegEnd("a") == 1 && SegEnd("*a") == 2 by { assert "a"[1..] == ""; }
    PitfallParts("*a");
    var c := ConstructCorrect("*a", AfterNameSlash, handle);
    PitfallOver(Pitfall(r), "*a", handle, c, r);
    HitStep(c, r);
  }

  /** The node for ':a/' over one for a wildcard, and where it hands the request on. */
  lemma PitfallOver(path: string, rest: string, handle: Handle, c: Node, r: string)
    requires path == ":a/" + rest && rest != "" && SegEnd(path) == 2 && PatternFrom(path, AfterSlash)
    requires path[..3] == ":a/" && path[3..] == rest && Construct(rest, handle) == Some(c) && c.kind != Static
    requires r != "" && SegEnd(r) < |r| && (SegEnd(r) > 0 ==> SegEnd(r) + 1 < |r|)
    ensures Construct(path, handle).Some?
    ensures Hit(Construct(path, handle).value, r) == Hit(c, if SegEnd(r) == 0 then r else r[SegEnd(r)+1..])
  {
    PitfallConstruct(path, handle, c);
    SlashedA();
    PitfallHit(Node(":a/", 1 + c.maxParams, NO_INDEX, Param, 1, [c], None), r);
  }

  lemma PitfallNode(r: string, handle: Handle)
    requires 0 < SegEnd(r) && SegEnd(r) + 1 < |r|
    requires var p := Pitfall(r[SegEnd(r)+1..]);
      && PatternFrom(p, AfterNameSlash) && p[0] == ':' && Match(p, r[SegEnd(r)+1..]) == None
      && Construct(p, handle).Some? && Hit(Construct(p, handle).value, r[SegEnd(r)+1..]) == Some(handle)
    ensures PatternFrom(Pitfall(r), AfterSlash) && PatternFrom(Pitfall(r), AfterNameSlash) && Pitfall(r)[0] == ':'
    ensures Match(Pitfall(r), r) == None
    ensures Construct(Pitfall(r), handle).Some? && Hit(Construct(Pitfall(r), handle).value, r) == Some(handle)
  {
    PitfallAbove(Pitfall(r), Pitfall(r[SegEnd(r)+1..]), r, r[SegEnd(r)+1..], handle);
  }

  lemma PitfallAbove(path: string, p: string, r: string, q: string, handle: Handle)
    requires path == ":a/" + p && p != "" && p[0] == ':' && PatternFrom(p, AfterNameSlash)
    requires 0 < SegEnd(r) && SegEnd(r) + 1 < |r| && q == r[SegEnd(r)+1..] && Match(p, q) == None
    requires Construct(p, handle).Some? && Hit(Construct(p, handle).value, q) == Some(handle)
    ensures PatternFrom(path, AfterSlash) && PatternFrom(path, AfterNameSlash) && path[0] == ':'
    ensures Match(path, r) == None
    ensures Construct(path, handle).Some? && Hit(Construct(path, handle).value, r) == Some(handle)
  {
    PitfallParts(p);
    var c := ConstructCorrect(p, AfterNameSlash, handle);
    PitfallOver(path, p, handle, c, r);
    PitfallUnmatched(path, p, r, q);
  }

  lemma PitfallUnmatched(path: string, rest: string, r: string, q: string)
    requires path != "" && path[0] == ':' && SegEnd(path) == 2 && path[2..] == "/" + rest && Match(rest, q) == None
    requires 0 < SegEnd(r) && SegEnd(r) < |r| && q == r[SegEnd(r)+1..]
    ensures Match(path, r) == None
  {
    assert r[SegEnd(r)..][1..] == q && ("/" + rest)[1..] == rest;
  }

  /** A ':a/' above a wildcard hands on the request even where its own segment is empty. */
  lemma PitfallHit(n: Node, r: string)
    requires n.path == ":a/" && n.kind == Param && |n.children| == 1 && n.children[0].kind != Static && Labelled(n)
    requires r != "" && SegEnd(r) < |r| && (SegEnd(r) > 0 ==> SegEnd(r) + 1 < |r|)
    ensures Hit(n, r) == Hit(n.children[0], if SegEnd(r) == 0 then r else r[SegEnd(r)+1..])
  {
    ParamConsumes(n, r);
    HitStep(n, r);
    assert ChildIndex(n.children, r[Consume(n, r).0]) == 0;
  }

  lemma ParamConsumes(n: Node, r: string)
    requires n.kind == Param && |n.path| > 1 && LastChar(n.path) == '/' && r != "" && SegEnd(r) < |r|
    ensures Consume(n, r).0 == if SegEnd(r) == 0 then 0 else SegEnd(r) + 1
  {
  }

  lemma DoubleSlashBehind(r: string)
    requires !NoDoubleSlash("/" + r)
    ensures r != "" && SegEnd(r) < |r|
    ensures SegEnd(r) > 0 ==> SegEnd(r) + 1 < |r| && !NoDoubleSlash("/" + r[SegEnd(r)+1..])
  {
    var s, e := "/" + r, SegEnd(r);
    var k :| 0 <= k < |s| - 1 && s[k] == '/' && s[k+1] == '/';
    BeforeSegEnd(r);
    assert r[k] == '/';
    if e > 0 {
      assert k > 0 && r[k-1] == '/' && k - 1 >= e;
      var t := "/" + r[e+1..];
      assert t[k-1-e] == '/' && t[k-e] == '/';
    }
  }

  /**
   A request is clean exactly when no table of patterns is answered wrongly on it: for any other
   request that starts with '/', one pattern suffices to make `get` answer what nothing matches.
   */
  lemma CleanIsNecessary(r: string, handle: Handle) returns (p: string)
    requires r != "" && r[0] == '/' && !IsCleanRequest(r)
    ensures IsPattern(p) && Match(p, r) == None
    ensures Get(Add(EMPTY_NODE, p, handle).node, r, false).handle == Some(handle)
  {
    var q := r[1..];
    assert r == "/" + q;
    PitfallMissed(q, handle);
    DoubleSlashBehind(q);
    p := "/" + Pitfall(q);
    assert p[1..] == Pitfall(q);
    SlashThen(p, handle);
    SlashHit(Construct(p, handle).value, r);
  }

  lemma SlashHit(n: Node, r: string)
    requires n.path == "/" && n.kind == Static && |n.children| == 1 && n.children[0].kind != Static
    requires |r| > 1 && r[0] == '/'
    ensures Hit(n, r) == Hit(n.children[0], r[1..])
  {
    LcpIsLongest("/", r, 1);
    assert ChildIndex(n.children, r[1]) == 0;
    HitOfWalk(Some(n), None, n.children[0], r[1..], [] + [], []);
  }

  lemma SlashThen(p: string, handle: Handle)
    requires |p| > 1 && p[0] == '/' && IsWild(p[1]) && Construct(p[1..], handle).Some?
    ensures var c := Construct(p[1..], handle).value;
      Construct(p, handle) == Some(Node("/", c.maxParams, '/', Static, 1, [c], None))
  {
    var i := IndexAny(p, ":*");
    assert p[0] !in ":*" && p[1] in ":*";
    assert i == 1;
    assert p[..1] == "/";
  }
}
