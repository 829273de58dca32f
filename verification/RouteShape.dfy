/**
 The shape every reachable tree has, the registered patterns a tree holds, and the facts about
 sequences of children both need.
 */
module RouteShape {
  import opened Options
  import opened RoutePatterns
  import opened RouteTree

  /** The handle registered in `n` under exactly the literal `s`. */
  function Find(n: Node, s: string): Option<Handle>
    decreases n
  {
    if !(n.path <= s) then None
    else if |s| == |n.path| then n.handle
    else FindIn(n.children, s[|n.path|..])
  }

  function FindIn(cs: seq<Node>, s: string): Option<Handle>
    requires s != ""
    decreases cs
  {
    var k := HeadIndex(cs, s[0]);
    if k < |cs| then Find(cs[k], s) else None
  }

  function Priorities(cs: seq<Node>): nat {
    if cs == [] then 0 else cs[0].priority + Priorities(cs[1..])
  }

  predicate DistinctHeads(cs: seq<Node>) {
    forall j, k :: 0 <= j < k < |cs| ==> Head(cs[j]) != Head(cs[k])
  }

  predicate Sorted(cs: seq<Node>) {
    forall j, k :: 0 <= j < k < |cs| ==> Less(cs[j], cs[k])
  }

  /** The path of a node, its kind and its index fit together. */
  predicate Labelled(n: Node) {
    && n.path != ""
    && match n.kind
       case Static => NoWild(n.path) && n.index == n.path[0]
       case Param => n.path[0] == ':' && SegEnd(n.path) >= |n.path| - 1 && n.index == NO_INDEX
       case CatchAll => n.path[0] == '*' && n.index == NO_INDEX
  }

  /** No node could be joined with its only child, and no node is without a handle below it. */
  predicate Compressed(n: Node) {
    match n.kind
    case Static => n.handle.Some? || |n.children| >= 2 || (|n.children| == 1 && n.children[0].kind != Static)
    case Param => if LastChar(n.path) == '/' then n.handle.Some? || n.children != [] else n.handle.Some?
    case CatchAll => n.handle.Some?
  }

  /** Siblings have distinct first characters, and a wildcard has no siblings. */
  predicate Siblings(cs: seq<Node>) {
    && DistinctHeads(cs)
    && forall k :: 0 <= k < |cs| && cs[k].kind != Static ==> |cs| == 1
  }

  /** The part of the invariant that is about one node and also holds of one that was just split. */
  predicate Framed(n: Node, ctx: Context) {
    && Labelled(n)
    && PatternFrom(n.path, ctx)
    && Siblings(n.children)
    && Sorted(n.children)
    && n.priority == Priorities(n.children) + (if n.handle.Some? then 1 else 0)
    && n.maxParams == MaxParams(n.children) + (if n.kind == Static then 0 else 1)
  }

  /** The invariant of the tree, for a node behind a position of context `ctx`. */
  predicate Ok(n: Node, ctx: Context)
    decreases n
  {
    && Framed(n, ctx)
    && Compressed(n)
    && forall k :: 0 <= k < |n.children| ==> Ok(n.children[k], After(n.path, ctx))
  }

  predicate AllOk(cs: seq<Node>, ctx: Context) { forall k :: 0 <= k < |cs| ==> Ok(cs[k], ctx) }

  predicate RootOk(n: Node) { n == EMPTY_NODE || (Ok(n, Mid) && Head(n) == '/') }

  // ----- membership view of children

  lemma ChildIndexIsHeadIndex(cs: seq<Node>, ctx: Context, b: char)
    requires Siblings(cs) && AllOk(cs, ctx)
    ensures ChildIndex(cs, b) < |cs| ==> (Head(cs[ChildIndex(cs, b)]) == b || (|cs| == 1 && cs[0].kind != Static))
    ensures HeadIndex(cs, b) < |cs| ==> ChildIndex(cs, b) == HeadIndex(cs, b)
  {
    var k, h := ChildIndex(cs, b), HeadIndex(cs, b);
    if k < |cs| { assert Ok(cs[k], ctx); }
    if h < |cs| {
      assert Ok(cs[h], ctx);
      if k < h { assert Ok(cs[k], ctx); }
    }
  }

  /** `FindIn` does not depend on the order of the children. */
  lemma FindInMember(cs: seq<Node>, c: Node, s: string)
    requires DistinctHeads(cs) && c in cs && s != "" && c.path != ""
    ensures Head(c) == s[0] ==> FindIn(cs, s) == Find(c, s)
    ensures Find(c, s).Some? ==> FindIn(cs, s) == Find(c, s)
  {
    var j :| 0 <= j < |cs| && cs[j] == c;
    var k := HeadIndex(cs, s[0]);
    if Head(c) == s[0] {
      assert k <= j;
      assert k == j;
    }
  }

  lemma FindInSome(cs: seq<Node>, s: string) returns (c: Node)
    requires s != "" && FindIn(cs, s).Some?
    ensures c in cs && Head(c) == s[0] && FindIn(cs, s) == Find(c, s)
  {
    c := cs[HeadIndex(cs, s[0])];
  }

  lemma FindInSame(cs: seq<Node>, ds: seq<Node>, s: string)
    requires DistinctHeads(cs) && DistinctHeads(ds) && s != ""
    requires forall c :: c in cs <==> c in ds
    requires forall c :: c in cs ==> c.path != ""
    ensures FindIn(cs, s) == FindIn(ds, s)
  {
    var k, l := HeadIndex(cs, s[0]), HeadIndex(ds, s[0]);
    if k < |cs| { FindInMember(ds, cs[k], s); }
    if l < |ds| { FindInMember(cs, ds[l], s); }
  }

  // ----- sorting

  lemma {:induction false} InsertIsPermutation(n: Node, cs: seq<Node>)
    ensures |Insert(n, cs)| == |cs| + 1
    ensures forall c :: c in Insert(n, cs) <==> c == n || c in cs
    ensures Priorities(Insert(n, cs)) == n.priority + Priorities(cs)
    ensures MaxParams(Insert(n, cs)) == Max(n.maxParams, MaxParams(cs))
    ensures DistinctHeads(cs) && (forall c :: c in cs ==> Head(c) != Head(n)) ==> DistinctHeads(Insert(n, cs))
  {
    if cs == [] || Less(n, cs[0]) {
    } else {
      InsertIsPermutation(n, cs[1..]);
      assert cs == [cs[0]] + cs[1..];
      HeadsStay(n, cs, Insert(n, cs[1..]));
    }
  }

  lemma HeadsStay(n: Node, cs: seq<Node>, r: seq<Node>)
    requires cs != [] && (forall c :: c in r <==> c == n || c in cs[1..])
    requires DistinctHeads(cs[1..]) && (forall c :: c in cs[1..] ==> Head(c) != Head(n)) ==> DistinctHeads(r)
    ensures DistinctHeads(cs) && (forall c :: c in cs ==> Head(c) != Head(n)) ==> DistinctHeads([cs[0]] + r)
  {
    if DistinctHeads(cs) && (forall c :: c in cs ==> Head(c) != Head(n)) {
      assert forall c :: c in cs[1..] ==> c in cs;
      assert forall c :: c in r ==> Head(c) != Head(cs[0]);
    }
  }

  lemma {:induction false} ResortIsPermutation(cs: seq<Node>)
    ensures |Resort(cs)| == |cs|
    ensures forall c :: c in Resort(cs) <==> c in cs
    ensures Priorities(Resort(cs)) == Priorities(cs)
    ensures MaxParams(Resort(cs)) == MaxParams(cs)
    ensures DistinctHeads(cs) ==> DistinctHeads(Resort(cs))
  {
    if cs != [] {
      ResortIsPermutation(cs[1..]);
      InsertIsPermutation(cs[0], Resort(cs[1..]));
      assert cs == [cs[0]] + cs[1..];
      if DistinctHeads(cs) {
        assert forall c :: c in cs[1..] ==> Head(c) != Head(cs[0]);
      }
    }
  }

  predicate DistinctIndices(cs: seq<Node>) {
    forall j, k :: 0 <= j < k < |cs| ==> cs[j].index != cs[k].index
  }

  lemma {:induction false} InsertSorts(n: Node, cs: seq<Node>)
    requires Sorted(cs) && forall c :: c in cs ==> c.index != n.index
    ensures Sorted(Insert(n, cs))
  {
    if cs == [] || Less(n, cs[0]) {
    } else {
      InsertSorts(n, cs[1..]);
      InsertIsPermutation(n, cs[1..]);
      assert cs[0] in cs;
    }
  }

  lemma {:induction false} ResortSorts(cs: seq<Node>)
    requires DistinctIndices(cs)
    ensures Sorted(Resort(cs))
  {
    if cs != [] {
      ResortSorts(cs[1..]);
      ResortIsPermutation(cs[1..]);
      InsertSorts(cs[0], Resort(cs[1..]));
    }
  }

  /** Two sorted sequences with the same elements are the same: the order is no degree of freedom. */
  lemma {:induction false} SortedUnique(cs: seq<Node>, ds: seq<Node>)
    requires Sorted(cs) && Sorted(ds) && forall c :: c in cs <==> c in ds
    ensures cs == ds
  {
    assert ds != [] ==> ds[0] in ds;
    if cs != [] {
      assert cs[0] in cs;
      assert cs[0] in ds && ds[0] in cs;
      assert cs[0] == ds[0];
      forall c ensures c in cs[1..] <==> c in ds[1..] {
        assert c in cs <==> c == cs[0] || c in cs[1..];
        assert c in ds <==> c == ds[0] || c in ds[1..];
        assert cs[0] !in cs[1..] && ds[0] !in ds[1..];
      }
      SortedUnique(cs[1..], ds[1..]);
      assert cs == [cs[0]] + cs[1..] && ds == [ds[0]] + ds[1..];
    }
  }

  // ----- replacing, adding and dropping one child

  lemma {:induction false} SumsUpdate(cs: seq<Node>, k: nat, c: Node)
    requires k < |cs|
    ensures Priorities(cs[k := c]) == Priorities(cs) - cs[k].priority + c.priority
    ensures MaxParams(cs[k := c]) >= c.maxParams
    ensures c.maxParams >= cs[k].maxParams ==> MaxParams(cs[k := c]) == Max(MaxParams(cs), c.maxParams)
  {
    if k == 0 {
      assert cs[0 := c][1..] == cs[1..];
    } else {
      assert cs[k := c][1..] == cs[1..][k-1 := c];
      SumsUpdate(cs[1..], k - 1, c);
    }
  }

  lemma {:induction false} SumsAppend(cs: seq<Node>, c: Node)
    ensures Priorities(cs + [c]) == Priorities(cs) + c.priority
    ensures MaxParams(cs + [c]) == Max(MaxParams(cs), c.maxParams)
  {
    if cs == [] {
      assert [] + [c] == [c];
      assert [c][1..] == [];
    } else {
      assert (cs + [c])[1..] == cs[1..] + [c];
      SumsAppend(cs[1..], c);
    }
  }

  lemma {:induction false} SumsDrop(cs: seq<Node>, k: nat)
    requires k < |cs|
    ensures Priorities(cs[..k] + cs[k+1..]) == Priorities(cs) - cs[k].priority
  {
    if k == 0 {
      assert cs[..0] + cs[1..] == cs[1..];
    } else {
      assert (cs[..k] + cs[k+1..])[1..] == cs[1..][..k-1] + cs[1..][k..];
      assert cs[1..][k..] == cs[k+1..];
      SumsDrop(cs[1..], k - 1);
    }
  }

  lemma {:induction false} PriorityMember(cs: seq<Node>, c: Node)
    requires c in cs
    ensures Priorities(cs) >= c.priority
  {
    if c != cs[0] { PriorityMember(cs[1..], c); }
  }

  // ----- facts about every well-formed node

  /** Every node of the tree has a handle below it. */
  lemma {:induction false} Inhabited(n: Node, ctx: Context) returns (s: string)
    requires Ok(n, ctx)
    ensures Find(n, s).Some?
    decreases n
  {
    if n.handle.Some? {
      s := n.path;
    } else {
      var c := n.children[0];
      assert Ok(c, After(n.path, ctx));
      var t := Inhabited(c, After(n.path, ctx));
      FindInMember(n.children, c, t);
      s := n.path + t;
      assert s[|n.path|..] == t;
    }
  }

  lemma PriorityPositive(n: Node, ctx: Context)
    requires Ok(n, ctx)
    ensures n.priority > 0
    decreases n
  {
    if n.handle.None? {
      var c := n.children[0];
      assert Ok(c, After(n.path, ctx));
      PriorityPositive(c, After(n.path, ctx));
      PriorityMember(n.children, c);
    }
  }

  /** A name in the tree ends where the token of every pattern below it ends. */
  lemma {:induction false} PatternConcat(n: Node, s: string, ctx: Context)
    requires Labelled(n) && PatternFrom(n.path, ctx) && PatternFrom(s, After(n.path, ctx))
    ensures PatternFrom(n.path + s, ctx)
  {
    match n.kind
    case Static => PatternLiteral(n.path, s, ctx);
    case Param => ParamConcat(n.path, s, ctx);
    case CatchAll => assert n.path + s == n.path;
  }

  /** A ':name' or ':name/', with the length of its token and the context behind it. */
  lemma ParamShape(a: string, ctx: Context)
    requires a != "" && a[0] == ':' && SegEnd(a) >= |a| - 1 && PatternFrom(a, ctx)
    ensures SegEnd(a) > 1 && ctx.AllowsWild() && NoWild(a[1..SegEnd(a)])
    ensures LastChar(a) == '/' <==> SegEnd(a) == |a| - 1
    ensures After(a, ctx) == if LastChar(a) == '/' then AfterNameSlash else AfterName
  {
    BeforeSegEnd(a);
    var e := SegEnd(a);
    if e == |a| {
      assert a[e..] == "";
    } else {
      assert a[e..] == "/";
      assert After("/", AfterName) == After("", AfterNameSlash);
    }
  }

  /** What follows the token of a parameter in `a + s`. */
  lemma ParamToken(a: string, s: string)
    requires a != "" && a[0] == ':' && SegEnd(a) >= |a| - 1 && (SegEnd(a) == |a| ==> SegEnd(s) == 0)
    ensures SegEnd(a + s) == SegEnd(a)
    ensures (a + s)[..SegEnd(a)] == a[..SegEnd(a)]
    ensures (a + s)[SegEnd(a)..] == (if SegEnd(a) == |a| then s else "/" + s)
  {
    BeforeSegEnd(a);
    var e := SegEnd(a);
    if e == |a| {
      SegEndLiteral(a, s);
    } else {
      assert a + s == a[..e] + ("/" + s);
      SegEndLiteral(a[..e], "/" + s);
    }
  }

  lemma ParamConcat(a: string, s: string, ctx: Context)
    requires a != "" && a[0] == ':' && SegEnd(a) >= |a| - 1 && PatternFrom(a, ctx) && PatternFrom(s, After(a, ctx))
    ensures PatternFrom(a + s, ctx)
  {
    ParamShape(a, ctx);
    var e := SegEnd(a);
    ParamToken(a, s);
    assert (a + s)[1..e] == a[1..e];
    if e < |a| { assert ("/" + s)[1..] == s; }
    assert PatternFrom((a + s)[e..], AfterName);
  }

  /** Everything registered in the tree is a pattern. */
  lemma {:induction false} FoundIsPattern(n: Node, ctx: Context, s: string)
    requires Ok(n, ctx) && Find(n, s).Some?
    ensures PatternFrom(s, ctx)
    decreases n
  {
    assert s == n.path + s[|n.path|..];
    var rest := s[|n.path|..];
    if rest != "" {
      var c := FindInSome(n.children, rest);
      FoundIsPattern(c, After(n.path, ctx), rest);
      PatternConcat(n, rest, ctx);
    } else {
      assert s == n.path;
    }
  }
}
