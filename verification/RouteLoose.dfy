/**
 What every tree keeps that adds and removes of any strings can lead to, patterns or not: it is no
 longer canonical, but what it holds still changes as a map does.
 */
module RouteLoose {
  import opened Options
  import opened RoutePatterns
  import opened RouteTree
  import opened RouteShape
  import opened RouteAdd
  import opened RouteConflicts
  import opened RouteRemove
  import opened RouteGet

  /** The literal that `Add` registers for `path`, by the way it takes down the tree. */
  function Registered(n: Node, path: string): string
    decreases |path|, n
  {
    var i := Lcp(path, n.path);
    if path == "" || n.path == "" || n.kind == CatchAll then path
    else if i == |n.path| < |path| then
      var k := ChildIndex(n.children, path[i]);
      if k < |n.children| then n.path + Registered(n.children[k], path[i..]) else path
    else if n.kind == Param && i == |n.path| - 1 && LastChar(n.path) == '/' then path[..i]
    else path
  }

  // ----- the invariant

  predicate Tagged(n: Node) {
    && n.path != ""
    && match n.kind
       case Static => NoWild(n.path) && n.index == n.path[0]
       case Param => n.path[0] == ':' && n.index == NO_INDEX
       case CatchAll => n.path[0] == '*' && n.index == NO_INDEX
  }

  /** What holds of a node alone, and also of one that an operation has not finished with. */
  predicate Counted(n: Node) {
    && Tagged(n) && Siblings(n.children) && Sorted(n.children)
    && n.priority == Priorities(n.children) + (if n.handle.Some? then 1 else 0)
    && n.maxParams == MaxParams(n.children) + (if n.kind == Static then 0 else 1)
  }

  predicate Loose(n: Node)
    decreases n
  {
    Counted(n) && n.priority > 0 && forall k :: 0 <= k < |n.children| ==> Loose(n.children[k])
  }

  predicate AllLoose(cs: seq<Node>) { forall k :: 0 <= k < |cs| ==> Loose(cs[k]) }

  predicate RootLoose(n: Node) { n == EMPTY_NODE || (Loose(n) && n.kind == Static && Head(n) == '/') }

  lemma {:induction false} OkIsLoose(n: Node, ctx: Context)
    requires Ok(n, ctx)
    ensures Loose(n)
    decreases n
  {
    PriorityPositive(n, ctx);
    forall k | 0 <= k < |n.children| ensures Loose(n.children[k]) { OkIsLoose(n.children[k], After(n.path, ctx)); }
  }

  // ----- children

  lemma {:induction false} LooseIndex(cs: seq<Node>, b: char)
    requires Siblings(cs) && AllLoose(cs)
    ensures ChildIndex(cs, b) < |cs| ==> Head(cs[ChildIndex(cs, b)]) == b || (|cs| == 1 && cs[0].kind != Static)
    ensures HeadIndex(cs, b) < |cs| ==> ChildIndex(cs, b) == HeadIndex(cs, b)
    ensures ChildIndex(cs, b) == |cs| ==> forall k :: 0 <= k < |cs| ==> cs[k].kind == Static && Head(cs[k]) != b
  {
    var k, h := ChildIndex(cs, b), HeadIndex(cs, b);
    forall j | 0 <= j < |cs| ensures Tagged(cs[j]) { assert Loose(cs[j]); }
  }

  lemma {:induction false} ResortLoose(cs: seq<Node>)
    requires Siblings(cs) && AllLoose(cs)
    ensures Siblings(Resort(cs)) && AllLoose(Resort(cs)) && Sorted(Resort(cs))
    ensures forall s | s != "" :: FindIn(Resort(cs), s) == FindIn(cs, s)
  {
    ResortIsPermutation(cs);
    forall j, k | 0 <= j < k < |cs| ensures cs[j].index != cs[k].index {
      assert Loose(cs[j]) && Loose(cs[k]);
    }
    ResortSorts(cs);
    var rs := Resort(cs);
    forall k | 0 <= k < |rs| ensures Loose(rs[k]) && (rs[k].kind != Static ==> |rs| == 1) {
      assert rs[k] in cs;
    }
    forall c | c in cs ensures c.path != "" { assert Loose(c); }
    forall s | s != "" ensures FindIn(rs, s) == FindIn(cs, s) { FindInSame(rs, cs, s); }
  }

  /** `ds` is `cs` with `rest` registered below one of them, or no longer registered (None). */
  ghost predicate Changed(cs: seq<Node>, ds: seq<Node>, rest: string, h: Option<Handle>) {
    && rest != "" && Siblings(ds) && AllLoose(ds)
    && Priorities(ds) == Priorities(cs) + (if h.Some? then 1 else -1)
    && forall t | t != "" :: FindIn(ds, t) == if t == rest then h else FindIn(cs, t)
  }

  /** `m` is `n` with `path` registered, or no longer registered (None), and nothing else changed. */
  ghost predicate Becomes(n: Node, m: Node, path: string, h: Option<Handle>) {
    && Loose(m) && m.kind == n.kind && Head(m) == Head(n)
    && m.priority == n.priority + (if h.Some? then 1 else -1) && (h.Some? ==> m.maxParams >= n.maxParams)
    && forall s :: Find(m, s) == if s == path then h else Find(n, s)
  }

  lemma {:induction false} ChangedFind(n: Node, m: Node, cs: seq<Node>, rest: string, h: Option<Handle>)
    requires Changed(n.children, cs, rest, h) && m.path == n.path && m.handle == n.handle && m.children == Resort(cs)
    ensures forall s :: Find(m, s) == if s == n.path + rest then h else Find(n, s)
  {
    ResortLoose(cs);
    forall s ensures Find(m, s) == if s == n.path + rest then h else Find(n, s) {
      BehindPath(n.path, rest, s);
    }
  }

  lemma {:induction false} ChangedReplace(cs: seq<Node>, k: nat, c: Node, rest: string, h: Option<Handle>)
    requires Siblings(cs) && AllLoose(cs) && k < |cs| && rest != "" && rest[0] == Head(cs[k])
    requires Becomes(cs[k], c, rest, h)
    ensures Changed(cs, cs[k := c], rest, h)
  {
    var ds := cs[k := c];
    FindInUpdate(cs, k, c, rest);
    forall j | 0 <= j < |ds| ensures Loose(ds[j]) && (ds[j].kind != Static ==> |ds| == 1) {
      assert Loose(cs[j]);
    }
    forall t | t != "" ensures FindIn(ds, t) == if t == rest then h else FindIn(cs, t) {
      FindInUpdate(cs, k, c, t);
    }
    SumsUpdate(cs, k, c);
  }

  lemma {:induction false} ChangedAppend(cs: seq<Node>, c: Node, rest: string, h: Handle)
    requires Siblings(cs) && AllLoose(cs) && rest != ""
    requires Loose(c) && c.priority == 1 && Head(c) == rest[0] && HoldsExactly(c, rest, h)
    requires cs != [] ==> c.kind == Static
    requires forall k :: 0 <= k < |cs| ==> cs[k].kind == Static && Head(cs[k]) != rest[0]
    ensures Changed(cs, cs + [c], rest, Some(h))
  {
    forall k | 0 <= k < |cs| ensures cs[k].path != "" { assert Loose(cs[k]); }
    forall t | t != "" ensures FindIn(cs + [c], t) == if t == rest then Some(h) else FindIn(cs, t) {
      AppendedAt(cs, c, t);
    }
    AppendedAt(cs, c, rest);
    forall k | 0 <= k < |cs + [c]| ensures Loose((cs + [c])[k]) && ((cs + [c])[k].kind != Static ==> |cs + [c]| == 1) {
    }
    SumsAppend(cs, c);
  }

  lemma {:induction false} ChangedDrop(cs: seq<Node>, k: nat, rest: string)
    requires Siblings(cs) && AllLoose(cs) && k < |cs| && rest != "" && rest[0] == Head(cs[k]) && cs[k].priority == 1
    requires forall s :: s != rest ==> Find(cs[k], s).None?
    ensures Changed(cs, cs[..k] + cs[k+1..], rest, None)
  {
    var ds := cs[..k] + cs[k+1..];
    assert forall j :: 0 <= j < |ds| ==> ds[j] == if j < k then cs[j] else cs[j+1];
    forall t | t != "" ensures FindIn(ds, t) == if t == rest then None else FindIn(cs, t) {
      DroppedAt(cs, k, rest, t);
    }
    SumsDrop(cs, k);
  }

  lemma {:induction false} DroppedAt(cs: seq<Node>, k: nat, rest: string, t: string)
    requires Siblings(cs) && AllLoose(cs) && k < |cs| && rest != "" && rest[0] == Head(cs[k]) && t != ""
    requires forall s :: s != rest ==> Find(cs[k], s).None?
    ensures FindIn(cs[..k] + cs[k+1..], t) == if t == rest then None else FindIn(cs, t)
  {
    var ds, h := cs[..k] + cs[k+1..], HeadIndex(cs, t[0]);
    forall j | 0 <= j < |ds| ensures ds[j] == cs[if j < k then j else j + 1] {
    }
    if h < |cs| && h != k {
      assert Loose(cs[h]) && cs[h] == ds[if h < k then h else h - 1];
      FindInMember(ds, cs[h], t);
      FindInMember(cs, cs[h], t);
    } else {
      assert HeadIndex(ds, t[0]) == |ds|;
    }
  }

  // ----- making, splitting and joining nodes

  lemma {:induction false} LooseConstruct(path: string, handle: Handle) returns (c: Node)
    requires path != "" && Construct(path, handle).Some?
    ensures Construct(path, handle) == Some(c)
    ensures Loose(c) && Head(c) == path[0] && c.priority == 1 && (c.kind == Static <==> !IsWild(path[0]))
    ensures HoldsExactly(c, path, handle)
    decreases |path|
  {
    c := Construct(path, handle).value;
    if c.children == [] {
      LeafHolds(c, handle);
    } else {
      var i := |c.path|;
      ConstructParts(path, handle);
      var child := LooseConstruct(path[i..], handle);
      assert path == c.path + path[i..] && c.children == [child] && c.children[1..] == [];
      ChainHolds(c, path[i..], handle);
    }
  }

  /** The node that is made, and what is made below it. */
  lemma {:induction false} ConstructParts(path: string, handle: Handle)
    requires path != "" && Construct(path, handle).Some?
    ensures var c := Construct(path, handle).value;
      && Tagged(c) && c.path <= path && c.priority == 1 && (c.kind == Static <==> !IsWild(path[0]))
      && (c.children == [] ==> c.path == path && c.handle == Some(handle))
      && (c.children != [] ==>
        && |c.path| < |path| && c.handle == None && Construct(path[|c.path|..], handle).Some?
        && c.children == [Construct(path[|c.path|..], handle).value]
        && c.maxParams == c.children[0].maxParams + (if c.kind == Static then 0 else 1))
  {
  }

  lemma {:induction false} GrowLoose(n: Node, cs: seq<Node>, c: Node, rest: string, h: Handle)
    requires Counted(n) && Changed(n.children, cs, rest, Some(h))
    requires MaxParams(cs) == Max(MaxParams(n.children), c.maxParams)
    ensures Becomes(n, Grown(n, cs, c), n.path + rest, Some(h))
  {
    ChangedFind(n, Grown(n, cs, c), cs, rest, Some(h));
    ResortLoose(cs);
    ResortIsPermutation(cs);
  }

  lemma {:induction false} SplitLoose(n: Node, i: nat, handle: Option<Handle>)
    requires Loose(n) && n.kind == Static && 0 < i < |n.path|
    ensures var m := Split(n, i, handle);
      && Counted(m) && m.path == n.path[..i] && |m.children| == 1 && AllLoose(m.children)
      && m.children[0].kind == Static && Head(m.children[0]) == n.path[i]
      && forall s :: Find(m, s) == if s == n.path[..i] then handle else Find(n, s)
  {
    var m := Split(n, i, handle);
    assert n.path == n.path[..i] + n.path[i..] && m.children[1..] == [];
    JoinFind(m, n);
    assert Loose(m.children[0]);
  }

  /** A node without handle is joined with its only child. */
  lemma {:induction false} ConcatLoose(n: Node)
    requires Counted(n) && n.priority > 0 && n.handle.None? && |n.children| == 1 && Loose(n.children[0])
    ensures var m := Concat(n);
      && Loose(m) && Head(m) == Head(n) && m.kind == n.kind && m.priority == n.priority && m.maxParams == n.maxParams
      && forall s :: Find(m, s) == Find(n, s)
  {
    var child, m := n.children[0], Concat(n);
    assert n.children[1..] == [];
    assert Priorities(n.children) == child.priority && MaxParams(n.children) == child.maxParams;
    if child.kind == Static {
      if n.kind == Static || (n.kind == Param && child.path == "/") {
        JoinFind(n, m);
        forall s ensures Find(m, s) == Find(n, s) {
          if s == n.path { assert !(m.path <= s); }
        }
      } else if n.kind == Param && child.index == '/' && |child.path| > 1 {
        assert m.children[1..] == [] && NoWild(child.path[1..]);
        assert Loose(m.children[0]);
        ShiftFind(n, m);
      }
    }
  }

  lemma {:induction false} SplitSlashLoose(n: Node, handle: Handle)
    requires Loose(n) && n.kind == Param && LastChar(n.path) == '/'
    ensures Becomes(n, SplitSlash(n, handle), n.path[..|n.path|-1], Some(handle))
  {
    var m, r := Split(n, |n.path| - 1, Some(handle)), SplitSlash(n, handle);
    SplitNameLoose(n, m, handle);
    var child := m.children[0];
    if child.handle.None? && |child.children| == 1 {
      ConcatLoose(child);
      assert m.children[1..] == [] && r.children == [Concat(child)] && r.children[1..] == [];
      OnlyChildFinds(m, r, child, Concat(child));
    }
  }

  lemma {:induction false} SplitNameLoose(n: Node, m: Node, handle: Handle)
    requires Loose(n) && n.kind == Param && LastChar(n.path) == '/' && m == Split(n, |n.path| - 1, Some(handle))
    ensures Becomes(n, m, n.path[..|n.path|-1], Some(handle)) && m.children == [m.children[0]] && Loose(m.children[0])
    ensures m.children[0].kind == Static && m.children[0].path == "/"
  {
    var child := m.children[0];
    assert n.path == n.path[..|n.path|-1] + "/" && n.path[|n.path|-1..] == "/";
    assert m.children == [child] && m.children[1..] == [];
    JoinFind(m, n);
    assert Loose(child);
  }

  // ----- add

  /** A refused `Add` changes nothing, and an accepted one registers one more literal. */
  ghost predicate AddHolds(n: Node, path: string, handle: Handle) {
    var r := Add(n, path, handle);
    if r.ok then Becomes(n, r.node, Registered(n, path), Some(handle)) && Find(n, Registered(n, path)) == None
    else r.node == n
  }

  lemma {:induction false} AddLoose(n: Node, path: string, handle: Handle)
    requires Loose(n) && path != "" && Reaches(n, path)
    ensures AddHolds(n, path, handle)
    decreases n
  {
    var i := Lcp(path, n.path);
    if n.kind == CatchAll {
    } else if i == |n.path| {
      if |path| == i {
        assert path == n.path;
        RegisterLoose(n, path, handle);
      } else {
        forall k | 0 <= k < |n.children| && Reaches(n.children[k], path[i..])
          ensures AddHolds(n.children[k], path[i..], handle)
        {
          AddLoose(n.children[k], path[i..], handle);
        }
        NextLoose(n, path, handle);
      }
    } else if n.kind == Static {
      InsideLoose(n, i, path, handle);
    } else if i == |n.path| - 1 && LastChar(n.path) == '/' {
      SplitSlashLoose(n, handle);
      assert path[..i] == n.path[..i];
    }
  }

  lemma {:induction false} InsideLoose(n: Node, i: nat, path: string, handle: Handle)
    requires Loose(n) && path != "" && Reaches(n, path) && n.kind == Static && i == Lcp(path, n.path) < |n.path|
    ensures AddHolds(n, path, handle)
  {
    if i == |path| {
      SplitLoose(n, i, Some(handle));
      assert path == n.path[..i] && !(n.path <= path);
      assert Loose(Split(n, i, Some(handle)));
    } else if i > 0 {
      if !IsWild(path[i]) && Construct(path[i..], handle).Some? {
        SplitAppendLoose(n, i, path, handle);
      } else {
        InsideRefused(n, i, path, handle);
      }
    }
  }

  lemma {:induction false} InsideRefused(n: Node, i: nat, path: string, handle: Handle)
    requires Loose(n) && n.kind == Static && i == Lcp(path, n.path) && 0 < i < |n.path| && i < |path|
    requires IsWild(path[i]) || Construct(path[i..], handle).None?
    ensures AddHolds(n, path, handle)
  {
    var m := Split(n, i, None);
    assert ChildIndex(m.children, path[i]) == 1 && path[i..][0] == path[i];
    WildRefused(m.children[0], path[i..], handle);
    SplitUndone(n, i, path, handle);
  }

  lemma {:induction false} RegisterLoose(n: Node, path: string, handle: Handle)
    requires Loose(n) && n.kind != CatchAll && path == n.path && Lcp(path, n.path) == |path|
    ensures AddHolds(n, path, handle)
  {
    if n.handle.None? {
      var m := n.(handle := Some(handle), priority := n.priority + 1);
      forall s ensures Find(m, s) == if s == path then Some(handle) else Find(n, s) {
        if n.path <= s && |s| == |n.path| { assert s == n.path; }
      }
    }
  }

  lemma {:induction false} SplitAppendLoose(n: Node, i: nat, path: string, handle: Handle)
    requires Loose(n) && n.kind == Static && i == Lcp(path, n.path) && 0 < i < |n.path| && i < |path|
    requires !IsWild(path[i]) && Construct(path[i..], handle).Some?
    ensures AddHolds(n, path, handle)
  {
    var m, rest := Split(n, i, None), path[i..];
    SplitLoose(n, i, None);
    var c := LooseConstruct(rest, handle);
    AppendLoose(m, c, rest, handle);
    PathParts(path, n.path, i);
    AddInside(n, i, path, m, c, handle);
    SplitBecomes(n, i, path, m, Grown(m, m.children + [c], c), handle);
  }

  lemma PathParts(path: string, a: string, i: nat)
    requires i == Lcp(path, a)
    ensures path == a[..i] + path[i..]
  {
  }

  /** A node with a new child for `rest`. */
  lemma {:induction false} AppendLoose(m: Node, c: Node, rest: string, handle: Handle)
    requires Counted(m) && AllLoose(m.children) && rest != ""
    requires Loose(c) && c.priority == 1 && Head(c) == rest[0] && HoldsExactly(c, rest, handle)
    requires m.children != [] ==> c.kind == Static
    requires forall k :: 0 <= k < |m.children| ==> m.children[k].kind == Static && Head(m.children[k]) != rest[0]
    ensures Becomes(m, Grown(m, m.children + [c], c), m.path + rest, Some(handle))
  {
    ChangedAppend(m.children, c, rest, handle);
    SumsAppend(m.children, c);
    GrowLoose(m, m.children + [c], c, rest, handle);
  }

  lemma {:induction false} AddInside(n: Node, i: nat, path: string, m: Node, c: Node, handle: Handle)
    requires Tagged(n) && n.kind == Static && i == Lcp(path, n.path) && 0 < i < |n.path| && i < |path|
    requires !IsWild(path[i]) && Construct(path[i..], handle) == Some(c) && m == Split(n, i, None)
    ensures Add(n, path, handle) == Outcome(Grown(m, m.children + [c], c), true)
  {
    assert ChildIndex(m.children, path[i]) == 1;
  }

  lemma {:induction false} SplitBecomes(n: Node, i: nat, path: string, m: Node, r: Node, handle: Handle)
    requires n.kind == Static && i == Lcp(path, n.path) && 0 < i < |n.path| && Becomes(m, r, path, Some(handle))
    requires m == Split(n, i, None) && forall s :: Find(m, s) == if s == n.path[..i] then None else Find(n, s)
    ensures Becomes(n, r, path, Some(handle)) && Find(n, path) == None
  {
    assert !(n.path <= path) && !(n.path <= n.path[..i]);
    forall s ensures Find(m, s) == Find(n, s) {
    }
  }

  lemma {:induction false} NextLoose(n: Node, path: string, handle: Handle)
    requires Loose(n) && n.kind != CatchAll && |n.path| < |path| && Lcp(path, n.path) == |n.path|
    requires forall k :: 0 <= k < |n.children| && Reaches(n.children[k], path[|n.path|..]) ==>
      AddHolds(n.children[k], path[|n.path|..], handle)
    ensures AddHolds(n, path, handle)
  {
    var i, rest := |n.path|, path[|n.path|..];
    assert path == n.path + rest;
    LooseIndex(n.children, path[i]);
    var k := ChildIndex(n.children, path[i]);
    if n.children != [] && IsWild(path[i]) && n.children[0].kind == Static {
      NextRefused(n, path, handle);
    } else if k < |n.children| {
      NextInto(n, path, k, handle);
    } else if Construct(rest, handle).Some? {
      var c := LooseConstruct(rest, handle);
      AppendLoose(n, c, rest, handle);
      assert Find(n, path) == FindIn(n.children, rest) == None;
    }
  }

  lemma {:induction false} NextRefused(n: Node, path: string, handle: Handle)
    requires Loose(n) && n.kind != CatchAll && |n.path| < |path| && Lcp(path, n.path) == |n.path|
    requires n.children != [] && IsWild(path[|n.path|]) && n.children[0].kind == Static
    ensures AddHolds(n, path, handle)
  {
    var c, rest := n.children[0], path[|n.path|..];
    assert Loose(c) && rest[0] == path[|n.path|];
    assert Lcp(rest, c.path) == 0 && Add(c, rest, handle) == Outcome(c, false);
    assert n.children[0 := c] == n.children;
  }

  lemma {:induction false} ReplaceLoose(n: Node, k: nat, c: Node, l: string, handle: Handle)
    requires Loose(n) && k < |n.children| && l != "" && l[0] == Head(n.children[k])
    requires Becomes(n.children[k], c, l, Some(handle)) && Find(n.children[k], l) == None
    ensures Becomes(n, Grown(n, n.children[k := c], c), n.path + l, Some(handle)) && Find(n, n.path + l) == None
  {
    ChangedReplace(n.children, k, c, l, Some(handle));
    SumsUpdate(n.children, k, c);
    GrowLoose(n, n.children[k := c], c, l, handle);
    FoundInto(n, k, l);
  }

  lemma {:induction false} NextInto(n: Node, path: string, k: nat, handle: Handle)
    requires Loose(n) && n.kind != CatchAll && |n.path| < |path| && Lcp(path, n.path) == |n.path|
    requires !(n.children != [] && IsWild(path[|n.path|]) && n.children[0].kind == Static)
    requires k == ChildIndex(n.children, path[|n.path|]) < |n.children|
    requires AddHolds(n.children[k], path[|n.path|..], handle)
    ensures AddHolds(n, path, handle)
  {
    var c, rest := n.children[k], path[|n.path|..];
    var r, l := Add(c, rest, handle), Registered(c, rest);
    assert path == n.path + rest && Loose(c);
    if r.ok {
      assert Find(r.node, l).Some? && r.node.path <= l && l[0] == Head(c);
      ReplaceLoose(n, k, r.node, l, handle);
    } else {
      assert n.children[k := c] == n.children;
    }
  }

  // ----- remove

  /** What a node without any handle below it is cleared to. */
  predicate Spent(n: Node) {
    n.children == [] && n.handle.None? && n.priority == 0 && n.maxParams == if n.kind == Static then 0 else 1
  }

  /** `r` is `n` without `path`; `Spent` when that was the last handle. */
  ghost predicate Loses(n: Node, r: Outcome, path: string) {
    && (r.ok <==> Find(n, path).Some?)
    && (!r.ok ==> r.node == n)
    && (r.ok && n.priority > 1 ==> Becomes(n, r.node, path, None))
    && (r.ok && n.priority == 1 ==>
      Spent(r.node) && r.node.kind == n.kind && forall s :: s != path ==> Find(n, s).None?)
  }

  lemma {:induction false} JoinedLoose(n: Node, m: Node, path: string)
    requires Counted(m) && AllLoose(m.children) && m.kind == n.kind && m.path == n.path && m.priority + 1 == n.priority
    requires Find(n, path).Some? && forall s :: Find(m, s) == if s == path then None else Find(n, s)
    ensures Loses(n, Outcome(Joined(m), true), path)
  {
    if m.priority > 0 {
      if |m.children| == 1 && m.handle.None? { ConcatLoose(m); }
    } else {
      NothingLoose(m);
      forall s | s != path ensures Find(n, s).None? { assert Find(m, s) == Find(n, s); }
    }
  }

  lemma {:induction false} NothingLoose(m: Node)
    requires Counted(m) && AllLoose(m.children) && m.priority == 0
    ensures m.children == [] && m.handle.None? && forall s :: Find(m, s).None?
  {
    ChildCounts(m);
  }

  lemma {:induction false} ChildCounts(m: Node)
    requires Counted(m) && AllLoose(m.children)
    ensures m.children != [] ==> m.priority > 0
  {
    if m.children != [] {
      assert Loose(m.children[0]);
      PriorityMember(m.children, m.children[0]);
    }
  }

  lemma {:induction false} UnregisterLoose(n: Node)
    requires Loose(n)
    ensures Loses(n, Unregister(n), n.path)
  {
    if n.handle.Some? {
      var m := n.(priority := n.priority - 1, handle := None);
      forall s ensures Find(m, s) == if s == n.path then None else Find(n, s) {
        if n.path <= s && |s| == |n.path| { assert s == n.path; }
      }
      JoinedLoose(n, m, n.path);
    }
  }

  lemma {:induction false} ChildLoses(cs: seq<Node>, k: nat, r: Outcome, rest: string)
    requires Siblings(cs) && AllLoose(cs) && k < |cs| && rest != "" && rest[0] == Head(cs[k])
    requires r.ok && Loses(cs[k], r, rest)
    ensures Changed(cs, if r.node.priority == 0 then cs[..k] + cs[k+1..] else cs[k := r.node], rest, None)
  {
    assert Loose(cs[k]);
    if cs[k].priority == 1 { ChangedDrop(cs, k, rest); } else { ChangedReplace(cs, k, r.node, rest, None); }
  }

  lemma {:induction false} ReducedLoose(n: Node, cs: seq<Node>, rest: string)
    requires Loose(n) && Changed(n.children, cs, rest, None)
    ensures var m := Reduced(n, cs);
      && Counted(m) && AllLoose(m.children) && m.kind == n.kind && m.path == n.path && m.priority + 1 == n.priority
      && forall s :: Find(m, s) == if s == n.path + rest then None else Find(n, s)
  {
    ChangedFind(n, Reduced(n, cs), cs, rest, None);
    ResortLoose(cs);
    ResortIsPermutation(cs);
  }

  lemma {:induction false} ShrinkLoose(n: Node, k: nat, r: Outcome, rest: string)
    requires Loose(n) && k < |n.children| && rest != "" && rest[0] == Head(n.children[k])
    requires r.ok && Loses(n.children[k], r, rest)
    ensures Loses(n, Outcome(Shrunk(n, k, r.node), true), n.path + rest)
  {
    var cs := if r.node.priority == 0 then n.children[..k] + n.children[k+1..] else n.children[k := r.node];
    ChildLoses(n.children, k, r, rest);
    ReducedLoose(n, cs, rest);
    FoundInto(n, k, rest);
    JoinedLoose(n, Reduced(n, cs), n.path + rest);
  }

  lemma {:induction false} FoundInto(n: Node, k: nat, rest: string)
    requires Loose(n) && k < |n.children| && rest != "" && rest[0] == Head(n.children[k])
    ensures Find(n, n.path + rest) == Find(n.children[k], rest)
  {
    BehindPath(n.path, rest, n.path + rest);
    assert Loose(n.children[k]);
    FindInMember(n.children, n.children[k], rest);
  }

  /** Below a node that is not cleared. */
  lemma {:induction false} BelowLoose(n: Node, path: string)
    requires Loose(n) && n.path <= path && |n.path| < |path|
    requires forall k :: 0 <= k < |n.children| ==>
      Loses(n.children[k], Remove(n.children[k], path[|n.path|..]), path[|n.path|..])
    ensures Loses(n, RemoveBelow(n, |n.path|, path), path)
  {
    var rest := path[|n.path|..];
    assert path == n.path + rest && rest[0] == path[|n.path|];
    var k := HeadIndex(n.children, path[|n.path|]);
    if k < |n.children| {
      var c, r := n.children[k], Remove(n.children[k], rest);
      assert Loose(c) && Loses(c, r, rest);
      if r.ok { ShrinkLoose(n, k, r, rest); } else { assert n.children[k := c] == n.children; }
    }
  }

  lemma {:induction false} ClearedLoose(n: Node, r: Outcome, path: string)
    requires Loose(n) && Loses(n, r, path)
    ensures Loses(n, Cleared(r), path)
    ensures r.ok && n.priority == 1 ==> Cleared(r).node.path == "" && Cleared(r).node.index == NO_INDEX
  {
  }

  lemma {:induction false} RemoveLoose(n: Node, path: string)
    requires Loose(n)
    ensures Loses(n, Remove(n, path), path)
    ensures Remove(n, path).ok && n.priority == 1 ==>
      Remove(n, path).node.path == "" && Remove(n, path).node.index == NO_INDEX
    decreases n
  {
    var i := Lcp(n.path, path);
    if i == |n.path| && i < |path| {
      assert n.path == path[..i];
      forall k | 0 <= k < |n.children| ensures Loses(n.children[k], Remove(n.children[k], path[i..]), path[i..]) {
        RemoveLoose(n.children[k], path[i..]);
      }
      BelowLoose(n, path);
      ClearedLoose(n, RouteTree.RemoveBelow(n, i, path), path);
    } else if i == |n.path| {
      assert path == n.path;
      UnregisterLoose(n);
      ClearedLoose(n, Unregister(n), path);
    } else {
      NotBegun(n.path, path);
    }
  }

  lemma {:induction false} NotBegun(a: string, path: string)
    ensures Lcp(a, path) < |a| ==> !(a <= path)
  {
    if a <= path { assert path[..|a|] == a[..|a|]; LcpIsLongest(a, path, |a|); }
  }

  // ----- the whole tree

  predicate IsRooted(p: string) { p != "" && p[0] == '/' }

  /** What is registered is the string itself, or a beginning of it. */
  lemma {:induction false} RegisteredBegins(n: Node, path: string)
    ensures Registered(n, path) <= path
    decreases |path|, n
  {
    var i := Lcp(path, n.path);
    if path != "" && n.path != "" && n.kind != CatchAll && i == |n.path| < |path| {
      var k := ChildIndex(n.children, path[i]);
      if k < |n.children| {
        RegisteredBegins(n.children[k], path[i..]);
        assert path == n.path + path[i..];
      }
    }
  }

  lemma {:induction false} RootAdd(n: Node, p: string, handle: Handle)
    requires RootLoose(n) && IsRooted(p)
    ensures var r := Add(n, p, handle);
      && RootLoose(r.node) && (!r.ok ==> r.node == n)
      && (r.ok ==> Find(n, Registered(n, p)) == None)
      && (r.ok ==> forall s :: Find(r.node, s) == if s == Registered(n, p) then Some(handle) else Find(n, s))
  {
    if n == EMPTY_NODE {
      if Construct(p, handle).Some? { var c := LooseConstruct(p, handle); }
    } else {
      AddLoose(n, p, handle);
    }
  }

  lemma {:induction false} RootRemove(n: Node, p: string)
    requires RootLoose(n)
    ensures var r := Remove(n, p);
      && RootLoose(r.node) && (!r.ok ==> r.node == n) && (r.ok <==> Find(n, p).Some?)
      && forall s :: Find(r.node, s) == if s == p then None else Find(n, s)
  {
    if n == EMPTY_NODE {
      if p != "" { assert RouteTree.RemoveBelow(n, 0, p) == Outcome(n, false); }
    } else {
      RemoveLoose(n, p);
    }
  }

  // ----- what is answered

  /** A handle found by the walk is that of a literal that the tree holds. */
  lemma {:induction false} WalkHolds(parent: Option<Node>, n: Node, r: string, bs: seq<Binding>) returns (s: string)
    requires Loose(n) && Walk(parent, n, r, bs).handle.Some?
    ensures n.path <= s && s != "" && Find(n, s) == Walk(parent, n, r, bs).handle
    decreases n
  {
    s := n.path;
    var (i, more) := Consume(n, r);
    if i < |r| {
      var k := ChildIndex(n.children, r[i]);
      var c := n.children[k];
      var t := WalkHolds(Some(n), c, r[i..], bs + more);
      assert c.path != "" && t[0] == Head(c);
      FindInMember(n.children, c, t);
      s := n.path + t;
      assert s[|n.path|..] == t;
    }
  }
}
