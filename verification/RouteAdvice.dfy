/**
 Trailing-slash advice: what `canTSR` says about a clean request that nothing matches, in terms
 of which requests the same tree does answer.
 */
module RouteAdvice {
  import opened Options
  import opened RoutePatterns
  import opened RouteTree
  import opened RouteShape
  import opened RouteAdd
  import opened RouteConflicts
  import opened RouteGet

  /** The handle of the subtree `n` for `r`. */
  function Hit(n: Node, r: string): Option<Handle> { Walk(None, n, r, []).handle }

  /** `r` may be handed to `n`: it starts like a static node. */
  predicate Meets(n: Node, r: string) { r != "" && (n.kind == Static ==> r[0] == Head(n)) }

  lemma {:induction false} HitOfWalk(p: Option<Node>, q: Option<Node>, n: Node, r: string, bs: seq<Binding>,
                                     cs: seq<Binding>)
    ensures Walk(p, n, r, bs).handle == Walk(q, n, r, cs).handle
    decreases n
  {
    if r != "" && !(n.kind == Param && LastChar(n.path) == '/' && SegEnd(r) == |r|) {
      var (i, xs) := Consume(n, r);
      if !(n.kind == Static && i < |n.path|) && i < |r| {
        var k := ChildIndex(n.children, r[i]);
        if k < |n.children| { HitOfWalk(Some(n), Some(n), n.children[k], r[i..], bs + xs, cs + xs); }
      }
    }
  }

  /** `Hit`, one node at a time. */
  lemma HitStep(n: Node, r: string)
    requires r != "" && Labelled(n)
    ensures !Passes(n, r) ==> Hit(n, r) == None
    ensures Passes(n, r) ==>
      var i := Consume(n, r).0;
      Hit(n, r) ==
        if i == |r| then n.handle
        else var k := ChildIndex(n.children, r[i]); if k < |n.children| then Hit(n.children[k], r[i..]) else None
  {
    WalkPasses(None, n, r, []);
    if Passes(n, r) {
      var (i, xs) := Consume(n, r);
      if i < |r| {
        var k := ChildIndex(n.children, r[i]);
        if k < |n.children| { HitOfWalk(Some(n), None, n.children[k], r[i..], [] + xs, []); }
      }
    }
  }

  lemma HitCatchAll(parent: Option<Node>, n: Node, ctx: Context, r: string, bs: seq<Binding>)
    requires Ok(n, ctx) && r != "" && n.kind == CatchAll
    ensures Walk(parent, n, r, bs).handle.Some?
  {
    WalkPasses(parent, n, r, bs);
  }

  /** The child a walk goes on in. */
  lemma Descent(n: Node, ctx: Context, r: string)
    requires Ok(n, ctx) && CleanRest(r, ctx) && Passes(n, r) && Consume(n, r).0 < |r| && n.kind != CatchAll
    ensures var i := Consume(n, r).0;
            var k := ChildIndex(n.children, r[i]);
      k < |n.children| ==>
        && Ok(n.children[k], After(n.path, ctx))
        && CleanRest(r[i..], After(n.path, ctx)) && Meets(n.children[k], r[i..])
  {
    var i := Consume(n, r).0;
    var k := ChildIndex(n.children, r[i]);
    CleanBelow(n, ctx, r);
    if k < |n.children| { assert Ok(n.children[k], After(n.path, ctx)); }
  }

  lemma {:induction false} SegEndPrefix(q: string, c: char)
    ensures SegEnd(q) < |q| ==> SegEnd(q + [c]) == SegEnd(q)
    ensures SegEnd(q) == |q| ==> SegEnd(q + [c]) == if c == '/' then |q| else |q| + 1
    decreases |q|
  {
    if q != "" && q[0] != '/' {
      assert (q + [c])[1..] == q[1..] + [c];
      SegEndPrefix(q[1..], c);
    }
  }

  /** How much of `q` and of `q + "/"` a node consumes. */
  datatype Step = Both(i: nat) | SlashOnly | Neither

  function StepOf(n: Node, q: string): Step {
    match n.kind
    case Static => if n.path <= q then Both(|n.path|) else if n.path == q + "/" then SlashOnly else Neither
    case Param =>
      var f := SegEnd(q);
      if LastChar(n.path) != '/' then Both(f) else if f < |q| then Both(f + 1) else SlashOnly
    case CatchAll => Both(|q|)
  }

  lemma StepOfCorrect(n: Node, ctx: Context, q: string)
    requires Labelled(n) && PatternFrom(n.path, ctx) && n.kind != CatchAll && q != "" && CleanRest(q + "/", ctx)
    ensures CleanRest(q, ctx) && LastChar(q) != '/'
    ensures match StepOf(n, q)
            case Both(i) => Passes(n, q) && Passes(n, q + "/") && Consume(n, q).0 == i && Consume(n, q + "/").0 == i &&
              0 < i <= |q|
            case SlashOnly => !Passes(n, q) && Passes(n, q + "/") && Consume(n, q + "/").0 == |q| + 1
            case Neither => !Passes(n, q) && !Passes(n, q + "/") && Lcp(n.path, q + "/") < |n.path|
  {
    CleanPrefix(q, ctx);
    if n.kind == Static {
      StaticStep(n, q);
    } else {
      ParamShape(n.path, ctx);
      SegEndPrefix(q, '/');
    }
  }

  lemma CleanPrefix(q: string, ctx: Context)
    requires q != "" && CleanRest(q + "/", ctx)
    ensures CleanRest(q, ctx) && LastChar(q) != '/'
  {
    var r := q + "/";
    assert r[|q|] == '/' && r[|q|-1] == q[|q|-1];
    assert forall k :: 0 <= k < |q| ==> q[k] == r[k];
  }

  lemma StaticStep(n: Node, q: string)
    requires n.kind == Static && LastChar(q) != '/' && q != "" && n.path != ""
    ensures var r := q + "/";
      match StepOf(n, q)
      case Both(i) => n.path <= q && n.path <= r && Lcp(n.path, q) == i == Lcp(n.path, r)
      case SlashOnly => !(n.path <= q) && n.path <= r && Lcp(n.path, r) == |r|
      case Neither => !(n.path <= q) && !(n.path <= r) && Lcp(n.path, r) < |n.path|
  {
    var r := q + "/";
    assert r[..|q|] == q;
    LcpIsLongest(n.path, q, |n.path|);
    LcpIsLongest(n.path, r, |n.path|);
    if n.path <= r && |n.path| <= |q| { assert n.path == r[..|n.path|] == q[..|n.path|]; }
    if n.path <= r && |n.path| == |r| { assert n.path == r; }
  }

  // ----- removeSlash

  /** At a last "/" of the request, the walk looks back at the parent. */
  lemma AdviceAtSlash(parent: Option<Node>, n: Node, ctx: Context, bs: seq<Binding>)
    requires Ok(n, ctx) && CleanRest("/", ctx) && Meets(n, "/") && Hit(n, "/") == None
    ensures Advice(Walk(parent, n, "/", bs)) == RemoveSlash <==> parent.Some? && parent.value.handle.Some?
  {
    assert n.kind == Static;
    WalkPasses(parent, n, "/", bs);
    HitStep(n, "/");
  }

  lemma {:induction false} RemoveAdvice(parent: Option<Node>, n: Node, ctx: Context, q: string, bs: seq<Binding>)
    requires Ok(n, ctx) && q != "" && CleanRest(q + "/", ctx) && Meets(n, q) && Hit(n, q + "/") == None
    ensures Advice(Walk(parent, n, q + "/", bs)) == RemoveSlash <==> Hit(n, q).Some?
    decreases n
  {
    var r := q + "/";
    if n.kind == CatchAll {
      HitCatchAll(None, n, ctx, r, []);
    } else {
      StepOfCorrect(n, ctx, q);
      HitStep(n, q);
      HitStep(n, r);
      if StepOf(n, q).Both? {
        if StepOf(n, q).i == |q| { RemoveAtEnd(parent, n, ctx, q, bs); } else { RemoveBelow(parent, n, ctx, q, bs); }
      }
    }
  }

  lemma {:induction false} RemoveBelow(parent: Option<Node>, n: Node, ctx: Context, q: string, bs: seq<Binding>)
    requires Ok(n, ctx) && q != "" && CleanRest(q + "/", ctx) && Meets(n, q) && Hit(n, q + "/") == None
    requires n.kind != CatchAll && StepOf(n, q).Both? && StepOf(n, q).i < |q|
    ensures Advice(Walk(parent, n, q + "/", bs)) == RemoveSlash <==> Hit(n, q).Some?
    decreases n, 0
  {
    var r, i := q + "/", StepOf(n, q).i;
    StepOfCorrect(n, ctx, q);
    HitStep(n, q);
    HitStep(n, r);
    WalkPasses(parent, n, r, bs);
    Descent(n, ctx, r);
    SlashBehind(q, i);
    var k := ChildIndex(n.children, r[i]);
    if k < |n.children| {
      RemoveAdvice(Some(n), n.children[k], After(n.path, ctx), q[i..], bs + Consume(n, r).1);
    }
  }

  lemma RemoveAtEnd(parent: Option<Node>, n: Node, ctx: Context, q: string, bs: seq<Binding>)
    requires Ok(n, ctx) && q != "" && CleanRest(q + "/", ctx) && Hit(n, q + "/") == None
    requires n.kind != CatchAll && StepOf(n, q) == Both(|q|)
    ensures Advice(Walk(parent, n, q + "/", bs)) == RemoveSlash <==> Hit(n, q).Some?
  {
    var r := q + "/";
    StepOfCorrect(n, ctx, q);
    HitStep(n, q);
    HitStep(n, r);
    WalkPasses(parent, n, r, bs);
    Descent(n, ctx, r);
    SlashBehind(q, |q|);
    var k := ChildIndex(n.children, '/');
    if k < |n.children| {
      AdviceAtSlash(Some(n), n.children[k], After(n.path, ctx), bs + Consume(n, r).1);
    }
  }

  lemma SlashBehind(q: string, i: nat)
    requires i <= |q|
    ensures (q + "/")[i..] == q[i..] + "/" && (i == |q| ==> (q + "/")[i..] == "/") && (i < |q| ==> (q + "/")[i] == q[i])
  {
  }

  // ----- addSlash

  /** The walk has used up all that was left of the request. */
  predicate UsedUp(s: Stop) { s.i == |s.rest| }

  lemma {:induction false} AddAdvice(parent: Option<Node>, n: Node, ctx: Context, q: string, bs: seq<Binding>)
    requires Ok(n, ctx) && q != "" && CleanRest(q + "/", ctx) && Meets(n, q) && Hit(n, q) == None
    ensures var s := Walk(parent, n, q, bs);
      Advice(s) == AddSlash && UsedUp(s) <==> Hit(n, q + "/").Some?
    decreases n, 1
  {
    if n.kind == CatchAll {
      HitCatchAll(None, n, ctx, q, []);
    } else {
      StepOfCorrect(n, ctx, q);
      match StepOf(n, q)
      case Both(i) => if i == |q| { AddAtEnd(parent, n, ctx, q, bs); } else { AddBelow(parent, n, ctx, q, bs); }
      case SlashOnly => AddHere(parent, n, ctx, q, bs);
      case Neither => AddNowhere(parent, n, ctx, q, bs);
    }
  }

  lemma AddHere(parent: Option<Node>, n: Node, ctx: Context, q: string, bs: seq<Binding>)
    requires Ok(n, ctx) && q != "" && CleanRest(q + "/", ctx) && n.kind != CatchAll && StepOf(n, q) == SlashOnly
    ensures var s := Walk(parent, n, q, bs);
      Advice(s) == AddSlash && UsedUp(s) <==> Hit(n, q + "/").Some?
  {
    StepOfCorrect(n, ctx, q);
    HitStep(n, q + "/");
    if n.kind == Static {
      LcpIsLongest(n.path, q, |q|);
      AddHereStatic(parent, n, q, bs);
    } else {
      ParamShape(n.path, ctx);
      assert AllOk(n.children, AfterNameSlash);
    }
  }

  lemma AddHereStatic(parent: Option<Node>, n: Node, q: string, bs: seq<Binding>)
    requires n.kind == Static && q != "" && n.path == q + "/"
    ensures var s := Walk(parent, n, q, bs);
      s.node == n && s.rest == q && s.i == |q| && s.handle == None
  {
    LcpIsLongest(n.path, q, |q|);
    assert n.path[..|q|] == q;
  }

  lemma AddNowhere(parent: Option<Node>, n: Node, ctx: Context, q: string, bs: seq<Binding>)
    requires Ok(n, ctx) && q != "" && CleanRest(q + "/", ctx) && n.kind != CatchAll && StepOf(n, q) == Neither
    ensures Advice(Walk(parent, n, q, bs)) != AddSlash && Hit(n, q + "/") == None
  {
    StepOfCorrect(n, ctx, q);
    HitStep(n, q + "/");
    OneMore(n.path, q);
    assert Walk(parent, n, q, bs) == Stop(parent, n, q, Lcp(n.path, q), None, bs + []);
  }

  lemma OneMore(a: string, q: string)
    requires !(a <= q) && a != q + "/"
    ensures Lcp(a, q) < |a| && !(Lcp(a, q) == |q| == |a| - 1 && a[|q|] == '/')
  {
    LcpIsLongest(a, q, |a|);
    var i := Lcp(a, q);
    if i == |q| == |a| - 1 { assert a == q + [a[i]]; }
  }

  lemma AddAtEnd(parent: Option<Node>, n: Node, ctx: Context, q: string, bs: seq<Binding>)
    requires Ok(n, ctx) && q != "" && CleanRest(q + "/", ctx) && Hit(n, q) == None
    requires n.kind != CatchAll && StepOf(n, q) == Both(|q|)
    ensures var s := Walk(parent, n, q, bs);
      Advice(s) == AddSlash && UsedUp(s) <==> Hit(n, q + "/").Some?
  {
    var r, after := q + "/", After(n.path, ctx);
    StepOfCorrect(n, ctx, q);
    HitStep(n, q);
    HitStep(n, r);
    WalkPasses(parent, n, q, bs);
    assert n.handle.None? && n.kind == Static && n.path == q;
    AfterLiteral(n.path, ctx);
    SlashChild(n.children, after);
    assert r[|q|..] == "/";
  }

  /** The only child that can answer "/" is one whose path is "/". */
  lemma SlashChild(cs: seq<Node>, ctx: Context)
    requires Siblings(cs) && AllOk(cs, ctx) && !ctx.AllowsWild()
    ensures var k := ChildIndex(cs, '/');
      (exists j :: 0 <= j < |cs| && cs[j].path == "/" && cs[j].handle.Some?) <==> (k < |cs| && Hit(cs[k], "/").Some?)
  {
    var k := ChildIndex(cs, '/');
    ChildIndexIsHeadIndex(cs, ctx, '/');
    forall j | 0 <= j < |cs| ensures cs[j].kind == Static && cs[j].path != "" {
      assert Ok(cs[j], ctx);
    }
    if k < |cs| {
      HitStep(cs[k], "/");
      LcpIsLongest(cs[k].path, "/", 1);
    }
    forall j | 0 <= j < |cs| && cs[j].path == "/" ensures j == k {
      assert Ok(cs[j], ctx) && Head(cs[j]) == '/';
    }
  }

  lemma {:induction false} AddBelow(parent: Option<Node>, n: Node, ctx: Context, q: string, bs: seq<Binding>)
    requires Ok(n, ctx) && q != "" && CleanRest(q + "/", ctx) && Hit(n, q) == None
    requires n.kind != CatchAll && StepOf(n, q).Both? && StepOf(n, q).i < |q|
    ensures var s := Walk(parent, n, q, bs);
      Advice(s) == AddSlash && UsedUp(s) <==> Hit(n, q + "/").Some?
    decreases n, 0
  {
    var r, i, after := q + "/", StepOf(n, q).i, After(n.path, ctx);
    StepOfCorrect(n, ctx, q);
    HitStep(n, q);
    HitStep(n, r);
    WalkPasses(parent, n, q, bs);
    Descent(n, ctx, r);
    Descent(n, ctx, q);
    assert r[i..] == q[i..] + "/" && q[i] == r[i];
    var k := ChildIndex(n.children, q[i]);
    if k < |n.children| {
      AddAdvice(Some(n), n.children[k], after, q[i..], bs + Consume(n, q).1);
    }
  }
}
