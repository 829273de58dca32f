/**
 The main results about the router: over every run, the tree behaves like a flat table of
 patterns, and is determined by that table.
 */
module RouteRuns {
  import opened Options
  import opened RoutePatterns
  import opened RouteTree
  import opened RouteShape
  import opened RouteAdd
  import opened RouteConflicts
  import opened RouteRemove
  import opened RouteHistory
  import opened RouteGet
  import opened RouteAdvice
  import opened RouteStray
  import opened RouteSyntax
  import opened RouteLoose
  import opened RouteAccepts

  type Table = map<string, Handle>

  function Lookup(t: Table, s: string): Option<Handle> { if s in t then Some(t[s]) else None }

  /** Tree `n` holds exactly the patterns of table `t`. */
  ghost predicate Holds(n: Node, t: Table) { forall s :: Find(n, s) == Lookup(t, s) }

  predicate Conflicts(t: Table, p: string) { exists q :: q in t && Conflict(p, q) }

  predicate Overlooks(t: Table, p: string) { exists q :: q in t && Overlooked(p, q) }

  /** What registering a pattern means for the table. */
  predicate Acceptable(t: Table, p: string) { p !in t && !Conflicts(t, p) }

  ghost function Patterns(t: Table): iset<string> { iset p | p in t }

  /** What `add` accepts beyond that, and as what: any string that starts with '/'. */
  ghost predicate Accepted(t: Table, p: string) { IsRooted(p) && Accepts(Patterns(t), Mid, p) }

  ghost function Literal(t: Table, p: string): string { LiteralOf(Patterns(t), Mid, p) }

  /** The tree stays canonical when an accepted `p` is registered. */
  ghost predicate StaysCanonical(t: Table, p: string) {
    CutsOff(Patterns(t), Mid, p) || (IsPattern(p) && !Overlooks(t, p))
  }

  // ----- one operation

  lemma {:induction false} OverlookedIsConflict(p: string, q: string)
    requires Overlooked(p, q)
    ensures Conflict(p, q)
    decreases |p|
  {
    if IsWild(p[0]) || IsWild(q[0]) {
      var e, f := SegEnd(p), SegEnd(q);
      if p[..e] == q[..f] && e > 0 { OverlookedIsConflict(p[e..], q[f..]); }
    } else {
      OverlookedIsConflict(p[1..], q[1..]);
    }
  }

  /**
   On a canonical tree that holds `t`, `Add` of any string that starts with '/' is accepted exactly
   if the table says so, and registers exactly its literal, which is new; the tree stays canonical
   exactly if the table says so.  A refusal changes nothing.
   */
  lemma AddRefinesTable(n: Node, t: Table, p: string, handle: Handle)
    requires RootOk(n) && Holds(n, t) && IsRooted(p)
    ensures var r := Add(n, p, handle);
      && (r.ok <==> Accepted(t, p))
      && (r.ok ==> Literal(t, p) !in t && Literal(t, p) <= p && Holds(r.node, t[Literal(t, p) := handle]))
      && (r.ok ==> RootLoose(r.node) && (RootOk(r.node) <==> StaysCanonical(t, p)))
      && (!r.ok ==> r.node == n)
  {
    RootIsLoose(n);
    RootAdd(n, p, handle);
    RegisteredBegins(n, p);
    RootAnswers(n, t, p, handle);
    if Add(n, p, handle).ok {
      AddHoldsTable(n, t, p, handle);
      if StaysCanonical(t, p) { AddCanonical(n, t, p, handle); }
      if RootOk(Add(n, p, handle).node) { CanonicalStays(n, t, p, handle); }
    }
  }

  lemma RootIsLoose(n: Node)
    requires RootOk(n)
    ensures RootLoose(n)
  {
    if n != EMPTY_NODE { OkIsLoose(n, Mid); }
  }

  lemma SamePatterns(n: Node, t: Table)
    requires Holds(n, t)
    ensures FoundIn(n) == Patterns(t)
  {
    forall s ensures s in FoundIn(n) <==> s in Patterns(t) {
      assert Find(n, s) == Lookup(t, s);
    }
  }

  lemma RootAnswers(n: Node, t: Table, p: string, handle: Handle)
    requires RootOk(n) && Holds(n, t) && IsRooted(p)
    ensures Add(n, p, handle).ok <==> Accepted(t, p)
    ensures Add(n, p, handle).ok ==> Registered(n, p) == Literal(t, p)
  {
    SamePatterns(n, t);
    if n == EMPTY_NODE {
      FirstAddIff(p, handle);
      NothingFound();
      NothingRegistered(FoundIn(n), p);
    } else {
      AddAnswers(n, Mid, p, handle);
    }
  }

  lemma NothingFound()
    ensures FoundIn(EMPTY_NODE) == iset{}
  {
    forall s ensures s !in FoundIn(EMPTY_NODE) {
      assert "" <= s;
      assert Find(EMPTY_NODE, s) == None;
    }
  }

  lemma NothingRegistered(reg: iset<string>, p: string)
    requires reg == iset{}
    ensures Accepts(reg, Mid, p) <==> WellNamed(p)
    ensures LiteralOf(reg, Mid, p) == p && !CutsOff(reg, Mid, p)
  {
    LongestMeans(reg, p, |p|);
    assert p[0..] == p;
  }

  lemma AddHoldsTable(n: Node, t: Table, p: string, handle: Handle)
    requires RootLoose(n) && Holds(n, t) && IsRooted(p) && Add(n, p, handle).ok
    ensures Registered(n, p) !in t && Holds(Add(n, p, handle).node, t[Registered(n, p) := handle])
  {
    var l, m := Registered(n, p), Add(n, p, handle).node;
    RootAdd(n, p, handle);
    assert Find(n, l) == Lookup(t, l);
    forall s ensures Find(m, s) == Lookup(t[l := handle], s) { assert Find(n, s) == Lookup(t, s); }
  }

  lemma AddCanonical(n: Node, t: Table, p: string, handle: Handle)
    requires RootOk(n) && Holds(n, t) && IsRooted(p) && Add(n, p, handle).ok && StaysCanonical(t, p)
    ensures RootOk(Add(n, p, handle).node)
  {
    SamePatterns(n, t);
    if n == EMPTY_NODE {
      NothingFound();
      NothingRegistered(FoundIn(n), p);
      var c := ConstructCorrect(p, Mid, handle);
    } else if CutsOff(Patterns(t), Mid, p) {
      CutAdds(n, Mid, p, handle);
    } else {
      SafeTable(n, t, p);
      AddCorrect(n, Mid, p, handle);
    }
  }

  lemma CanonicalStays(n: Node, t: Table, p: string, handle: Handle)
    requires RootOk(n) && Holds(n, t) && IsRooted(p) && Add(n, p, handle).ok && RootOk(Add(n, p, handle).node)
    ensures StaysCanonical(t, p)
  {
    var m := Add(n, p, handle).node;
    RootIsLoose(n);
    RootAnswers(n, t, p, handle);
    AddHoldsTable(n, t, p, handle);
    if !CutsOff(Patterns(t), Mid, p) {
      assert Find(m, p) == Some(handle) by { assert Find(m, p) == Lookup(t[p := handle], p); }
      FoundIsPattern(m, Mid, p);
      forall q | q in t ensures !Overlooked(p, q) {
        assert Find(m, q) == Lookup(t[p := handle], q);
        HeldIsFree(m, Mid, p, q);
        if Overlooked(p, q) { OverlookedIsConflict(p, q); }
      }
    }
  }

  /** A pattern is accepted exactly if the table accepts it, or overlooks a conflict. */
  lemma PatternAcceptedIff(n: Node, t: Table, p: string, handle: Handle)
    requires RootOk(n) && Holds(n, t) && IsPattern(p)
    ensures Accepted(t, p) <==> Acceptable(t, p) || Overlooks(t, p)
  {
    RootAnswers(n, t, p, handle);
    if n == EMPTY_NODE {
      EmptyTable(t);
      var c := ConstructCorrect(p, Mid, handle);
    } else {
      AddFlag(n, t, p, handle);
    }
  }

  lemma EmptyTable(t: Table)
    requires Holds(EMPTY_NODE, t)
    ensures t == map[]
  {
    forall s ensures s !in t { assert Find(EMPTY_NODE, s) == Lookup(t, s); }
  }

  lemma SafeTable(n: Node, t: Table, p: string)
    requires Holds(n, t) && !Overlooks(t, p)
    ensures Safe(n, p)
  {
    forall s | Find(n, s).Some? ensures !Overlooked(p, s) {
      assert Find(n, s) == Lookup(t, s);
    }
  }

  lemma AddFlag(n: Node, t: Table, p: string, handle: Handle)
    requires Ok(n, Mid) && Holds(n, t) && PatternFrom(p, Mid) && Reaches(n, p)
    ensures Add(n, p, handle).ok <==> Acceptable(t, p) || Overlooks(t, p)
  {
    if Overlooks(t, p) {
      var q :| q in t && Overlooked(p, q);
      assert Find(n, q) == Lookup(t, q);
      OverlookedIsAccepted(n, Mid, p, handle, q);
    } else if Add(n, p, handle).ok {
      SafeTable(n, t, p);
      forall q | q in t ensures q != p && !Conflict(p, q) {
        assert Find(n, q) == Lookup(t, q);
        AcceptedIsNew(n, Mid, p, handle, q);
      }
    } else {
      var s := RefusedConflicts(n, Mid, p, handle);
      assert Find(n, s) == Lookup(t, s);
    }
  }

  /** A pattern without overlooked conflict is registered as it is. */
  lemma PatternIsLiteral(n: Node, t: Table, p: string, handle: Handle)
    requires RootOk(n) && Holds(n, t) && IsPattern(p) && !Overlooks(t, p) && Add(n, p, handle).ok
    ensures Literal(t, p) == p
  {
    AddRefinesTable(n, t, p, handle);
    SamePatterns(n, t);
    if n == EMPTY_NODE {
      NothingFound();
      NothingRegistered(FoundIn(n), p);
    } else {
      SafeTable(n, t, p);
      AddCorrect(n, Mid, p, handle);
      assert Find(Add(n, p, handle).node, p) == Lookup(t[Literal(t, p) := handle], p);
      RootAnswers(n, t, p, handle);
    }
  }

  /** `Add` agrees with the table exactly when nothing is overlooked. */
  lemma AddAgreesIff(n: Node, t: Table, p: string, handle: Handle)
    requires RootOk(n) && Holds(n, t) && IsPattern(p)
    ensures (Add(n, p, handle).ok <==> Acceptable(t, p)) <==> !Overlooks(t, p)
  {
    PatternAcceptedIff(n, t, p, handle);
    RootAnswers(n, t, p, handle);
    if Overlooks(t, p) {
      var q :| q in t && Overlooked(p, q);
      OverlookedIsConflict(p, q);
    }
  }

  /** A refused `Add` of any string that starts with '/', well-formed or not, changes nothing. */
  lemma RefusalRollsBack(n: Node, p: string, handle: Handle)
    requires RootOk(n) && p != "" && p[0] == '/' && !Add(n, p, handle).ok
    ensures Add(n, p, handle).node == n
  {
    if n != EMPTY_NODE { RefusedUnchanged(n, Mid, p, handle); }
  }

  lemma RemoveRefinesTable(n: Node, t: Table, p: string)
    requires RootOk(n) && Holds(n, t)
    ensures var r := Remove(n, p);
      && (r.ok <==> p in t) && RootOk(r.node) && Holds(r.node, t - {p}) && (!r.ok ==> r.node == n)
  {
    var r := Remove(n, p);
    assert Find(n, p) == Lookup(t, p);
    if n != EMPTY_NODE {
      RemoveCorrect(n, Mid, p);
      PriorityPositive(n, Mid);
      if r.ok && r.node.priority == 0 { LastRemoved(n, p); }
    } else {
      if p != "" { assert RouteTree.RemoveBelow(n, 0, p) == Outcome(n, false); }
    }
    forall s ensures Find(r.node, s) == Lookup(t - {p}, s) {
      assert Find(n, s) == Lookup(t, s);
    }
  }

  /** Removing the last pattern leaves the empty root behind. */
  lemma LastRemoved(n: Node, p: string)
    requires Ok(n, Mid) && Head(n) == '/' && Remove(n, p).ok && Remove(n, p).node.priority == 0
    ensures Remove(n, p).node == EMPTY_NODE
  {
    RemoveCorrect(n, Mid, p);
    PriorityPositive(n, Mid);
    assert n.kind == Static && n.priority == 1;
    if Lcp(n.path, p) == |p| {
      NothingLeft(n.(priority := 0, handle := None), Mid);
    } else {
      LastBelow(n, p);
    }
  }

  lemma {:induction false} LastBelow(n: Node, p: string)
    requires Ok(n, Mid) && n.kind == Static && n.priority == 1 && Remove(n, p).ok && Remove(n, p).node.priority == 0
    requires Lcp(n.path, p) < |p|
    ensures Remove(n, p).node == EMPTY_NODE
  {
    var i, after := Lcp(n.path, p), After(n.path, Mid);
    var k := HeadIndex(n.children, p[i]);
    var c := n.children[k];
    assert Ok(c, after) && Remove(c, p[i..]).ok;
    RemoveCorrect(c, after, p[i..]);
    PriorityMember(n.children, c);
    PriorityPositive(c, after);
    OnlyChild(n.children, after, k);
    assert n.children[..k] + n.children[k+1..] == [];
  }

  lemma OnlyChild(cs: seq<Node>, ctx: Context, k: nat)
    requires AllOk(cs, ctx) && k < |cs| && Priorities(cs) <= 1
    ensures |cs| == 1
  {
    PriorityPositive(cs[0], ctx);
    if |cs| > 1 {
      assert cs[1] in cs[1..];
      PriorityMember(cs[1..], cs[1]);
      PriorityPositive(cs[1], ctx);
    }
  }

  /** On a clean request, the answer is the handle and the bindings of the pattern that matches. */
  lemma GetRefinesTable(n: Node, t: Table, r: string, advise: bool)
    requires RootOk(n) && Holds(n, t) && IsCleanRequest(r)
    ensures forall p :: p in t && Match(p, r).Some? ==>
              Get(n, r, advise).handle == Some(t[p]) && Get(n, r, advise).bindings == Match(p, r).value
    ensures Get(n, r, advise).handle.Some? ==>
              exists p :: p in t && Match(p, r).Some? && Get(n, r, advise).handle == Some(t[p])
  {
    if n == EMPTY_NODE {
      EmptyTable(t);
    } else {
      forall p | p in t && Match(p, r).Some?
        ensures Get(n, r, advise).handle == Some(t[p]) && Get(n, r, advise).bindings == Match(p, r).value
      {
        assert Find(n, p) == Lookup(t, p);
        WalkMeetsMatch(None, n, Mid, r, [], p);
        assert [] + Match(p, r).value == Match(p, r).value;
      }
      if Get(n, r, advise).handle.Some? {
        var s := WalkFinds(None, n, Mid, r, []);
        assert Find(n, s) == Lookup(t, s);
      }
    }
  }

  /** Some pattern of the table matches. */
  predicate Answered(t: Table, r: string) { exists p :: p in t && Match(p, r).Some? }

  /** Trailing-slash advice on a clean request that nothing matches, and its exact meaning. */
  lemma AdviceRefinesTable(n: Node, t: Table, q: string)
    requires RootOk(n) && Holds(n, t) && q != "" && IsCleanRequest(q + "/")
    ensures !Answered(t, q + "/") ==> (Get(n, q + "/", true).redirect == RemoveSlash <==> Answered(t, q))
    ensures !Answered(t, q) ==>
      (Get(n, q, true).redirect == AddSlash && UsedUp(Walk(None, n, q, [])) <==> Answered(t, q + "/"))
  {
    var r := q + "/";
    CleanPrefix(q, Mid);
    GetRefinesTable(n, t, q, false);
    GetRefinesTable(n, t, r, false);
    if n == EMPTY_NODE {
      EmptyTable(t);
    } else {
      assert q[0] == r[0] == '/';
      assert n.kind == Static && Meets(n, q) && Meets(n, r);
      if !Answered(t, r) { RemoveAdvice(None, n, Mid, q, []); }
      if !Answered(t, q) { AddAdvice(None, n, Mid, q, []); }
    }
  }

  /**
   The advice to add a slash, read off the table: it is given exactly if that helps, or if the
   request strays from the registered patterns.
   */
  lemma AddSlashIff(n: Node, t: Table, q: string)
    requires RootOk(n) && Holds(n, t) && q != "" && IsCleanRequest(q + "/") && !Answered(t, q)
    ensures Get(n, q, true).redirect == AddSlash <==> Answered(t, q + "/") || Stray(Patterns(t), Mid, q)
    ensures !(Answered(t, q + "/") && Stray(Patterns(t), Mid, q))
  {
    AdviceRefinesTable(n, t, q);
    CleanPrefix(q, Mid);
    GetRefinesTable(n, t, q, false);
    if n == EMPTY_NODE {
      EmptyTable(t);
    } else {
      SamePatterns(n, t);
      assert q[0] == (q + "/")[0] == '/';
      AddStray(None, n, Mid, q, []);
    }
  }

  // ----- runs

  datatype Op = Register(path: string, handle: Handle) | Unregister(path: string)

  /** A path that does not start with '/' is refused before it gets to the tree. */
  function TreeStep(n: Node, op: Op): Node {
    match op
    case Register(p, h) => if IsRooted(p) then Add(n, p, h).node else n
    case Unregister(p) => Remove(n, p).node
  }

  ghost function TableStep(t: Table, op: Op): Table {
    match op
    case Register(p, h) => if Accepted(t, p) then t[Literal(t, p) := h] else t
    case Unregister(p) => t - {p}
  }

  /** Nothing is registered that the tree would not stay canonical for. */
  ghost predicate Legal(t: Table, op: Op) {
    op.Register? && Accepted(t, op.path) ==> StaysCanonical(t, op.path)
  }

  function TreeRun(n: Node, ops: seq<Op>): Node
    decreases |ops|
  {
    if ops == [] then n else TreeRun(TreeStep(n, ops[0]), ops[1..])
  }

  ghost function TableRun(t: Table, ops: seq<Op>): Table
    decreases |ops|
  {
    if ops == [] then t else TableRun(TableStep(t, ops[0]), ops[1..])
  }

  ghost predicate LegalRun(t: Table, ops: seq<Op>)
    decreases |ops|
  {
    ops == [] || (Legal(t, ops[0]) && LegalRun(TableStep(t, ops[0]), ops[1..]))
  }

  /** Every run that keeps the tree canonical is a run of the table. */
  lemma {:induction false} RunRefinesTable(n: Node, t: Table, ops: seq<Op>)
    requires RootOk(n) && Holds(n, t) && LegalRun(t, ops)
    ensures RootOk(TreeRun(n, ops)) && Holds(TreeRun(n, ops), TableRun(t, ops))
    decreases |ops|
  {
    if ops != [] {
      StepRefinesTable(n, t, ops[0]);
      RunRefinesTable(TreeStep(n, ops[0]), TableStep(t, ops[0]), ops[1..]);
    }
  }

  lemma StepRefinesTable(n: Node, t: Table, op: Op)
    requires RootOk(n) && Holds(n, t) && Legal(t, op)
    ensures RootOk(TreeStep(n, op)) && Holds(TreeStep(n, op), TableStep(t, op))
  {
    match op
    case Register(p, h) => if IsRooted(p) { AddRefinesTable(n, t, p, h); }
    case Unregister(p) => RemoveRefinesTable(n, t, p);
  }

  /** What an operation on any tree does to the table: an accepted string adds the literal it is registered as. */
  function EffectStep(n: Node, t: Table, op: Op): Table {
    match op
    case Register(p, h) => if IsRooted(p) && Add(n, p, h).ok then t[Registered(n, p) := h] else t
    case Unregister(p) => t - {p}
  }

  function EffectRun(n: Node, t: Table, ops: seq<Op>): Table
    decreases |ops|
  {
    if ops == [] then t else EffectRun(TreeStep(n, ops[0]), EffectStep(n, t, ops[0]), ops[1..])
  }

  /** Every run whatsoever, of patterns or not, changes what the tree holds as a map changes. */
  lemma {:induction false} AnyRunHolds(n: Node, t: Table, ops: seq<Op>)
    requires RootLoose(n) && Holds(n, t)
    ensures RootLoose(TreeRun(n, ops)) && Holds(TreeRun(n, ops), EffectRun(n, t, ops))
    decreases |ops|
  {
    if ops != [] {
      StepHolds(n, t, ops[0]);
      AnyRunHolds(TreeStep(n, ops[0]), EffectStep(n, t, ops[0]), ops[1..]);
    }
  }

  /** In such a run, nothing registered is ever overwritten, and a literal is removed exactly if it is there. */
  lemma StepHolds(n: Node, t: Table, op: Op)
    requires RootLoose(n) && Holds(n, t)
    ensures RootLoose(TreeStep(n, op)) && Holds(TreeStep(n, op), EffectStep(n, t, op))
    ensures op.Register? && IsRooted(op.path) && Add(n, op.path, op.handle).ok ==>
      Registered(n, op.path) !in t && Registered(n, op.path) <= op.path
    ensures op.Register? && IsRooted(op.path) && !Add(n, op.path, op.handle).ok ==> TreeStep(n, op) == n
    ensures op.Unregister? ==> (Remove(n, op.path).ok <==> op.path in t)
  {
    match op
    case Register(p, h) =>
      if IsRooted(p) {
        RootAdd(n, p, h);
        RegisteredBegins(n, p);
        if Add(n, p, h).ok { AddHoldsTable(n, t, p, h); }
      }
    case Unregister(p) =>
      RootRemove(n, p);
      assert Find(n, p) == Lookup(t, p);
      forall s ensures Find(Remove(n, p).node, s) == Lookup(t - {p}, s) { assert Find(n, s) == Lookup(t, s); }
  }

  /** Whatever the tree is, only handles of registered literals are answered. */
  lemma AnswersHeld(n: Node, t: Table, r: string, advise: bool)
    requires RootLoose(n) && Holds(n, t)
    ensures Get(n, r, advise).handle.Some? ==> exists p :: p in t && Get(n, r, advise).handle == Some(t[p])
  {
    if n != EMPTY_NODE && Get(n, r, advise).handle.Some? {
      var s := WalkHolds(None, n, r, []);
      assert Find(n, s) == Lookup(t, s);
    }
  }

  lemma EmptyHolds()
    ensures RootOk(EMPTY_NODE) && Holds(EMPTY_NODE, map[])
  {
  }

  /** History independence: two runs that register the same patterns build the same tree. */
  lemma HistoryIndependence(ops1: seq<Op>, ops2: seq<Op>)
    requires LegalRun(map[], ops1) && LegalRun(map[], ops2)
    requires TableRun(map[], ops1) == TableRun(map[], ops2)
    ensures TreeRun(EMPTY_NODE, ops1) == TreeRun(EMPTY_NODE, ops2)
  {
    EmptyHolds();
    RunRefinesTable(EMPTY_NODE, map[], ops1);
    RunRefinesTable(EMPTY_NODE, map[], ops2);
    var n, m, t := TreeRun(EMPTY_NODE, ops1), TreeRun(EMPTY_NODE, ops2), TableRun(map[], ops1);
    SameTable(n, m, t);
  }

  lemma StaysEmpty(n: Node)
    requires RootOk(n) && Holds(n, map[])
    ensures n == EMPTY_NODE
  {
    assert forall s :: Find(n, s).None?;
    if n != EMPTY_NODE { var s := Inhabited(n, Mid); }
  }

  lemma SameTable(n: Node, m: Node, t: Table)
    requires RootOk(n) && RootOk(m) && Holds(n, t) && Holds(m, t)
    ensures n == m
  {
    forall s ensures Find(n, s) == Find(m, s) {
      assert Find(n, s) == Lookup(t, s) && Find(m, s) == Lookup(t, s);
    }
    if n == EMPTY_NODE {
      EmptyTable(t);
      StaysEmpty(m);
    } else if m == EMPTY_NODE {
      EmptyTable(t);
      StaysEmpty(n);
    } else {
      Unique(n, m, Mid);
    }
  }

  // ----- the table itself

  lemma {:induction false} ConflictSymmetric(p: string, q: string)
    ensures Conflict(p, q) == Conflict(q, p)
    decreases |p|
  {
    if p != "" && q != "" {
      if IsWild(p[0]) || IsWild(q[0]) {
        var e, f := SegEnd(p), SegEnd(q);
        if p[..e] == q[..f] && e > 0 {
          assert e == |p[..e]| == |q[..f]| == f;
          ConflictSymmetric(p[e..], q[f..]);
        }
      } else if p[0] == q[0] {
        ConflictSymmetric(p[1..], q[1..]);
      }
    }
  }

  predicate ConflictFree(t: Table) {
    && (forall p :: p in t ==> IsPattern(p))
    && forall p, q :: p in t && q in t && p != q ==> !Conflict(p, q)
  }

  /** What a canonical tree holds are patterns without conflicts. */
  lemma CanonicalIsConflictFree(n: Node, t: Table)
    requires RootOk(n) && Holds(n, t)
    ensures ConflictFree(t)
  {
    SamePatterns(n, t);
    if n == EMPTY_NODE {
      EmptyTable(t);
    } else {
      forall p | p in t ensures IsPattern(p) {
        assert p in FoundIn(n);
        FoundIsPattern(n, Mid, p);
      }
      forall p, q | p in t && q in t && p != q ensures !Conflict(p, q) {
        assert p in FoundIn(n) && q in FoundIn(n);
        HeldIsFree(n, Mid, p, q);
      }
    }
  }

  /** Two patterns without conflict never match the same request. */
  lemma {:induction false} MatchIsUnique(p: string, q: string, r: string, ctx: Context)
    requires PatternFrom(p, ctx) && PatternFrom(q, ctx) && !Conflict(p, q) && Match(p, r).Some? && Match(q, r).Some?
    ensures p == q
    decreases |p|
  {
    if p != "" && q != "" {
      if IsWild(p[0]) || IsWild(q[0]) {
        var e, f := SegEnd(p), SegEnd(q);
        assert p == p[..e] + p[e..] && q == q[..f] + q[f..];
        assert q[..f][0] == p[..e][0];
        if p[0] == ':' { MatchIsUnique(p[e..], q[f..], r[SegEnd(r)..], AfterName); }
      } else {
        MatchIsUnique(p[1..], q[1..], r[1..], ctx.Step(p[0]));
        assert p == [p[0]] + p[1..] && q == [q[0]] + q[1..];
      }
    }
  }

  /** In every reachable table, a request has at most one matching pattern. */
  lemma AtMostOneMatch(ops: seq<Op>, r: string, p: string, q: string)
    requires LegalRun(map[], ops)
    requires p in TableRun(map[], ops) && q in TableRun(map[], ops) && Match(p, r).Some? && Match(q, r).Some?
    ensures p == q
  {
    EmptyHolds();
    RunRefinesTable(EMPTY_NODE, map[], ops);
    CanonicalIsConflictFree(TreeRun(EMPTY_NODE, ops), TableRun(map[], ops));
    if p != q { MatchIsUnique(p, q, r, Mid); }
  }
}
