/** One routing tree as its callers see it: a table of patterns that changes while it serves. */
module Router {
  import opened Options
  import opened RoutePatterns
  import opened RouteTree
  import opened RouteShape
  import opened RouteAdvice
  import opened RouteStray
  import opened RouteLoose
  import opened RouteRuns
  import opened RouteNodes

  class Router {
    var root: TreeNode
    ghost var table: Table

    ghost predicate Valid()
      reads this, root, root.repr
    {
      root.Valid() && this !in root.repr && RootLoose(root.value) && Holds(root.value, table)
    }

    /** The tree is the canonical one of its patterns: nothing else has been registered. */
    ghost predicate Canonical()
      reads this, root, root.repr
    {
      RootOk(root.value)
    }

    constructor ()
      ensures Valid() && Canonical() && fresh(root.repr) && table == map[]
    {
      root := new TreeNode();
      table := map[];
      EmptyHolds();
    }

    /**
     Registers `handle` for `path`.  On a canonical tree, the table says what is accepted, as which
     literal, and whether the tree stays canonical; on any tree, a new literal with which the path
     begins is registered, or nothing changes.
     */
    method Register(path: string, handle: Handle) returns (ok: bool)
      requires Valid()
      modifies this`table, root.repr
      ensures Valid() && root == old(root) && fresh(root.repr - old(root.repr))
      ensures old(Canonical()) ==> (ok <==> Accepted(old(table), path))
      ensures old(Canonical()) && ok ==> table == old(table)[Literal(old(table), path) := handle]
      ensures old(Canonical()) ==> (Canonical() <==> !ok || StaysCanonical(old(table), path))
      ensures ok ==> IsRooted(path) && exists l :: l !in old(table) && l <= path && table == old(table)[l := handle]
      ensures !ok ==> table == old(table) && root.value == old(root.value)
    {
      if path == "" || path[0] != '/' { return false; }
      ghost var n, t := root.value, table;
      StepHolds(n, t, Op.Register(path, handle));
      if RootOk(n) {
        AddRefinesTable(n, t, path, handle);
        RootAnswers(n, t, path, handle);
      }
      ok := root.Add(path, handle);
      if ok { table := table[Registered(n, path) := handle]; }
    }

    /** Removes exactly this literal. */
    method Unregister(path: string) returns (ok: bool)
      requires Valid()
      modifies this`table, root.repr
      ensures Valid() && root == old(root) && root.repr == old(root.repr)
      ensures ok <==> path in old(table)
      ensures table == old(table) - {path} && (old(Canonical()) ==> Canonical())
    {
      StepHolds(root.value, table, Op.Unregister(path));
      if RootOk(root.value) { RemoveRefinesTable(root.value, table, path); }
      ok := root.Remove(path);
      table := table - {path};
    }

    /** The answer to a request; of a canonical tree on a clean one, that of the only pattern that matches. */
    method Find(path: string, advise: bool) returns (answer: Answer)
      requires Valid()
      ensures answer == RouteTree.Get(root.value, path, advise)
      ensures !advise || answer.handle.Some? ==> answer.redirect == NotRedirect
      ensures answer.handle.Some? ==> exists p :: p in table && answer.handle == Some(table[p])
      ensures Canonical() && IsCleanRequest(path) ==> forall p :: p in table && Match(p, path).Some? ==>
                answer == Answer(Some(table[p]), Match(p, path).value, NotRedirect) &&
                forall q :: q in table && Match(q, path).Some? ==> q == p
      ensures Canonical() && IsCleanRequest(path) && !Answered(table, path) ==> answer.handle == None
      ensures Canonical() && IsCleanRequest(path) && !Answered(table, path) && advise && path[|path|-1] == '/' ==>
                (answer.redirect == RemoveSlash <==> Answered(table, path[..|path|-1]))
      ensures Canonical() && IsCleanRequest(path) && !Answered(table, path) && advise && path[|path|-1] != '/' ==>
                (answer.redirect == AddSlash <==> Answered(table, path + "/") || Stray(Patterns(table), Mid, path))
    {
      if root.path != "" {
        answer := root.Get(path, advise);
      } else {
        answer := Answer(None, [], NotRedirect);
      }
      EmptyAnswer(root.value, path, advise);
      AnswersHeld(root.value, table, path, advise);
      if RootOk(root.value) && IsCleanRequest(path) {
        CanonicalIsConflictFree(root.value, table);
        AnswerCorrect(root.value, table, path, advise);
      }
    }

    static lemma EmptyAnswer(n: Node, r: string, advise: bool)
      ensures n == EMPTY_NODE ==> Get(n, r, advise) == Answer(None, [], NotRedirect)
    {
    }
  }

  lemma AnswerCorrect(n: Node, t: Table, r: string, advise: bool)
    requires RootOk(n) && Holds(n, t) && ConflictFree(t) && IsCleanRequest(r)
    ensures forall p :: p in t && Match(p, r).Some? ==>
              Get(n, r, advise) == Answer(Some(t[p]), Match(p, r).value, NotRedirect) &&
              forall q :: q in t && Match(q, r).Some? ==> q == p
    ensures !Answered(t, r) ==> Get(n, r, advise).handle == None
    ensures !Answered(t, r) && advise && r[|r|-1] == '/' ==>
      (Get(n, r, true).redirect == RemoveSlash <==> Answered(t, r[..|r|-1]))
    ensures !Answered(t, r) && advise && r[|r|-1] != '/' ==>
              (Get(n, r, true).redirect == AddSlash <==> Answered(t, r + "/") || Stray(Patterns(t), Mid, r))
  {
    GetRefinesTable(n, t, r, advise);
    forall p, q | p in t && Match(p, r).Some? && q in t && Match(q, r).Some? ensures p == q {
      if p != q { MatchIsUnique(p, q, r, Mid); }
    }
    if !Answered(t, r) && advise {
      if r[|r|-1] == '/' { CutSlash(n, t, r); } else { PutSlash(n, t, r); }
    }
  }

  lemma PutSlash(n: Node, t: Table, r: string)
    requires RootOk(n) && Holds(n, t) && IsCleanRequest(r) && r[|r|-1] != '/' && !Answered(t, r)
    ensures Get(n, r, true).redirect == AddSlash <==> Answered(t, r + "/") || Stray(Patterns(t), Mid, r)
  {
    assert IsCleanRequest(r + "/");
    AddSlashIff(n, t, r);
  }

  lemma CutSlash(n: Node, t: Table, r: string)
    requires RootOk(n) && Holds(n, t) && ConflictFree(t) && IsCleanRequest(r) && r[|r|-1] == '/' && !Answered(t, r)
    ensures Get(n, r, true).redirect == RemoveSlash <==> Answered(t, r[..|r|-1])
  {
    var q := r[..|r|-1];
    assert r == q + "/";
    if q != "" {
      AdviceRefinesTable(n, t, q);
    } else {
      RootSlash(n, t);
    }
  }

  /** "/" without its slash is no request, and the walk has no parent to look back at. */
  lemma RootSlash(n: Node, t: Table)
    requires RootOk(n) && Holds(n, t) && ConflictFree(t) && !Answered(t, "/")
    ensures Get(n, "/", true).redirect != RemoveSlash && !Answered(t, "")
  {
    GetRefinesTable(n, t, "/", true);
    if n != EMPTY_NODE { AdviceAtSlash(None, n, Mid, []); }
  }
}
