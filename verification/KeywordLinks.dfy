/** The failure links of the keyword automaton, and the breadth-first traversal that makes them. */
module KeywordLinks {
  import opened Bytes
  import opened Keywords
  import opened KeywordTrie

  // ----- failure links

  /** The link of every state but the root is a state whose name is a proper suffix of its own. */
  ghost predicate LinksOk(names: seq<seq<Byte>>, fm: seq<int>, dm: seq<int>) {
    && |fm| == |names| && |dm| == |names| && |names| > 0 && fm[0] == 0
    && (forall s :: 0 <= s < |names| ==> dm[s] == |names[s]|)
    && forall s :: 0 <= s < |names| ==> LinkOk(names, s, fm[s])
  }

  ghost predicate LinkOk(names: seq<seq<Byte>>, s: nat, t: int)
    requires s < |names|
  {
    0 <= t < |names| && (names[s] != [] ==> |names[t]| < |names[s]|) && IsSuffix(names[t], names[s])
  }

  /** No state between `t` and `s` is a suffix of `s`. */
  ghost predicate Longest(names: seq<seq<Byte>>, s: nat, t: nat)
    requires s < |names| && t < |names|
  {
    forall u :: 0 <= u < |names| && |names[u]| < |names[s]| && IsSuffix(names[u], names[s]) ==> |names[u]| <= |names[t]|
  }

  ghost predicate LongestLinks(names: seq<seq<Byte>>, fm: seq<int>) {
    |fm| == |names| && forall s :: 0 < s < |names| ==> 0 <= fm[s] < |names| && Longest(names, s, fm[s])
  }

  /** State `r` has children for `c` and for the later `d`. */
  predicate IsFork(tm: seq<seq<int>>, r: nat, c: nat, d: nat) {
    0 < r < |tm| && c < d < |tm[r]| && tm[r][c] != -1 && tm[r][d] != -1
  }

  /** State `u` is a proper suffix of `r`, and not the root, and has a child for `c`. */
  ghost predicate Lands(names: seq<seq<Byte>>, tm: seq<seq<int>>, r: nat, c: nat, u: nat)
    requires r < |names|
  {
    && 0 < u < |names| && u < |tm| && c < |tm[u]|
    && IsSuffix(names[u], names[r]) && |names[u]| < |names[r]| && tm[u][c] != -1
  }

  /** A state that serves `c` is longer than any that serves `d`. */
  ghost predicate Nearer(names: seq<seq<Byte>>, tm: seq<seq<int>>, r: nat, c: nat, d: nat)
    requires r < |names|
  {
    forall u: nat :: Lands(names, tm, r, d, u) ==>
      exists z: nat :: Lands(names, tm, r, c, z) && |names[z]| > |names[u]|
  }

  ghost predicate Declines(names: seq<seq<Byte>>, tm: seq<seq<int>>) {
    |tm| == |names| &&
    forall r: nat, c: nat, d: nat {:trigger IsFork(tm, r, c, d)} :: IsFork(tm, r, c, d) ==> Nearer(names, tm, r, c, d)
  }

  // ----- one failure link

  /** States between `r` and `r0` on the chain of suffixes have no transition `c`. */
  ghost predicate NoneBetween(tm: seq<seq<int>>, names: seq<seq<Byte>>, r0: nat, r: nat, c: nat)
    requires r0 < |names| && r < |names| == |tm| && forall s :: 0 <= s < |tm| ==> c < |tm[s]|
  {
    forall u :: 0 <= u < |names| && IsSuffix(names[u], names[r0]) && |names[r]| < |names[u]| < |names[r0]| ==>
      tm[u][c] == -1
  }

  /** No state but the root serves `c` from `r` on down to and including `x`, unless `x` is where the search starts. */
  ghost predicate Passed(tm: seq<seq<int>>, names: seq<seq<Byte>>, r: nat, x: nat, c: nat)
    requires r < |names| && x < |names| == |tm| && forall s :: 0 <= s < |tm| ==> c < |tm[s]|
  {
    x == r || forall u ::
      0 < u < |names| && IsSuffix(names[u], names[r]) && |names[x]| <= |names[u]| < |names[r]| ==> tm[u][c] == -1
  }

  lemma SameSuffix(names: seq<seq<Byte>>, u: nat, v: nat, w: seq<Byte>)
    requires NamesOk(names) && u < |names| && v < |names| && IsSuffix(names[u], w) && IsSuffix(names[v], w)
    ensures |names[u]| == |names[v]| ==> u == v
  {
  }

  /** Following the longest link of a state that has been passed passes no state that serves `c`. */
  lemma NextLink(tm: seq<seq<int>>, bytes: seq<Byte>, names: seq<seq<Byte>>, r: nat, x: nat, f: nat, c: nat)
    requires NamesOk(names) && RowsOk(tm, bytes) && |tm| == |names| && c < |bytes|
    requires r < |names| && x < |names| && f < |names|
    requires IsSuffix(names[x], names[r]) && Longest(names, x, f) && Passed(tm, names, r, x, c)
    ensures NoneBetween(tm, names, r, f, c)
  {
    forall u | 0 <= u < |names| && IsSuffix(names[u], names[r]) && |names[f]| < |names[u]| < |names[r]|
      ensures tm[u][c] == -1
    {
      assert u > 0;
      if |names[u]| < |names[x]| { SuffixOfSuffix(names[u], names[x], names[r]); }
    }
  }

  /** A state that does not serve `c` itself has been passed. */
  lemma PassedToo(tm: seq<seq<int>>, bytes: seq<Byte>, names: seq<seq<Byte>>, r: nat, x: nat, c: nat)
    requires NamesOk(names) && RowsOk(tm, bytes) && |tm| == |names| && c < |bytes| && r < |names| && x < |names|
    requires IsSuffix(names[x], names[r]) && NoneBetween(tm, names, r, x, c) && tm[x][c] == -1
    ensures Passed(tm, names, r, x, c)
  {
    forall u | 0 < u < |names| && IsSuffix(names[u], names[r]) && |names[x]| <= |names[u]| < |names[r]|
      ensures tm[u][c] == -1
    {
      if |names[u]| == |names[x]| { SameSuffix(names, u, x, names[r]); }
    }
  }

  /** Where the landings decline, the landing for `c` has been passed for every later child. */
  lemma PassedLater(tm: seq<seq<int>>, bytes: seq<Byte>, names: seq<seq<Byte>>, r: nat, x: nat, c: nat, d: nat)
    requires NamesOk(names) && RowsOk(tm, bytes) && Declines(names, tm) && c < d < |bytes|
    requires 0 < r < |names| && x < |names| && tm[r][c] != -1 && tm[r][d] != -1 && NoneBetween(tm, names, r, x, c)
    ensures Passed(tm, names, r, x, d)
  {
    assert IsFork(tm, r, c, d);
    forall u: nat | u < |names| && |names[x]| <= |names[u]| ensures !Lands(names, tm, r, d, u) {
    }
  }

  lemma LinkMade(tm: seq<seq<int>>, bytes: seq<Byte>, names: seq<seq<Byte>>, r0: nat, r: nat, s: nat, c: nat)
    requires NamesOk(names) && RowsOk(tm, bytes) && EdgesOk(tm, bytes, names, true) && c < |bytes|
    requires 0 < r0 < |names| && r < |names| && s < |names| && names[s] == names[r0] + [bytes[c]]
    requires IsSuffix(names[r], names[r0]) && |names[r]| < |names[r0]| && tm[r][c] != -1
    ensures LinkOk(names, s, tm[r][c])
  {
    assert EdgeOk(tm[r][c], r, names, names[r] + [bytes[c]], true);
    SuffixAppend(names[r], names[r0], bytes[c]);
  }

  lemma LinkLongest(tm: seq<seq<int>>, bytes: seq<Byte>, names: seq<seq<Byte>>, r0: nat, r: nat, s: nat, c: nat)
    requires NamesOk(names) && RowsOk(tm, bytes) && EdgesOk(tm, bytes, names, true) && c < |bytes|
    requires 0 < r0 < |names| && r < |names| && s < |names| && names[s] == names[r0] + [bytes[c]]
    requires IsSuffix(names[r], names[r0]) && |names[r]| < |names[r0]| && tm[r][c] != -1
    requires NoneBetween(tm, names, r0, r, c)
    ensures 0 <= tm[r][c] < |names| && Longest(names, s, tm[r][c])
  {
    var t, b := tm[r][c], bytes[c];
    assert EdgeOk(t, r, names, names[r] + [b], true);
    forall u | 0 <= u < |names| && |names[u]| < |names[s]| && IsSuffix(names[u], names[s])
      ensures |names[u]| <= |names[t]|
    {
      if u != 0 {
        var p := ParentOf(names, u, names[r0], b);
        assert EdgeOk(tm[p][c], p, names, names[p] + [b], true);
      }
    }
  }

  /** The parent of a state that is a suffix of `w + [b]` is a suffix of `w`. */
  lemma ParentOf(names: seq<seq<Byte>>, u: nat, w: seq<Byte>, b: Byte) returns (p: nat)
    requires NamesOk(names) && 0 < u < |names| && IsSuffix(names[u], w + [b])
    ensures p < |names| && names[u] == names[p] + [b] && IsSuffix(names[p], w)
  {
    assert HasParent(names, u);
    var v := names[u][..|names[u]|-1];
    p :| 0 <= p < |names| && names[p] == v;
    assert names[u] == (w + [b])[|w| + 1 - |names[u]|..];
    assert names[u] == v + [b];
    SuffixAppend(v, w, b);
  }

  // ----- breadth first

  predicate Visited(q: seq<nat>, done: set<nat>, s: nat) { s in q || s in done }

  /** `p` is the parent of `s`. */
  predicate Parent(names: seq<seq<Byte>>, p: nat, s: nat) {
    p < |names| && s < |names| && names[s] != [] && names[p] == names[s][..|names[s]|-1]
  }

  /** The queue and the finished states of a breadth-first traversal. */
  ghost predicate Breadth(names: seq<seq<Byte>>, q: seq<nat>, done: set<nat>) {
    && Ordered(names, q, done)
    && (forall s {:trigger Visited(q, done, s)} :: 0 < s < |names| ==>
      (Visited(q, done, s) <==> |names[s]| == 1 || exists p :: p in done && Parent(names, p, s)))
    && (forall s {:trigger Visited(q, done, s)} :: 0 < s < |names| && (q == [] || |names[s]| <= |names[q[0]]|) ==>
      Visited(q, done, s))
  }

  /** The queue is sorted by depth, spans at most two depths, and is behind what is finished. */
  ghost predicate Ordered(names: seq<seq<Byte>>, q: seq<nat>, done: set<nat>) {
    && (forall i :: 0 <= i < |q| ==> 0 < q[i] < |names| && q[i] !in done)
    && (forall i, j :: 0 <= i < j < |q| ==> q[i] != q[j] && |names[q[i]]| <= |names[q[j]]| <= |names[q[0]]| + 1)
    && (forall s :: s in done ==> 0 < s < |names|)
    && (forall s, i :: s in done && 0 <= i < |q| ==> |names[s]| <= |names[q[i]]|)
  }

  /** `kids` are the children of `r`. */
  ghost predicate Kids(names: seq<seq<Byte>>, r: nat, kids: seq<nat>) {
    && (forall s :: s in kids <==> 0 < s < |names| && Parent(names, r, s))
    && forall i, j :: 0 <= i < j < |kids| ==> kids[i] != kids[j]
  }

  lemma UniqueParent(names: seq<seq<Byte>>, p: nat, r: nat, s: nat)
    requires NamesOk(names) && Parent(names, p, s) && Parent(names, r, s)
    ensures p == r
  {
  }

  /** The state at the front is finished, and its children join the queue. */
  lemma BreadthStep(names: seq<seq<Byte>>, q: seq<nat>, done: set<nat>, kids: seq<nat>)
    requires NamesOk(names) && q != [] && Breadth(names, q, done) && Kids(names, q[0], kids)
    ensures Breadth(names, q[1..] + kids, done + {q[0]})
  {
    var r, q', done' := q[0], q[1..] + kids, done + {q[0]};
    OrderedStep(names, q, done, kids);
    forall s | 0 < s < |names|
      ensures Visited(q', done', s) <==> |names[s]| == 1 || exists p :: p in done' && Parent(names, p, s)
    {
      VisitedStep(names, q, done, kids, s);
    }
    forall s | 0 < s < |names| && (q' == [] || |names[s]| <= |names[q'[0]]|) ensures Visited(q', done', s) {
      NearIsVisited(names, q, done, kids, s);
    }
  }

  lemma OrderedStep(names: seq<seq<Byte>>, q: seq<nat>, done: set<nat>, kids: seq<nat>)
    requires NamesOk(names) && q != [] && Breadth(names, q, done) && Kids(names, q[0], kids)
    ensures Ordered(names, q[1..] + kids, done + {q[0]})
  {
    var q' := q[1..] + kids;
    forall i | 0 <= i < |q'|
      ensures 0 < q'[i] < |names| && q'[i] !in done + {q[0]} && |names[q[0]]| <= |names[q'[i]]| <= |names[q[0]]| + 1
    {
      QueuedDepth(names, q, done, kids, i);
    }
    forall i, j | 0 <= i < j < |q'| ensures q'[i] != q'[j] && |names[q'[i]]| <= |names[q'[j]]| {
      QueuedOrder(names, q, done, kids, i, j);
    }
    FinishedDepth(names, q, done);
    assert 0 <= 0 < |q'| ==> |names[q[0]]| <= |names[q'[0]]|;
  }

  lemma FinishedDepth(names: seq<seq<Byte>>, q: seq<nat>, done: set<nat>)
    requires q != [] && Ordered(names, q, done)
    ensures forall s :: s in done + {q[0]} ==> 0 < s < |names| && |names[s]| <= |names[q[0]]|
  {
  }

  lemma QueuedDepth(names: seq<seq<Byte>>, q: seq<nat>, done: set<nat>, kids: seq<nat>, i: nat)
    requires NamesOk(names) && q != [] && Breadth(names, q, done) && Kids(names, q[0], kids) && i < |q[1..] + kids|
    ensures var s := (q[1..] + kids)[i];
      0 < s < |names| && s !in done + {q[0]} && |names[q[0]]| <= |names[s]| <= |names[q[0]]| + 1
  {
    if i < |q| - 1 {
      assert (q[1..] + kids)[i] == q[i+1] && q[0] != q[i+1];
    } else {
      KidsAreNew(names, q, done, kids);
      assert q[0] in q;
    }
  }

  lemma QueuedOrder(names: seq<seq<Byte>>, q: seq<nat>, done: set<nat>, kids: seq<nat>, i: nat, j: nat)
    requires NamesOk(names) && q != [] && Breadth(names, q, done) && Kids(names, q[0], kids) && i < j < |q[1..] + kids|
    ensures var q' := q[1..] + kids;
      q'[i] < |names| && q'[j] < |names| && q'[i] != q'[j] && |names[q'[i]]| <= |names[q'[j]]|
  {
    var q' := q[1..] + kids;
    KidsAreNew(names, q, done, kids);
    if j < |q| - 1 {
      assert q'[i] == q[i+1] && q'[j] == q[j+1];
    } else if i < |q| - 1 {
      assert q'[i] == q[i+1] && q[i+1] in q;
    }
  }

  lemma KidsAreNew(names: seq<seq<Byte>>, q: seq<nat>, done: set<nat>, kids: seq<nat>)
    requires NamesOk(names) && q != [] && Breadth(names, q, done) && Kids(names, q[0], kids)
    ensures forall i :: 0 <= i < |kids| ==>
      0 < kids[i] < |names| && |names[kids[i]]| == |names[q[0]]| + 1 && !Visited(q, done, kids[i])
  {
    forall i | 0 <= i < |kids|
      ensures 0 < kids[i] < |names| && |names[kids[i]]| == |names[q[0]]| + 1 && !Visited(q, done, kids[i])
    {
      var s := kids[i];
      assert s in kids;
      assert Parent(names, q[0], s);
      forall p | p in done && Parent(names, p, s) ensures false {
        UniqueParent(names, p, q[0], s);
      }
    }
  }

  lemma VisitedStep(names: seq<seq<Byte>>, q: seq<nat>, done: set<nat>, kids: seq<nat>, s: nat)
    requires NamesOk(names) && q != [] && Breadth(names, q, done) && Kids(names, q[0], kids) && 0 < s < |names|
    ensures Visited(q[1..] + kids, done + {q[0]}, s) <==>
      |names[s]| == 1 || exists p :: p in done + {q[0]} && Parent(names, p, s)
  {
    assert Visited(q, done, s) <==> s in q || s in done;
    assert s in q <==> s == q[0] || s in q[1..];
    assert s in q[1..] + kids <==> s in q[1..] || s in kids;
    assert s in kids <==> Parent(names, q[0], s);
  }

  lemma {:induction false} NearIsVisited(names: seq<seq<Byte>>, q: seq<nat>, done: set<nat>, kids: seq<nat>, s: nat)
    requires NamesOk(names) && q != [] && Breadth(names, q, done) && Kids(names, q[0], kids) && 0 < s < |names|
    requires var q' := q[1..] + kids; q' == [] || (q'[0] < |names| && |names[s]| <= |names[q'[0]]|)
    ensures Visited(q[1..] + kids, done + {q[0]}, s)
    decreases |names[s]|
  {
    var q', d := q[1..] + kids, |names[q[0]]|;
    KidsAreNew(names, q, done, kids);
    VisitedStep(names, q, done, kids, s);
    assert s in q <==> s == q[0] || s in q[1..];
    assert HasParent(names, s);
    if |names[s]| > d {
      var p :| 0 <= p < |names| && names[p] == names[s][..|names[s]|-1];
      assert Parent(names, p, s);
      if |names[s]| == d + 1 {
        assert Visited(q, done, p);
        assert |q| > 1 ==> q'[0] == q[1];
      } else {
        assert q' == [];
        NearIsVisited(names, q, done, kids, p);
      }
    } else {
      assert Visited(q, done, s);
    }
  }

  // ----- the children of a state, column by column

  /** `kids` are the children of `r` for the first `c` bytes. */
  ghost predicate KidsUpTo(names: seq<seq<Byte>>, bytes: seq<Byte>, r: nat, kids: seq<nat>, c: nat)
    requires r < |names| && c <= |bytes|
  {
    && (forall s :: s in kids <==> 0 < s < |names| && ChildBelow(names, bytes, r, s, c))
    && forall i, j :: 0 <= i < j < |kids| ==> kids[i] != kids[j]
  }

  ghost predicate ChildBelow(names: seq<seq<Byte>>, bytes: seq<Byte>, r: nat, s: nat, c: nat)
    requires r < |names| && s < |names| && c <= |bytes|
  {
    exists d :: 0 <= d < c && names[s] == names[r] + [bytes[d]]
  }

  lemma KidsMore(tm: seq<seq<int>>, bytes: seq<Byte>, names: seq<seq<Byte>>, r: nat, kids: seq<nat>, c: nat)
    requires NamesOk(names) && RowsOk(tm, bytes) && EdgesOk(tm, bytes, names, true) && Distinct(bytes)
    requires r < |names| && c < |bytes| && KidsUpTo(names, bytes, r, kids, c)
    ensures tm[r][c] == Missing(r, true) ==> KidsUpTo(names, bytes, r, kids, c + 1)
    ensures tm[r][c] != Missing(r, true) ==>
      0 < tm[r][c] < |names| && names[tm[r][c]] == names[r] + [bytes[c]] && tm[r][c] !in kids &&
        KidsUpTo(names, bytes, r, kids + [tm[r][c]], c + 1)
  {
    var t, w := tm[r][c], names[r] + [bytes[c]];
    assert EdgeOk(t, r, names, w, true);
    forall s | 0 < s < |names|
      ensures ChildBelow(names, bytes, r, s, c + 1) <==> ChildBelow(names, bytes, r, s, c) || names[s] == w
    {
      ChildStep(names, bytes, r, s, c);
    }
    if t != Missing(r, true) {
      NotYetChild(names, bytes, r, t, c);
      KidsAppend(names, bytes, r, kids, t, c);
    }
  }

  lemma ChildStep(names: seq<seq<Byte>>, bytes: seq<Byte>, r: nat, s: nat, c: nat)
    requires r < |names| && s < |names| && c < |bytes|
    ensures ChildBelow(names, bytes, r, s, c + 1) <==>
      ChildBelow(names, bytes, r, s, c) || names[s] == names[r] + [bytes[c]]
  {
  }

  lemma NotYetChild(names: seq<seq<Byte>>, bytes: seq<Byte>, r: nat, t: nat, c: nat)
    requires NamesOk(names) && Distinct(bytes) && r < |names| && t < |names| && c < |bytes|
    requires names[t] == names[r] + [bytes[c]]
    ensures !ChildBelow(names, bytes, r, t, c)
  {
    forall d | 0 <= d < c ensures names[t] != names[r] + [bytes[d]] {
      OtherName(names, r, r, bytes[c], bytes[d]);
    }
  }

  lemma KidsAppend(names: seq<seq<Byte>>, bytes: seq<Byte>, r: nat, kids: seq<nat>, t: nat, c: nat)
    requires NamesOk(names) && r < |names| && 0 < t < |names| && c < |bytes| && names[t] == names[r] + [bytes[c]]
    requires KidsUpTo(names, bytes, r, kids, c) && !ChildBelow(names, bytes, r, t, c)
    ensures KidsUpTo(names, bytes, r, kids + [t], c + 1)
  {
    forall s ensures s in kids + [t] <==> 0 < s < |names| && ChildBelow(names, bytes, r, s, c + 1) {
      if 0 < s < |names| { ChildStep(names, bytes, r, s, c); }
    }
    assert t !in kids;
  }

  lemma KidsComplete(bytes: seq<Byte>, names: seq<seq<Byte>>, r: nat, kids: seq<nat>)
    requires NamesOk(names) && (forall s :: 0 < s < |names| ==> HasLetter(names, bytes, s))
    requires r < |names| && KidsUpTo(names, bytes, r, kids, |bytes|)
    ensures Kids(names, r, kids)
  {
    forall s | 0 < s < |names| ensures ChildBelow(names, bytes, r, s, |bytes|) <==> Parent(names, r, s) {
      assert HasLetter(names, bytes, s);
      var k := |names[s]| - 1;
      assert names[s] == names[s][..k] + [names[s][k]];
      if Parent(names, r, s) {
        var d :| 0 <= d < |bytes| && bytes[d] == names[s][k];
      }
      if ChildBelow(names, bytes, r, s, |bytes|) {
        var d :| 0 <= d < |bytes| && names[s] == names[r] + [bytes[d]];
        assert names[s][..k] == names[r];
      }
    }
  }

  lemma {:induction false} RootReaches(names: seq<seq<Byte>>, s: nat)
    requires NamesOk(names) && 0 < s < |names|
    ensures exists t :: 0 < t < |names| && |names[t]| == 1
    decreases |names[s]|
  {
    assert HasParent(names, s);
    if |names[s]| > 1 {
      var p :| 0 <= p < |names| && names[p] == names[s][..|names[s]|-1];
      RootReaches(names, p);
    }
  }

  lemma BreadthStart(names: seq<seq<Byte>>, q: seq<nat>)
    requires NamesOk(names) && Kids(names, 0, q)
    ensures Breadth(names, q, {})
  {
    forall s | 0 < s < |names| ensures s in q <==> |names[s]| == 1 {
      assert HasParent(names, s);
      if |names[s]| == 1 { assert Parent(names, 0, s); }
    }
    forall i | 0 <= i < |q| ensures 0 < q[i] < |names| && |names[q[i]]| == 1 {
      assert q[i] in q;
    }
    if |names| > 1 { RootReaches(names, 1); }
    forall s | 0 < s < |names| ensures |names[s]| >= 1 {
      assert HasParent(names, s);
    }
  }

  function StateSet(n: nat): (ss: set<nat>)
    ensures forall s: nat :: s in ss <==> s < n
  {
    if n == 0 then {} else StateSet(n - 1) + {n - 1}
  }

  /** Links and depths of the visited states; all other links still lead to the root. */
  ghost predicate Linked(names: seq<seq<Byte>>, tm: seq<seq<int>>, fm: seq<int>, dm: seq<int>, q: seq<nat>,
                         done: set<nat>) {
    && |fm| == |dm| == |names| && |names| > 0 && fm[0] == 0 && dm[0] == 0
    && (forall s {:trigger LinkOk(names, s, fm[s])} :: 0 <= s < |names| ==> LinkOk(names, s, fm[s]))
    && forall s {:trigger Visited(q, done, s)} :: 0 < s < |names| && Visited(q, done, s) ==>
      LinkedState(names, tm, fm, dm, s)
  }

  ghost predicate LinkedState(names: seq<seq<Byte>>, tm: seq<seq<int>>, fm: seq<int>, dm: seq<int>, s: nat)
    requires |fm| == |dm| == |names| && s < |names|
  {
    dm[s] == |names[s]| && 0 <= fm[s] < |names| && (Declines(names, tm) ==> Longest(names, s, fm[s]))
  }

  lemma LinkSet(names: seq<seq<Byte>>, tm: seq<seq<int>>, fm: seq<int>, dm: seq<int>, q: seq<nat>, done: set<nat>,
                s: nat, t: int)
    requires Linked(names, tm, fm, dm, q, done) && 0 < s < |names|
    requires LinkOk(names, s, t) && (Declines(names, tm) ==> Longest(names, s, t))
    ensures Linked(names, tm, fm[s := t], dm[s := |names[s]|], q + [s], done)
  {
    var fm', dm' := fm[s := t], dm[s := |names[s]|];
    forall u | 0 < u < |names| && Visited(q + [s], done, u) ensures LinkedState(names, tm, fm', dm', u) {
      if u != s { assert Visited(q, done, u) && LinkedState(names, tm, fm, dm, u); }
    }
  }

  lemma LinkedLess(names: seq<seq<Byte>>, tm: seq<seq<int>>, fm: seq<int>, dm: seq<int>, q: seq<nat>, done: set<nat>,
                   r: seq<nat>, fin: set<nat>)
    requires Linked(names, tm, fm, dm, q, done) && forall s :: Visited(r, fin, s) ==> Visited(q, done, s)
    ensures Linked(names, tm, fm, dm, r, fin)
  {
  }

  lemma AllLinked(names: seq<seq<Byte>>, tm: seq<seq<int>>, fm: seq<int>, dm: seq<int>, done: set<nat>)
    requires NamesOk(names) && Breadth(names, [], done) && Linked(names, tm, fm, dm, [], done)
    ensures LinksOk(names, fm, dm) && (Declines(names, tm) ==> LongestLinks(names, fm))
  {
    forall s | 0 < s < |names|
      ensures dm[s] == |names[s]| && 0 <= fm[s] < |names| && (Declines(names, tm) ==> Longest(names, s, fm[s]))
    {
      assert Visited([], done, s);
      assert LinkedState(names, tm, fm, dm, s);
    }
    assert forall s :: 0 <= s < |names| ==> LinkOk(names, s, fm[s]);
  }

  lemma FirstLinks(names: seq<seq<Byte>>, tm: seq<seq<int>>, fm: seq<int>, dm: seq<int>, q: seq<nat>)
    requires NamesOk(names) && Kids(names, 0, q) && |fm| == |dm| == |names| && dm[0] == 0
    requires (forall s :: 0 <= s < |names| ==> fm[s] == 0) && forall s :: s in q ==> dm[s] == 1
    ensures Linked(names, tm, fm, dm, q, {})
  {
    forall s | 0 < s < |names| && s in q ensures LinkedState(names, tm, fm, dm, s) {
      assert Parent(names, 0, s) && |names[0]| == 0;
    }
    forall s | 0 <= s < |names| ensures LinkOk(names, s, 0) {
      assert names[s][|names[s]|..] == [];
    }
  }

  /** Queueing the children of the front before or after it is taken off visits the same states. */
  lemma LinkedStep(names: seq<seq<Byte>>, tm: seq<seq<int>>, fm: seq<int>, dm: seq<int>, q: seq<nat>, done: set<nat>,
                   kids: seq<nat>)
    requires q != [] && Linked(names, tm, fm, dm, q + kids, done)
    ensures Linked(names, tm, fm, dm, q[1..] + kids, done + {q[0]})
  {
    assert q + kids == [q[0]] + (q[1..] + kids);
    LinkedLess(names, tm, fm, dm, q + kids, done, q[1..] + kids, done + {q[0]});
  }

  lemma LinkedFront(names: seq<seq<Byte>>, tm: seq<seq<int>>, fm: seq<int>, dm: seq<int>, q: seq<nat>, done: set<nat>,
                    kids: seq<nat>)
    requires Linked(names, tm, fm, dm, q + kids, done)
    ensures Linked(names, tm, fm, dm, q, done)
  {
    LinkedLess(names, tm, fm, dm, q + kids, done, q, done);
  }

  /** Links and depths are right for all states up to depth `d`. */
  ghost predicate LinkedUpTo(names: seq<seq<Byte>>, tm: seq<seq<int>>, fm: seq<int>, dm: seq<int>, d: nat) {
    && |fm| == |dm| == |names| && |names| > 0 && fm[0] == 0
    && (forall s {:trigger LinkOk(names, s, fm[s])} :: 0 <= s < |names| ==> LinkOk(names, s, fm[s]))
    && forall s {:trigger LinkedState(names, tm, fm, dm, s)} :: 0 < s < |names| && |names[s]| <= d ==>
      LinkedState(names, tm, fm, dm, s)
  }

  lemma LinkedNear(names: seq<seq<Byte>>, tm: seq<seq<int>>, fm: seq<int>, dm: seq<int>, q: seq<nat>, done: set<nat>)
    requires q != [] && Breadth(names, q, done) && Linked(names, tm, fm, dm, q, done)
    ensures q[0] < |names| && LinkedUpTo(names, tm, fm, dm, |names[q[0]]|)
  {
    forall s | 0 < s < |names| && |names[s]| <= |names[q[0]]| ensures LinkedState(names, tm, fm, dm, s) {
      assert Visited(q, done, s);
    }
  }

  // ----- the links of siblings

  /** How long the link of a state is. */
  function LinkLength(names: seq<seq<Byte>>, fm: seq<int>, s: int): nat {
    if 0 <= s < |fm| && 0 <= fm[s] < |names| then |names[fm[s]]| else 0
  }

  /** The link of `t` is at most a byte, or shorter than that of `s`. */
  predicate LinksLower(names: seq<seq<Byte>>, fm: seq<int>, s: int, t: int) {
    LinkLength(names, fm, t) <= 1 || LinkLength(names, fm, t) < LinkLength(names, fm, s)
  }

  /** The links of the children of `r` for the first `c` bytes: by at most a byte longer than its own, and falling. */
  ghost predicate Falls(names: seq<seq<Byte>>, tm: seq<seq<int>>, fm: seq<int>, r: nat, c: nat)
    requires r < |tm| && c <= |tm[r]|
  {
    && (forall d :: 0 <= d < c && tm[r][d] != -1 ==> LinkLength(names, fm, tm[r][d]) <= LinkLength(names, fm, r) + 1)
    && forall a, d :: 0 <= a < d < c && tm[r][a] != -1 && tm[r][d] != -1 ==> LinksLower(names, fm, tm[r][a], tm[r][d])
  }

  ghost predicate FallingLinks(names: seq<seq<Byte>>, tm: seq<seq<int>>, fm: seq<int>) {
    forall r {:trigger Falls(names, tm, fm, r, |tm[r]|)} :: 0 < r < |tm| ==> Falls(names, tm, fm, r, |tm[r]|)
  }

  ghost predicate AllFall(names: seq<seq<Byte>>, tm: seq<seq<int>>, fm: seq<int>, done: set<nat>) {
    forall p :: p in done ==> 0 < p < |tm| && Falls(names, tm, fm, p, |tm[p]|)
  }

  /** State `x` is shorter than the links of the children of `r` so far, or the root. */
  ghost predicate Undercuts(names: seq<seq<Byte>>, tm: seq<seq<int>>, fm: seq<int>, r: nat, c: nat, x: nat)
    requires r < |tm| && c <= |tm[r]| && x < |names|
  {
    x == 0 || forall d :: 0 <= d < c && tm[r][d] != -1 ==> |names[x]| < LinkLength(names, fm, tm[r][d])
  }

  /** No two columns lead to the same state. */
  lemma OneParent(tm: seq<seq<int>>, bytes: seq<Byte>, names: seq<seq<Byte>>, p: nat, d: nat, r: nat, c: nat)
    requires NamesOk(names) && RowsOk(tm, bytes) && EdgesOk(tm, bytes, names, true) && Distinct(bytes)
    requires 0 < p < |names| && d < |bytes| && 0 < r < |names| && c < |bytes| && tm[r][c] != -1
    ensures tm[p][d] == tm[r][c] ==> p == r && d == c
  {
    assert EdgeOk(tm[p][d], p, names, names[p] + [bytes[d]], true);
    assert EdgeOk(tm[r][c], r, names, names[r] + [bytes[c]], true);
    OtherName(names, p, r, bytes[d], bytes[c]);
  }

  /** One more child, with the link that the search from `x` has ended with. */
  lemma FallsMore(names: seq<seq<Byte>>, tm: seq<seq<int>>, fm: seq<int>, r: nat, c: nat, x: nat, x': nat, s: nat,
                  t: int)
    requires r < |tm| && c < |tm[r]| && tm[r][c] == s && x < |names| && x' < |names| && s < |fm| && s != r
    requires Falls(names, tm, fm, r, c) && Undercuts(names, tm, fm, r, c, x)
    requires forall d :: 0 <= d < c ==> tm[r][d] != s
    requires x' == 0 || ((forall d :: 0 <= d < c ==> tm[r][d] == -1) || |names[x']| < |names[x]|)
    requires x == 0 ==> x' == 0
    requires 0 <= t < |names| && |names[x']| <= LinkLength(names, fm, r)
    requires if x' == 0 then |names[t]| <= 1 else |names[t]| == |names[x']| + 1
    ensures Falls(names, tm, fm[s := t], r, c + 1) && Undercuts(names, tm, fm[s := t], r, c + 1, x')
  {
    var fm' := fm[s := t];
    forall d | 0 <= d < c && tm[r][d] != -1
      ensures LinkLength(names, fm', tm[r][d]) == LinkLength(names, fm, tm[r][d])
    {
    }
  }

  lemma AllFallStays(tm: seq<seq<int>>, bytes: seq<Byte>, names: seq<seq<Byte>>, fm: seq<int>, done: set<nat>, r: nat,
                     c: nat, s: nat, t: int)
    requires NamesOk(names) && RowsOk(tm, bytes) && EdgesOk(tm, bytes, names, true) && Distinct(bytes)
    requires 0 < r < |names| && c < |bytes| && s == tm[r][c] && s < |fm| && r !in done && s !in done
    requires AllFall(names, tm, fm, done)
    ensures AllFall(names, tm, fm[s := t], done)
  {
    forall p | p in done ensures Falls(names, tm, fm[s := t], p, |tm[p]|) {
      forall d | 0 <= d < |tm[p]| && tm[p][d] != -1
        ensures LinkLength(names, fm[s := t], tm[p][d]) == LinkLength(names, fm, tm[p][d])
      {
        OneParent(tm, bytes, names, p, d, r, c);
      }
    }
  }

  /** Links that are longest, although those of siblings fall, can be so only where the landings decline. */
  lemma LongestDeclines(tm: seq<seq<int>>, bytes: seq<Byte>, names: seq<seq<Byte>>, fm: seq<int>, dm: seq<int>)
    requires NamesOk(names) && RowsOk(tm, bytes) && EdgesOk(tm, bytes, names, true)
    requires LinksOk(names, fm, dm) && LongestLinks(names, fm) && FallingLinks(names, tm, fm)
    ensures Declines(names, tm)
  {
    forall r: nat, c: nat, d: nat | IsFork(tm, r, c, d) ensures Nearer(names, tm, r, c, d) {
      forall u: nat | Lands(names, tm, r, d, u)
        ensures exists z: nat :: Lands(names, tm, r, c, z) && |names[z]| > |names[u]|
      {
        var z := LongerLanding(tm, bytes, names, fm, dm, r, c, d, u);
      }
    }
  }

  /** After the traversal. */
  lemma Finished(tm: seq<seq<int>>, bytes: seq<Byte>, names: seq<seq<Byte>>, fm: seq<int>, dm: seq<int>, done: set<nat>)
    requires NamesOk(names) && RowsOk(tm, bytes) && EdgesOk(tm, bytes, names, true)
    requires Breadth(names, [], done) && Linked(names, tm, fm, dm, [], done) && AllFall(names, tm, fm, done)
    ensures LinksOk(names, fm, dm) && FallingLinks(names, tm, fm)
    ensures LongestLinks(names, fm) <==> Declines(names, tm)
  {
    AllLinked(names, tm, fm, dm, done);
    forall r | 0 < r < |tm| ensures Falls(names, tm, fm, r, |tm[r]|) { assert Visited([], done, r); }
    if LongestLinks(names, fm) { LongestDeclines(tm, bytes, names, fm, dm); }
  }

  lemma LongerLanding(tm: seq<seq<int>>, bytes: seq<Byte>, names: seq<seq<Byte>>, fm: seq<int>, dm: seq<int>, r: nat,
                      c: nat, d: nat, u: nat)
    returns (z: nat)
    requires NamesOk(names) && RowsOk(tm, bytes) && EdgesOk(tm, bytes, names, true)
    requires LinksOk(names, fm, dm) && LongestLinks(names, fm) && FallingLinks(names, tm, fm)
    requires IsFork(tm, r, c, d) && Lands(names, tm, r, d, u)
    ensures Lands(names, tm, r, c, z) && |names[z]| > |names[u]|
  {
    var s, t, v := tm[r][c], tm[r][d], tm[u][d];
    assert EdgeOk(s, r, names, names[r] + [bytes[c]], true) && EdgeOk(t, r, names, names[r] + [bytes[d]], true);
    assert EdgeOk(v, u, names, names[u] + [bytes[d]], true) && HasParent(names, u);
    SuffixAppend(names[u], names[r], bytes[d]);
    assert |names[v]| <= LinkLength(names, fm, t);
    assert Falls(names, tm, fm, r, |tm[r]|) && LinksLower(names, fm, s, t);
    assert LinkOk(names, s, fm[s]) && |names[fm[s]]| > 1;
    z := ParentOf(names, fm[s], names[r], bytes[c]);
    assert EdgeOk(tm[z][c], z, names, names[z] + [bytes[c]], true);
  }
}
