/** The keyword filter: construction of the automaton, and the streaming rewrite. */
module KeywordFilter {
  import opened Bytes
  import opened Keywords
  import opened KeywordTrie
  import opened KeywordLinks
  import opened KeywordStream
  import opened KeywordOutcome

  class KeywordFilter {
    var mask: seq<Byte>
    var cm: seq<int>          // number of a byte, or -1
    var cl: nat               // how many bytes are numbered
    var tm: seq<seq<int>>     // transitions
    var am: seq<bool>         // accepting states
    var fm: seq<int>          // failure links
    var dm: seq<int>          // depths
    ghost var bytes: seq<Byte>
    ghost var names: seq<seq<Byte>>
    ghost var kws: set<seq<Byte>>

    constructor (mask: seq<Byte>)
      ensures Building() && tm == [] && bytes == [] && this.mask == mask
    {
      this.mask := mask;
      cm, cl := seq(256, _ => -1), 0;
      tm, am, fm, dm := [], [], [], [];
      bytes, names, kws := [], [], {};
    }

    /** What holds between two calls of `Enter`. */
    ghost predicate Building()
      reads this
    {
      && CodesOk(cm, bytes) && cl == |bytes|
      && if tm == [] then am == [] && names == [] && kws == {} else TrieOk(cm, tm, am, bytes, names, kws, false)
    }

    // ----- numbering the bytes

    method Number(kw: seq<Byte>)
      requires CodesOk(cm, bytes) && cl == |bytes|
      modifies this`cm, this`cl, this`bytes
      ensures CodesOk(cm, bytes) && cl == |bytes| && bytes == Numbered(old(bytes), kw)
      ensures Coded(cm, kw)
      ensures forall b: Byte :: old(cm)[b] != -1 ==> cm[b] == old(cm)[b]
    {
      var k := 0;
      assert kw[0..] == kw;
      while k < |kw|
        invariant k <= |kw| && CodesOk(cm, bytes) && cl == |bytes|
        invariant Numbered(bytes, kw[k..]) == Numbered(old(bytes), kw)
        invariant forall j :: 0 <= j < k ==> cm[kw[j]] != -1
        invariant forall b: Byte :: old(cm)[b] != -1 ==> cm[b] == old(cm)[b]
      {
        NumberedOn(bytes, kw, k);
        CodeIff(cm, bytes, kw[k]);
        if cm[kw[k]] == -1 {
          bytes := bytes + [kw[k]];
          cm := cm[kw[k] := cl];
          cl := cl + 1;
        }
        k := k + 1;
      }
    }

    // ----- entering a keyword

    /** The trie while a keyword is being entered. */
    ghost predicate Growing()
      reads this
    {
      && CodesOk(cm, bytes) && cl == |bytes| && Distinct(bytes) && [] !in kws
      && NamesOk(names) && RowsOk(tm, bytes) && EdgesOk(tm, bytes, names, false) && Accepts(am, names, kws)
    }

    method Enter(kw: seq<Byte>) returns (ok: bool)
      requires Building() && Coded(cm, kw)
      modifies this`tm, this`am, this`names, this`kws
      ensures ok <==> kw == [] || !IsPrefixOfSome(kw, old(kws))
      ensures ok ==> Building() && kws == old(kws) + (if kw == [] then {} else {kw})
      ensures ok ==> (tm == [] <==> kw == [] && old(tm) == [])
    {
      if kw == [] { return true; }
      var s, i := FindEnd(kw);
      if i == |kw| {
        assert kw[..i] == kw;
        return false;
      }
      StatesOfPrefix(names, kws, kw[..i]);
      PrefixShorter(kw[..i+1], kw, kws);
      AddStates(kw, i, s);
      SetAm(kw);
      ok := true;
    }

    /** Follows the longest prefix of the keyword that is a state; creates the root if there is none. */
    method FindEnd(kw: seq<Byte>) returns (s: nat, i: nat)
      requires Building() && Coded(cm, kw)
      modifies this`tm, this`names
      ensures Growing() && StatesAre(names, kws, []) && i <= |kw| && s < |tm| && names[s] == kw[..i]
      ensures i < |kw| ==> kw[..i+1] !in names
    {
      CreateRoot();
      s, i := 0, 0;
      while i < |kw| && tm[s][cm[kw[i]]] != -1
        invariant i <= |kw| && s < |tm| == |names| && names[s] == kw[..i]
        modifies {}
      {
        EdgeOf(s, kw[i]);
        assert kw[..i+1] == kw[..i] + [kw[i]];
        s, i := tm[s][cm[kw[i]]], i + 1;
      }
      if i < |kw| {
        EdgeOf(s, kw[i]);
        assert kw[..i+1] == kw[..i] + [kw[i]];
      }
    }

    lemma EdgeOf(s: nat, b: Byte)
      requires Growing() && s < |tm| && cm[b] != -1
      ensures 0 <= cm[b] < |tm[s]| && EdgeOk(tm[s][cm[b]], s, names, names[s] + [b], false)
    {
      assert bytes[cm[b]] == b;
    }

    method CreateRoot()
      requires Building()
      modifies this`tm, this`names
      ensures Growing() && StatesAre(names, kws, []) && |tm| > 0
    {
      CodesDistinct(cm, bytes);
      if |tm| == 0 {
        RootOk(bytes);
        tm, names := [NewRow(cl)], [[]];
      } else {
        StatesOfNone(am, names, kws);
      }
    }

    /** New states for the bytes of the keyword from `i` on. */
    method AddStates(kw: seq<Byte>, from: nat, below: nat)
      requires Growing() && from < |kw| && StatesAre(names, kws, kw[..from]) && below < |tm|
      requires names[below] == kw[..from]
      requires kw[..from+1] !in names && Coded(cm, kw)
      modifies this`tm, this`names
      ensures Growing() && StatesAre(names, kws, kw) && names[|names|-1] == kw && |am| < |names|
    {
      var s: nat, i: nat := below, from;
      while i < |kw|
        invariant from <= i <= |kw| && Growing() && StatesAre(names, kws, kw[..i]) && s < |tm| == |names|
        invariant names[s] == kw[..i]
        invariant i < |kw| ==> kw[..i+1] !in names
        invariant i > from ==> s == |tm| - 1 && |am| < |tm|
      {
        AddState(kw, i, s);
        s, i := |tm| - 1, i + 1;
      }
      assert kw[..i] == kw;
    }

    method AddState(kw: seq<Byte>, i: nat, s: nat)
      requires Growing() && i < |kw| && StatesAre(names, kws, kw[..i]) && s < |tm| && names[s] == kw[..i]
      requires kw[..i+1] !in names
      requires cm[kw[i]] != -1
      modifies this`tm, this`names
      ensures Growing() && StatesAre(names, kws, kw[..i+1]) && |tm| == old(|tm|) + 1
      ensures names == old(names) + [kw[..i+1]]
      ensures i + 1 < |kw| ==> kw[..i+2] !in names
    {
      StateAdded(tm, am, bytes, names, kws, kw, i, s, cm[kw[i]]);
      tm := WithState(tm, cl, s, cm[kw[i]]);
      names := names + [kw[..i+1]];
    }

    /** The keyword ends in the newest state, which accepts it. */
    method SetAm(kw: seq<Byte>)
      requires Growing() && StatesAre(names, kws, kw) && names[|names|-1] == kw && kw != [] && |am| < |names|
      modifies this`am, this`kws
      ensures Building() && kws == old(kws) + {kw} && tm != []
    {
      StatesAccept(am, names, kws, kw);
      am := (am + seq(|tm| - |am|, _ => false))[|tm| - 1 := true];
      kws := kws + {kw};
    }

    // ----- failure links

    /** The trie is complete, and the missing transitions of its root lead back to it. */
    ghost predicate Rooted()
      reads this
    {
      TrieOk(cm, tm, am, bytes, names, kws, true) && cl == |bytes|
    }

    method CloseRoot()
      requires Building() && tm != []
      modifies this`tm
      ensures Rooted()
    {
      var c := 0;
      while c < cl
        invariant c <= cl && |tm| == |old(tm)| && |tm[0]| == cl && tm == old(tm)[0 := tm[0]]
        invariant forall d :: 0 <= d < cl ==> tm[0][d] == if d < c && old(tm)[0][d] == -1 then 0 else old(tm)[0][d]
      {
        if tm[0][c] == -1 { tm := tm[0 := tm[0][c := 0]]; }
        c := c + 1;
      }
      RootClosed(old(tm), bytes, names, tm[0]);
    }

    /** Breadth-first: depths, and links along the links of the parent. */
    method ConstructFm()
      requires Rooted()
      modifies this`fm, this`dm
      ensures LinksOk(names, fm, dm) && FallingLinks(names, tm, fm)
      ensures LongestLinks(names, fm) <==> Declines(names, tm)
    {
      var q := StartQueue();
      ghost var done: set<nat> := {};
      while q != []
        invariant Breadth(names, q, done) && Linked(names, tm, fm, dm, q, done) && AllFall(names, tm, fm, done)
        decreases StateSet(|names|) - done
      {
        assert q[0] in q && q[0] in StateSet(|names|) - done;
        q, done := Visit(q, done);
      }
      Finished(tm, bytes, names, fm, dm, done);
    }

    /** The state at the front of the queue is taken off, and its children are queued. */
    method Visit(q: seq<nat>, ghost done: set<nat>) returns (q': seq<nat>, ghost done': set<nat>)
      requires Rooted() && q != [] && Breadth(names, q, done) && Linked(names, tm, fm, dm, q, done)
      requires AllFall(names, tm, fm, done)
      modifies this`fm, this`dm
      ensures Breadth(names, q', done') && Linked(names, tm, fm, dm, q', done') && AllFall(names, tm, fm, done')
      ensures done' == done + {q[0]}
    {
      var r := q[0];
      var kids := LinkKids(r, q, done);
      BreadthStep(names, q, done, kids);
      LinkedStep(names, tm, fm, dm, q, done, kids);
      q', done' := q[1..] + kids, done + {r};
    }

    /** All links to the root; the children of the root are queued. */
    method StartQueue() returns (q: seq<nat>)
      requires Rooted()
      modifies this`fm, this`dm
      ensures Breadth(names, q, {}) && Linked(names, tm, fm, dm, q, {})
    {
      fm, dm := seq(|tm|, _ => 0), seq(|tm|, _ => 0);
      q := [];
      CodesDistinct(cm, bytes);
      var c := 0;
      while c < cl
        invariant c <= cl && |fm| == |dm| == |names| && dm[0] == 0
        invariant forall s :: 0 <= s < |names| ==> fm[s] == 0
        invariant KidsUpTo(names, bytes, 0, q, c)
        invariant forall s :: s in q ==> dm[s] == 1
      {
        KidsMore(tm, bytes, names, 0, q, c);
        var s := tm[0][c];
        if s != 0 {
          q := q + [s];
          fm, dm := fm[s := 0], dm[s := 1];
        }
        c := c + 1;
      }
      KidsComplete(bytes, names, 0, q);
      BreadthStart(names, q);
      FirstLinks(names, tm, fm, dm, q);
    }

    /** Queues the children of `r`, with their depths and links. */
    method LinkKids(r: nat, q: seq<nat>, ghost done: set<nat>) returns (kids: seq<nat>)
      requires Rooted() && q != [] && q[0] == r && Breadth(names, q, done) && Linked(names, tm, fm, dm, q, done)
      requires AllFall(names, tm, fm, done)
      modifies this`fm, this`dm
      ensures Kids(names, r, kids) && Linked(names, tm, fm, dm, q + kids, done)
      ensures AllFall(names, tm, fm, done + {r})
    {
      CodesDistinct(cm, bytes);
      assert r in q && Visited(q, done, r);
      kids := [];
      assert q + kids == q;
      SearchStarts(r);
      var d, x: nat, c: nat := dm[r], r, 0;
      while c < cl
        invariant c <= cl && KidsUpTo(names, bytes, r, kids, c) && Linked(names, tm, fm, dm, q + kids, done)
        invariant x < |names| && Searched(r, x, c)
        invariant AllFall(names, tm, fm, done)
      {
        x, kids := LinkColumn(r, x, c, d, q, kids, done);
        c := c + 1;
      }
      KidsComplete(bytes, names, r, kids);
      SearchEnds(r, x, done);
    }

    /** The search for links from `r` has come to `x` after the first `c` bytes. */
    ghost predicate Searched(r: nat, x: nat, c: nat)
      requires 0 < r < |names| == |tm| && c <= |tm[r]| == |bytes| && x < |names| && RowsOk(tm, bytes)
      reads this
    {
      && IsSuffix(names[x], names[r]) && |names[x]| <= (if x == r then |names[r]| else LinkLength(names, fm, r))
      && Falls(names, tm, fm, r, c)
      && (if x == r then forall d :: 0 <= d < c ==> tm[r][d] == -1 else Undercuts(names, tm, fm, r, c, x))
      && (Declines(names, tm) ==>
        forall d {:trigger tm[r][d]} :: c <= d < |bytes| && tm[r][d] != -1 ==> Passed(tm, names, r, x, d))
    }

    /** The child for byte `c`, if there is one. */
    method LinkColumn(r: nat, from: nat, c: nat, d: nat, ghost q: seq<nat>, kids: seq<nat>, ghost done: set<nat>)
      returns (x: nat, kids': seq<nat>)
      requires Rooted() && q != [] && q[0] == r && Breadth(names, q, done) && Linked(names, tm, fm, dm, q + kids, done)
      requires r in q && c < cl && from < |names| && Searched(r, from, c) && AllFall(names, tm, fm, done)
      requires d == |names[r]| && KidsUpTo(names, bytes, r, kids, c)
      modifies this`fm, this`dm
      ensures x < |names| && Linked(names, tm, fm, dm, q + kids', done) && KidsUpTo(names, bytes, r, kids', c + 1)
      ensures Searched(r, x, c + 1) && AllFall(names, tm, fm, done)
    {
      CodesDistinct(cm, bytes);
      KidsMore(tm, bytes, names, r, kids, c);
      x, kids' := from, kids;
      var s := tm[r][c];
      if s != -1 {
        x := LinkKid(r, from, s, c, q, kids, done, d + 1);
        kids' := kids + [s];
      } else {
        SearchSkips(r, x, c);
      }
    }

    lemma SearchStarts(r: nat)
      requires 0 < r < |names| == |tm| && RowsOk(tm, bytes)
      ensures |tm[r]| == |bytes| && Searched(r, r, 0)
    {
      assert |tm[r]| == |bytes|;
    }

    lemma SearchSkips(r: nat, x: nat, c: nat)
      requires 0 < r < |names| == |tm| && RowsOk(tm, bytes) && c < |tm[r]| == |bytes| && x < |names|
      requires Searched(r, x, c) && tm[r][c] == -1
      ensures Searched(r, x, c + 1)
    {
    }

    lemma SearchEnds(r: nat, x: nat, done: set<nat>)
      requires 0 < r < |names| == |tm| && RowsOk(tm, bytes) && |tm[r]| == |bytes| && x < |names|
      requires Searched(r, x, |bytes|) && AllFall(names, tm, fm, done)
      ensures AllFall(names, tm, fm, done + {r})
    {
    }

    /** The link and depth of the child `s` of `r`; the next child starts from where this one ended. */
    method LinkKid(r: nat, from: nat, s: nat, c: nat, ghost q: seq<nat>, ghost kids: seq<nat>, ghost done: set<nat>,
                   depth: int)
      returns (x: nat)
      requires Rooted() && q != [] && q[0] == r && Breadth(names, q, done) && Linked(names, tm, fm, dm, q + kids, done)
      requires r in q && c < cl && from < |names| && Searched(r, from, c) && AllFall(names, tm, fm, done)
      requires 0 < s < |names| && names[s] == names[r] + [bytes[c]] && depth == |names[s]| && s == tm[r][c]
      modifies this`fm, this`dm
      ensures x < |names| && Linked(names, tm, fm, dm, q + (kids + [s]), done)
      ensures Searched(r, x, c + 1) && AllFall(names, tm, fm, done)
    {
      LinkedFront(names, tm, fm, dm, q, done, kids);
      LinkedNear(names, tm, fm, dm, q, done);
      x := FollowLinks(r, from, c);
      var t := tm[x][c];
      LinkMade(tm, bytes, names, r, x, s, c);
      if Declines(names, tm) { LinkLongest(tm, bytes, names, r, x, s, c); }
      LinkSet(names, tm, fm, dm, q + kids, done, s, t);
      assert q + (kids + [s]) == q + kids + [s];
      SearchedOn(r, from, x, s, c, q, done);
      fm, dm := fm[s := t], dm[s := depth];
    }

    /** Along the links of `from` to a state with a transition for `c`. */
    method FollowLinks(r: nat, from: nat, c: nat) returns (x: nat)
      requires NamesOk(names) && RowsOk(tm, bytes) && EdgesOk(tm, bytes, names, true) && cl == |bytes|
      requires 0 < r < |names| && LinkedUpTo(names, tm, fm, dm, |names[r]|)
      requires c < cl && from < |names| && IsSuffix(names[from], names[r])
      requires Declines(names, tm) ==> Passed(tm, names, r, from, c)
      ensures x < |names| && IsSuffix(names[x], names[r]) && |names[x]| < |names[r]| && tm[x][c] != -1
      ensures from > 0 ==> |names[x]| < |names[from]| && |names[x]| <= LinkLength(names, fm, from)
      ensures from == 0 ==> x == 0
      ensures Declines(names, tm) ==> NoneBetween(tm, names, r, x, c)
    {
      x := Follow(r, from);
      if Declines(names, tm) { NextLink(tm, bytes, names, r, from, x, c); }
      assert EdgeOk(tm[0][c], 0, names, names[0] + [bytes[c]], true);
      while tm[x][c] == -1
        invariant x < |names| && IsSuffix(names[x], names[r]) && |names[x]| < |names[r]|
        invariant from > 0 ==> |names[x]| < |names[from]| && |names[x]| <= LinkLength(names, fm, from)
        invariant from == 0 ==> x == 0
        invariant Declines(names, tm) ==> NoneBetween(tm, names, r, x, c)
        decreases |names[x]|
      {
        ghost var y := x;
        assert x > 0;
        x := Follow(r, x);
        if Declines(names, tm) {
          PassedToo(tm, bytes, names, r, y, c);
          NextLink(tm, bytes, names, r, y, x, c);
        }
      }
    }

    /** The link of `y`, a suffix of `r`. */
    method Follow(r: nat, y: nat) returns (x: nat)
      requires NamesOk(names) && 0 < r < |names| && LinkedUpTo(names, tm, fm, dm, |names[r]|)
      requires y < |names| && IsSuffix(names[y], names[r])
      ensures x < |names| && IsSuffix(names[x], names[r]) && |names[x]| < |names[r]|
      ensures |names[x]| == LinkLength(names, fm, y) && (y == 0 ==> x == 0) && (y > 0 ==> |names[x]| < |names[y]|)
      ensures Declines(names, tm) ==> Longest(names, y, x)
    {
      assert LinkOk(names, y, fm[y]) && HasParent(names, r);
      x := fm[y];
      SuffixTrans(names[x], names[y], names[r]);
      if y > 0 { assert HasParent(names, y) && LinkedState(names, tm, fm, dm, y); }
    }

    /** What the search keeps when the child `s` gets its link, from where the search has come to. */
    lemma SearchedOn(r: nat, from: nat, x: nat, s: nat, c: nat, q: seq<nat>, done: set<nat>)
      requires Rooted() && q != [] && q[0] == r && Breadth(names, q, done) && AllFall(names, tm, fm, done)
      requires c < cl && from < |names| && |fm| == |names| && 0 < r < |names| && Searched(r, from, c)
      requires 0 < s < |names| && names[s] == names[r] + [bytes[c]] && s == tm[r][c]
      requires x < |names| && IsSuffix(names[x], names[r]) && |names[x]| < |names[r]| && tm[x][c] != -1
      requires from > 0 ==> |names[x]| < |names[from]| && |names[x]| <= LinkLength(names, fm, from)
      requires from == 0 ==> x == 0
      requires Declines(names, tm) ==> NoneBetween(tm, names, r, x, c)
      ensures AllFall(names, tm, fm[s := tm[x][c]], done) && Falls(names, tm, fm[s := tm[x][c]], r, c + 1)
      ensures Undercuts(names, tm, fm[s := tm[x][c]], r, c + 1, x)
      ensures |names[x]| <= LinkLength(names, fm[s := tm[x][c]], r)
      ensures Declines(names, tm) ==>
        forall d {:trigger tm[r][d]} :: c < d < |bytes| && tm[r][d] != -1 ==> Passed(tm, names, r, x, d)
    {
      var t := tm[x][c];
      CodesDistinct(cm, bytes);
      assert EdgeOk(t, x, names, names[x] + [bytes[c]], true);
      assert r != s && r !in done && s !in done;
      AllFallStays(tm, bytes, names, fm, done, r, c, s, t);
      forall d | 0 <= d < c ensures tm[r][d] != s { OneParent(tm, bytes, names, r, d, r, c); }
      FallsMore(names, tm, fm, r, c, from, x, s, t);
      if Declines(names, tm) {
        forall d | c < d < |bytes| && tm[r][d] != -1 ensures Passed(tm, names, r, x, d) {
          PassedLater(tm, bytes, names, r, x, c, d);
        }
      }
    }

    // ----- a finished filter

    ghost function Tables(): Tables
      reads this
    {
      KeywordStream.Tables(cm, tm, am, fm, dm, bytes, names, kws)
    }

    ghost predicate Running()
      reads this
    {
      Ready(Tables())
    }

    ghost predicate Valid()
      reads this
    {
      Running() && (LongestLinks(names, fm) <==> Declining(kws, bytes))
    }

    /** The filter for the keywords; null where the construction of the trie runs off a keyword or finds no root. */
    static method New(mask: seq<Byte>, keywords: seq<seq<Byte>>) returns (f: KeywordFilter?)
      ensures f != null <==> Enterable(keywords)
      ensures f != null ==> fresh(f) && f.Valid() && f.mask == mask
      ensures f != null ==> f.kws == KeywordSet(keywords) && f.bytes == Numbering(keywords)
    {
      f := new KeywordFilter(mask);
      var ok := f.Build(keywords);
      if !ok { return null; }
    }

    method Build(keywords: seq<seq<Byte>>) returns (ok: bool)
      requires Building() && tm == [] && bytes == []
      modifies this`cm, this`cl, this`bytes, this`tm, this`am, this`names, this`kws, this`fm, this`dm
      ensures ok <==> Enterable(keywords)
      ensures ok ==> Valid() && kws == KeywordSet(keywords) && bytes == Numbering(keywords)
    {
      NumberAll(keywords);
      ok := EnterAll(keywords);
      if !ok || |tm| == 0 { return false; }
      Complete();
    }

    /** Closes the root and makes the links. */
    method Complete()
      requires Building() && tm != []
      modifies this`tm, this`fm, this`dm
      ensures Valid()
    {
      CloseRoot();
      ConstructFm();
      DeclinesIff(Tables());
    }

    method NumberAll(keywords: seq<seq<Byte>>)
      requires Building() && tm == []
      modifies this`cm, this`cl, this`bytes
      ensures Building() && forall j :: 0 <= j < |keywords| ==> Coded(cm, keywords[j])
      ensures bytes == NumberedAll(old(bytes), keywords)
    {
      var k := 0;
      assert keywords[0..] == keywords;
      while k < |keywords|
        invariant k <= |keywords| && Building()
        invariant forall j :: 0 <= j < k ==> Coded(cm, keywords[j])
        invariant NumberedAll(bytes, keywords[k..]) == NumberedAll(old(bytes), keywords)
      {
        NumberedAllOn(bytes, keywords, k);
        Number(keywords[k]);
        k := k + 1;
      }
    }

    method EnterAll(keywords: seq<seq<Byte>>) returns (ok: bool)
      requires Building() && tm == [] && forall j :: 0 <= j < |keywords| ==> Coded(cm, keywords[j])
      modifies this`tm, this`am, this`names, this`kws
      ensures ok <==> NoLaterPrefix(keywords)
      ensures ok ==> Building() && kws == KeywordSet(keywords)
      ensures ok ==> (tm == [] <==> forall j :: 0 <= j < |keywords| ==> keywords[j] == [])
    {
      var k := 0;
      while k < |keywords|
        invariant k <= |keywords| && Building() && kws == KeywordSet(keywords[..k]) && NoLaterPrefix(keywords[..k])
        invariant tm == [] <==> forall j :: 0 <= j < k ==> keywords[j] == []
      {
        OneMoreKeyword(keywords, k);
        ok := Enter(keywords[k]);
        if !ok { return; }
        k := k + 1;
      }
      assert keywords[..k] == keywords;
      ok := true;
    }

    /**
     Writes what is held back in front of position `i`, a mask for its first `mi` bytes and the
     others as they are; nothing if the bytes to be masked reach beyond it.
     */
    method LetGo(i: nat, out: seq<Byte>, n: nat, flag: bool, buf: seq<Byte>, mi: nat)
      returns (out': seq<Byte>, n': nat, flag': bool, buf': seq<Byte>, mi': nat)
      requires n == |out| && mi <= |buf| && i <= |buf|
      ensures n' == |out'|
      ensures Run(buf', mi', out', flag') ==
        if i >= mi then Flushed(mask, Run(buf, mi, out, flag), i) else Run(buf, mi, out, flag)
    {
      out', n', flag', buf', mi' := out, n, flag, buf, mi;
      if i >= mi {
        if mi > 0 && !flag {
          out', n', flag' := out' + mask, n' + |mask|, true;
        }
        if i > mi {
          out', n', flag' := out' + buf[mi..i], n' + (i - mi), false;
        }
        mi', buf' := 0, buf[i..];
      }
    }

    /**
     The held-back bytes in front of the state that the loop fell back to are written, and the byte is
     tried again.
     */
    method FallTo(input: seq<Byte>, pos: nat, s: nat, c: Byte, buf: seq<Byte>, mi: nat, out: seq<Byte>, n: nat,
                  flag: bool,
                  ghost base: nat, ghost cov: seq<bool>)
      returns (out': seq<Byte>, n': nat, flag': bool, buf': seq<Byte>, mi': nat, ghost cov': seq<bool>)
      requires Running() && pos <= |input| && n == |out| && base < |names|
      requires AtTop(Tables(), mask, input, pos, s, -1, c, base, Run(buf, mi, out, flag), cov)
      ensures n' == |out'| && s < |names| == |tm| && pos > 0 && |names[s]| < |names[base]| && -1 <= cm[c] < |tm[s]|
      ensures AtTop(Tables(), mask, input, pos, Transfer(Tables(), s, c), s, c, s, Run(buf', mi', out', flag'), cov')
    {
      ghost var t, r := Tables(), Run(buf, mi, out, flag);
      Fallen(t, mask, input, pos, s, c, base, r, cov);
      out', n', flag', buf', mi' := LetGo(|buf| - dm[s], out, n, flag, buf, mi);
      cov' := CovBack(t, r, cov, s);
      TopFallen(t, mask, input, pos, s, c, base, r, cov, Run(buf', mi', out', flag'));
    }

    /**
     The switch of the loop, but for a missing transition: the byte is written or held back, or
     the held-back bytes in front of the state are written and the byte is to be tried again.
     */
    method Switch(input: seq<Byte>, pos: nat, s: int, olds: int, c: Byte, buf: seq<Byte>, mi: nat, out: seq<Byte>,
                  n: nat, flag: bool,
                  ghost base: nat, ghost cov: seq<bool>)
      returns (s': nat, buf': seq<Byte>, mi': nat, out': seq<Byte>, n': nat, flag': bool, again: bool,
               ghost cov': seq<bool>)
      requires Running() && pos <= |input| && n == |out| && (s >= 0 || s == -2) && base < |names|
      requires AtTop(Tables(), mask, input, pos, s, olds, c, base, Run(buf, mi, out, flag), cov)
      ensures n' == |out'| && s' < |names| == |tm|
      ensures !again ==> Standing(Tables(), mask, input[..pos], s', Run(buf', mi', out', flag'), cov')
      ensures again ==> pos > 0 && |names[s']| < |names[base]| && olds == -1 && -1 <= cm[c] < |tm[s']|
      ensures again ==> AtTop(Tables(), mask, input, pos, Transfer(Tables(), s', c), s', c, s',
        Run(buf', mi', out', flag'), cov')
    {
      ghost var t, r := Tables(), Run(buf, mi, out, flag);
      buf', mi', out', n', flag', again, cov' := buf, mi, out, n, flag, false, cov;
      if s == 0 && olds == 0 {
        TopRaw(t, mask, input, pos, c, base, r, cov);
        out', n', flag', cov' := out + [c], n + 1, false, cov + [false];
        s' := s;
      } else if s > 0 && olds >= 0 {
        TopKept(t, mask, input, pos, s, olds, c, base, r, cov);
        buf' := buf + [c];
        if am[s] { mi' := |buf'|; }
        s' := s;
      } else if s >= 0 && olds == -1 {
        out', n', flag', buf', mi', cov' := FallTo(input, pos, s, c, buf, mi, out, n, flag, base, cov);
        s', again := s, true;
      } else {
        TopStart(t, mask, input, pos, olds, c, base, r, cov);
        s' := 0;
      }
    }

    /** Copies the bytes of `input` to `out`, and one mask for every stretch of keywords. */
    method Filter(input: seq<Byte>) returns (out: seq<Byte>, n: nat, ghost cov: seq<bool>, ghost mi: nat)
      requires Valid()
      ensures |cov| + mi <= |input| && n == |out|
      ensures out == Render(mask, input[..|cov|], cov)
      ensures forall k :: 0 <= k < |cov| && cov[k] ==> Covered(kws, input, k)
      ensures forall k :: |cov| <= k < |cov| + mi ==> Covered(kws, input, k)
      ensures exists w :: HoldsBack(kws, input, cov, mi, w)
      ensures SuffixClosed(kws) && Declining(kws, bytes) ==> Masks(kws, input, cov, mi)
      ensures HidesKeyword(kws, input) || (NoInner(kws) && Drops(kws, bytes, input)) ==> Misses(kws, input, cov, mi)
    {
      ghost var u, r;
      out, n, u, r, cov := Loop(input);
      mi := r.mi;
      Outcome(Tables(), mask, input, u, r, cov);
    }

    method Loop(input: seq<Byte>) returns (out: seq<Byte>, n: nat, ghost u: nat, ghost r: Run, ghost cov: seq<bool>)
      requires Running()
      ensures n == |out| && r.out == out && Standing(Tables(), mask, input, u, r, cov)
    {
      ghost var t := Tables();
      var s, olds, pos := -2, 0, 0;
      var c: Byte := 0;
      var buf: seq<Byte>, flag := [], false;
      var mi: nat := 0;
      out, n, u, cov := [], 0, 0, [];
      while true
        invariant pos <= |input| && n == |out| && u < |names|
        invariant s >= -2 && AtTop(t, mask, input, pos, s, olds, c, u, Run(buf, mi, out, flag), cov)
        decreases |input| - pos, Weight(t, s, olds, u)
      {
        if s == -1 {
          TopMissing(t, mask, input, pos, olds, c, u, Run(buf, mi, out, flag), cov);
          s, olds := fm[olds], -1;
          continue;
        }
        var again;
        s, buf, mi, out, n, flag, again, cov := Switch(input, pos, s, olds, c, buf, mi, out, n, flag, u, cov);
        if !again {
          if pos == |input| { break; }
          TopAfterRead(t, mask, input, pos, s, Run(buf, mi, out, flag), cov);
          c, pos := input[pos], pos + 1;
        }
        u := s;
        s, olds := if cm[c] == -1 then (if s == 0 then 0 else -1) else tm[s][cm[c]], s;
      }
      assert input[..pos] == input;
      u, r := s, Run(buf, mi, out, flag);
    }
  }

  /** At least one keyword is not empty, and none that is not empty is a prefix of an earlier one. */
  predicate Enterable(keywords: seq<seq<Byte>>) {
    (exists i :: 0 <= i < |keywords| && keywords[i] != []) && NoLaterPrefix(keywords)
  }

  predicate NoLaterPrefix(keywords: seq<seq<Byte>>) {
    forall i, j :: 0 <= i < j < |keywords| && keywords[j] != [] ==> !(keywords[j] <= keywords[i])
  }

  function KeywordSet(keywords: seq<seq<Byte>>): set<seq<Byte>> { set kw | kw in keywords && kw != [] }

  /** The bytes of the keywords in the order in which they first occur. */
  function Numbering(keywords: seq<seq<Byte>>): seq<Byte> { NumberedAll([], keywords) }

  function NumberedAll(bytes: seq<Byte>, keywords: seq<seq<Byte>>): seq<Byte>
    decreases |keywords|
  {
    if keywords == [] then bytes else NumberedAll(Numbered(bytes, keywords[0]), keywords[1..])
  }

  function Numbered(bytes: seq<Byte>, kw: seq<Byte>): seq<Byte>
    decreases |kw|
  {
    if kw == [] then bytes else Numbered(if kw[0] in bytes then bytes else bytes + [kw[0]], kw[1..])
  }

  lemma NumberedOn(bytes: seq<Byte>, kw: seq<Byte>, k: nat)
    requires k < |kw|
    ensures Numbered(bytes, kw[k..]) == Numbered(if kw[k] in bytes then bytes else bytes + [kw[k]], kw[k+1..])
  {
    assert kw[k..][1..] == kw[k+1..];
  }

  lemma NumberedAllOn(bytes: seq<Byte>, keywords: seq<seq<Byte>>, k: nat)
    requires k < |keywords|
    ensures NumberedAll(bytes, keywords[k..]) == NumberedAll(Numbered(bytes, keywords[k]), keywords[k+1..])
  {
    assert keywords[k..][1..] == keywords[k+1..];
  }

  lemma {:induction false} NumberedDistinct(bytes: seq<Byte>, kw: seq<Byte>)
    requires Distinct(bytes)
    ensures Distinct(Numbered(bytes, kw))
    decreases |kw|
  {
    if kw != [] { NumberedDistinct(if kw[0] in bytes then bytes else bytes + [kw[0]], kw[1..]); }
  }

  lemma {:induction false} NumberingDistinct(bytes: seq<Byte>, keywords: seq<seq<Byte>>)
    requires Distinct(bytes)
    ensures Distinct(NumberedAll(bytes, keywords))
    decreases |keywords|
  {
    if keywords != [] {
      NumberedDistinct(bytes, keywords[0]);
      NumberingDistinct(Numbered(bytes, keywords[0]), keywords[1..]);
    }
  }

  /** Keywords that fork behind a single byte only have the longest links. */
  lemma NoLateForkKeywords(keywords: seq<seq<Byte>>)
    requires NoLateFork(KeywordSet(keywords))
    ensures Declining(KeywordSet(keywords), Numbering(keywords))
  {
    NumberingDistinct([], keywords);
    NoLateForkDeclines(KeywordSet(keywords), Numbering(keywords));
  }

  lemma CodeIff(cm: seq<int>, bytes: seq<Byte>, b: Byte)
    requires CodesOk(cm, bytes)
    ensures cm[b] == -1 <==> b !in bytes
  {
  }

  lemma OneMoreKeyword(keywords: seq<seq<Byte>>, k: nat)
    requires k < |keywords| && NoLaterPrefix(keywords[..k])
    ensures var kw := keywords[k];
      && KeywordSet(keywords[..k+1]) == KeywordSet(keywords[..k]) + (if kw == [] then {} else {kw})
      && (NoLaterPrefix(keywords[..k+1]) <==> kw == [] || !IsPrefixOfSome(kw, KeywordSet(keywords[..k])))
      && (!NoLaterPrefix(keywords[..k+1]) ==> !NoLaterPrefix(keywords))
  {
    var kw, before, after := keywords[k], keywords[..k], keywords[..k+1];
    assert after == before + [kw];
    assert forall j :: 0 <= j <= k ==> after[j] == keywords[j];
    if kw != [] {
      if IsPrefixOfSome(kw, KeywordSet(before)) {
        var w :| w in KeywordSet(before) && kw <= w;
        var j :| 0 <= j < k && before[j] == w;
        assert after[k] <= after[j];
      } else {
        forall j | 0 <= j < k ensures !(kw <= after[j]) {
          assert after[j] == before[j];
          assert before[j] in KeywordSet(before) || before[j] == [];
        }
      }
    }
  }

  lemma CodesDistinct(cm: seq<int>, bytes: seq<Byte>)
    requires CodesOk(cm, bytes)
    ensures Distinct(bytes)
  {
  }
}
