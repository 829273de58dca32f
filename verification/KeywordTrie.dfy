/** The tables of the keyword automaton, and what they have to satisfy. */
module KeywordTrie {
  import opened Bytes
  import opened Keywords

  /** `cm` numbers the bytes of the keywords; `bytes` lists them in that order. */
  predicate CodesOk(cm: seq<int>, bytes: seq<Byte>) {
    && |cm| == 256
    && (forall i :: 0 <= i < |bytes| ==> cm[bytes[i]] == i)
    && forall b: Byte :: cm[b] == -1 || (0 <= cm[b] < |bytes| && bytes[cm[b]] == b)
  }

  /** Every byte of the keyword has a number. */
  predicate Coded(cm: seq<int>, kw: seq<Byte>)
    requires |cm| == 256
  {
    forall j :: 0 <= j < |kw| ==> cm[kw[j]] != -1
  }

  /** What row `s` has for a missing transition. */
  function Missing(s: nat, rooted: bool): int { if rooted && s == 0 then 0 else -1 }

  /** The names of the states are distinct and closed under prefixes, the root first. */
  ghost predicate NamesOk(names: seq<seq<Byte>>) {
    && |names| > 0 && names[0] == []
    && (forall s, t :: 0 <= s < t < |names| ==> names[s] != names[t])
    && forall s :: 0 < s < |names| ==> HasParent(names, s)
  }

  ghost predicate HasParent(names: seq<seq<Byte>>, s: nat)
    requires s < |names|
  {
    names[s] != [] && names[s][..|names[s]|-1] in names
  }

  /** Row `s`, column `c` leads to the state named by the longer path, if there is one. */
  ghost predicate EdgesOk(tm: seq<seq<int>>, bytes: seq<Byte>, names: seq<seq<Byte>>, rooted: bool) {
    && |tm| == |names|
    && (forall s :: 0 < s < |names| ==> HasLetter(names, bytes, s))
    && forall s, c {:trigger EdgeOk(tm[s][c], s, names, names[s] + [bytes[c]], rooted)} ::
      0 <= s < |tm| && 0 <= c < |bytes| ==>
        |tm[s]| == |bytes| && EdgeOk(tm[s][c], s, names, names[s] + [bytes[c]], rooted)
  }

  /** The last byte of a name is numbered. */
  predicate HasLetter(names: seq<seq<Byte>>, bytes: seq<Byte>, s: nat)
    requires s < |names|
  {
    names[s] != [] && names[s][|names[s]|-1] in bytes
  }

  ghost predicate EdgeOk(t: int, s: nat, names: seq<seq<Byte>>, w: seq<Byte>, rooted: bool) {
    if t == Missing(s, rooted) then w !in names else 0 < t < |names| && names[t] == w
  }

  ghost predicate RowsOk(tm: seq<seq<int>>, bytes: seq<Byte>) { forall s :: 0 <= s < |tm| ==> |tm[s]| == |bytes| }

  /** `w` names a state exactly if it is a prefix of a keyword, or empty. */
  ghost predicate StateName(names: seq<seq<Byte>>, kws: set<seq<Byte>>, w: seq<Byte>) {
    w in names <==> w == [] || IsPrefixOfSome(w, kws)
  }

  /** The states are exactly the prefixes of the keywords, and the keywords are accepted. */
  ghost predicate StatesOk(am: seq<bool>, names: seq<seq<Byte>>, kws: set<seq<Byte>>) {
    && (forall w {:trigger StateName(names, kws, w)} :: StateName(names, kws, w))
    && |am| == |names| && forall s :: 0 <= s < |names| ==> (am[s] <==> names[s] in kws)
  }

  /** The tables of a trie; `rooted` once missing transitions of the root lead back to it. */
  ghost predicate TrieOk(cm: seq<int>, tm: seq<seq<int>>, am: seq<bool>, bytes: seq<Byte>, names: seq<seq<Byte>>,
                         kws: set<seq<Byte>>, rooted: bool) {
    && CodesOk(cm, bytes) && NamesOk(names) && RowsOk(tm, bytes) && EdgesOk(tm, bytes, names, rooted) &&
      StatesOk(am, names, kws) && [] !in kws
  }

  // ----- growing the trie

  predicate Distinct(bytes: seq<Byte>) { forall i, j :: 0 <= i < j < |bytes| ==> bytes[i] != bytes[j] }

  function NewRow(n: nat): seq<int> { seq(n, _ => -1) }

  /** The table with a new state below `s` for column `c`. */
  function WithState(tm: seq<seq<int>>, n: nat, s: nat, c: nat): (r: seq<seq<int>>)
    requires s < |tm| && c < |tm[s]|
    ensures |r| == |tm| + 1
    ensures forall t :: 0 <= t < |r| ==>
      r[t] == if t == s then tm[s][c := |tm|] else if t == |tm| then NewRow(n) else tm[t]
  {
    (tm + [NewRow(n)])[s := tm[s][c := |tm|]]
  }

  lemma NewState(tm: seq<seq<int>>, bytes: seq<Byte>, names: seq<seq<Byte>>, s: nat, c: nat)
    requires NamesOk(names) && RowsOk(tm, bytes) && EdgesOk(tm, bytes, names, false) && Distinct(bytes)
    requires s < |tm| && c < |bytes| && names[s] + [bytes[c]] !in names
    ensures var names' := names + [names[s] + [bytes[c]]];
      && NamesOk(names') && RowsOk(WithState(tm, |bytes|, s, c), bytes)
      && EdgesOk(WithState(tm, |bytes|, s, c), bytes, names', false)
  {
    var tm', w := WithState(tm, |bytes|, s, c), names[s] + [bytes[c]];
    var names' := names + [w];
    NewName(names, s, bytes[c]);
    forall t, d | 0 <= t < |tm'| && 0 <= d < |bytes|
      ensures EdgeOk(tm'[t][d], t, names', names'[t] + [bytes[d]], false)
    {
      NewEdge(tm, bytes, names, s, c, t, d);
    }
    NewLetter(names, bytes, s, c);
  }

  lemma NewLetter(names: seq<seq<Byte>>, bytes: seq<Byte>, s: nat, c: nat)
    requires s < |names| && c < |bytes| && forall t :: 0 < t < |names| ==> HasLetter(names, bytes, t)
    ensures var names' := names + [names[s] + [bytes[c]]];
      forall t :: 0 < t < |names'| ==> HasLetter(names', bytes, t)
  {
    var names' := names + [names[s] + [bytes[c]]];
    forall t | 0 < t < |names'| ensures HasLetter(names', bytes, t) {
      if t < |names| { assert HasLetter(names, bytes, t) && names'[t] == names[t]; }
    }
  }

  lemma NewEdge(tm: seq<seq<int>>, bytes: seq<Byte>, names: seq<seq<Byte>>, s: nat, c: nat, t: nat, d: nat)
    requires NamesOk(names) && RowsOk(tm, bytes) && EdgesOk(tm, bytes, names, false) && Distinct(bytes)
    requires s < |tm| && c < |bytes| && names[s] + [bytes[c]] !in names && t <= |tm| && d < |bytes|
    ensures var names' := names + [names[s] + [bytes[c]]];
      EdgeOk(WithState(tm, |bytes|, s, c)[t][d], t, names', names'[t] + [bytes[d]], false)
  {
    var w := names[s] + [bytes[c]];
    var names' := names + [w];
    assert names'[|tm|] == w;
    if t == |tm| {
      NewNameIsLeaf(names, w, bytes[d]);
    } else if t != s || d != c {
      assert names'[t] == names[t];
      OtherName(names, t, s, bytes[d], bytes[c]);
      OldEdge(tm[t][d], t, names, names[t] + [bytes[d]], w);
    }
  }

  lemma OldEdge(e: int, t: nat, names: seq<seq<Byte>>, v: seq<Byte>, w: seq<Byte>)
    requires EdgeOk(e, t, names, v, false) && v != w
    ensures EdgeOk(e, t, names + [w], v, false)
  {
  }

  lemma NewName(names: seq<seq<Byte>>, s: nat, b: Byte)
    requires NamesOk(names) && s < |names| && names[s] + [b] !in names
    ensures NamesOk(names + [names[s] + [b]])
  {
    var w := names[s] + [b];
    var names' := names + [w];
    assert w[..|w|-1] == names[s];
    forall t | 0 < t < |names'| ensures HasParent(names', t) {
      if t < |names| { assert names'[t] == names[t] && HasParent(names, t); }
    }
  }

  lemma NewNameIsLeaf(names: seq<seq<Byte>>, w: seq<Byte>, b: Byte)
    requires NamesOk(names) && w !in names
    ensures w + [b] !in names + [w]
  {
    assert (w + [b])[..|w + [b]| - 1] == w;
    assert |w + [b]| > |w|;
    forall u | 0 <= u < |names| ensures names[u] != w + [b] {
      assert u == 0 || HasParent(names, u);
    }
  }

  lemma OtherName(names: seq<seq<Byte>>, t: nat, s: nat, a: Byte, b: Byte)
    requires NamesOk(names) && s < |names| && t < |names|
    ensures names[t] + [a] == names[s] + [b] ==> t == s && a == b
  {
    if names[t] + [a] == names[s] + [b] {
      assert names[t] == (names[t] + [a])[..|names[t]|] == (names[s] + [b])[..|names[s]|] == names[s];
      assert (names[t] + [a])[|names[t]|] == (names[s] + [b])[|names[s]|];
    }
  }

  /** The states are the prefixes of the entered keywords, and those of `w`. */
  ghost predicate StatesAre(names: seq<seq<Byte>>, kws: set<seq<Byte>>, w: seq<Byte>) {
    forall v :: v in names <==> v == [] || IsPrefixOfSome(v, kws) || v <= w
  }

  /** Accepting states so far; `am` may not have reached the newest states yet. */
  ghost predicate Accepts(am: seq<bool>, names: seq<seq<Byte>>, kws: set<seq<Byte>>) {
    && |am| <= |names| && (forall s :: 0 <= s < |am| ==> (am[s] <==> names[s] in kws))
    && forall s :: |am| <= s < |names| ==> names[s] !in kws
  }

  lemma PrefixSnoc(v: seq<Byte>, w: seq<Byte>, b: Byte)
    ensures v <= w + [b] <==> v <= w || v == w + [b]
  {
    if v <= w + [b] && |v| <= |w| { assert v == (w + [b])[..|v|] == w[..|v|]; }
  }

  lemma StatesExtend(names: seq<seq<Byte>>, kws: set<seq<Byte>>, w: seq<Byte>, b: Byte)
    requires StatesAre(names, kws, w)
    ensures StatesAre(names + [w + [b]], kws, w + [b])
  {
    forall v ensures v in names + [w + [b]] <==> v == [] || IsPrefixOfSome(v, kws) || v <= w + [b] {
      PrefixSnoc(v, w, b);
    }
  }

  lemma StatesOfNone(am: seq<bool>, names: seq<seq<Byte>>, kws: set<seq<Byte>>)
    requires StatesOk(am, names, kws)
    ensures StatesAre(names, kws, []) && Accepts(am, names, kws)
  {
    forall v ensures v in names <==> v == [] || IsPrefixOfSome(v, kws) || v <= [] {
      assert StateName(names, kws, v);
    }
  }

  lemma StatesOfPrefix(names: seq<seq<Byte>>, kws: set<seq<Byte>>, w: seq<Byte>)
    requires StatesAre(names, kws, []) && w in names
    ensures StatesAre(names, kws, w)
  {
    forall v | v <= w ensures v in names {
      if w != [] {
        var kw :| kw in kws && w <= kw;
        assert v <= kw;
      }
    }
  }

  lemma PrefixShorter(v: seq<Byte>, w: seq<Byte>, kws: set<seq<Byte>>)
    requires v <= w
    ensures IsPrefixOfSome(w, kws) ==> IsPrefixOfSome(v, kws)
    ensures w in kws ==> IsPrefixOfSome(v, kws)
  {
    if IsPrefixOfSome(w, kws) {
      var kw :| kw in kws && w <= kw;
      assert v <= kw;
    }
  }

  lemma StatesAccept(am: seq<bool>, names: seq<seq<Byte>>, kws: set<seq<Byte>>, kw: seq<Byte>)
    requires NamesOk(names) && StatesAre(names, kws, kw) && Accepts(am, names, kws)
    requires names[|names|-1] == kw && |am| < |names|
    ensures StatesOk((am + seq(|names| - |am|, _ => false))[|names|-1 := true], names, kws + {kw})
  {
    forall v ensures IsPrefixOfSome(v, kws + {kw}) <==> IsPrefixOfSome(v, kws) || v <= kw {
      if v <= kw { assert kw in kws + {kw}; }
      if IsPrefixOfSome(v, kws) {
        var w :| w in kws && v <= w;
        assert w in kws + {kw};
      }
    }
  }

  lemma AcceptsMore(am: seq<bool>, names: seq<seq<Byte>>, kws: set<seq<Byte>>, w: seq<Byte>)
    requires Accepts(am, names, kws) && w !in kws
    ensures Accepts(am, names + [w], kws)
  {
  }

  /** One state more, named `kw[..i+1]`, keeps everything that holds while `kw` is being entered. */
  lemma StateAdded(tm: seq<seq<int>>, am: seq<bool>, bytes: seq<Byte>, names: seq<seq<Byte>>, kws: set<seq<Byte>>,
                   kw: seq<Byte>, i: nat, s: nat, c: nat)
    requires NamesOk(names) && RowsOk(tm, bytes) && EdgesOk(tm, bytes, names, false) && Distinct(bytes)
    requires Accepts(am, names, kws)
    requires i < |kw| && StatesAre(names, kws, kw[..i]) && s < |tm| && names[s] == kw[..i] && kw[..i+1] !in names
    requires c < |bytes| && bytes[c] == kw[i]
    ensures var tm', names' := WithState(tm, |bytes|, s, c), names + [kw[..i+1]];
      && NamesOk(names') && RowsOk(tm', bytes) && EdgesOk(tm', bytes, names', false) && Accepts(am, names', kws)
      && StatesAre(names', kws, kw[..i+1]) && (i + 1 < |kw| ==> kw[..i+2] !in names')
  {
    var w := kw[..i+1];
    assert w == kw[..i] + [kw[i]] == names[s] + [bytes[c]];
    NewState(tm, bytes, names, s, c);
    NewStateNamed(names, kws, kw, i);
    PrefixShorter(w, w, kws);
    AcceptsMore(am, names, kws, w);
  }

  lemma NewStateNamed(names: seq<seq<Byte>>, kws: set<seq<Byte>>, kw: seq<Byte>, i: nat)
    requires NamesOk(names) && i < |kw| && StatesAre(names, kws, kw[..i]) && kw[..i+1] !in names
    ensures StatesAre(names + [kw[..i+1]], kws, kw[..i+1]) && (i + 1 < |kw| ==> kw[..i+2] !in names + [kw[..i+1]])
  {
    var w := kw[..i+1];
    assert w == kw[..i] + [kw[i]];
    if i + 1 < |kw| {
      assert kw[..i+2] == w + [kw[i+1]];
      NewNameIsLeaf(names, w, kw[i+1]);
    }
    StatesExtend(names, kws, kw[..i], kw[i]);
  }

  /** A single root. */
  lemma RootOk(bytes: seq<Byte>)
    ensures NamesOk([[]]) && RowsOk([NewRow(|bytes|)], bytes) && EdgesOk([NewRow(|bytes|)], bytes, [[]], false)
    ensures StatesAre([[]], {}, []) && Accepts([], [[]], {})
  {
  }

  /** Missing transitions of the root lead back to it. */
  lemma RootClosed(tm: seq<seq<int>>, bytes: seq<Byte>, names: seq<seq<Byte>>, row: seq<int>)
    requires |tm| > 0 && RowsOk(tm, bytes) && EdgesOk(tm, bytes, names, false) && |row| == |bytes|
    requires forall d :: 0 <= d < |bytes| ==> row[d] == if tm[0][d] == -1 then 0 else tm[0][d]
    ensures RowsOk(tm[0 := row], bytes) && EdgesOk(tm[0 := row], bytes, names, true)
  {
    forall s, d | 0 <= s < |tm| && 0 <= d < |bytes|
      ensures EdgeOk(tm[0 := row][s][d], s, names, names[s] + [bytes[d]], true)
    {
      assert EdgeOk(tm[s][d], s, names, names[s] + [bytes[d]], false);
    }
  }
}
