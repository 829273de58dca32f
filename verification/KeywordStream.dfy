/**
 The steps of the filter's loop on values: what each of them keeps of the relation between the
 text read so far, the bytes written, and the bytes held back.
 */
module KeywordStream {
  import opened Bytes
  import opened Keywords
  import opened KeywordTrie
  import opened KeywordLinks

  /** The tables of a finished filter. */
  datatype Tables = Tables(cm: seq<int>, tm: seq<seq<int>>, am: seq<bool>, fm: seq<int>, dm: seq<int>,
                           bytes: seq<Byte>, names: seq<seq<Byte>>, kws: set<seq<Byte>>)

  ghost predicate Ready(t: Tables) {
    && TrieOk(t.cm, t.tm, t.am, t.bytes, t.names, t.kws, true) && LinksOk(t.names, t.fm, t.dm)
    && FallingLinks(t.names, t.tm, t.fm)
  }

  function Transfer(t: Tables, s: nat, c: Byte): int
    requires |t.cm| == 256 && s < |t.tm| && t.cm[c] < |t.tm[s]| && -1 <= t.cm[c]
  {
    if t.cm[c] == -1 then (if s == 0 then 0 else -1) else t.tm[s][t.cm[c]]
  }

  /** The locals of the loop: held-back bytes, how many of them are due to be masked, and the output. */
  datatype Run = Run(buf: seq<Byte>, mi: nat, out: seq<Byte>, flag: bool)

  lemma TransferState(t: Tables, s: nat, c: Byte)
    requires Ready(t) && s < |t.names|
    ensures |t.tm| == |t.names| && -1 <= t.cm[c] < |t.tm[s]|
    ensures EdgeOk(Transfer(t, s, c), s, t.names, t.names[s] + [c], true)
  {
    var nc := t.cm[c];
    if nc == -1 {
      NoLetter(t.cm, t.bytes, t.names, s, c);
    } else {
      assert t.bytes[nc] == c;
    }
  }

  lemma NoLetter(cm: seq<int>, bytes: seq<Byte>, names: seq<seq<Byte>>, s: nat, c: Byte)
    requires CodesOk(cm, bytes) && s < |names| && |names[0]| == 0 && cm[c] == -1
    requires forall u :: 0 < u < |names| ==> HasLetter(names, bytes, u)
    ensures names[s] + [c] !in names
  {
    forall u | 0 <= u < |names| ensures names[u] != names[s] + [c] {
      if u > 0 {
        assert HasLetter(names, bytes, u);
        assert (names[s] + [c])[|names[s]|] == c;
      }
    }
  }

  // ----- what holds of a run

  /**
   After the text `T`, of which the positions of `cov` are written, in state `u`: the rest of the
   text is held back, and every position masked or due to be masked lies in a keyword.
   */
  ghost predicate Core(t: Tables, mask: seq<Byte>, T: seq<Byte>, u: nat, r: Run, cov: seq<bool>) {
    && |cov| + |r.buf| == |T| && IsSuffix(r.buf, T) && r.mi <= |r.buf|
    && u < |t.names| && IsSuffix(t.names[u], r.buf)
    && r.out == Render(mask, T[..|cov|], cov) && r.flag == LastMarked(cov)
    && Sound(t, T, r, cov)
  }

  /** Position `k` has been masked, or is held back to be masked. */
  predicate Marked(r: Run, cov: seq<bool>, k: nat) { if k < |cov| then cov[k] else k < |cov| + r.mi }

  ghost predicate Sound(t: Tables, T: seq<Byte>, r: Run, cov: seq<bool>) {
    forall k: nat {:trigger Marked(r, cov, k)} :: k < |T| && Marked(r, cov, k) ==> Covered(t.kws, T, k)
  }

  ghost predicate Complete(t: Tables, T: seq<Byte>, r: Run, cov: seq<bool>) {
    forall k: nat {:trigger Marked(r, cov, k)} {:trigger Covered(t.kws, T, k)} :: k < |T| && Covered(t.kws, T, k) ==>
      Marked(r, cov, k)
  }

  /** The state begins inside the stretch due to be masked, or is all that is held back. */
  ghost predicate Tight(t: Tables, u: nat, r: Run)
    requires u < |t.names|
  {
    (r.mi == 0 && |r.buf| == |t.names[u]|) || |r.buf| - |t.names[u]| < r.mi
  }

  /** No state longer than `u` is a suffix of the text and goes on with `c`. */
  ghost predicate Beyond(t: Tables, T: seq<Byte>, u: nat, c: Byte)
    requires u < |t.names|
  {
    forall w {:trigger IsSuffix(t.names[w], T)} ::
      0 <= w < |t.names| && IsSuffix(t.names[w], T) && |t.names[w]| > |t.names[u]| ==> t.names[w] + [c] !in t.names
  }

  /** `u` is the longest state that is a suffix of the text. */
  ghost predicate Settled(t: Tables, T: seq<Byte>, u: nat)
    requires u < |t.names|
  {
    forall w {:trigger IsSuffix(t.names[w], T)} :: 0 <= w < |t.names| && IsSuffix(t.names[w], T) ==>
      |t.names[w]| <= |t.names[u]|
  }

  // ----- the text grows by a byte

  /** A state that is a suffix of `T + [c]` comes from one that is a suffix of `T`, and not beyond `u`. */
  lemma SettleStep(t: Tables, T: seq<Byte>, u: nat, c: Byte, s: nat)
    requires Ready(t) && u < |t.names| && s < |t.names| && Beyond(t, T, u, c)
    requires s == 0 ==> u == 0 && t.names[u] + [c] !in t.names
    requires s > 0 ==> t.names[s] == t.names[u] + [c]
    ensures Settled(t, T + [c], s)
  {
    forall w | 0 <= w < |t.names| && IsSuffix(t.names[w], T + [c]) ensures |t.names[w]| <= |t.names[s]| {
      if w > 0 {
        var p := ParentOf(t.names, w, T, c);
        assert t.names[p] + [c] in t.names;
        assert |t.names[p]| <= |t.names[u]|;
        if s == 0 { SameSuffix(t.names, p, u, T); }
      }
    }
  }

  lemma SettledIsBeyond(t: Tables, T: seq<Byte>, u: nat, c: Byte)
    requires u < |t.names| && Settled(t, T, u)
    ensures Beyond(t, T, u, c)
  {
  }

  /** The keyword that newly covers a position ends in the settled state, and that state is accepted. */
  lemma NewCover(t: Tables, T: seq<Byte>, c: Byte, s: nat, k: nat)
    requires Ready(t) && SuffixClosed(t.kws) && s < |t.names| && Settled(t, T + [c], s) && IsSuffix(t.names[s], T + [c])
    requires Covered(t.kws, T + [c], k) && !Covered(t.kws, T, k)
    ensures t.am[s] && |T| + 1 - |t.names[s]| <= k <= |T|
  {
    var kw := CoveredByOneMore(t.kws, T, c, k);
    assert kw <= kw && IsPrefixOfSome(kw, t.kws);
    assert StateName(t.names, t.kws, kw) && StateName(t.names, t.kws, t.names[s]);
    var w :| 0 <= w < |t.names| && t.names[w] == kw;
    assert IsSuffix(t.names[w], T + [c]);
    SuffixOfSuffix(kw, t.names[s], T + [c]);
    assert t.names[s] in t.names;
    assert IsPrefixOfSome(t.names[s], t.kws) && !HidesKeyword(t.kws, t.names[s]);
  }

  /** A byte that no state begins with is written as it is. */
  lemma RawByte(t: Tables, mask: seq<Byte>, T: seq<Byte>, r: Run, cov: seq<bool>, c: Byte)
    requires Ready(t) && Core(t, mask, T, 0, r, cov) && Tight(t, 0, r)
    ensures var r', cov' := r.(out := r.out + [c], flag := false), cov + [false];
      Core(t, mask, T + [c], 0, r', cov') && Tight(t, 0, r')
  {
    var r', cov', T' := r.(out := r.out + [c], flag := false), cov + [false], T + [c];
    assert r.buf == [] && |cov| == |T| && T[..|cov|] == T && T'[..|cov'|] == T';
    RenderRaw(mask, T, cov, [c]);
    assert cov + Repeat(false, 1) == cov';
    forall k: nat | k < |T'| && Marked(r', cov', k) ensures Covered(t.kws, T', k) {
      assert Marked(r, cov, k);
      CoveredGrows(t.kws, T, [c], k);
    }
  }

  lemma RawByteComplete(t: Tables, T: seq<Byte>, r: Run, cov: seq<bool>, c: Byte)
    requires Ready(t) && SuffixClosed(t.kws) && r.buf == [] && r.mi == 0 && |cov| == |T| && Complete(t, T, r, cov)
    requires Settled(t, T + [c], 0)
    ensures Complete(t, T + [c], r.(out := r.out + [c], flag := false), cov + [false])
  {
    var r', cov', T' := r.(out := r.out + [c], flag := false), cov + [false], T + [c];
    forall k: nat | k < |T'| && Covered(t.kws, T', k) ensures Marked(r', cov', k) {
      if Covered(t.kws, T, k) {
        CoveredInside(t.kws, T, k);
        assert Marked(r, cov, k);
      } else {
        NewCover(t, T, c, 0, k);
        assert false;
      }
    }
  }

  lemma CoveredInside(kws: set<seq<Byte>>, T: seq<Byte>, k: nat)
    requires Covered(kws, T, k)
    ensures k < |T|
  {
  }

  /** A byte that extends the state is held back; an accepted state is due to be masked. */
  function Kept(t: Tables, r: Run, s: nat, c: Byte): Run
    requires s < |t.am|
  {
    r.(buf := r.buf + [c], mi := if t.am[s] then |r.buf| + 1 else r.mi)
  }

  lemma KeptByte(t: Tables, mask: seq<Byte>, T: seq<Byte>, u: nat, r: Run, cov: seq<bool>, s: nat, c: Byte)
    requires Ready(t) && Core(t, mask, T, u, r, cov) && Tight(t, u, r) && 0 < s < |t.names|
    requires t.names[s] == t.names[u] + [c]
    ensures Core(t, mask, T + [c], s, Kept(t, r, s, c), cov) && Tight(t, s, Kept(t, r, s, c))
  {
    var r', T' := Kept(t, r, s, c), T + [c];
    assert T'[|cov|..] == r'.buf && T'[..|cov|] == T[..|cov|];
    SuffixAppend(t.names[u], r.buf, c);
    forall k: nat | k < |T'| && Marked(r', cov, k) ensures Covered(t.kws, T', k) {
      if k < |T| && Marked(r, cov, k) {
        CoveredGrows(t.kws, T, [c], k);
      } else {
        assert t.am[s] && t.names[s] in t.kws;
        SuffixTrans(t.names[s], r'.buf, T');
        SuffixCovers(t.kws, T', t.names[s], k);
      }
    }
  }

  lemma KeptByteComplete(t: Tables, mask: seq<Byte>, T: seq<Byte>, u: nat, r: Run, cov: seq<bool>, s: nat, c: Byte)
    requires Ready(t) && SuffixClosed(t.kws) && Core(t, mask, T, u, r, cov) && Complete(t, T, r, cov)
    requires 0 < s < |t.names| && t.names[s] == t.names[u] + [c] && Settled(t, T + [c], s)
    ensures Complete(t, T + [c], Kept(t, r, s, c), cov)
  {
    var r', T' := Kept(t, r, s, c), T + [c];
    SuffixAppend(t.names[u], r.buf, c);
    assert T'[|cov|..] == r.buf + [c];
    SuffixTrans(t.names[s], r.buf + [c], T');
    forall k: nat | k < |T'| && Covered(t.kws, T', k) ensures Marked(r', cov, k) {
      if Covered(t.kws, T, k) {
        CoveredInside(t.kws, T, k);
        assert Marked(r, cov, k);
      } else {
        NewCover(t, T, c, s, k);
      }
    }
  }

  // ----- a state fails

  /** What is in front of state `s` is written, unless the stretch due to be masked reaches into it. */
  function Flushed(mask: seq<Byte>, r: Run, i: nat): Run
    requires r.mi <= i <= |r.buf|
  {
    var masked := if r.mi > 0 && !r.flag then mask else [];
    Run(r.buf[i..], 0, r.out + masked + r.buf[r.mi..i], if i > r.mi then false else if r.mi > 0 then true else r.flag)
  }

  function Written(cov: seq<bool>, r: Run, i: nat): seq<bool>
    requires r.mi <= i
  {
    cov + Repeat(true, r.mi) + Repeat(false, i - r.mi)
  }

  lemma FlushCorrect(t: Tables, mask: seq<Byte>, T: seq<Byte>, u: nat, r: Run, cov: seq<bool>, f: nat)
    requires Ready(t) && Core(t, mask, T, u, r, cov) && f < |t.names| && IsSuffix(t.names[f], t.names[u])
    requires r.mi <= |r.buf| - |t.names[f]|
    ensures var i := |r.buf| - |t.names[f]|;
      Core(t, mask, T, f, Flushed(mask, r, i), Written(cov, r, i)) && Tight(t, f, Flushed(mask, r, i))
  {
    var i := |r.buf| - |t.names[f]|;
    var r', cov' := Flushed(mask, r, i), Written(cov, r, i);
    SuffixTrans(t.names[f], t.names[u], r.buf);
    FlushRender(mask, T, r, cov, i);
    assert T[|cov'|..] == r.buf[i..];
    forall k: nat | k < |T| && Marked(r', cov', k) ensures Covered(t.kws, T, k) {
      assert Marked(r, cov, k);
    }
  }

  lemma FlushRender(mask: seq<Byte>, T: seq<Byte>, r: Run, cov: seq<bool>, i: nat)
    requires |cov| + |r.buf| == |T| && r.buf == T[|cov|..] && r.mi <= i <= |r.buf|
    requires r.out == Render(mask, T[..|cov|], cov) && r.flag == LastMarked(cov)
    ensures var r', cov' := Flushed(mask, r, i), Written(cov, r, i);
      r'.out == Render(mask, T[..|cov'|], cov') && r'.flag == LastMarked(cov')
  {
    var a, b, c := T[..|cov|], r.buf[..r.mi], r.buf[r.mi..i];
    TextSplit(T, |cov|, r.buf, r.mi, i);
    FlushMasked(mask, a, cov, b);
    FlushRaw(mask, a + b, cov + Repeat(true, r.mi), c);
  }

  lemma FlushMasked(mask: seq<Byte>, a: seq<Byte>, cov: seq<bool>, b: seq<Byte>)
    requires |a| == |cov|
    ensures var cov1 := cov + Repeat(true, |b|);
      && Render(mask, a + b, cov1) == Render(mask, a, cov) + (if |b| > 0 && !LastMarked(cov) then mask else [])
      && LastMarked(cov1) == (|b| > 0 || LastMarked(cov))
  {
    if |b| > 0 {
      RenderMasked(mask, a, cov, b);
    } else {
      assert a + b == a && cov + Repeat(true, |b|) == cov;
    }
  }

  lemma FlushRaw(mask: seq<Byte>, a: seq<Byte>, cov: seq<bool>, c: seq<Byte>)
    requires |a| == |cov|
    ensures var cov1 := cov + Repeat(false, |c|);
      && Render(mask, a + c, cov1) == Render(mask, a, cov) + c
      && LastMarked(cov1) == (|c| == 0 && LastMarked(cov))
  {
    RenderRaw(mask, a, cov, c);
    if |c| == 0 { assert cov + Repeat(false, |c|) == cov; }
  }

  lemma TextSplit(T: seq<Byte>, m: nat, buf: seq<Byte>, mi: nat, i: nat)
    requires m + |buf| == |T| && buf == T[m..] && mi <= i <= |buf|
    ensures T[..m+i] == T[..m] + buf[..mi] + buf[mi..i]
  {
  }

  lemma FlushComplete(t: Tables, mask: seq<Byte>, T: seq<Byte>, r: Run, cov: seq<bool>, i: nat)
    requires r.mi <= i <= |r.buf| && |cov| + |r.buf| == |T| && Complete(t, T, r, cov)
    ensures Complete(t, T, Flushed(mask, r, i), Written(cov, r, i))
  {
    var r', cov' := Flushed(mask, r, i), Written(cov, r, i);
    forall k: nat | k < |T| && Covered(t.kws, T, k) ensures Marked(r', cov', k) {
      assert Marked(r, cov, k);
    }
  }

  /** The longest link passes no state that could go on. */
  lemma BeyondLink(t: Tables, T: seq<Byte>, u: nat, c: Byte, f: nat)
    requires Ready(t) && u < |t.names| && f < |t.names| && IsSuffix(t.names[u], T) && Beyond(t, T, u, c)
    requires t.names[u] + [c] !in t.names && Longest(t.names, u, f)
    ensures Beyond(t, T, f, c)
  {
    forall w | 0 <= w < |t.names| && IsSuffix(t.names[w], T) && |t.names[w]| > |t.names[f]|
      ensures t.names[w] + [c] !in t.names
    {
      if |t.names[w]| < |t.names[u]| {
        SuffixOfSuffix(t.names[w], t.names[u], T);
      } else if |t.names[w]| == |t.names[u]| {
        SameSuffix(t.names, w, u, T);
      }
    }
  }

  // ----- the states of the loop

  /** As long as the text is itself a state, nothing has been written. */
  ghost predicate OnPath(t: Tables, T: seq<Byte>, u: nat, r: Run, cov: seq<bool>)
    requires u < |t.names|
  {
    t.names[u] == T && cov == [] && (T in t.kws || T == [] || r.mi < |T|)
  }

  predicate BeginsWith(t: Tables, T: seq<Byte>, s: nat) { s < |t.names| && t.names[s] <= T }

  /** The state begins no earlier than the link of any state that the text has begun with. */
  ghost predicate Behind(t: Tables, T: seq<Byte>, u: nat)
    requires u < |t.names|
  {
    forall s: nat {:trigger BeginsWith(t, T, s)} :: BeginsWith(t, T, s) ==>
      |t.names[u]| + |t.names[s]| <= |T| + LinkLength(t.names, t.fm, s)
  }

  /** The state is the whole text, or behind every link on its way. */
  ghost predicate Trails(t: Tables, T: seq<Byte>, u: nat)
    requires u < |t.names|
  {
    t.names[u] == T || Behind(t, T, u)
  }

  /** The last position of the text is marked exactly in the state of a keyword. */
  ghost predicate EndsMarked(t: Tables, T: seq<Byte>, u: nat, r: Run, cov: seq<bool>)
    requires u < |t.names|
  {
    T != [] ==> (Marked(r, cov, |T| - 1) <==> t.names[u] != [] && t.names[u] in t.kws)
  }

  /** The masking is exact where links are longest and every state that ends with a keyword is one. */
  ghost predicate Exactly(t: Tables) { SuffixClosed(t.kws) && LongestLinks(t.names, t.fm) }

  /** After the text `T`, before the next byte is read. */
  ghost predicate Standing(t: Tables, mask: seq<Byte>, T: seq<Byte>, u: nat, r: Run, cov: seq<bool>) {
    && Core(t, mask, T, u, r, cov) && Tight(t, u, r)
    && (Exactly(t) ==> Complete(t, T, r, cov) && Settled(t, T, u))
    && (T in t.names ==> OnPath(t, T, u, r, cov))
    && Trails(t, T, u) && EndsMarked(t, T, u, r, cov)
  }

  /** After the text `T`, with the byte `c` read and state `u` about to make its transition. */
  ghost predicate Moving(t: Tables, mask: seq<Byte>, T: seq<Byte>, c: Byte, u: nat, r: Run, cov: seq<bool>) {
    && Core(t, mask, T, u, r, cov) && Tight(t, u, r)
    && (Exactly(t) ==> Complete(t, T, r, cov) && Beyond(t, T, u, c))
    && (T + [c] in t.names ==> OnPath(t, T, u, r, cov))
    && Trails(t, T, u)
  }

  lemma PrefixInNames(t: Tables, T: seq<Byte>, c: Byte)
    requires Ready(t)
    ensures T + [c] in t.names ==> T in t.names
  {
    if T + [c] in t.names {
      var w :| 0 <= w < |t.names| && t.names[w] == T + [c];
      assert HasParent(t.names, w);
      assert t.names[w][..|t.names[w]|-1] == T;
    }
  }

  /** Along a state, its links fall behind. */
  lemma {:induction false} LinksTrail(t: Tables, w: nat, s: nat)
    requires Ready(t) && w < |t.names| && s < |t.names| && t.names[s] <= t.names[w]
    ensures |t.names[s]| + LinkLength(t.names, t.fm, w) <= |t.names[w]| + LinkLength(t.names, t.fm, s)
    decreases |t.names[w]|
  {
    var v := t.names[w];
    assert LinkOk(t.names, w, t.fm[w]);
    if t.names[s] != v && w > 0 {
      assert HasParent(t.names, w) && HasLetter(t.names, t.bytes, w);
      var p :| 0 <= p < |t.names| && t.names[p] == v[..|v|-1];
      LinksTrail(t, p, s);
      if p > 0 { ChildLink(t, p, w); }
    } else if w > 0 {
      SameState(t.names, s, w);
    }
  }

  lemma SameState(names: seq<seq<Byte>>, s: nat, w: nat)
    requires NamesOk(names) && s < |names| && w < |names|
    ensures names[s] == names[w] ==> s == w
  {
  }

  lemma ChildLink(t: Tables, p: nat, w: nat)
    requires Ready(t) && 0 < p < |t.names| && 0 < w < |t.names| && t.names[p] == t.names[w][..|t.names[w]|-1]
    ensures LinkLength(t.names, t.fm, w) <= LinkLength(t.names, t.fm, p) + 1
  {
    var v := t.names[w];
    assert HasParent(t.names, w) && HasLetter(t.names, t.bytes, w);
    var d :| 0 <= d < |t.bytes| && t.bytes[d] == v[|v|-1];
    assert t.names[p] + [t.bytes[d]] == v;
    assert EdgeOk(t.tm[p][d], p, t.names, v, true) && v in t.names;
    SameState(t.names, t.tm[p][d], w);
    assert Falls(t.names, t.tm, t.fm, p, |t.tm[p]|);
  }

  /** Falling back, the state stays behind, or leaves the text that it was. */
  lemma FallsBehind(t: Tables, T: seq<Byte>, u: nat)
    requires Ready(t) && u < |t.names| && Trails(t, T, u)
    ensures 0 <= t.fm[u] < |t.names| && Behind(t, T, t.fm[u])
  {
    assert LinkOk(t.names, u, t.fm[u]);
    forall s: nat | BeginsWith(t, T, s)
      ensures |t.names[t.fm[u]]| + |t.names[s]| <= |T| + LinkLength(t.names, t.fm, s)
    {
      if t.names[u] == T { LinksTrail(t, u, s); }
    }
  }

  /** One more byte, which extends the state, or is no state. */
  lemma TrailsOn(t: Tables, T: seq<Byte>, c: Byte, u: nat, s: nat)
    requires Ready(t) && u < |t.names| && s < |t.names| && Trails(t, T, u) && (T + [c] in t.names ==> t.names[u] == T)
    requires t.names[s] == t.names[u] + [c] || (s == 0 == u && [c] !in t.names)
    ensures Trails(t, T + [c], s)
  {
    if t.names[u] != T || s == 0 {
      forall w: nat | BeginsWith(t, T + [c], w)
        ensures |t.names[s]| + |t.names[w]| <= |T + [c]| + LinkLength(t.names, t.fm, w)
      {
        PrefixSnoc(t.names[w], T, c);
        assert t.names[w] in t.names;
        assert BeginsWith(t, T, w) || t.names[w] == T + [c];
        if t.names[w] <= T && t.names[u] == T { LinksTrail(t, u, w); }
      }
    }
  }

  lemma StandsAtStart(t: Tables, mask: seq<Byte>)
    requires Ready(t)
    ensures Standing(t, mask, [], 0, Run([], 0, [], false), [])
  {
  }

  lemma StartsMoving(t: Tables, mask: seq<Byte>, T: seq<Byte>, c: Byte, u: nat, r: Run, cov: seq<bool>)
    requires Ready(t) && Standing(t, mask, T, u, r, cov)
    ensures Moving(t, mask, T, c, u, r, cov)
  {
    if Exactly(t) { SettledIsBeyond(t, T, u, c); }
    PrefixInNames(t, T, c);
  }

  lemma MovesRaw(t: Tables, mask: seq<Byte>, T: seq<Byte>, c: Byte, r: Run, cov: seq<bool>)
    requires Ready(t) && Moving(t, mask, T, c, 0, r, cov) && t.names[0] + [c] !in t.names
    ensures r.buf == [] && Standing(t, mask, T + [c], 0, r.(out := r.out + [c], flag := false), cov + [false])
  {
    RawByte(t, mask, T, r, cov, c);
    if Exactly(t) {
      SettleStep(t, T, 0, c, 0);
      RawByteComplete(t, T, r, cov, c);
    }
    assert [] + [c] == [c] && t.names[0] == [];
    TrailsOn(t, T, c, 0, 0);
  }

  lemma MovesKept(t: Tables, mask: seq<Byte>, T: seq<Byte>, c: Byte, u: nat, r: Run, cov: seq<bool>, s: nat)
    requires Ready(t) && Moving(t, mask, T, c, u, r, cov) && 0 < s < |t.names| && t.names[s] == t.names[u] + [c]
    ensures Standing(t, mask, T + [c], s, Kept(t, r, s, c), cov)
  {
    KeptByte(t, mask, T, u, r, cov, s, c);
    TrailsOn(t, T, c, u, s);
    if Exactly(t) {
      SettleStep(t, T, u, c, s);
      KeptByteComplete(t, mask, T, u, r, cov, s, c);
    }
  }

  /** What the loop does with the held-back bytes when it falls back to state `f`. */
  function FellBack(t: Tables, mask: seq<Byte>, r: Run, f: nat): Run
    requires f < |t.names| && |t.names[f]| <= |r.buf|
  {
    var i := |r.buf| - |t.names[f]|;
    if i >= r.mi then Flushed(mask, r, i) else r
  }

  function CovBack(t: Tables, r: Run, cov: seq<bool>, f: nat): seq<bool>
    requires f < |t.names| && |t.names[f]| <= |r.buf|
  {
    var i := |r.buf| - |t.names[f]|;
    if i >= r.mi then Written(cov, r, i) else cov
  }

  /** The link of a state is a shorter one, and a suffix of what is held back. */
  lemma LinkFacts(t: Tables, mask: seq<Byte>, T: seq<Byte>, u: nat, r: Run, cov: seq<bool>)
    requires Ready(t) && Core(t, mask, T, u, r, cov) && u > 0
    ensures 0 <= t.fm[u] < |t.names| && |t.names[t.fm[u]]| < |t.names[u]| <= |r.buf|
    ensures IsSuffix(t.names[t.fm[u]], t.names[u]) && IsSuffix(t.names[t.fm[u]], r.buf)
  {
    assert LinkOk(t.names, u, t.fm[u]) && HasParent(t.names, u);
    SuffixTrans(t.names[t.fm[u]], t.names[u], r.buf);
  }

  lemma FallsBackCore(t: Tables, mask: seq<Byte>, T: seq<Byte>, u: nat, r: Run, cov: seq<bool>, f: nat)
    requires Ready(t) && Core(t, mask, T, u, r, cov) && f < |t.names| && IsSuffix(t.names[f], t.names[u])
    requires IsSuffix(t.names[f], r.buf)
    ensures Core(t, mask, T, f, FellBack(t, mask, r, f), CovBack(t, r, cov, f)) && Tight(t, f, FellBack(t, mask, r, f))
  {
    if |r.buf| - |t.names[f]| >= r.mi { FlushCorrect(t, mask, T, u, r, cov, f); }
  }

  lemma FallsBackExactly(t: Tables, mask: seq<Byte>, T: seq<Byte>, c: Byte, u: nat, r: Run, cov: seq<bool>, f: nat)
    requires Ready(t) && Core(t, mask, T, u, r, cov) && f < |t.names| && |t.names[f]| <= |r.buf|
    requires t.names[u] + [c] !in t.names && Complete(t, T, r, cov) && Beyond(t, T, u, c) && Longest(t.names, u, f)
    ensures Complete(t, T, FellBack(t, mask, r, f), CovBack(t, r, cov, f)) && Beyond(t, T, f, c)
  {
    var i := |r.buf| - |t.names[f]|;
    if i >= r.mi { FlushComplete(t, mask, T, r, cov, i); }
    assert IsSuffix(r.buf, T);
    SuffixTrans(t.names[u], r.buf, T);
    BeyondLink(t, T, u, c, f);
  }

  lemma FallsBack(t: Tables, mask: seq<Byte>, T: seq<Byte>, c: Byte, u: nat, r: Run, cov: seq<bool>)
    requires Ready(t) && Moving(t, mask, T, c, u, r, cov) && u > 0 && t.names[u] + [c] !in t.names
    ensures 0 <= t.fm[u] < |t.names| && |t.names[t.fm[u]]| < |t.names[u]| <= |r.buf|
    ensures Moving(t, mask, T, c, t.fm[u], FellBack(t, mask, r, t.fm[u]), CovBack(t, r, cov, t.fm[u]))
  {
    LinkFacts(t, mask, T, u, r, cov);
    FallsBackCore(t, mask, T, u, r, cov, t.fm[u]);
    if Exactly(t) { FallsBackExactly(t, mask, T, c, u, r, cov, t.fm[u]); }
    assert T + [c] !in t.names;
    FallsBehind(t, T, u);
  }

  // ----- the outcome

  /** The positions covered by keywords, one by one. */
  ghost function Coverage(kws: set<seq<Byte>>, text: seq<Byte>): (cov: seq<bool>)
    ensures |cov| == |text| && forall k :: 0 <= k < |text| ==> (cov[k] <==> Covered(kws, text, k))
  {
    seq(|text|, k requires k >= 0 => Covered(kws, text, k))
  }

  lemma StandsExactly(t: Tables, mask: seq<Byte>, T: seq<Byte>, u: nat, r: Run, cov: seq<bool>)
    requires Standing(t, mask, T, u, r, cov) && Exactly(t)
    ensures cov == Coverage(t.kws, T)[..|cov|] && r.out == Render(mask, T[..|cov|], Coverage(t.kws, T)[..|cov|])
    ensures forall k :: |cov| <= k < |T| ==> (Covered(t.kws, T, k) <==> k < |cov| + r.mi)
  {
    forall k: nat | k < |T| ensures Marked(r, cov, k) <==> Covered(t.kws, T, k) {
    }
    assert forall k :: 0 <= k < |cov| ==> (cov[k] <==> Marked(r, cov, k));
    forall k | |cov| <= k < |T| ensures Covered(t.kws, T, k) <==> k < |cov| + r.mi {
      assert Marked(r, cov, k) <==> Covered(t.kws, T, k);
    }
  }

  // ----- the top of the loop

  /**
   The loop before its switch, by the state `s` and the one before it: nothing read yet (-2), a
   transition made, a transition missing (-1), or fallen back along a link (`olds` is -1).
   */
  ghost predicate AtTop(t: Tables, mask: seq<Byte>, input: seq<Byte>, pos: nat, s: int, olds: int, c: Byte, base: nat,
                        r: Run, cov: seq<bool>)
    requires pos <= |input|
  {
    && base < |t.names|
    && if s == -2 then pos == 0 && olds == 0 && base == 0 && r == Run([], 0, [], false) && cov == []
       else
         && pos > 0 && input[pos-1] == c && Moving(t, mask, input[..pos-1], c, base, r, cov)
         && if s == -1 then olds == base > 0 && t.names[base] + [c] !in t.names
            else if olds == -1 then base > 0 && t.names[base] + [c] !in t.names && base < |t.fm| && s == t.fm[base]
            else olds == base && EdgeOk(s, base, t.names, t.names[base] + [c], true)
  }

  /** Falling back shortens the state; a transition made ends the work on a byte. */
  function Weight(t: Tables, s: int, olds: int, base: nat): nat
    requires base < |t.names|
  {
    if s == -2 then 0
    else if s == -1 then 3 * |t.names[base]| + 2
    else if olds == -1 then 3 * |t.names[base]| + 1
    else 1
  }

  /** A byte is read in state `u`. */
  lemma TopAfterRead(t: Tables, mask: seq<Byte>, input: seq<Byte>, pos: nat, u: nat, r: Run, cov: seq<bool>)
    requires Ready(t) && pos < |input| && Standing(t, mask, input[..pos], u, r, cov)
    ensures |t.tm| == |t.names| && u < |t.names| && -1 <= t.cm[input[pos]] < |t.tm[u]|
    ensures AtTop(t, mask, input, pos + 1, Transfer(t, u, input[pos]), u, input[pos], u, r, cov)
  {
    TransferState(t, u, input[pos]);
    StartsMoving(t, mask, input[..pos], input[pos], u, r, cov);
  }

  lemma TopStart(t: Tables, mask: seq<Byte>, input: seq<Byte>, pos: nat, olds: int, c: Byte, base: nat, r: Run,
                 cov: seq<bool>)
    requires Ready(t) && pos <= |input| && AtTop(t, mask, input, pos, -2, olds, c, base, r, cov)
    ensures Standing(t, mask, input[..pos], 0, r, cov)
  {
    StandsAtStart(t, mask);
    assert input[..pos] == [];
  }

  lemma TopRaw(t: Tables, mask: seq<Byte>, input: seq<Byte>, pos: nat, c: Byte, base: nat, r: Run, cov: seq<bool>)
    requires Ready(t) && pos <= |input| && AtTop(t, mask, input, pos, 0, 0, c, base, r, cov)
    ensures base == 0 && Standing(t, mask, input[..pos], 0, r.(out := r.out + [c], flag := false), cov + [false])
  {
    assert input[..pos] == input[..pos-1] + [c];
    MovesRaw(t, mask, input[..pos-1], c, r, cov);
  }

  lemma TopKept(t: Tables, mask: seq<Byte>, input: seq<Byte>, pos: nat, s: int, olds: int, c: Byte, base: nat, r: Run,
                cov: seq<bool>)
    requires Ready(t) && pos <= |input| && AtTop(t, mask, input, pos, s, olds, c, base, r, cov) && s > 0 && olds >= 0
    ensures s < |t.am| == |t.names| && Standing(t, mask, input[..pos], s, Kept(t, r, s, c), cov)
  {
    assert input[..pos] == input[..pos-1] + [c];
    MovesKept(t, mask, input[..pos-1], c, base, r, cov, s);
  }

  lemma Fallen(t: Tables, mask: seq<Byte>, input: seq<Byte>, pos: nat, s: int, c: Byte, base: nat, r: Run,
               cov: seq<bool>)
    requires Ready(t) && pos <= |input| && AtTop(t, mask, input, pos, s, -1, c, base, r, cov) && s >= 0
    ensures s < |t.names| == |t.tm| == |t.dm| && t.dm[s] == |t.names[s]| < |t.names[base]| && |t.names[s]| <= |r.buf|
    ensures -1 <= t.cm[c] < |t.tm[s]|
  {
    FallsBack(t, mask, input[..pos-1], c, base, r, cov);
    TransferState(t, s, c);
  }

  lemma TopFallen(t: Tables, mask: seq<Byte>, input: seq<Byte>, pos: nat, s: int, c: Byte, base: nat, r: Run,
                  cov: seq<bool>, r': Run)
    requires Ready(t) && pos <= |input| && AtTop(t, mask, input, pos, s, -1, c, base, r, cov) && s >= 0
    requires s < |t.names| == |t.tm| && |t.names[s]| <= |r.buf| && r' == FellBack(t, mask, r, s)
    requires -1 <= t.cm[c] < |t.tm[s]|
    ensures AtTop(t, mask, input, pos, Transfer(t, s, c), s, c, s, r', CovBack(t, r, cov, s))
  {
    FallsBack(t, mask, input[..pos-1], c, base, r, cov);
    TransferState(t, s, c);
  }

  lemma TopMissing(t: Tables, mask: seq<Byte>, input: seq<Byte>, pos: nat, olds: int, c: Byte, base: nat, r: Run,
                   cov: seq<bool>)
    requires Ready(t) && pos <= |input| && AtTop(t, mask, input, pos, -1, olds, c, base, r, cov)
    ensures 0 <= olds < |t.fm| && t.fm[olds] >= 0 && AtTop(t, mask, input, pos, t.fm[olds], -1, c, base, r, cov)
  {
    assert LinkOk(t.names, olds, t.fm[olds]);
  }
}
