/**
 Keyword occurrences in a text, which of its positions they cover, and the masked text.  Nothing
 in this module knows about automata.
 */
module Keywords {
  import opened Bytes

  predicate OccursAt(kw: seq<Byte>, text: seq<Byte>, j: nat) { j + |kw| <= |text| && text[j..j+|kw|] == kw }

  /** Position `k` of the text lies in an occurrence of a keyword. */
  ghost predicate Covered(kws: set<seq<Byte>>, text: seq<Byte>, k: nat) {
    exists kw, j: nat :: kw in kws && j <= k < j + |kw| && OccursAt(kw, text, j)
  }

  /** No keyword occurs in another one but at its very beginning. */
  ghost predicate NoInner(kws: set<seq<Byte>>) {
    forall kw, other, j: nat :: kw in kws && other in kws && OccursAt(kw, other, j) && kw != [] ==> j == 0
  }

  ghost predicate IsPrefixOfSome(w: seq<Byte>, kws: set<seq<Byte>>) { exists kw :: kw in kws && w <= kw }

  /** A beginning of a keyword, but none itself, that ends with a keyword. */
  ghost predicate HidesKeyword(kws: set<seq<Byte>>, p: seq<Byte>) {
    IsPrefixOfSome(p, kws) && p !in kws && exists kw :: kw in kws && kw != [] && IsSuffix(kw, p)
  }

  /** Every beginning of a keyword that ends with a keyword is one. */
  ghost predicate SuffixClosed(kws: set<seq<Byte>>) { forall p :: !HidesKeyword(kws, p) }

  // ----- where the beginnings of keywords fork

  /** Two keywords that agree in their first two bytes are prefixes of one another. */
  ghost predicate NoLateFork(kws: set<seq<Byte>>) {
    forall w, a, b: Byte ::
      |w| > 1 && IsPrefixOfSome(w + [a], kws) && IsPrefixOfSome(w + [b], kws) ==> a == b
  }

  /** Keywords go on behind `r` with the byte numbered `c`, and also with the later one numbered `d`. */
  ghost predicate ForksAt(kws: set<seq<Byte>>, bytes: seq<Byte>, r: seq<Byte>, c: nat, d: nat) {
    r != [] && c < d < |bytes| && IsPrefixOfSome(r + [bytes[c]], kws) && IsPrefixOfSome(r + [bytes[d]], kws)
  }

  /** A keyword begins with a proper suffix `y` of `r` and goes on with `b`. */
  ghost predicate LandsAt(kws: set<seq<Byte>>, r: seq<Byte>, b: Byte, y: seq<Byte>) {
    IsSuffix(y, r) && |y| < |r| && IsPrefixOfSome(y + [b], kws)
  }

  ghost predicate NoLongerLanding(kws: set<seq<Byte>>, r: seq<Byte>, b: Byte, y: seq<Byte>) {
    forall z :: LandsAt(kws, r, b, z) ==> |z| <= |y|
  }

  /** The longest landing for `e` is empty, or shorter than that for `b`. */
  ghost predicate LandsLower(kws: set<seq<Byte>>, r: seq<Byte>, b: Byte, e: Byte) {
    forall y :: LandsAt(kws, r, e, y) && y != [] ==> !NoLongerLanding(kws, r, b, y)
  }

  /** At every fork, the landings get shorter from each byte to the next in the order of `bytes`. */
  ghost predicate Declining(kws: set<seq<Byte>>, bytes: seq<Byte>) {
    forall r, c: nat, d: nat {:trigger ForksAt(kws, bytes, r, c, d)} ::
      ForksAt(kws, bytes, r, c, d) ==> LandsLower(kws, r, bytes[c], bytes[d])
  }

  /** A keyword begins with `y` and goes on with `rest`, but no landing for the earlier byte is longer than `y`. */
  ghost predicate DropsAt(kws: set<seq<Byte>>, bytes: seq<Byte>, r: seq<Byte>, c: nat, d: nat, y: seq<Byte>,
                          rest: seq<Byte>) {
    && ForksAt(kws, bytes, r, c, d) && LandsAt(kws, r, bytes[d], y) && y != []
    && NoLongerLanding(kws, r, bytes[c], y)
    && y + [bytes[d]] + rest in kws
  }

  /**
   The input ends with a keyword that begins inside the beginning of another, at a fork where landings
   do not decline.
   */
  ghost predicate Drops(kws: set<seq<Byte>>, bytes: seq<Byte>, input: seq<Byte>) {
    exists r, c: nat, d: nat, y, rest :: DropsAt(kws, bytes, r, c, d, y, rest) && input == r + [bytes[d]] + rest
  }

  lemma DropsIff(kws: set<seq<Byte>>, bytes: seq<Byte>)
    ensures (exists input :: Drops(kws, bytes, input)) <==> !Declining(kws, bytes)
  {
    if !Declining(kws, bytes) { var input := Dropped(kws, bytes); }
    if input :| Drops(kws, bytes, input) { DropsNotDeclining(kws, bytes, input); }
  }

  lemma Dropped(kws: set<seq<Byte>>, bytes: seq<Byte>) returns (input: seq<Byte>)
    requires !Declining(kws, bytes)
    ensures Drops(kws, bytes, input)
  {
    var r, c: nat, d: nat :| ForksAt(kws, bytes, r, c, d) && !LandsLower(kws, r, bytes[c], bytes[d]);
    var y, rest := DroppedFrom(kws, r, bytes[c], bytes[d]);
    assert DropsAt(kws, bytes, r, c, d, y, rest);
    input := r + [bytes[d]] + rest;
  }

  lemma DroppedFrom(kws: set<seq<Byte>>, r: seq<Byte>, b: Byte, e: Byte) returns (y: seq<Byte>, rest: seq<Byte>)
    requires !LandsLower(kws, r, b, e)
    ensures LandsAt(kws, r, e, y) && y != [] && NoLongerLanding(kws, r, b, y) && y + [e] + rest in kws
  {
    y :| LandsAt(kws, r, e, y) && y != [] && NoLongerLanding(kws, r, b, y);
    rest := Rest(kws, y + [e]);
  }

  lemma Rest(kws: set<seq<Byte>>, w: seq<Byte>) returns (rest: seq<Byte>)
    requires IsPrefixOfSome(w, kws)
    ensures w + rest in kws
  {
    var kw :| kw in kws && w <= kw;
    rest := kw[|w|..];
    assert kw == w + rest;
  }

  lemma DropsNotDeclining(kws: set<seq<Byte>>, bytes: seq<Byte>, input: seq<Byte>)
    requires Drops(kws, bytes, input)
    ensures !Declining(kws, bytes)
  {
    var r, c: nat, d: nat, y, rest :| DropsAt(kws, bytes, r, c, d, y, rest) && input == r + [bytes[d]] + rest;
    assert ForksAt(kws, bytes, r, c, d) && LandsAt(kws, r, bytes[d], y);
    assert !LandsLower(kws, r, bytes[c], bytes[d]);
  }

  /** Behind a single byte, any fork will do. */
  lemma NoLateForkDeclines(kws: set<seq<Byte>>, bytes: seq<Byte>)
    requires NoLateFork(kws) && forall i, j :: 0 <= i < j < |bytes| ==> bytes[i] != bytes[j]
    ensures Declining(kws, bytes)
  {
  }

  /** The text with one `mask` for every maximal run of positions marked in `cov`. */
  function Render(mask: seq<Byte>, text: seq<Byte>, cov: seq<bool>): seq<Byte>
    requires |text| == |cov|
  {
    if text == [] then []
    else
      var k := |text| - 1;
      var before := Render(mask, text[..k], cov[..k]);
      if !cov[k] then before + [text[k]]
      else if k > 0 && cov[k-1] then before
      else before + mask
  }

  predicate LastMarked(cov: seq<bool>) { cov != [] && cov[|cov|-1] }

  lemma {:induction false} RenderRaw(mask: seq<Byte>, text: seq<Byte>, cov: seq<bool>, more: seq<Byte>)
    requires |text| == |cov|
    ensures Render(mask, text + more, cov + Repeat(false, |more|)) == Render(mask, text, cov) + more
    decreases |more|
  {
    if more == [] {
      assert text + more == text && cov + Repeat(false, 0) == cov;
    } else {
      var k := |more| - 1;
      var t, c := text + more, cov + Repeat(false, |more|);
      assert t[..|t|-1] == text + more[..k] && c[..|t|-1] == cov + Repeat(false, k);
      RenderRaw(mask, text, cov, more[..k]);
      assert more == more[..k] + [more[k]];
    }
  }

  lemma {:induction false} RenderMasked(mask: seq<Byte>, text: seq<Byte>, cov: seq<bool>, more: seq<Byte>)
    requires |text| == |cov| && more != []
    ensures Render(mask, text + more, cov + Repeat(true, |more|)) ==
      Render(mask, text, cov) + (if LastMarked(cov) then [] else mask)
    decreases |more|
  {
    var k := |more| - 1;
    var t, c := text + more, cov + Repeat(true, |more|);
    assert t[..|t|-1] == text + more[..k] && c[..|t|-1] == cov + Repeat(true, k);
    if k == 0 {
      assert text + more[..0] == text && cov + Repeat(true, 0) == cov;
    } else {
      RenderMasked(mask, text, cov, more[..k]);
    }
  }

  function Repeat(b: bool, n: nat): (r: seq<bool>)
    ensures |r| == n && forall k :: 0 <= k < n ==> r[k] == b
  {
    seq(n, _ => b)
  }

  // ----- coverage grows with the text

  lemma CoveredGrows(kws: set<seq<Byte>>, text: seq<Byte>, more: seq<Byte>, k: nat)
    requires Covered(kws, text, k)
    ensures Covered(kws, text + more, k)
  {
    var kw, j: nat :| kw in kws && j <= k < j + |kw| && OccursAt(kw, text, j);
    assert (text + more)[j..j+|kw|] == text[j..j+|kw|];
    assert OccursAt(kw, text + more, j);
  }

  lemma OccursBefore(kw: seq<Byte>, text: seq<Byte>, c: Byte, j: nat)
    requires OccursAt(kw, text + [c], j)
    ensures j + |kw| <= |text| ==> OccursAt(kw, text, j)
  {
    if j + |kw| <= |text| { assert text[j..j+|kw|] == (text + [c])[j..j+|kw|]; }
  }

  /** What one more byte covers: the old positions, and those of keywords that end with it. */
  lemma CoveredByOneMore(kws: set<seq<Byte>>, text: seq<Byte>, c: Byte, k: nat) returns (kw: seq<Byte>)
    requires Covered(kws, text + [c], k) && !Covered(kws, text, k)
    ensures kw in kws && IsSuffix(kw, text + [c]) && |text| + 1 - |kw| <= k < |text| + 1
  {
    var t := text + [c];
    var w, j: nat :| w in kws && j <= k < j + |w| && OccursAt(w, t, j);
    OccursBefore(w, text, c, j);
    kw := w;
    assert t[j..j+|w|] == t[|t|-|w|..];
  }

  lemma SuffixCovers(kws: set<seq<Byte>>, text: seq<Byte>, kw: seq<Byte>, k: nat)
    requires kw in kws && IsSuffix(kw, text) && |text| - |kw| <= k < |text|
    ensures Covered(kws, text, k)
  {
    assert OccursAt(kw, text, |text| - |kw|);
  }

  lemma SuffixOccurs(kw: seq<Byte>, p: seq<Byte>, other: seq<Byte>)
    requires IsSuffix(kw, p) && p <= other
    ensures OccursAt(kw, other, |p| - |kw|)
  {
    assert other[|p|-|kw|..|p|] == kw;
  }

  /** Where no keyword occurs inside another, none is hidden in the beginning of another. */
  lemma NoInnerIsSuffixClosed(kws: set<seq<Byte>>)
    requires NoInner(kws)
    ensures SuffixClosed(kws)
  {
    forall p ensures !HidesKeyword(kws, p) {
      if HidesKeyword(kws, p) {
        var other :| other in kws && p <= other;
        var kw :| kw in kws && kw != [] && IsSuffix(kw, p);
        SuffixOccurs(kw, p, other);
        WholeSuffix(kw, p);
      }
    }
  }
}
