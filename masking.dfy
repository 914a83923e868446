/** The two loops of `md2df` that hide code blocks behind placeholders and
    bring them back (vectormd/vmd.py:24-25 and 30-31), as folds, and what
    they do to a text seen as gaps and blocks. */
module Masking {
  import opened Strings
  import opened Fences
  import opened Placeholders

  // ---------------------------------------------------------------------------
  // masking: text = text.replace(block, placeholder_i, 1) for each block

  /** The text after the first `k` rounds of the masking loop. */
  function MaskFold(s: string, blocks: seq<string>, ph: seq<string>, k: nat): string
    requires k <= |blocks| && k <= |ph|
  {
    if k == 0 then s else ReplaceFirst(MaskFold(s, blocks, ph, k - 1), blocks[k - 1], ph[k - 1])
  }

  predicate Backtickless(xs: seq<string>) {
    forall m :: 0 <= m < |xs| ==> '`' !in xs[m]
  }

  /** Where an occurrence starting in `g` would run into `y`, it shows a
      piece of the pattern that `y`'s first part `x` begins with, or that
      contains all of `x`. */
  lemma StraddleInto(g: string, x: string, y: string, pat: string, k: int)
    requires x <= y && 0 <= k < |g| < k + |pat|
    ensures OccursAt(g + y, pat, k) ==> pat[|g| - k..] <= x || x <= pat[|g| - k..]
  {
    var d := |g| - k;
    if OccursAt(g + y, pat, k) {
      var w := (g + y)[k..k + |pat|];
      assert pat[d..] == w[d..] == y[..|pat| - d];
      if |pat| - d <= |x| {
        assert x[..|pat| - d] == y[..|pat| - d];
      } else {
        assert pat[d..][..|x|] == y[..|x|] == x;
      }
    }
  }

  /** An occurrence that starts at `k` inside `x` and runs past its end
      begins with the rest of `x`. */
  lemma StraddleOut(x: string, r: string, pat: string, k: int)
    requires 0 <= k < |x| < k + |pat|
    ensures OccursAt(x + r, pat, k) ==> x[k..] <= pat
  {
    if OccursAt(x + r, pat, k) {
      assert (x + r)[k..k + |pat|][..|x| - k] == x[k..];
    }
  }

  /** The first block of a text is, at its own position, the first
      occurrence of itself in that text with any later blocks substituted. */
  lemma MaskHead(s: string, sub: seq<string>, x: string)
    requires |sub| == |CodeBlocks(s)| && FirstBlock(s).Some?
    requires sub[0] == s[FirstBlock(s).value.0..FirstBlock(s).value.1]
    ensures ReplaceFirst(Render(s, sub), sub[0], x) == Render(s, sub[0 := x])
  {
    var (p, e) := FirstBlock(s).value;
    var b := sub[0];
    var r := Render(s[e..], sub[1..]);
    var t := s[..p] + b + r;
    assert Render(s, sub) == t;
    assert Render(s, sub[0 := x]) == s[..p] + x + r by {
      assert sub[0 := x][1..] == sub[1..];
    }
    assert FenceAt(b, 0);
    assert OccursAt(t, b, p) by {
      assert t[p..p + |b|] == b;
    }
    forall j | 0 <= j < p
      ensures !OccursAt(t, b, j)
    {
      OccurrenceIsFence(t, b, j);
      assert !FenceAt(s, j);
      assert t[..p] == s[..p];
      assert j + 2 < p ==> t[j] == s[j] && t[j + 1] == s[j + 1] && t[j + 2] == s[j + 2];
      assert j + 2 >= p ==> t[j] == s[j] && t[j + 1] == s[j + 1] && t[j + 2] == s[j + 2] by {
        assert s[..e] == s[..p] + b;
      }
    }
    ReplaceFirstAt(t, b, x, p);
    assert t[..p] == s[..p];
    assert t[p + |b|..] == r;
  }

  /** Nothing before a later block can be an occurrence of it, once the
      first block has been turned into a text without backticks. */
  lemma MaskSkip(s: string, sub: seq<string>, b: string)
    requires |sub| == |CodeBlocks(s)| && FirstBlock(s).Some?
    requires '`' !in sub[0] && FenceAt(b, 0)
    ensures var (p, e) := FirstBlock(s).value;
            var a := s[..p] + sub[0];
            forall j :: 0 <= j < |a| ==> !OccursAt(a + Render(s[e..], sub[1..]), b, j)
  {
    var (p, e) := FirstBlock(s).value;
    var a := s[..p] + sub[0];
    var t := a + Render(s[e..], sub[1..]);
    forall j | 0 <= j < |a|
      ensures !OccursAt(t, b, j)
    {
      OccurrenceIsFence(t, b, j);
      if j + 2 < p {
        assert !FenceAt(s, j);
        assert t[j] == s[j] && t[j + 1] == s[j + 1] && t[j + 2] == s[j + 2];
      } else if j < p {
        GapEnd(s);
        assert t[p - 1] == s[p - 1];
        assert t[p - 1] != '`';
      } else {
        assert t[j] == sub[0][j - p];
      }
    }
  }

  /** The first remaining occurrence of block `i` is block `i` itself, as long
      as every earlier block has already been turned into a text without
      backticks. */
  lemma {:induction false} MaskStep(s: string, sub: seq<string>, i: nat, x: string)
    requires |sub| == |CodeBlocks(s)| && i < |sub|
    requires Backtickless(sub[..i]) && sub[i] == CodeBlocks(s)[i]
    ensures ReplaceFirst(Render(s, sub), CodeBlocks(s)[i], x) == Render(s, sub[i := x])
    decreases |s|
  {
    if i == 0 {
      MaskHead(s, sub, x);
    } else {
      var (p, e) := FirstBlock(s).value;
      var rest := s[e..];
      assert CodeBlocks(s) == [s[p..e]] + CodeBlocks(rest);
      TailUpdate(sub, i, x);
      MaskStep(rest, sub[1..], i - 1, x);
      MaskLater(s, sub, i, x);
    }
  }

  /** Dropping the head of a sequence moves an update and a prefix one place
      down. */
  lemma TailUpdate<T>(xs: seq<T>, i: nat, x: T)
    requires 0 < i < |xs|
    ensures xs[i := x][1..] == xs[1..][i - 1 := x]
    ensures xs[1..][..i - 1] == xs[..i][1..]
    ensures xs[1..][i - 1] == xs[i] && xs[..i][0] == xs[0]
  {
  }

  /** The step of `MaskStep` past the first block: skip the text up to the
      end of the (already masked) first block and replace in the rest. */
  lemma MaskLater(s: string, sub: seq<string>, i: nat, x: string)
    requires |sub| == |CodeBlocks(s)| && 0 < i < |sub|
    requires Backtickless(sub[..i]) && sub[i] == CodeBlocks(s)[i]
    requires FirstBlock(s).Some?
    requires var e := FirstBlock(s).value.1;
             && |sub[1..]| == |CodeBlocks(s[e..])|
             && ReplaceFirst(Render(s[e..], sub[1..]), CodeBlocks(s)[i], x)
                == Render(s[e..], sub[i := x][1..])
    ensures ReplaceFirst(Render(s, sub), CodeBlocks(s)[i], x) == Render(s, sub[i := x])
  {
    var (p, e) := FirstBlock(s).value;
    var b := CodeBlocks(s)[i];
    var a := s[..p] + sub[0];
    var r := Render(s[e..], sub[1..]);
    assert '`' !in sub[0] by {
      assert sub[..i][0] == sub[0];
    }
    assert FenceAt(b, 0);
    MaskSkip(s, sub, b);
    ReplaceFirstSkip(a, r, b, x);
    assert Render(s, sub) == a + r;
    assert Render(s, sub[i := x]) == a + Render(s[e..], sub[i := x][1..]);
  }

  /** The substitution after `k` rounds, one round on. */
  lemma SubStep<T>(ph: seq<T>, blocks: seq<T>, k: nat)
    requires 0 < k <= |ph| == |blocks|
    ensures var sub := ph[..k - 1] + blocks[k - 1..];
            && |sub| == |blocks|
            && sub[..k - 1] == ph[..k - 1]
            && sub[k - 1] == blocks[k - 1]
            && sub[k - 1 := ph[k - 1]] == ph[..k] + blocks[k..]
  {
  }

  /** After `k` rounds the first `k` blocks are placeholders, in place, and
      the rest of the text is untouched. */
  lemma {:induction false} MaskFoldRender(s: string, ph: seq<string>, k: nat)
    requires |ph| == |CodeBlocks(s)| && k <= |ph| && Backtickless(ph)
    ensures MaskFold(s, CodeBlocks(s), ph, k) == Render(s, ph[..k] + CodeBlocks(s)[k..])
  {
    var blocks := CodeBlocks(s);
    if k == 0 {
      RenderBlocks(s);
      assert ph[..0] + blocks[0..] == blocks;
    } else {
      MaskFoldRender(s, ph, k - 1);
      SubStep(ph, blocks, k);
      BackticklessPrefix(ph, k - 1);
      MaskStep(s, ph[..k - 1] + blocks[k - 1..], k - 1, ph[k - 1]);
    }
  }

  lemma BackticklessPrefix(xs: seq<string>, k: nat)
    requires Backtickless(xs) && k <= |xs|
    ensures Backtickless(xs[..k])
  {
  }

  // ---------------------------------------------------------------------------
  // restoring: sections = [x.replace(placeholder_i, block) for x in sections]

  /** `[x.replace(pat, rep) for x in xs]`. */
  function ReplaceEach(xs: seq<string>, pat: string, rep: string): (r: seq<string>)
    ensures |r| == |xs| && forall j :: 0 <= j < |xs| ==> r[j] == ReplaceAll(xs[j], pat, rep)
  {
    seq(|xs|, j requires 0 <= j < |xs| => ReplaceAll(xs[j], pat, rep))
  }

  /** The sections after the first `k` rounds of the restoring loop. */
  function RestoreFold(xs: seq<string>, blocks: seq<string>, ph: seq<string>, k: nat): (r: seq<string>)
    requires k <= |blocks| && k <= |ph|
    ensures |r| == |xs|
  {
    if k == 0 then xs else ReplaceEach(RestoreFold(xs, blocks, ph, k - 1), ph[k - 1], blocks[k - 1])
  }

  /** Round `j` of the restoring loop, on its own. */
  lemma RestoreFoldNext(xs: seq<string>, blocks: seq<string>, ph: seq<string>, j: nat, k: nat)
    requires k == j + 1 && k <= |blocks| && k <= |ph|
    ensures RestoreFold(xs, blocks, ph, k) == ReplaceEach(RestoreFold(xs, blocks, ph, j), ph[j], blocks[j])
  {
  }

  /** One text after the first `k` rounds of the restoring loop. */
  function Restore(t: string, blocks: seq<string>, ph: seq<string>, k: nat): string
    requires k <= |blocks| && k <= |ph|
  {
    if k == 0 then t else ReplaceAll(Restore(t, blocks, ph, k - 1), ph[k - 1], blocks[k - 1])
  }

  /** The restoring loop works on each section on its own. */
  lemma {:induction false} RestoreFoldEach(xs: seq<string>, blocks: seq<string>, ph: seq<string>, k: nat)
    requires k <= |blocks| && k <= |ph|
    ensures |RestoreFold(xs, blocks, ph, k)| == |xs|
    ensures forall j :: 0 <= j < |xs| ==> RestoreFold(xs, blocks, ph, k)[j] == Restore(xs[j], blocks, ph, k)
  {
    if k > 0 {
      RestoreFoldEach(xs, blocks, ph, k - 1);
    }
  }

  /** No occurrence of `pat` can start before `x` and reach into it, or start
      inside `x` and run past its end. */
  ghost predicate Sealed(x: string, pat: string) {
    && (forall d :: 0 < d < |pat| ==> !(pat[d..] <= x) && !(x <= pat[d..]))
    && (forall d :: 0 <= d < |x| && |x| - d < |pat| ==> !(x[d..] <= pat))
  }

  /** No occurrence reaches from a gap into a sealed part. */
  lemma SealedFront(g: string, x: string, r: string, pat: string)
    requires Sealed(x, pat)
    ensures NoStraddle(g, x + r, pat)
  {
    forall k | 0 <= k < |g| < k + |pat|
      ensures !OccursAt(g + (x + r), pat, k)
    {
      StraddleInto(g, x, x + r, pat, k);
    }
  }

  /** No occurrence reaches out of a sealed part. */
  lemma SealedBack(x: string, r: string, pat: string)
    requires Sealed(x, pat)
    ensures NoStraddle(x, r, pat)
  {
    forall k | 0 <= k < |x| < k + |pat|
      ensures !OccursAt(x + r, pat, k)
    {
      StraddleOut(x, r, pat, k);
    }
  }

  /** Around a part sealed against `pat`, after a gap free of `pat`,
      replacing works gap, part and rest separately. */
  lemma ReplaceAllAround(g: string, x: string, r: string, pat: string, rep: string)
    requires pat != [] && NoOccurrence(g, pat) && Sealed(x, pat)
    ensures ReplaceAll(g + x + r, pat, rep)
            == g + ReplaceAll(x, pat, rep) + ReplaceAll(r, pat, rep)
  {
    var y := x + r;
    assert g + x + r == g + y;
    SealedFront(g, x, r, pat);
    SealedBack(x, r, pat);
    calc {
      ReplaceAll(g + y, pat, rep);
      { ReplaceAllConcat(g, y, pat, rep); }
      ReplaceAll(g, pat, rep) + ReplaceAll(y, pat, rep);
      { ReplaceAllAbsent(g, pat, rep); }
      g + ReplaceAll(y, pat, rep);
      { ReplaceAllConcat(x, r, pat, rep); }
      g + (ReplaceAll(x, pat, rep) + ReplaceAll(r, pat, rep));
    }
  }

  /** Replacing all occurrences of `pat` in a text whose substituted parts
      are sealed against `pat` works part by part: the gaps hold no
      occurrence, and each substituted part is rewritten on its own. */
  lemma {:induction false} ReplaceAllRender(s: string, sub: seq<string>, pat: string, rep: string)
    requires |sub| == |CodeBlocks(s)| && pat != [] && NoOccurrence(s, pat)
    requires forall m :: 0 <= m < |sub| ==> Sealed(sub[m], pat)
    ensures ReplaceAll(Render(s, sub), pat, rep) == Render(s, ReplaceEach(sub, pat, rep))
    decreases |s|
  {
    match FirstBlock(s)
    case None =>
      ReplaceAllAbsent(s, pat, rep);
    case Some((p, e)) =>
      var rest := s[e..];
      assert CodeBlocks(s) == [s[p..e]] + CodeBlocks(rest);
      NoOccurrenceParts(s, pat);
      var sub' := ReplaceEach(sub, pat, rep);
      ReplaceAllAround(s[..p], sub[0], Render(rest, sub[1..]), pat, rep);
      ReplaceAllRender(rest, sub[1..], pat, rep);
      assert sub'[1..] == ReplaceEach(sub[1..], pat, rep);
  }

  /** Sealing stated of each section restored on its own carries over to
      the restoring loop's sections. */
  lemma SealedFold(sub: seq<string>, blocks: seq<string>, ph: seq<string>, k: nat)
    requires k < |blocks| && k < |ph|
    requires forall m :: 0 <= m < |sub| ==> Sealed(Restore(sub[m], blocks, ph, k), ph[k])
    ensures |RestoreFold(sub, blocks, ph, k)| == |sub|
    ensures forall m :: 0 <= m < |sub| ==> Sealed(RestoreFold(sub, blocks, ph, k)[m], ph[k])
  {
    RestoreFoldEach(sub, blocks, ph, k);
  }

  /** The restoring loop applied to one text whose blocks have been
      substituted works on the substituted parts as if they were sections
      of their own, provided every part stays sealed against every later
      placeholder. */
  lemma {:induction false} RestoreRender(s: string, sub: seq<string>, ph: seq<string>, k: nat)
    requires |sub| == |ph| == |CodeBlocks(s)| && k <= |ph|
    requires forall j :: 0 <= j < k ==> ph[j] != [] && NoOccurrence(s, ph[j])
    requires forall j :: 0 <= j < k ==> SectionsSealed(sub, CodeBlocks(s), ph, j)
    ensures Restore(Render(s, sub), CodeBlocks(s), ph, k)
            == Render(s, RestoreFold(sub, CodeBlocks(s), ph, k))
  {
    if k > 0 {
      RestoreRender(s, sub, ph, k - 1);
      assert SectionsSealed(sub, CodeBlocks(s), ph, k - 1);
      RestoreRenderStep(s, sub, ph, k - 1);
    }
  }

  /** After `j` rounds every section is sealed against the placeholder of
      round `j`. */
  ghost predicate SectionsSealed(sub: seq<string>, blocks: seq<string>, ph: seq<string>, j: nat) {
    && j < |blocks| && j < |ph|
    && forall m :: 0 <= m < |sub| ==> Sealed(RestoreFold(sub, blocks, ph, j)[m], ph[j])
  }

  /** One round of `RestoreRender`. */
  lemma RestoreRenderStep(s: string, sub: seq<string>, ph: seq<string>, j: nat)
    requires |sub| == |ph| == |CodeBlocks(s)| && j < |ph|
    requires ph[j] != [] && NoOccurrence(s, ph[j])
    requires SectionsSealed(sub, CodeBlocks(s), ph, j)
    requires Restore(Render(s, sub), CodeBlocks(s), ph, j)
             == Render(s, RestoreFold(sub, CodeBlocks(s), ph, j))
    ensures Restore(Render(s, sub), CodeBlocks(s), ph, j + 1)
            == Render(s, RestoreFold(sub, CodeBlocks(s), ph, j + 1))
  {
    var blocks := CodeBlocks(s);
    var prev := RestoreFold(sub, blocks, ph, j);
    var pat := ph[j];
    RestoreFoldEach(sub, blocks, ph, j);
    ReplaceAllRender(s, prev, pat, blocks[j]);
    assert RestoreFold(sub, blocks, ph, j + 1) == ReplaceEach(prev, pat, blocks[j]);
    assert Restore(Render(s, sub), blocks, ph, j + 1)
           == ReplaceAll(Restore(Render(s, sub), blocks, ph, j), pat, blocks[j]);
  }

  // ---------------------------------------------------------------------------
  // restoring section by section

  /** A pattern without newlines never straddles a seam. */
  lemma SeamNoStraddle(x: string, y: string, pat: string)
    requires Seam(x, y) && '\n' !in pat
    ensures NoStraddle(x, y, pat)
  {
    forall k | 0 <= k < |x| < k + |pat|
      ensures !OccursAt(x + y, pat, k)
    {
      if k + |pat| <= |x + y| {
        var w := (x + y)[k..k + |pat|];
        assert w[|x| - 1 - k] == x[|x| - 1];
        assert |x| < |x + y| ==> w[|x| - k] == y[0];
        assert pat[|x| - 1 - k] != '\n' && pat[|x| - k] != '\n';
      }
    }
  }

  /** In a list whose pieces meet at seams, no occurrence of a pattern
      without newlines straddles any cut between pieces. */
  lemma {:induction false} SeamsNoStraddle(xs: seq<string>, pat: string, j: nat)
    requires Seams(xs) && '\n' !in pat && j <= |xs|
    ensures Concat(xs[..j]) + Concat(xs[j..]) == Concat(xs)
    ensures NoStraddle(Concat(xs[..j]), Concat(xs[j..]), pat)
  {
    ConcatAppend(xs[..j], xs[j..]);
    assert xs[..j] + xs[j..] == xs;
    if j > 0 {
      var x, rest, i := xs[0], xs[1..], j - 1;
      SeamsNoStraddle(rest, pat, i);
      var a, b := Concat(rest[..i]), Concat(rest[i..]);
      assert xs[..j] == [x] + rest[..i];
      assert xs[j..] == rest[i..];
      assert Concat(xs[..j]) == x + a;
      SeamNoStraddle(x, Concat(rest), pat);
      NoStraddleShift(x, a, b, pat);
    }
  }

  /** A cut that no occurrence straddles stays so when a piece that no
      occurrence straddles either is put in front. */
  lemma NoStraddleShift(x: string, a: string, b: string, pat: string)
    requires NoStraddle(a, b, pat) && NoStraddle(x, a + b, pat)
    ensures NoStraddle(x + a, b, pat)
  {
    forall k | 0 <= k < |x + a| < k + |pat|
      ensures !OccursAt(x + a + b, pat, k)
    {
      assert x + a + b == x + (a + b);
      if k >= |x| {
        OccursAtShift(x, a + b, pat, k - |x|);
      }
    }
  }

  /** In a list whose pieces meet at seams, every occurrence of a pattern
      without newlines lies whole inside one piece. */
  lemma {:induction false} OccursInPiece(xs: seq<string>, pat: string, q: nat)
    requires Seams(xs) && '\n' !in pat && pat != [] && OccursAt(Concat(xs), pat, q)
    ensures exists j, k :: 0 <= j < |xs| && OccursAt(xs[j], pat, k)
    decreases |xs|
  {
    var x, rest := xs[0], xs[1..];
    assert Concat(xs) == x + Concat(rest);
    SeamNoStraddle(x, Concat(rest), pat);
    if q < |x| {
      assert (x + Concat(rest))[q..q + |pat|] == x[q..q + |pat|];
      assert OccursAt(xs[0], pat, q);
    } else {
      OccursAtShift(x, Concat(rest), pat, q - |x|);
      OccursInPiece(rest, pat, q - |x|);
      var j, k :| 0 <= j < |rest| && OccursAt(rest[j], pat, k);
      assert xs[j + 1] == rest[j];
    }
  }

  /** After `j` rounds placeholder `i` is sealed against the placeholder of
      round `j`. */
  ghost predicate SealedInRound(blocks: seq<string>, ph: seq<string>, i: nat, j: nat) {
    && j < |blocks| && j < |ph| && i < |ph|
    && ph[j] != [] && Sealed(Restore(ph[i], blocks, ph, j), ph[j])
  }

  /** A placeholder that stays sealed in every round is restored on its own,
      apart from the texts on either side of it. */
  lemma {:induction false} RestoreAround(g: string, i: nat, r: string,
                                         blocks: seq<string>, ph: seq<string>, k: nat)
    requires k <= |blocks| && k <= |ph| && i < |ph|
    requires forall j :: 0 <= j < k ==> SealedInRound(blocks, ph, i, j)
    ensures Restore(g + ph[i] + r, blocks, ph, k)
            == Restore(g, blocks, ph, k) + Restore(ph[i], blocks, ph, k) + Restore(r, blocks, ph, k)
  {
    if k > 0 {
      RestoreAround(g, i, r, blocks, ph, k - 1);
      assert SealedInRound(blocks, ph, i, k - 1);
      ReplaceAround(Restore(g, blocks, ph, k - 1), Restore(ph[i], blocks, ph, k - 1),
                    Restore(r, blocks, ph, k - 1), ph[k - 1], blocks[k - 1]);
    }
  }

  /** Replacing all occurrences of `pat` around a part sealed against it
      works on the part and on either side of it separately. */
  lemma ReplaceAround(a: string, x: string, b: string, pat: string, rep: string)
    requires pat != [] && Sealed(x, pat)
    ensures ReplaceAll(a + x + b, pat, rep)
            == ReplaceAll(a, pat, rep) + ReplaceAll(x, pat, rep) + ReplaceAll(b, pat, rep)
  {
    SealedFront(a, x, b, pat);
    SealedBack(x, b, pat);
    AppendAssoc(a, x, b);
    ReplaceAllConcat(a, x + b, pat, rep);
    ReplaceAllConcat(x, b, pat, rep);
    AppendAssoc(ReplaceAll(a, pat, rep), ReplaceAll(x, pat, rep), ReplaceAll(b, pat, rep));
  }

  /** A text is what comes before an occurrence, the occurrence, and what
      comes after it. */
  lemma AroundOccurrence(x: string, pat: string, k: nat)
    requires OccursAt(x, pat, k)
    ensures x == x[..k] + pat + x[k + |pat|..]
  {
    assert x == x[..k] + x[k..k + |pat|] + x[k + |pat|..];
  }

  /** A text holding a placeholder that every round leaves sealed and the
      last round turns into its block comes back with that block where the
      placeholder was. */
  lemma RestoreHolding(x: string, i: nat, k: nat, blocks: seq<string>, ph: seq<string>)
    requires |blocks| == |ph| && i < |ph| && OccursAt(x, ph[i], k)
    requires forall j :: 0 <= j < |ph| ==> SealedInRound(blocks, ph, i, j)
    requires Restore(ph[i], blocks, ph, |ph|) == blocks[i]
    ensures Restore(x, blocks, ph, |ph|)
            == Restore(x[..k], blocks, ph, |ph|) + blocks[i] + Restore(x[k + |ph[i]|..], blocks, ph, |ph|)
  {
    AroundOccurrence(x, ph[i], k);
    RestoreAround(x[..k], i, x[k + |ph[i]|..], blocks, ph, |ph|);
  }

  /** Replacing a pattern without newlines keeps a newline at either end,
      and the empty text empty. */
  lemma ReplaceAllKeepsNewlines(t: string, pat: string, rep: string)
    requires pat != [] && '\n' !in pat
    ensures var r := ReplaceAll(t, pat, rep);
            && (t == [] ==> r == [])
            && (t != [] && t[0] == '\n' ==> r != [] && r[0] == '\n')
            && (t != [] && t[|t| - 1] == '\n' ==> r != [] && r[|r| - 1] == '\n')
  {
    if t != [] && t[0] == '\n' && |t| >= |pat| {
      assert t[..|pat|][0] == '\n' != pat[0];
    }
    if t != [] && t[|t| - 1] == '\n' {
      ReplaceAllKeepsLastNewline(t, pat, rep);
    }
  }

  lemma {:induction false} ReplaceAllKeepsLastNewline(t: string, pat: string, rep: string)
    requires pat != [] && '\n' !in pat
    requires t != [] && t[|t| - 1] == '\n'
    ensures var r := ReplaceAll(t, pat, rep); r != [] && r[|r| - 1] == '\n'
    decreases |t|
  {
    if |t| >= |pat| {
      if t[..|pat|] == pat {
        assert t[|pat| - 1] == pat[|pat| - 1] != '\n';
        var u := t[|pat|..];
        assert u[|u| - 1] == t[|t| - 1];
        ReplaceAllKeepsLastNewline(u, pat, rep);
      } else if |t| > 1 {
        var u := t[1..];
        assert u[|u| - 1] == t[|t| - 1];
        ReplaceAllKeepsLastNewline(u, pat, rep);
      } else {
        assert ReplaceAll(t[1..], pat, rep) == [];
      }
    }
  }

  /** Replacing in each piece of a list whose pieces meet at seams is
      replacing in the whole text, and the seams stay. */
  lemma {:induction false} ReplaceEachSeams(xs: seq<string>, pat: string, rep: string)
    requires pat != [] && '\n' !in pat && Seams(xs)
    ensures Concat(ReplaceEach(xs, pat, rep)) == ReplaceAll(Concat(xs), pat, rep)
    ensures Seams(ReplaceEach(xs, pat, rep))
  {
    var ys := ReplaceEach(xs, pat, rep);
    if xs == [] {
      ReplaceAllKeepsNewlines([], pat, rep);
    } else {
      var x, rest := xs[0], xs[1..];
      var y := Concat(rest);
      assert ys[1..] == ReplaceEach(rest, pat, rep);
      assert Seams(rest) && (|xs| > 1 ==> Seam(x, y));
      if |xs| == 1 {
        assert y == [];
        ReplaceAllKeepsNewlines([], pat, rep);
      }
      ReplaceEachSeams(rest, pat, rep);
      SeamNoStraddle(x, y, pat);
      ReplaceAllConcat(x, y, pat, rep);
      ReplaceAllKeepsNewlines(x, pat, rep);
      ReplaceAllKeepsNewlines(y, pat, rep);
    }
  }

  /** The restoring loop run over pieces that meet at seams restores their
      concatenation, as long as no placeholder holds a newline. */
  lemma {:induction false} RestoreFoldConcat(xs: seq<string>, blocks: seq<string>, ph: seq<string>, k: nat)
    requires k <= |blocks| && k <= |ph| && Seams(xs)
    requires forall j :: 0 <= j < k ==> ph[j] != [] && '\n' !in ph[j]
    ensures Concat(RestoreFold(xs, blocks, ph, k)) == Restore(Concat(xs), blocks, ph, k)
    ensures Seams(RestoreFold(xs, blocks, ph, k))
  {
    if k > 0 {
      RestoreFoldConcat(xs, blocks, ph, k - 1);
      ReplaceEachSeams(RestoreFold(xs, blocks, ph, k - 1), ph[k - 1], blocks[k - 1]);
    }
  }

  // ---------------------------------------------------------------------------
  // when restoring undoes masking

  /** A code block is sealed against any pattern without backticks: every
      occurrence reaching into it or out of it would contain a backtick. */
  lemma BlockSealed(b: string, pat: string)
    requires IsCodeBlock(b) && '`' !in pat
    ensures Sealed(b, pat)
  {
    forall d | 0 < d < |pat|
      ensures !(pat[d..] <= b) && !(b <= pat[d..])
    {
      assert pat[d..][0] == pat[d] != '`';
    }
    forall d | 0 <= d < |b| && |b| - d < |pat|
      ensures !(b[d..] <= pat)
    {
      assert b[d..][|b| - d - 1] == b[|b| - 1] == '`';
      assert pat[|b| - d - 1] != '`';
    }
  }

  /** A placeholder lines up with another placeholder only at the start:
      the only `C` after the first character is the one of `BLOCK`, which is
      followed by `K` where a placeholder has `O`. */
  lemma ShapedNoOverlap(x: string, y: string, d: int)
    requires Shaped(x) && Shaped(y) && 0 < d < |x|
    ensures !(x[d..] <= y) && !(y <= x[d..])
  {
    ShapedChars(x);
    ShapedChars(y);
    if x[d] == 'C' {
      assert x[d..][1] == x[9];
    }
  }

  /** Two placeholders neither of which is a proper prefix of the other are
      sealed against each other. */
  lemma ShapedSealed(x: string, pat: string)
    requires Shaped(x) && Shaped(pat)
    requires |x| < |pat| ==> !(x <= pat)
    ensures Sealed(x, pat)
  {
    forall d | 0 < d < |pat|
      ensures !(pat[d..] <= x) && !(x <= pat[d..])
    {
      ShapedNoOverlap(pat, x, d);
    }
    forall d | 0 < d < |x|
      ensures !(x[d..] <= pat)
    {
      ShapedNoOverlap(x, pat, d);
    }
    assert x[0..] == x;
  }

  /** A placeholder occurs inside another only as a prefix of it. */
  lemma ShapedOccurrence(x: string, pat: string)
    requires Shaped(x) && Shaped(pat) && !(pat <= x)
    ensures NoOccurrence(x, pat)
  {
    forall k | 0 <= k < |x|
      ensures !OccursAt(x, pat, k)
    {
      OccursAtPrefix(x, pat, k);
      if k > 0 {
        ShapedNoOverlap(x, pat, k);
      } else {
        assert x[0..] == x;
      }
    }
  }

  /** An occurrence at `k` is a prefix of what follows `k`. */
  lemma OccursAtPrefix(x: string, pat: string, k: int)
    requires 0 <= k <= |x|
    ensures OccursAt(x, pat, k) ==> pat <= x[k..]
  {
    if OccursAt(x, pat, k) {
      assert x[k..][..|pat|] == x[k..k + |pat|];
    }
  }

  /** A family of placeholders that can be restored in increasing order:
      every one is shaped, and no two are prefixes of one another. */
  ghost predicate PrefixFree(ph: seq<string>) {
    && (forall i :: 0 <= i < |ph| ==> Shaped(ph[i]))
    && (forall i, m :: 0 <= i < |ph| && 0 <= m < |ph| && i != m ==> !(ph[i] <= ph[m]))
  }

  /** After `k` rounds a placeholder below `k` has become its block and the
      others are still waiting, as long as no earlier placeholder is a prefix
      of it. */
  lemma {:induction false} RestorePlaceholder(blocks: seq<string>, ph: seq<string>, m: nat, k: nat)
    requires |ph| == |blocks| && k <= |ph| && m < |ph|
    requires forall j :: 0 <= j < |ph| ==> Shaped(ph[j])
    requires forall j :: 0 <= j < k && j != m ==> !(ph[j] <= ph[m])
    requires forall i, j :: 0 <= i < |blocks| && 0 <= j < |ph| ==> NoOccurrence(blocks[i], ph[j])
    ensures Restore(ph[m], blocks, ph, k) == if m < k then blocks[m] else ph[m]
  {
    if k > 0 {
      RestorePlaceholder(blocks, ph, m, k - 1);
      var pat := ph[k - 1];
      if m < k - 1 {
        ReplaceAllAbsent(blocks[m], pat, blocks[k - 1]);
      } else if m == k - 1 {
        ReplaceAllWhole(pat, blocks[k - 1]);
      } else {
        ShapedOccurrence(ph[m], pat);
        ReplaceAllAbsent(ph[m], pat, blocks[k - 1]);
      }
    }
  }

  /** No occurrence of a text means none of anything that starts with it. */
  lemma NoOccurrenceExtend(s: string, pre: string, pat: string)
    requires pre <= pat && NoOccurrence(s, pre)
    ensures NoOccurrence(s, pat)
  {
    forall k | OccursAt(s, pat, k)
      ensures OccursAt(s, pre, k)
    {
      assert s[k..k + |pre|] == s[k..k + |pat|][..|pre|];
    }
  }

  /** The conditions under which restoring in increasing order is exact: the
      placeholders are prefix-free and the text never spells out the common
      placeholder prefix. */
  ghost predicate RoundTrips(s: string, ph: seq<string>) {
    && |ph| == |CodeBlocks(s)|
    && PrefixFree(ph)
    && NoOccurrence(s, Prefix)
  }

  /** Under `RoundTrips`, no placeholder occurs in the text or in any of its
      blocks, and none holds a backtick. */
  lemma RoundTripsAbsent(s: string, ph: seq<string>)
    requires RoundTrips(s, ph)
    ensures Backtickless(ph)
    ensures forall i :: 0 <= i < |ph| ==> ph[i] != [] && NoOccurrence(s, ph[i])
    ensures forall i, j :: 0 <= i < |ph| && 0 <= j < |ph| ==> NoOccurrence(CodeBlocks(s)[i], ph[j])
  {
    var blocks := CodeBlocks(s);
    forall j | 0 <= j < |ph|
      ensures '`' !in ph[j] && ph[j] != [] && Prefix <= ph[j]
    {
      ShapedChars(ph[j]);
      assert ph[j][..|Prefix|] == Prefix;
    }
    forall j | 0 <= j < |ph|
      ensures NoOccurrence(s, ph[j])
    {
      NoOccurrenceExtend(s, Prefix, ph[j]);
    }
    NoOccurrenceBlocks(s, Prefix);
    forall i, j | 0 <= i < |ph| && 0 <= j < |ph|
      ensures NoOccurrence(blocks[i], ph[j])
    {
      NoOccurrenceExtend(blocks[i], Prefix, ph[j]);
    }
  }

  /** Under `RoundTrips`, every section of the restoring loop, started from
      the placeholders themselves, stays sealed against the next
      placeholder. */
  lemma RoundTripsSealed(s: string, ph: seq<string>)
    requires RoundTrips(s, ph)
    ensures forall j, m :: 0 <= j < |ph| && 0 <= m < |ph| ==>
              Sealed(RestoreFold(ph, CodeBlocks(s), ph, j)[m], ph[j])
  {
    var blocks := CodeBlocks(s);
    RoundTripsAbsent(s, ph);
    forall j, m | 0 <= j < |ph| && 0 <= m < |ph|
      ensures Sealed(RestoreFold(ph, blocks, ph, j)[m], ph[j])
    {
      RestoreFoldEach(ph, blocks, ph, j);
      RestorePlaceholder(blocks, ph, m, j);
      if m < j {
        BlockSealed(blocks[m], ph[j]);
      } else {
        ShapedSealed(ph[m], ph[j]);
      }
    }
  }

  /** The source's own placeholders are prefix-free for up to ten blocks:
      their numbers then all have one digit. */
  lemma PlaceholdersPrefixFree(n: nat)
    requires n <= 10
    ensures PrefixFree(NumberedPlaceholders(n))
  {
    var ph := NumberedPlaceholders(n);
    forall i | 0 <= i < n
      ensures Shaped(ph[i])
    {
      PlaceholderShaped(i);
    }
    forall i, m | 0 <= i < n && 0 <= m < n && i != m
      ensures !(ph[i] <= ph[m])
    {
      OneDigitIncomparable(i, m);
    }
  }

  /** From eleven blocks on they are not: `CODE_BLOCK_1` is a prefix of
      `CODE_BLOCK_10`. */
  lemma PlaceholdersNotPrefixFree(n: nat)
    requires n >= 11
    ensures !PrefixFree(NumberedPlaceholders(n))
  {
    OneIsPrefixOfTen();
    assert NumberedPlaceholders(n)[1] <= NumberedPlaceholders(n)[10];
  }

  /** Terminated placeholders are prefix-free for any number of blocks. */
  lemma TerminatedPrefixFree(n: nat)
    ensures PrefixFree(TerminatedPlaceholders(n))
  {
    var ph := TerminatedPlaceholders(n);
    forall i | 0 <= i < n
      ensures Shaped(ph[i])
    {
      PlaceholderShaped(i);
    }
    forall i, m | 0 <= i < n && 0 <= m < n && i != m
      ensures !(ph[i] <= ph[m])
    {
      TerminatedIncomparable(i, m);
    }
  }

  /** Masking every block and restoring them leaves the text with, in place
      of each block, what the restoring loop makes of its placeholder, as
      long as no placeholder has a backtick or occurs in the text and every
      section stays sealed against the next placeholder. */
  lemma MaskThenRestore(s: string, ph: seq<string>)
    requires |ph| == |CodeBlocks(s)| && Backtickless(ph)
    requires forall j :: 0 <= j < |ph| ==> ph[j] != [] && NoOccurrence(s, ph[j])
    requires forall j, m :: 0 <= j < |ph| && 0 <= m < |ph| ==>
               Sealed(RestoreFold(ph, CodeBlocks(s), ph, j)[m], ph[j])
    ensures var blocks := CodeBlocks(s); var n := |blocks|;
            Restore(MaskFold(s, blocks, ph, n), blocks, ph, n)
            == Render(s, RestoreFold(ph, blocks, ph, n))
  {
    var blocks := CodeBlocks(s);
    var n := |blocks|;
    MaskFoldRender(s, ph, n);
    assert ph[..n] + blocks[n..] == ph;
    RestoreRender(s, ph, ph, n);
  }

  /** Restoring a text in which every block has been masked gives back the
      original text. */
  lemma RestoreUndoesMask(s: string, ph: seq<string>)
    requires RoundTrips(s, ph)
    ensures var blocks := CodeBlocks(s); var n := |blocks|;
            Restore(MaskFold(s, blocks, ph, n), blocks, ph, n) == s
  {
    RoundTripsAbsent(s, ph);
    RoundTripsSealed(s, ph);
    MaskThenRestore(s, ph);
    RestoredBlocks(s, ph);
    RenderBlocks(s);
  }

  /** Under `RoundTrips`, the restoring loop turns the placeholders into the
      blocks. */
  lemma RestoredBlocks(s: string, ph: seq<string>)
    requires RoundTrips(s, ph)
    ensures RestoreFold(ph, CodeBlocks(s), ph, |ph|) == CodeBlocks(s)
  {
    var blocks := CodeBlocks(s);
    RoundTripsAbsent(s, ph);
    RestoreFoldEach(ph, blocks, ph, |ph|);
    forall m | 0 <= m < |ph|
      ensures RestoreFold(ph, blocks, ph, |ph|)[m] == blocks[m]
    {
      RestorePlaceholder(blocks, ph, m, |ph|);
    }
  }

  /** The source's own masking and restoring loops give back the text when
      it has at most ten code blocks and never spells out `CODE_BLOCK_`. */
  lemma AsWrittenRoundTrip(s: string)
    requires |CodeBlocks(s)| <= 10 && NoOccurrence(s, Prefix)
    ensures var blocks := CodeBlocks(s); var n := |blocks|; var ph := NumberedPlaceholders(n);
            Restore(MaskFold(s, blocks, ph, n), blocks, ph, n) == s
  {
    PlaceholdersPrefixFree(|CodeBlocks(s)|);
    RestoreUndoesMask(s, NumberedPlaceholders(|CodeBlocks(s)|));
  }

  /** With terminated placeholders the loops give back the text whatever the
      number of code blocks. */
  lemma TerminatedRoundTrip(s: string)
    requires NoOccurrence(s, Prefix)
    ensures var blocks := CodeBlocks(s); var n := |blocks|; var ph := TerminatedPlaceholders(n);
            Restore(MaskFold(s, blocks, ph, n), blocks, ph, n) == s
  {
    TerminatedPrefixFree(|CodeBlocks(s)|);
    RestoreUndoesMask(s, TerminatedPlaceholders(|CodeBlocks(s)|));
  }
}
