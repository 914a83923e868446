/** `md2df` (vectormd/vmd.py:21-41): a markdown text becomes a table of
    (heading, content) pairs. Code blocks are masked by placeholders so that
    nothing inside them is taken for a heading, the masked text is split at
    heading lines, the pieces are stripped and the blank ones dropped, the
    blocks are put back, and the pieces at even positions are paired with
    the pieces at odd positions. */
module Sectionizer {
  import opened Strings
  import opened Fences
  import opened Placeholders
  import opened Masking
  import opened Headings

  /** One row of the table. */
  datatype Section = Section(heading: string, content: string)

  /** Building the table from columns of different lengths fails; the
      column lengths are kept. */
  datatype Error = LengthMismatch(headings: nat, contents: nat)

  datatype Result<T> = Ok(value: T) | Err(error: Error)

  // ---------------------------------------------------------------------------
  // stripping and dropping blank pieces (line 28)

  /** `[x.strip() for x in xs if x.strip()]`. */
  function KeepNonBlank(xs: seq<string>): (r: seq<string>)
    ensures |r| <= |xs|
  {
    if xs == [] then []
    else if Strip(xs[0]) == [] then KeepNonBlank(xs[1..])
    else [Strip(xs[0])] + KeepNonBlank(xs[1..])
  }

  /** Every piece is stripped and non-empty. */
  predicate AllStripped(xs: seq<string>) {
    forall i :: 0 <= i < |xs| ==> xs[i] != [] && Stripped(xs[i])
  }

  /** Every kept piece is stripped and non-empty. */
  lemma {:induction false} KeepStripped(xs: seq<string>)
    ensures AllStripped(KeepNonBlank(xs))
  {
    if xs != [] {
      KeepStripped(xs[1..]);
      var t := KeepNonBlank(xs[1..]);
      if Strip(xs[0]) != [] {
        StrippedCons(Strip(xs[0]), t);
      }
    }
  }

  lemma StrippedCons(x: string, t: seq<string>)
    requires x != [] && Stripped(x) && AllStripped(t)
    ensures AllStripped([x] + t)
  {
    var r := [x] + t;
    forall i | 0 <= i < |r|
      ensures r[i] != [] && Stripped(r[i])
    {
      if i > 0 {
        assert r[i] == t[i - 1];
      }
    }
  }

  /** A single piece is kept, stripped, exactly when it is not blank. */
  lemma KeepOne(x: string)
    ensures KeepNonBlank([x]) == if AllSpace(x) then [] else [Strip(x)]
  {
    assert [x][1..] == [];
  }

  /** Keeping works piece by piece: the kept pieces of two lists, one after
      the other, are the kept pieces of the two lists joined. With `KeepOne`
      this says that the kept pieces are the stripped non-blank pieces, in
      order, one for each. */
  lemma {:induction false} KeepAppend(xs: seq<string>, ys: seq<string>)
    ensures KeepNonBlank(xs + ys) == KeepNonBlank(xs) + KeepNonBlank(ys)
  {
    if xs != [] {
      assert (xs + ys)[0] == xs[0];
      assert (xs + ys)[1..] == xs[1..] + ys;
      KeepAppend(xs[1..], ys);
      KeepAppendStep(xs, ys, xs + ys, xs[1..] + ys);
    } else {
      assert xs + ys == ys;
      assert KeepNonBlank(xs) == [];
    }
  }

  /** The inductive step of `KeepAppend`, with the joined list seen only
      through its first piece and the rest. */
  lemma KeepAppendStep(xs: seq<string>, ys: seq<string>, zs: seq<string>, u: seq<string>)
    requires xs != [] && zs != [] && zs[0] == xs[0] && zs[1..] == u
    requires KeepNonBlank(u) == KeepNonBlank(xs[1..]) + KeepNonBlank(ys)
    ensures KeepNonBlank(zs) == KeepNonBlank(xs) + KeepNonBlank(ys)
  {
    if Strip(xs[0]) != [] {
      var x := [Strip(xs[0])];
      assert x + (KeepNonBlank(xs[1..]) + KeepNonBlank(ys)) == (x + KeepNonBlank(xs[1..])) + KeepNonBlank(ys);
    }
  }

  /** When only the first piece is blank, every other piece is kept,
      stripped, in order. */
  lemma {:induction false} KeepAllButFirst(xs: seq<string>)
    requires xs != [] && AllSpace(xs[0])
    requires forall i :: 1 <= i < |xs| ==> !AllSpace(xs[i])
    ensures |KeepNonBlank(xs)| == |xs| - 1
    ensures forall i :: 0 <= i < |xs| - 1 ==> KeepNonBlank(xs)[i] == Strip(xs[i + 1])
  {
    KeepAll(xs[1..]);
  }

  /** With no blank piece, every piece is kept, stripped, in order. */
  lemma {:induction false} KeepAll(xs: seq<string>)
    requires forall i :: 0 <= i < |xs| ==> !AllSpace(xs[i])
    ensures |KeepNonBlank(xs)| == |xs|
    ensures forall i :: 0 <= i < |xs| ==> KeepNonBlank(xs)[i] == Strip(xs[i])
  {
    if xs != [] {
      var t := xs[1..];
      KeepAll(t);
      var r := KeepNonBlank(xs);
      assert r == [Strip(xs[0])] + KeepNonBlank(t);
      forall i | 0 <= i < |xs|
        ensures r[i] == Strip(xs[i])
      {
        if i > 0 {
          assert r[i] == KeepNonBlank(t)[i - 1];
          assert t[i - 1] == xs[i];
        }
      }
    }
  }

  // ---------------------------------------------------------------------------
  // restoring commutes with stripping and dropping

  /** The replacements of the restoring loop: a pattern without whitespace,
      replaced by a code block. */
  predicate Restorable(pat: string, rep: string) {
    pat != [] && NoSpaceIn(pat) && IsCodeBlock(rep)
  }

  /** Restoring neither makes a blank piece non-blank nor the reverse. */
  lemma BlankKept(x: string, pat: string, rep: string)
    requires Restorable(pat, rep)
    ensures AllSpace(ReplaceAll(x, pat, rep)) <==> AllSpace(x)
  {
    if AllSpace(x) {
      NoSpaceNoOccurrence(x, pat);
      ReplaceAllAbsent(x, pat, rep);
    } else {
      ReplaceAllStrip(x, pat, rep);
      ReplaceAllKeepsStart(Strip(x), pat, rep);
    }
  }

  /** Restoring each kept piece is keeping each restored piece. */
  lemma {:induction false} ReplaceEachKeep(xs: seq<string>, pat: string, rep: string)
    requires Restorable(pat, rep)
    ensures ReplaceEach(KeepNonBlank(xs), pat, rep) == KeepNonBlank(ReplaceEach(xs, pat, rep))
  {
    if xs != [] {
      var ys := ReplaceEach(xs, pat, rep);
      ReplaceEachKeep(xs[1..], pat, rep);
      assert ys[1..] == ReplaceEach(xs[1..], pat, rep);
      BlankKept(xs[0], pat, rep);
      if !AllSpace(xs[0]) {
        ReplaceAllStrip(xs[0], pat, rep);
        ReplaceEachCons(Strip(xs[0]), KeepNonBlank(xs[1..]), pat, rep);
      }
    }
  }

  lemma ReplaceEachCons(x: string, xs: seq<string>, pat: string, rep: string)
    ensures ReplaceEach([x] + xs, pat, rep) == [ReplaceAll(x, pat, rep)] + ReplaceEach(xs, pat, rep)
  {
  }

  /** The restoring loop run over the kept pieces gives the kept restored
      pieces. */
  lemma RestoreFoldKeep(xs: seq<string>, blocks: seq<string>, ph: seq<string>, k: nat)
    requires k <= |blocks| && k <= |ph|
    requires forall j :: 0 <= j < k ==> Restorable(ph[j], blocks[j])
    ensures RestoreFold(KeepNonBlank(xs), blocks, ph, k) == KeepNonBlank(RestoreFold(xs, blocks, ph, k))
  {
    KeepCommutesUpTo(xs, blocks, ph, k);
  }

  /** After `k` rounds, restoring the kept pieces is keeping the restored
      pieces. */
  ghost predicate KeepCommutes(xs: seq<string>, blocks: seq<string>, ph: seq<string>, k: nat)
    requires k <= |blocks| && k <= |ph|
  {
    RestoreFold(KeepNonBlank(xs), blocks, ph, k) == KeepNonBlank(RestoreFold(xs, blocks, ph, k))
  }

  lemma {:induction false} KeepCommutesUpTo(xs: seq<string>, blocks: seq<string>, ph: seq<string>, k: nat)
    requires k <= |blocks| && k <= |ph|
    requires forall j :: 0 <= j < k ==> Restorable(ph[j], blocks[j])
    ensures KeepCommutes(xs, blocks, ph, k)
  {
    if k > 0 {
      var j := k - 1;
      KeepCommutesUpTo(xs, blocks, ph, j);
      FoldKeepStep(xs, blocks, ph, j, k);
    }
  }

  /** One more round of the restoring loop on both sides. */
  lemma FoldKeepStep(xs: seq<string>, blocks: seq<string>, ph: seq<string>, j: nat, k: nat)
    requires k == j + 1 && k <= |blocks| && k <= |ph|
    requires Restorable(ph[j], blocks[j])
    requires KeepCommutes(xs, blocks, ph, j)
    ensures KeepCommutes(xs, blocks, ph, k)
  {
    ReplaceEachKeep(RestoreFold(xs, blocks, ph, j), ph[j], blocks[j]);
    RestoreFoldNext(KeepNonBlank(xs), blocks, ph, j, k);
    RestoreFoldNext(xs, blocks, ph, j, k);
  }

  /** Putting code blocks back into stripped non-empty pieces keeps them
      stripped and non-empty: a block starts and ends with a backtick. */
  lemma {:induction false} RestoreFoldStripped(xs: seq<string>, blocks: seq<string>, ph: seq<string>, k: nat)
    requires k <= |blocks| && k <= |ph|
    requires forall j :: 0 <= j < k ==> ph[j] != [] && IsCodeBlock(blocks[j])
    requires AllStripped(xs)
    ensures AllStripped(RestoreFold(xs, blocks, ph, k))
  {
    if k > 0 {
      RestoreFoldStripped(xs, blocks, ph, k - 1);
      var prev := RestoreFold(xs, blocks, ph, k - 1);
      forall i | 0 <= i < |xs|
        ensures ReplaceAll(prev[i], ph[k - 1], blocks[k - 1]) != []
        ensures Stripped(ReplaceAll(prev[i], ph[k - 1], blocks[k - 1]))
      {
        ReplaceAllKeepsStart(prev[i], ph[k - 1], blocks[k - 1]);
        ReplaceAllKeepsEnd(prev[i], ph[k - 1], blocks[k - 1]);
      }
    }
  }

  // ---------------------------------------------------------------------------
  // pairing (lines 33-39)

  /** `xs[::2]`. */
  function EveryOther(xs: seq<string>): (r: seq<string>)
    ensures |r| == (|xs| + 1) / 2
    ensures forall i :: 0 <= i < |r| ==> r[i] == xs[2 * i]
  {
    if |xs| <= 2 then (if xs == [] then [] else [xs[0]])
    else [xs[0]] + EveryOther(xs[2..])
  }

  /** `pd.DataFrame({'Heading': xs[::2], 'Content': xs[1::2]})`: a row per
      pair of neighbouring pieces when the two columns have the same length,
      an error otherwise. */
  function Pair(xs: seq<string>): (r: Result<seq<Section>>)
    ensures r.Ok? <==> |xs| % 2 == 0
    ensures r.Ok? ==> |r.value| == |xs| / 2
    ensures r.Ok? ==> forall i :: 0 <= i < |r.value| ==> r.value[i] == Section(xs[2 * i], xs[2 * i + 1])
    ensures r.Err? ==> r.error == LengthMismatch((|xs| + 1) / 2, |xs| / 2)
  {
    var headings := EveryOther(xs);
    var contents := if xs == [] then [] else EveryOther(xs[1..]);
    if |headings| == |contents| then
      Ok(seq(|headings|, i requires 0 <= i < |headings| => Section(headings[i], contents[i])))
    else
      Err(LengthMismatch(|headings|, |contents|))
  }

  // ---------------------------------------------------------------------------
  // the whole routine

  /** The pieces after the split of the masked text and the dropping of
      blank pieces, before the blocks are put back. */
  function MaskedSections(s: string, ph: seq<string>): seq<string>
    requires |ph| == |CodeBlocks(s)|
  {
    var blocks := CodeBlocks(s);
    KeepNonBlank(HeadingSplit(MaskFold(s, blocks, ph, |blocks|)))
  }

  /** `md2df` with the placeholders `ph` standing for the blocks. */
  function SectionizeWith(s: string, ph: seq<string>): Result<seq<Section>>
    requires |ph| == |CodeBlocks(s)|
  {
    var blocks := CodeBlocks(s);
    Pair(RestoreFold(MaskedSections(s, ph), blocks, ph, |blocks|))
  }

  /** `md2df` as written, with the placeholders `CODE_BLOCK_{i}`. */
  function Sectionize(s: string): Result<seq<Section>> {
    SectionizeWith(s, NumberedPlaceholders(|CodeBlocks(s)|))
  }

  /** `md2df` with the terminated placeholders `CODE_BLOCK_{i}_`. */
  function SectionizeTerminated(s: string): Result<seq<Section>> {
    SectionizeWith(s, TerminatedPlaceholders(|CodeBlocks(s)|))
  }

  /** The steps of `md2df`, loop by loop. */
  method Md2Df(markdown: string) returns (r: Result<seq<Section>>)
    ensures r == Sectionize(markdown)
    ensures r.Ok? ==> forall i :: 0 <= i < |r.value| ==>
              && r.value[i].heading != [] && Stripped(r.value[i].heading)
              && r.value[i].content != [] && Stripped(r.value[i].content)
  {
    var codeBlocks := CodeBlocks(markdown);
    ghost var ph := NumberedPlaceholders(|codeBlocks|);
    var text := markdown;
    var i := 0;
    while i < |codeBlocks|
      invariant 0 <= i <= |codeBlocks|
      invariant text == MaskFold(markdown, codeBlocks, ph, i)
    {
      text := ReplaceFirst(text, codeBlocks[i], Placeholder(i));
      i := i + 1;
    }
    var sections := KeepNonBlank(HeadingSplit(text));
    ghost var kept := sections;
    i := 0;
    while i < |codeBlocks|
      invariant 0 <= i <= |codeBlocks|
      invariant sections == RestoreFold(kept, codeBlocks, ph, i)
    {
      sections := ReplaceEach(sections, Placeholder(i), codeBlocks[i]);
      i := i + 1;
    }
    r := Pair(sections);
    SectionsStripped(markdown);
  }

  /** Every heading and every content of the table is stripped and
      non-empty. */
  lemma SectionsStripped(s: string)
    ensures var r := Sectionize(s);
            r.Ok? ==> forall i :: 0 <= i < |r.value| ==>
              && r.value[i].heading != [] && Stripped(r.value[i].heading)
              && r.value[i].content != [] && Stripped(r.value[i].content)
  {
    var blocks := CodeBlocks(s);
    var ph := NumberedPlaceholders(|blocks|);
    forall j | 0 <= j < |blocks|
      ensures ph[j] != []
    {
      PlaceholderShaped(j);
    }
    KeepStripped(HeadingSplit(MaskFold(s, blocks, ph, |blocks|)));
    RestoreFoldStripped(MaskedSections(s, ph), blocks, ph, |blocks|);
  }

  /** Code fences are protected from the heading split: the masked text is
      the document with each block's placeholder in its place, and no cut
      between two pieces of its split falls inside an occurrence of a
      placeholder. `BlockInOnePiece` carries this through the restoring
      loop. */
  lemma FencesNotSplit(s: string, ph: seq<string>)
    requires |ph| == |CodeBlocks(s)|
    requires forall i :: 0 <= i < |ph| ==> Shaped(ph[i])
    ensures MaskFold(s, CodeBlocks(s), ph, |ph|) == Render(s, ph)
    ensures var split := HeadingSplit(MaskFold(s, CodeBlocks(s), ph, |ph|));
            forall i, j :: 0 <= i < |ph| && 0 <= j <= |split| ==>
              && Concat(split[..j]) + Concat(split[j..]) == Render(s, ph)
              && NoStraddle(Concat(split[..j]), Concat(split[j..]), ph[i])
  {
    var blocks := CodeBlocks(s);
    forall i | 0 <= i < |ph|
      ensures '`' !in ph[i] && '\n' !in ph[i]
    {
      ShapedChars(ph[i]);
    }
    MaskFoldRender(s, ph, |ph|);
    assert ph[..|ph|] + blocks[|ph|..] == ph;
    var masked := Render(s, ph);
    var split := HeadingSplit(masked);
    SplitSeams(masked, 0);
    SplitPieces(masked);
    forall i, j | 0 <= i < |ph| && 0 <= j <= |split|
      ensures && Concat(split[..j]) + Concat(split[j..]) == masked
              && NoStraddle(Concat(split[..j]), Concat(split[j..]), ph[i])
    {
      SeamsNoStraddle(split, ph[i], j);
    }
  }

  // ---------------------------------------------------------------------------
  // what the table holds

  /** The pieces of the split of the masked text with the blocks put back
      into each of them. */
  function RestoredPieces(s: string, ph: seq<string>): seq<string>
    requires |ph| == |CodeBlocks(s)|
  {
    var blocks := CodeBlocks(s);
    RestoreFold(HeadingSplit(MaskFold(s, blocks, ph, |blocks|)), blocks, ph, |blocks|)
  }

  /** The placeholders of a family that round-trips are restorable and hold
      no newline. */
  lemma RoundTripsRestorable(s: string, ph: seq<string>)
    requires RoundTrips(s, ph)
    ensures forall j :: 0 <= j < |ph| ==>
              Restorable(ph[j], CodeBlocks(s)[j]) && '\n' !in ph[j]
  {
    forall j | 0 <= j < |ph|
      ensures Restorable(ph[j], CodeBlocks(s)[j]) && '\n' !in ph[j]
    {
      ShapedChars(ph[j]);
    }
  }

  /** When the placeholders round-trip, the restored pieces put together
      give back the document, and the table is built from these pieces,
      stripped, with the blank ones dropped. */
  lemma PiecesRebuildDocument(s: string, ph: seq<string>)
    requires RoundTrips(s, ph)
    ensures Concat(RestoredPieces(s, ph)) == s
    ensures SectionizeWith(s, ph) == Pair(KeepNonBlank(RestoredPieces(s, ph)))
  {
    var blocks := CodeBlocks(s);
    var n := |blocks|;
    var masked := MaskFold(s, blocks, ph, n);
    RoundTripsRestorable(s, ph);
    SplitSeams(masked, 0);
    SplitPieces(masked);
    RestoreFoldConcat(HeadingSplit(masked), blocks, ph, n);
    RestoreUndoesMask(s, ph);
    RestoreFoldKeep(HeadingSplit(masked), blocks, ph, n);
  }

  /** With at most ten blocks and no `CODE_BLOCK_` in the text, the
      placeholders `md2df` uses rebuild the document. */
  lemma NumberedRebuildsDocument(s: string)
    requires |CodeBlocks(s)| <= 10 && NoOccurrence(s, Prefix)
    ensures var ph := NumberedPlaceholders(|CodeBlocks(s)|);
            && Concat(RestoredPieces(s, ph)) == s
            && Sectionize(s) == Pair(KeepNonBlank(RestoredPieces(s, ph)))
  {
    PlaceholdersPrefixFree(|CodeBlocks(s)|);
    PiecesRebuildDocument(s, NumberedPlaceholders(|CodeBlocks(s)|));
  }

  /** With the terminated placeholders the document is rebuilt whatever the
      number of blocks. */
  lemma TerminatedRebuildsDocument(s: string)
    requires NoOccurrence(s, Prefix)
    ensures var ph := TerminatedPlaceholders(|CodeBlocks(s)|);
            && Concat(RestoredPieces(s, ph)) == s
            && SectionizeTerminated(s) == Pair(KeepNonBlank(RestoredPieces(s, ph)))
  {
    TerminatedPrefixFree(|CodeBlocks(s)|);
    PiecesRebuildDocument(s, TerminatedPlaceholders(|CodeBlocks(s)|));
  }

  /** The restored pieces correspond one to one to the pieces of the split,
      and those at odd positions come from heading lines of the masked
      text. */
  lemma RestoredPiecesShape(s: string, ph: seq<string>)
    requires |ph| == |CodeBlocks(s)|
    ensures var blocks := CodeBlocks(s);
            var split := HeadingSplit(MaskFold(s, blocks, ph, |blocks|));
            && |RestoredPieces(s, ph)| == |split|
            && |split| % 2 == 1
            && (forall i :: 0 <= i < |split| ==>
                  RestoredPieces(s, ph)[i] == Restore(split[i], blocks, ph, |blocks|))
            && (forall j :: 0 <= j < |split| / 2 ==> IsHeadingLine(split[2 * j + 1]))
  {
    var blocks := CodeBlocks(s);
    var split := HeadingSplit(MaskFold(s, blocks, ph, |blocks|));
    SplitPieces(MaskFold(s, blocks, ph, |blocks|));
    RestoreFoldEach(split, blocks, ph, |blocks|);
  }

  /** Each placeholder of the masked text lies whole inside one piece of
      its split. */
  lemma PlaceholderInPiece(s: string, ph: seq<string>, i: nat)
    requires |ph| == |CodeBlocks(s)| && i < |ph|
    requires forall m :: 0 <= m < |ph| ==> Shaped(ph[m])
    ensures var split := HeadingSplit(MaskFold(s, CodeBlocks(s), ph, |ph|));
            exists j, k :: 0 <= j < |split| && OccursAt(split[j], ph[i], k)
  {
    var masked := MaskFold(s, CodeBlocks(s), ph, |ph|);
    FencesNotSplit(s, ph);
    ShapedChars(ph[i]);
    var q := SlotStart(s, ph, i);
    SplitSeams(masked, 0);
    SplitPieces(masked);
    OccursInPiece(HeadingSplit(masked), ph[i], q);
  }

  /** The piece of the split that holds the placeholder of block `i` comes
      back with block `i`, verbatim, where the placeholder was, and the
      texts on either side of it restored on their own. */
  lemma BlockComesBack(s: string, ph: seq<string>, i: nat, j: nat, k: nat)
    requires RoundTrips(s, ph) && i < |ph|
    requires var split := HeadingSplit(MaskFold(s, CodeBlocks(s), ph, |ph|));
             j < |split| && OccursAt(split[j], ph[i], k)
    ensures var blocks := CodeBlocks(s);
            var x := HeadingSplit(MaskFold(s, blocks, ph, |ph|))[j];
            RestoredPieces(s, ph)[j]
            == Restore(x[..k], blocks, ph, |ph|) + blocks[i] + Restore(x[k + |ph[i]|..], blocks, ph, |ph|)
  {
    var blocks := CodeBlocks(s);
    var x := HeadingSplit(MaskFold(s, blocks, ph, |ph|))[j];
    RestoredPiecesShape(s, ph);
    PlaceholderSealed(s, ph, i);
    PlaceholderRestored(s, ph, i);
    RestoreHolding(x, i, k, blocks, ph);
  }

  /** Under `RoundTrips` the restoring loop turns a placeholder into its
      block. */
  lemma PlaceholderRestored(s: string, ph: seq<string>, i: nat)
    requires RoundTrips(s, ph) && i < |ph|
    ensures Restore(ph[i], CodeBlocks(s), ph, |ph|) == CodeBlocks(s)[i]
  {
    RestoredBlocks(s, ph);
    RestoreFoldEach(ph, CodeBlocks(s), ph, |ph|);
  }

  /** Under `RoundTrips` a placeholder, however far restored, stays sealed
      against every later placeholder. */
  lemma PlaceholderSealed(s: string, ph: seq<string>, i: nat)
    requires RoundTrips(s, ph) && i < |ph|
    ensures forall j :: 0 <= j < |ph| ==> SealedInRound(CodeBlocks(s), ph, i, j)
  {
    var blocks := CodeBlocks(s);
    RoundTripsAbsent(s, ph);
    RoundTripsSealed(s, ph);
    forall j | 0 <= j < |ph|
      ensures SealedInRound(blocks, ph, i, j)
    {
      RestoreFoldEach(ph, blocks, ph, j);
    }
  }

  /** Every code block comes back whole and verbatim inside the restored
      piece that held its placeholder, so no heading split falls inside a
      block. */
  lemma BlockInOnePiece(s: string, ph: seq<string>, i: nat)
    requires RoundTrips(s, ph) && i < |ph|
    ensures var blocks := CodeBlocks(s);
            var split := HeadingSplit(MaskFold(s, blocks, ph, |ph|));
            exists j, k :: 0 <= j < |split| && OccursAt(split[j], ph[i], k)
                           && OccursAt(RestoredPieces(s, ph)[j], blocks[i],
                                       |Restore(split[j][..k], blocks, ph, |ph|)|)
  {
    var blocks := CodeBlocks(s);
    var split := HeadingSplit(MaskFold(s, blocks, ph, |ph|));
    PlaceholderInPiece(s, ph, i);
    var j, k :| 0 <= j < |split| && OccursAt(split[j], ph[i], k);
    BlockComesBack(s, ph, i, j, k);
    RestoredPiecesShape(s, ph);
    var a := Restore(split[j][..k], blocks, ph, |ph|);
    var b := Restore(split[j][k + |ph[i]|..], blocks, ph, |ph|);
    assert (a + blocks[i] + b)[|a|..|a| + |blocks[i]|] == blocks[i];
  }

  /** A heading line is never blank, and stays so once restored. */
  lemma HeadingPieceNonBlank(x: string, blocks: seq<string>, ph: seq<string>, k: nat)
    requires IsHeadingLine(x) && k <= |blocks| && k <= |ph|
    requires forall j :: 0 <= j < k ==> Restorable(ph[j], blocks[j])
    ensures !AllSpace(Restore(x, blocks, ph, k))
  {
    if k > 0 {
      HeadingPieceNonBlank(x, blocks, ph, k - 1);
      BlankKept(Restore(x, blocks, ph, k - 1), ph[k - 1], blocks[k - 1]);
    }
  }

  /** A document whose text before the first heading is blank and in which
      every heading is followed by some non-blank text before the next one
      gives one row per heading line, in order: the stripped heading line
      and the stripped text after it. */
  lemma WellFormedDocument(s: string, ph: seq<string>)
    requires RoundTrips(s, ph)
    requires var p := RestoredPieces(s, ph);
             |p| > 0 && AllSpace(p[0]) && forall i :: 0 < i < |p| && i % 2 == 0 ==> !AllSpace(p[i])
    ensures var p := RestoredPieces(s, ph);
            && |p| % 2 == 1
            && Concat(p) == s
            && SectionizeWith(s, ph).Ok?
            && |SectionizeWith(s, ph).value| == |p| / 2
            && forall j :: 0 <= j < |p| / 2 ==>
                 SectionizeWith(s, ph).value[j] == Section(Strip(p[2 * j + 1]), Strip(p[2 * j + 2]))
  {
    var p := RestoredPieces(s, ph);
    HeadingPiecesNonBlank(s, ph);
    PairBlankFirst(p);
  }

  /** The restored pieces rebuild the document, there is an odd number of
      them, and those at odd positions, which hold the heading lines, are
      not blank. */
  lemma HeadingPiecesNonBlank(s: string, ph: seq<string>)
    requires RoundTrips(s, ph)
    ensures var p := RestoredPieces(s, ph);
            && |p| % 2 == 1
            && Concat(p) == s
            && SectionizeWith(s, ph) == Pair(KeepNonBlank(p))
            && forall i :: 0 <= i < |p| && i % 2 == 1 ==> !AllSpace(p[i])
  {
    PiecesRebuildDocument(s, ph);
    OddPiecesNonBlank(s, ph);
    OddPositions(RestoredPieces(s, ph));
  }

  lemma OddPositions(p: seq<string>)
    requires forall j :: 0 <= j < |p| / 2 ==> !AllSpace(p[2 * j + 1])
    ensures forall i :: 0 <= i < |p| && i % 2 == 1 ==> !AllSpace(p[i])
  {
    forall i | 0 <= i < |p| && i % 2 == 1
      ensures !AllSpace(p[i])
    {
      assert i == 2 * (i / 2) + 1;
    }
  }

  lemma OddPiecesNonBlank(s: string, ph: seq<string>)
    requires RoundTrips(s, ph)
    ensures var p := RestoredPieces(s, ph);
            && |p| % 2 == 1
            && forall j :: 0 <= j < |p| / 2 ==> !AllSpace(p[2 * j + 1])
  {
    var p := RestoredPieces(s, ph);
    var blocks := CodeBlocks(s);
    var split := HeadingSplit(MaskFold(s, blocks, ph, |blocks|));
    RestoredPiecesShape(s, ph);
    RoundTripsRestorable(s, ph);
    forall j | 0 <= j < |p| / 2
      ensures !AllSpace(p[2 * j + 1])
    {
      HeadingPieceNonBlank(split[2 * j + 1], blocks, ph, |blocks|);
    }
  }

  /** An odd number of pieces whose only blank piece is the first pairs the
      others, stripped, two by two. */
  lemma PairBlankFirst(p: seq<string>)
    requires |p| % 2 == 1
    requires forall i :: 0 <= i < |p| && i % 2 == 1 ==> !AllSpace(p[i])
    requires |p| > 0 && AllSpace(p[0]) && forall i :: 0 < i < |p| && i % 2 == 0 ==> !AllSpace(p[i])
    ensures var r := Pair(KeepNonBlank(p));
            && r.Ok? && |r.value| == |p| / 2
            && forall j :: 0 <= j < |p| / 2 ==> r.value[j] == Section(Strip(p[2 * j + 1]), Strip(p[2 * j + 2]))
  {
    KeepAllButFirst(p);
    PairAfterBlankFirst(p, KeepNonBlank(p));
  }

  lemma PairAfterBlankFirst(p: seq<string>, kept: seq<string>)
    requires |p| % 2 == 1 && |kept| == |p| - 1
    requires forall i :: 0 <= i < |p| - 1 ==> kept[i] == Strip(p[i + 1])
    ensures var r := Pair(kept);
            && r.Ok? && |r.value| == |p| / 2
            && forall j :: 0 <= j < |p| / 2 ==> r.value[j] == Section(Strip(p[2 * j + 1]), Strip(p[2 * j + 2]))
  {
  }

  /** Text before the first heading line, as the code treats it: when it is
      not blank and every heading is followed by non-blank text, it takes
      the first heading column slot, so the columns differ in length and no
      table is built. */
  lemma PreambleBreaksPairing(s: string, ph: seq<string>)
    requires RoundTrips(s, ph)
    requires var p := RestoredPieces(s, ph);
             |p| > 0 && !AllSpace(p[0]) && forall i :: 0 < i < |p| && i % 2 == 0 ==> !AllSpace(p[i])
    ensures SectionizeWith(s, ph).Err?
  {
    HeadingPiecesNonBlank(s, ph);
    PairNoBlank(RestoredPieces(s, ph));
  }

  /** An odd number of pieces, none of them blank, cannot be paired. */
  lemma PairNoBlank(p: seq<string>)
    requires |p| % 2 == 1
    requires forall i :: 0 <= i < |p| && i % 2 == 1 ==> !AllSpace(p[i])
    requires |p| > 0 && !AllSpace(p[0]) && forall i :: 0 < i < |p| && i % 2 == 0 ==> !AllSpace(p[i])
    ensures Pair(KeepNonBlank(p)).Err?
  {
    forall i | 0 <= i < |p|
      ensures !AllSpace(p[i])
    {
      if i % 2 == 0 && i > 0 {
        assert !AllSpace(p[i]);
      }
    }
    KeepAll(p);
    assert |KeepNonBlank(p)| % 2 == 1;
  }

}
