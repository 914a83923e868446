/** What the restoring loop of vectormd/vmd.py:30-31 does to a text with
    exactly eleven code blocks: `CODE_BLOCK_1` is a prefix of
    `CODE_BLOCK_10`, so the second round rewrites the eleventh placeholder
    into the second block followed by a `0`, and the eleventh block never
    comes back. */
module Collision {
  import opened Strings
  import opened Fences
  import opened Placeholders
  import opened Masking
  import opened Headings
  import opened Sectionizer

  /** A code block followed by a `0` is sealed against any placeholder. */
  lemma TrailingZeroSealed(b: string, pat: string)
    requires IsCodeBlock(b) && Shaped(pat)
    ensures Sealed(b + "0", pat)
  {
    var x := b + "0";
    ShapedChars(pat);
    forall d | 0 < d < |pat|
      ensures !(pat[d..] <= x) && !(x <= pat[d..])
    {
      assert pat[d..][0] == pat[d] != '`';
      assert x[0] == '`';
    }
    forall d | 0 <= d < |x| && |x| - d < |pat|
      ensures !(x[d..] <= pat)
    {
      if d < |b| {
        assert x[d..][|b| - 1 - d] == b[|b| - 1] == '`';
        assert pat[|b| - 1 - d] != '`';
      } else {
        assert x[d..][0] == '0';
      }
    }
  }

  /** A code block followed by a `0` holds no placeholder when the block
      does not. */
  lemma TrailingZeroAbsent(b: string, pat: string)
    requires IsCodeBlock(b) && Shaped(pat) && NoOccurrence(b, pat)
    ensures NoOccurrence(b + "0", pat)
  {
    var x := b + "0";
    ShapedChars(pat);
    forall k | 0 <= k && k + |pat| <= |x|
      ensures !OccursAt(x, pat, k)
    {
      if k + |pat| <= |b| {
        assert !OccursAt(b, pat, k);
        assert x[k..k + |pat|] == b[k..k + |pat|];
      } else {
        assert x[|b| - 1] == b[|b| - 1];
        assert x[k..k + |pat|][|b| - 1 - k] == b[|b| - 1] == '`';
        assert pat[|b| - 1 - k] != '`';
      }
    }
  }

  /** The blocks of an eleven-block text as the restoring loop sees them. */
  ghost predicate ElevenBlocks(blocks: seq<string>) {
    && |blocks| == 11
    && forall i :: 0 <= i < 11 ==> IsCodeBlock(blocks[i]) && NoOccurrence(blocks[i], Prefix)
  }

  lemma ElevenShaped(ph: seq<string>)
    requires ph == NumberedPlaceholders(11)
    ensures forall j :: 0 <= j < 11 ==> Shaped(ph[j])
  {
    forall j | 0 <= j < 11
      ensures Shaped(ph[j])
    {
      PlaceholderShaped(j);
    }
  }

  lemma ElevenAbsent(blocks: seq<string>, ph: seq<string>)
    requires ElevenBlocks(blocks) && ph == NumberedPlaceholders(11)
    ensures forall i, j :: 0 <= i < 11 && 0 <= j < 11 ==> NoOccurrence(blocks[i], ph[j])
  {
    forall i, j | 0 <= i < 11 && 0 <= j < 11
      ensures NoOccurrence(blocks[i], ph[j])
    {
      assert ph[j][..|Prefix|] == Prefix;
      NoOccurrenceExtend(blocks[i], Prefix, ph[j]);
    }
  }

  /** `CODE_BLOCK_10` after `k` rounds, for `k` from 2 on: the second block
      and a `0`. */
  lemma {:induction false} TenAfter(blocks: seq<string>, k: nat)
    requires ElevenBlocks(blocks) && 2 <= k <= 11
    ensures Restore(Placeholder(10), blocks, NumberedPlaceholders(11), k) == blocks[1] + "0"
  {
    var ph := NumberedPlaceholders(11);
    ElevenShaped(ph);
    if k == 2 {
      TenAfterOne(blocks);
      OneIsPrefixOfTen();
      var pat, t := Placeholder(1), Placeholder(10);
      assert ph[1] == pat;
      assert t[..|pat|] == pat;
      assert t[|pat|..] == "0";
      assert ReplaceAll("0", pat, blocks[1]) == "0";
      assert ReplaceAll(t, pat, blocks[1]) == blocks[1] + ReplaceAll(t[|pat|..], pat, blocks[1]);
    } else {
      TenAfter(blocks, k - 1);
      ElevenAbsent(blocks, ph);
      TrailingZeroAbsent(blocks[1], ph[k - 1]);
      ReplaceAllAbsent(blocks[1] + "0", ph[k - 1], blocks[k - 1]);
    }
  }

  /** Every other placeholder comes back as its block. */
  lemma OthersRestored(blocks: seq<string>, m: nat, k: nat)
    requires ElevenBlocks(blocks) && m < 10 && k <= 11
    ensures Restore(NumberedPlaceholders(11)[m], blocks, NumberedPlaceholders(11), k)
            == if m < k then blocks[m] else NumberedPlaceholders(11)[m]
  {
    var ph := NumberedPlaceholders(11);
    ElevenShaped(ph);
    ElevenAbsent(blocks, ph);
    forall j | 0 <= j < k && j != m
      ensures !(ph[j] <= ph[m])
    {
      if j < 10 {
        OneDigitIncomparable(j, m);
      } else {
        assert |Decimal(m)| == 1;
      }
    }
    RestorePlaceholder(blocks, ph, m, k);
  }

  /** Each section of the restoring loop, started from the eleven
      placeholders, stays sealed against the next placeholder. */
  lemma ElevenSealed(blocks: seq<string>)
    requires ElevenBlocks(blocks)
    ensures var ph := NumberedPlaceholders(11);
            forall j, m :: 0 <= j < 11 && 0 <= m < 11 ==>
              Sealed(RestoreFold(ph, blocks, ph, j)[m], ph[j])
  {
    var ph := NumberedPlaceholders(11);
    forall j, m | 0 <= j < 11 && 0 <= m < 11
      ensures Sealed(RestoreFold(ph, blocks, ph, j)[m], ph[j])
    {
      RestoreFoldEach(ph, blocks, ph, j);
      if m == 10 {
        TenSealed(blocks, j);
      } else {
        OtherSealed(blocks, j, m);
      }
    }
  }

  /** The eleventh section after `j` rounds is sealed against `ph[j]`. */
  lemma TenSealed(blocks: seq<string>, j: nat)
    requires ElevenBlocks(blocks) && j < 11
    ensures var ph := NumberedPlaceholders(11);
            Sealed(Restore(ph[10], blocks, ph, j), ph[j])
  {
    var ph := NumberedPlaceholders(11);
    ElevenShaped(ph);
    if j < 2 {
      if j == 1 {
        TenAfterOne(blocks);
      }
      ShapedSealed(ph[10], ph[j]);
    } else {
      TenAfter(blocks, j);
      TrailingZeroSealed(blocks[1], ph[j]);
    }
  }

  /** Any other section after `j` rounds is sealed against `ph[j]`. */
  lemma OtherSealed(blocks: seq<string>, j: nat, m: nat)
    requires ElevenBlocks(blocks) && j < 11 && m < 10
    ensures var ph := NumberedPlaceholders(11);
            Sealed(Restore(ph[m], blocks, ph, j), ph[j])
  {
    var ph := NumberedPlaceholders(11);
    ElevenShaped(ph);
    OthersRestored(blocks, m, j);
    if m < j {
      BlockSealed(blocks[m], ph[j]);
    } else {
      if m != j {
        OneDigitIncomparable(m, j);
      }
      ShapedSealed(ph[m], ph[j]);
    }
  }

  /** `CODE_BLOCK_10` survives the first round: `CODE_BLOCK_0` is not in it. */
  lemma TenAfterOne(blocks: seq<string>)
    requires ElevenBlocks(blocks)
    ensures Restore(Placeholder(10), blocks, NumberedPlaceholders(11), 1) == Placeholder(10)
  {
    PlaceholderShaped(0);
    PlaceholderShaped(10);
    assert Decimal(0) == "0";
    assert Decimal(10) == "10";
    assert Placeholder(10)[11] == '1' && Placeholder(0)[11] == '0';
    ShapedOccurrence(Placeholder(10), Placeholder(0));
    ReplaceAllAbsent(Placeholder(10), Placeholder(0), blocks[0]);
  }

  /** The restoring loop run to the end on the eleven placeholders. */
  lemma ElevenRestored(blocks: seq<string>)
    requires ElevenBlocks(blocks)
    ensures var ph := NumberedPlaceholders(11);
            RestoreFold(ph, blocks, ph, 11) == blocks[10 := blocks[1] + "0"]
  {
    var ph := NumberedPlaceholders(11);
    RestoreFoldEach(ph, blocks, ph, 11);
    forall m | 0 <= m < 11
      ensures RestoreFold(ph, blocks, ph, 11)[m] == blocks[10 := blocks[1] + "0"][m]
    {
      if m == 10 {
        TenAfter(blocks, 11);
      } else {
        OthersRestored(blocks, m, 11);
      }
    }
  }

  /** After masking and restoring, a text with exactly eleven code blocks
      that never spells out `CODE_BLOCK_` has the second block followed by
      `0` where its eleventh block was. */
  lemma ElevenBlocksRender(s: string)
    requires |CodeBlocks(s)| == 11 && NoOccurrence(s, Prefix)
    ensures var blocks := CodeBlocks(s); var ph := NumberedPlaceholders(11);
            Restore(MaskFold(s, blocks, ph, 11), blocks, ph, 11)
            == Render(s, blocks[10 := blocks[1] + "0"])
  {
    var blocks := CodeBlocks(s);
    var ph := NumberedPlaceholders(11);
    ElevenFit(s, ph);
    NoOccurrenceBlocks(s, Prefix);
    ElevenSealed(blocks);
    MaskThenRestore(s, ph);
    ElevenRestored(blocks);
  }

  /** The eleven placeholders have no backtick and do not occur in a text
      that never spells out `CODE_BLOCK_`. */
  lemma ElevenFit(s: string, ph: seq<string>)
    requires NoOccurrence(s, Prefix) && ph == NumberedPlaceholders(11)
    ensures Backtickless(ph)
    ensures forall j :: 0 <= j < 11 ==> ph[j] != [] && NoOccurrence(s, ph[j])
  {
    ElevenShaped(ph);
    forall j | 0 <= j < 11
      ensures '`' !in ph[j] && ph[j] != [] && NoOccurrence(s, ph[j])
    {
      ShapedChars(ph[j]);
      assert ph[j][..|Prefix|] == Prefix;
      NoOccurrenceExtend(s, Prefix, ph[j]);
    }
  }

  /** Putting into a text, where one of its blocks was, a text that does not
      end in a backtick changes the text. */
  lemma RenderChanged(s: string, i: nat, a: string)
    requires i < |CodeBlocks(s)| && a != [] && a[|a| - 1] != '`'
    ensures Render(s, CodeBlocks(s)[i := a]) != s
  {
    var blocks := CodeBlocks(s);
    var b := blocks[i];
    assert IsCodeBlock(b);
    assert a != b by {
      assert b[|b| - 1] == '`';
    }
    RenderBlocks(s);
    assert blocks[i := b] == blocks;
    RenderInjective(s, blocks, i, a, b);
  }

  /** Such a text does not survive the source's masking and restoring. */
  lemma ElevenBlocksCorrupt(s: string)
    requires |CodeBlocks(s)| == 11 && NoOccurrence(s, Prefix)
    ensures var blocks := CodeBlocks(s); var ph := NumberedPlaceholders(11);
            Restore(MaskFold(s, blocks, ph, 11), blocks, ph, 11) != s
  {
    var blocks := CodeBlocks(s);
    ElevenBlocksRender(s);
    var a := blocks[1] + "0";
    assert a[|a| - 1] == '0';
    RenderChanged(s, 10, a);
  }

  /** The same holds of what `md2df` itself restores: the pieces of the
      split, each restored on its own, put together differ from the text. */
  lemma ElevenPiecesCorrupt(s: string)
    requires |CodeBlocks(s)| == 11 && NoOccurrence(s, Prefix)
    ensures Concat(RestoredPieces(s, NumberedPlaceholders(11))) != s
  {
    var blocks := CodeBlocks(s);
    var ph := NumberedPlaceholders(11);
    var masked := MaskFold(s, blocks, ph, 11);
    ElevenNewlineFree(ph);
    SplitSeams(masked, 0);
    SplitPieces(masked);
    RestoreFoldConcat(HeadingSplit(masked), blocks, ph, 11);
    ElevenBlocksCorrupt(s);
  }

  lemma ElevenNewlineFree(ph: seq<string>)
    requires ph == NumberedPlaceholders(11)
    ensures forall j :: 0 <= j < 11 ==> ph[j] != [] && '\n' !in ph[j]
  {
    ElevenShaped(ph);
    forall j | 0 <= j < 11
      ensures ph[j] != [] && '\n' !in ph[j]
    {
      ShapedChars(ph[j]);
    }
  }
}
