/** The placeholder texts that stand in for code blocks while the text is
    split: `f"CODE_BLOCK_{i}"` as vectormd/vmd.py:25 and :31 write it, and a
    terminated variant `f"CODE_BLOCK_{i}_"` that no other placeholder can be
    a prefix of. */
module Placeholders {
  import opened Strings

  const Prefix: string := "CODE_BLOCK_"

  /** `f"CODE_BLOCK_{i}"`. */
  function Placeholder(i: nat): string {
    Prefix + Decimal(i)
  }

  /** `f"CODE_BLOCK_{i}_"`: the same text closed by an underscore. */
  function TerminatedPlaceholder(i: nat): string {
    Prefix + Decimal(i) + "_"
  }

  function NumberedPlaceholders(n: nat): (ph: seq<string>)
    ensures |ph| == n && forall i :: 0 <= i < n ==> ph[i] == Placeholder(i)
  {
    seq(n, i requires 0 <= i => Placeholder(i))
  }

  function TerminatedPlaceholders(n: nat): (ph: seq<string>)
    ensures |ph| == n && forall i :: 0 <= i < n ==> ph[i] == TerminatedPlaceholder(i)
  {
    seq(n, i requires 0 <= i => TerminatedPlaceholder(i))
  }

  /** What both kinds of placeholder look like: the prefix, then digits and
      underscores only. */
  ghost predicate Shaped(x: string) {
    && |x| > |Prefix|
    && x[..|Prefix|] == Prefix
    && forall k :: |Prefix| <= k < |x| ==> IsDigit(x[k]) || x[k] == '_'
  }

  lemma PlaceholderShaped(i: nat)
    ensures Shaped(Placeholder(i)) && Shaped(TerminatedPlaceholder(i))
  {
    var d := Decimal(i);
    assert Placeholder(i)[..|Prefix|] == Prefix;
    assert TerminatedPlaceholder(i)[..|Prefix|] == Prefix;
    assert forall k :: |Prefix| <= k < |Prefix| + |d| ==> Placeholder(i)[k] == d[k - |Prefix|];
    assert forall k :: |Prefix| <= k < |Prefix| + |d| ==> TerminatedPlaceholder(i)[k] == d[k - |Prefix|];
  }

  /** Characters of a placeholder that the verifier reads off the prefix. */
  lemma ShapedChars(x: string)
    requires Shaped(x)
    ensures x[0] == 'C' && x[1] == 'O' && x[9] == 'K'
    ensures forall k :: 0 < k < |x| && x[k] == 'C' ==> k == 8
    ensures '`' !in x && '\n' !in x && NoSpaceIn(x)
  {
    assert x[0] == Prefix[0] && x[1] == Prefix[1] && x[9] == Prefix[9];
    forall k | 0 <= k < |Prefix|
      ensures x[k] == Prefix[k]
    {
      assert x[..|Prefix|][k] == x[k];
    }
  }

  /** A terminated placeholder is never a prefix of a different one. */
  lemma TerminatedIncomparable(i: nat, j: nat)
    requires i != j
    ensures !(TerminatedPlaceholder(i) <= TerminatedPlaceholder(j))
  {
    var x, y := TerminatedPlaceholder(i), TerminatedPlaceholder(j);
    var di, dj := Decimal(i), Decimal(j);
    if |di| == |dj| {
      DecimalInjective(i, j);
      assert x[|Prefix|..|Prefix| + |di|] == di;
      assert y[|Prefix|..|Prefix| + |dj|] == dj;
    } else if |di| < |dj| {
      assert x[|Prefix| + |di|] == '_';
      assert y[|Prefix| + |di|] == dj[|di|];
    }
  }

  /** `f"CODE_BLOCK_{i}"` for two different one-digit numbers: same length
      and different, so neither is a prefix of the other. */
  lemma OneDigitIncomparable(i: nat, j: nat)
    requires i != j && i < 10 && j < 10
    ensures !(Placeholder(i) <= Placeholder(j))
  {
    DecimalInjective(i, j);
    assert Placeholder(i)[|Prefix|] == Decimal(i)[0];
    assert Placeholder(j)[|Prefix|] == Decimal(j)[0];
  }

  /** `f"CODE_BLOCK_1"` is a prefix of `f"CODE_BLOCK_10"`. */
  lemma OneIsPrefixOfTen()
    ensures Placeholder(1) <= Placeholder(10)
    ensures Placeholder(10) == Placeholder(1) + "0"
  {
    assert Decimal(1) == "1";
    assert Decimal(10) == "10";
  }
}
