/** Fenced code blocks: what `re.findall(r'```.*?```', text, flags=re.DOTALL)`
    finds (vectormd/vmd.py:22), and the text seen as gaps and blocks so that
    each block can be swapped for something else. */
module Fences {
  import opened Strings

  /** Three backticks start at `k`. */
  predicate FenceAt(s: string, k: int) {
    0 <= k && k + 3 <= |s| && s[k] == '`' && s[k + 1] == '`' && s[k + 2] == '`'
  }

  /** The first fence at or after `from`. */
  function NextFence(s: string, from: nat): (r: Option<nat>)
    ensures r.Some? ==> from <= r.value && FenceAt(s, r.value)
    ensures r.Some? ==> forall k :: from <= k < r.value ==> !FenceAt(s, k)
    ensures r.None? ==> forall k :: from <= k ==> !FenceAt(s, k)
    decreases |s| - from
  {
    if from + 3 > |s| then None
    else if FenceAt(s, from) then Some(from)
    else NextFence(s, from + 1)
  }

  /** A match of the lazy pattern: a fence at each end and none in between. */
  predicate IsCodeBlock(b: string) {
    && |b| >= 6
    && FenceAt(b, 0) && FenceAt(b, |b| - 3)
    && forall k :: 3 <= k < |b| - 3 ==> !FenceAt(b, k)
  }

  /** The span `[p, e)` of the leftmost match of the lazy pattern: the first
      fence opens it and the first fence after that closes it. When there is
      none, no fence is followed by another one, so scanning further right
      cannot find a match either. */
  function FirstBlock(s: string): (r: Option<(nat, nat)>)
    ensures r.Some? ==> r.value.0 + 6 <= r.value.1 <= |s|
    ensures r.Some? ==> IsCodeBlock(s[r.value.0..r.value.1])
    ensures r.Some? ==> forall k :: 0 <= k < r.value.0 ==> !FenceAt(s, k)
    ensures r.None? ==> forall p, c :: FenceAt(s, p) && FenceAt(s, c) ==> c < p + 3
  {
    match NextFence(s, 0)
    case None => None
    case Some(p) =>
      match NextFence(s, p + 3)
      case None => None
      case Some(c) =>
        var b := s[p..c + 3];
        assert FenceAt(b, 0) && FenceAt(b, |b| - 3);
        assert forall k :: 3 <= k < |b| - 3 ==> !FenceAt(b, k) by {
          forall k | 3 <= k < |b| - 3
            ensures !FenceAt(b, k)
          {
            assert !FenceAt(s, p + k);
            assert b[k] == s[p + k] && b[k + 1] == s[p + k + 1] && b[k + 2] == s[p + k + 2];
          }
        }
        Some((p, c + 3))
  }

  /** `re.findall(r'```.*?```', s, flags=re.DOTALL)`: the matches from left
      to right, each scan resuming where the previous match ended. */
  function CodeBlocks(s: string): (r: seq<string>)
    ensures forall i :: 0 <= i < |r| ==> IsCodeBlock(r[i])
    decreases |s|
  {
    match FirstBlock(s)
    case None => []
    case Some((p, e)) => [s[p..e]] + CodeBlocks(s[e..])
  }

  /** The text with its `i`-th code block replaced by `sub[i]`, everything
      between the blocks kept as it is. */
  function Render(s: string, sub: seq<string>): string
    requires |sub| == |CodeBlocks(s)|
    decreases |s|
  {
    match FirstBlock(s)
    case None => s
    case Some((p, e)) => s[..p] + sub[0] + Render(s[e..], sub[1..])
  }

  /** Putting every block back in its own place rebuilds the text. */
  lemma {:induction false} RenderBlocks(s: string)
    ensures Render(s, CodeBlocks(s)) == s
    decreases |s|
  {
    match FirstBlock(s)
    case None =>
    case Some((p, e)) =>
      RenderBlocks(s[e..]);
      assert CodeBlocks(s)[1..] == CodeBlocks(s[e..]);
      assert s == s[..p] + s[p..e] + s[e..];
  }

  /** Where the part that stands for block `i` starts in the rendered text;
      with the blocks themselves, where block `i` starts in the text. */
  function SlotStart(s: string, sub: seq<string>, i: nat): (q: nat)
    requires |sub| == |CodeBlocks(s)| && i < |sub|
    ensures OccursAt(Render(s, sub), sub[i], q)
    decreases |s|
  {
    match FirstBlock(s)
    case Some((p, e)) =>
      assert CodeBlocks(s) == [s[p..e]] + CodeBlocks(s[e..]);
      var g := s[..p] + sub[0];
      var r := Render(s[e..], sub[1..]);
      assert Render(s, sub) == g + r;
      if i == 0 then
        assert (g + r)[p..p + |sub[0]|] == sub[0];
        p
      else
        var q' := SlotStart(s[e..], sub[1..], i - 1);
        OccursAtShift(g, r, sub[i], q');
        |g| + q'
  }

  /** The text just before a block never ends in a backtick, or the block
      would have opened one character earlier. */
  lemma GapEnd(s: string)
    requires FirstBlock(s).Some? && FirstBlock(s).value.0 > 0
    ensures s[FirstBlock(s).value.0 - 1] != '`'
  {
    var p := FirstBlock(s).value.0;
    assert !FenceAt(s, p - 1);
  }

  /** A text that begins with a fence occurs only where a fence is. */
  lemma OccurrenceIsFence(t: string, b: string, j: int)
    requires FenceAt(b, 0)
    ensures OccursAt(t, b, j) ==> FenceAt(t, j)
  {
    if OccursAt(t, b, j) {
      OccursAtChar(t, b, j, j);
      OccursAtChar(t, b, j, j + 1);
      OccursAtChar(t, b, j, j + 2);
    }
  }

  /** No occurrence of a pattern in `s` means none in any gap or block of `s`. */
  lemma NoOccurrenceParts(s: string, pat: string)
    requires FirstBlock(s).Some? && NoOccurrence(s, pat)
    ensures var (p, e) := FirstBlock(s).value;
            NoOccurrence(s[..p], pat) && NoOccurrence(s[p..e], pat) && NoOccurrence(s[e..], pat)
  {
    var (p, e) := FirstBlock(s).value;
    NoOccurrenceSlice(s, pat, 0, p);
    NoOccurrenceSlice(s, pat, p, e);
    NoOccurrenceSlice(s, pat, e, |s|);
    assert s[0..p] == s[..p];
    assert s[e..|s|] == s[e..];
  }

  /** No occurrence of a pattern in `s` means none in any of its blocks. */
  lemma {:induction false} NoOccurrenceBlocks(s: string, pat: string)
    requires NoOccurrence(s, pat)
    ensures forall i :: 0 <= i < |CodeBlocks(s)| ==> NoOccurrence(CodeBlocks(s)[i], pat)
    decreases |s|
  {
    match FirstBlock(s)
    case None =>
    case Some((p, e)) =>
      NoOccurrenceParts(s, pat);
      NoOccurrenceBlocks(s[e..], pat);
      assert CodeBlocks(s) == [s[p..e]] + CodeBlocks(s[e..]);
  }

  /** Two renderings that differ only in what stands for block `i` are equal
      only if that is the same text. */
  lemma {:induction false} RenderInjective(s: string, sub: seq<string>, i: nat, a: string, b: string)
    requires |sub| == |CodeBlocks(s)| && i < |sub|
    ensures Render(s, sub[i := a]) == Render(s, sub[i := b]) ==> a == b
    decreases |s|
  {
    var (p, e) := FirstBlock(s).value;
    var rest := s[e..];
    assert CodeBlocks(s) == [s[p..e]] + CodeBlocks(rest);
    var sa, sb := sub[i := a], sub[i := b];
    var ra, rb := Render(rest, sa[1..]), Render(rest, sb[1..]);
    assert Render(s, sa) == s[..p] + sa[0] + ra;
    assert Render(s, sb) == s[..p] + sb[0] + rb;
    if i == 0 {
      assert sa[1..] == sb[1..];
      if Render(s, sa) == Render(s, sb) {
        assert |a| == |b|;
        assert (s[..p] + a + ra)[p..p + |a|] == a;
        assert (s[..p] + b + rb)[p..p + |b|] == b;
      }
    } else {
      assert sa[1..] == sub[1..][i - 1 := a];
      assert sb[1..] == sub[1..][i - 1 := b];
      RenderInjective(rest, sub[1..], i - 1, a, b);
      if Render(s, sa) == Render(s, sb) {
        var g := s[..p] + sub[0];
        assert (g + ra)[|g|..] == ra;
        assert (g + rb)[|g|..] == rb;
      }
    }
  }
}
