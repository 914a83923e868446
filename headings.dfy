/** The heading split of `md2df`: `re.split(r'(^#+ .*)', text,
    flags=re.MULTILINE)` (vectormd/vmd.py:27). A heading line starts at the
    beginning of a line with one or more `#` followed by a space and runs to
    the end of that line; the split keeps each heading line as a piece of
    its own between the texts around it. */
module Headings {
  import opened Strings

  /** `^` under `re.MULTILINE`: the start of the text or just after a newline. */
  predicate LineStart(t: string, p: int) {
    p == 0 || (0 < p <= |t| && t[p - 1] == '\n')
  }

  /** The end of the run of `#` that starts at `p`. */
  function HashRunEnd(t: string, p: nat): (k: nat)
    requires p <= |t|
    ensures p <= k <= |t|
    ensures forall j :: p <= j < k ==> t[j] == '#'
    ensures k < |t| ==> t[k] != '#'
    decreases |t| - p
  {
    if p < |t| && t[p] == '#' then HashRunEnd(t, p + 1) else p
  }

  /** `^#+ ` matches at `p`. */
  predicate HeadingAt(t: string, p: int) {
    && 0 <= p < |t|
    && LineStart(t, p)
    && t[p] == '#'
    && HashRunEnd(t, p) < |t|
    && t[HashRunEnd(t, p)] == ' '
  }

  /** Where `.*` stops: the next newline at or after `p`, or the end. */
  function LineEnd(t: string, p: nat): (k: nat)
    requires p <= |t|
    ensures p <= k <= |t|
    ensures forall j :: p <= j < k ==> t[j] != '\n'
    ensures k < |t| ==> t[k] == '\n'
    decreases |t| - p
  {
    if p < |t| && t[p] != '\n' then LineEnd(t, p + 1) else p
  }

  /** The first heading at or after `from`. */
  function NextHeading(t: string, from: nat): (r: Option<nat>)
    requires from <= |t|
    ensures r.Some? ==> from <= r.value && HeadingAt(t, r.value)
    ensures r.Some? ==> forall q :: from <= q < r.value ==> !HeadingAt(t, q)
    ensures r.None? ==> forall q :: from <= q ==> !HeadingAt(t, q)
    decreases |t| - from
  {
    if from == |t| then None
    else if HeadingAt(t, from) then Some(from)
    else NextHeading(t, from + 1)
  }

  /** The positions of the heading lines at or after `from`, in order; the
      scan resumes where each heading line ends. */
  function HeadingStarts(t: string, from: nat): (r: seq<nat>)
    requires from <= |t|
    ensures forall i :: 0 <= i < |r| ==> from <= r[i] < |t| && HeadingAt(t, r[i])
    decreases |t| - from
  {
    match NextHeading(t, from)
    case None => []
    case Some(h) => [h] + HeadingStarts(t, LineEnd(t, h))
  }

  /** `re.split(r'(^#+ .*)', t[from..], flags=re.MULTILINE)`: the text
      before the first heading line, then each heading line followed by the
      text up to the next one. */
  function SplitFrom(t: string, from: nat): seq<string>
    requires from <= |t|
    decreases |t| - from
  {
    match NextHeading(t, from)
    case None => [t[from..]]
    case Some(h) =>
      var e := LineEnd(t, h);
      [t[from..h], t[h..e]] + SplitFrom(t, e)
  }

  function HeadingSplit(t: string): seq<string> {
    SplitFrom(t, 0)
  }

  /** A whole heading line: a run of `#`, a space, and no newline. */
  predicate IsHeadingLine(x: string) {
    && x != [] && x[0] == '#'
    && HashRunEnd(x, 0) < |x| && x[HashRunEnd(x, 0)] == ' '
    && '\n' !in x
  }

  /** The heading positions found are exactly the places where `^#+ `
      matches, and they are found from left to right. */
  lemma {:induction false} HeadingStartsExact(t: string, from: nat)
    requires from <= |t|
    ensures forall q :: from <= q ==> (HeadingAt(t, q) <==> q in HeadingStarts(t, from))
    ensures forall i, j :: 0 <= i < j < |HeadingStarts(t, from)| ==>
              HeadingStarts(t, from)[i] < HeadingStarts(t, from)[j]
    decreases |t| - from
  {
    match NextHeading(t, from)
    case None =>
    case Some(h) =>
      var e := LineEnd(t, h);
      HeadingStartsExact(t, e);
      assert forall q :: h < q < e ==> !LineStart(t, q);
  }

  /** The split has one more piece than twice the heading lines, and the
      piece after each text is the heading line found at the next heading
      position. */
  lemma {:induction false} SplitShape(t: string, from: nat)
    requires from <= |t|
    ensures var r, hs := SplitFrom(t, from), HeadingStarts(t, from);
            && |r| == 2 * |hs| + 1
            && (forall i :: 0 <= i < |hs| ==> r[2 * i + 1] == HeadingLine(t, hs[i]))
    decreases |t| - from
  {
    match NextHeading(t, from)
    case None =>
    case Some(h) =>
      var e := LineEnd(t, h);
      SplitShape(t, e);
      var rest, hs' := SplitFrom(t, e), HeadingStarts(t, e);
      var ys := seq(|hs'|, i requires 0 <= i < |hs'| => HeadingLine(t, hs'[i]));
      ShapeStep(t[from..h], HeadingLine(t, h), rest, ys);
      var hs := [h] + hs';
      assert forall i :: 0 <= i < |hs| ==> ([HeadingLine(t, h)] + ys)[i] == HeadingLine(t, hs[i]);
  }

  /** The heading line that starts at `p`. */
  function HeadingLine(t: string, p: nat): string
    requires p <= |t|
  {
    t[p..LineEnd(t, p)]
  }

  /** One step of `SplitShape`, on the pieces rather than on the text. */
  lemma ShapeStep(a: string, x: string, rest: seq<string>, ys: seq<string>)
    requires |rest| == 2 * |ys| + 1
    requires forall i :: 0 <= i < |ys| ==> rest[2 * i + 1] == ys[i]
    ensures var r, xs := [a, x] + rest, [x] + ys;
            && |r| == 2 * |xs| + 1
            && (forall i :: 0 <= i < |xs| ==> r[2 * i + 1] == xs[i])
  {
    var r, xs := [a, x] + rest, [x] + ys;
    forall i | 0 <= i < |xs|
      ensures r[2 * i + 1] == xs[i]
    {
      if i > 0 {
        assert r[2 * i + 1] == rest[2 * (i - 1) + 1];
      }
    }
  }

  /** The pieces of the split put together give back the text. */
  lemma {:induction false} SplitConcat(t: string, from: nat)
    requires from <= |t|
    ensures Concat(SplitFrom(t, from)) == t[from..]
    decreases |t| - from
  {
    match NextHeading(t, from)
    case None =>
      assert Concat([t[from..]]) == t[from..] + Concat([]);
    case Some(h) =>
      var e := LineEnd(t, h);
      SplitConcat(t, e);
      var r, rest := SplitFrom(t, from), SplitFrom(t, e);
      assert r[1..][1..] == rest;
      assert Concat(r) == t[from..h] + (t[h..e] + Concat(rest));
      assert t[from..] == t[from..h] + (t[h..e] + t[e..]);
  }

  /** Every heading line the split keeps is a whole heading line. */
  lemma HeadingLineAt(t: string, h: nat)
    requires HeadingAt(t, h)
    ensures IsHeadingLine(t[h..LineEnd(t, h)])
  {
    var e := LineEnd(t, h);
    var x := t[h..e];
    HashRunShift(t, h, e, h);
    assert forall j :: 0 <= j < |x| ==> x[j] == t[h + j];
  }

  /** The `#` run read inside a slice that holds all of it ends at the same
      place. */
  lemma {:induction false} HashRunShift(t: string, h: nat, e: nat, p: nat)
    requires h <= p <= e <= |t| && HashRunEnd(t, p) < e
    ensures HashRunEnd(t[h..e], p - h) == HashRunEnd(t, p) - h
    decreases e - p
  {
    if t[p] == '#' {
      HashRunShift(t, h, e, p + 1);
    }
  }

  /** The split has an odd number of pieces that put together give back
      the text, and those at odd positions are heading lines. */
  lemma SplitPieces(t: string)
    ensures var r := HeadingSplit(t);
            |r| % 2 == 1 && Concat(r) == t
    ensures var r := HeadingSplit(t);
            forall j :: 0 <= j < |r| / 2 ==> IsHeadingLine(r[2 * j + 1])
  {
    SplitConcat(t, 0);
    assert t[0..] == t;
    SplitHeadingLines(t);
  }

  lemma SplitHeadingLines(t: string)
    ensures var r := HeadingSplit(t);
            && |r| % 2 == 1
            && forall j :: 0 <= j < |r| / 2 ==> IsHeadingLine(r[2 * j + 1])
  {
    var r, hs := HeadingSplit(t), HeadingStarts(t, 0);
    SplitShape(t, 0);
    assert |r| / 2 == |hs|;
    forall j | 0 <= j < |hs|
      ensures IsHeadingLine(r[2 * j + 1])
    {
      HeadingLineAt(t, hs[j]);
    }
  }

  /** Neighbouring pieces of the split meet at a newline: a heading line
      starts just after one and ends just before one. */
  lemma {:induction false} SplitSeams(t: string, from: nat)
    requires from <= |t|
    ensures Seams(SplitFrom(t, from))
    decreases |t| - from
  {
    match NextHeading(t, from)
    case None =>
    case Some(h) =>
      var e := LineEnd(t, h);
      var r, rest := SplitFrom(t, from), SplitFrom(t, e);
      SplitSeams(t, e);
      SplitConcat(t, e);
      assert r[1..][1..] == rest;
      assert Concat(r[1..]) == t[h..e] + Concat(rest);
      assert Seam(t[h..e], Concat(rest));
      assert h > from ==> t[from..h][h - from - 1] == t[h - 1] == '\n';
      assert Seam(t[from..h], Concat(r[1..]));
  }
}
