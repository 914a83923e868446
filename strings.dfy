/** The handful of Python `str` operations that the sectionizer and the query
    log are built from, as functions over `seq<char>`: `isspace`, `strip`,
    `find`, `replace` (first occurrence and all occurrences), `''.join`,
    `sep.join` and `str(int)`. */
module Strings {

  datatype Option<T> = None | Some(value: T)

  /** `c.isspace()`: the characters `str.strip()` removes and `\s` matches. */
  predicate IsSpace(c: char) {
    || c == ' '
    || '\t' <= c <= '\r'
    || '\U{1c}' <= c <= '\U{1f}'
    || c == '\U{85}' || c == '\U{a0}' || c == '\U{1680}'
    || '\U{2000}' <= c <= '\U{200a}'
    || c == '\U{2028}' || c == '\U{2029}' || c == '\U{202f}'
    || c == '\U{205f}' || c == '\U{3000}'
  }

  predicate IsDigit(c: char) {
    '0' <= c <= '9'
  }

  predicate AllSpace(s: string) {
    forall i :: 0 <= i < |s| ==> IsSpace(s[i])
  }

  /** Neither end of `s` is whitespace; true of the empty string. */
  predicate Stripped(s: string) {
    s == [] || (!IsSpace(s[0]) && !IsSpace(s[|s| - 1]))
  }

  // ---------------------------------------------------------------------------
  // strip

  /** The end of the run of whitespace that starts at `i`. */
  function LeadEnd(s: string, i: nat): (k: nat)
    requires i <= |s|
    ensures i <= k <= |s|
    ensures forall j :: i <= j < k ==> IsSpace(s[j])
    ensures k < |s| ==> !IsSpace(s[k])
    decreases |s| - i
  {
    if i < |s| && IsSpace(s[i]) then LeadEnd(s, i + 1) else i
  }

  /** The start of the run of whitespace that ends at `e`, not going below `lo`. */
  function TrailStart(s: string, lo: nat, e: nat): (k: nat)
    requires lo <= e <= |s|
    ensures lo <= k <= e
    ensures forall j :: k <= j < e ==> IsSpace(s[j])
    ensures k > lo ==> !IsSpace(s[k - 1])
    decreases e
  {
    if e > lo && IsSpace(s[e - 1]) then TrailStart(s, lo, e - 1) else e
  }

  /** Where `s.strip()` cuts `s`: blank before the first bound and after the
      second, nothing blank left at the ends in between. */
  function StripBounds(s: string): (b: (nat, nat))
    ensures b.0 <= b.1 <= |s|
    ensures AllSpace(s[..b.0]) && AllSpace(s[b.1..]) && Stripped(s[b.0..b.1])
    ensures b.0 == b.1 <==> AllSpace(s)
  {
    var k := LeadEnd(s, 0);
    var e := TrailStart(s, k, |s|);
    assert k == |s| ==> AllSpace(s);
    (k, e)
  }

  /** `s.strip()`: `s` is some whitespace, then the result, then some
      whitespace; the result is empty exactly when `s` is blank. */
  function Strip(s: string): (r: string)
    ensures Stripped(r)
    ensures r == [] <==> AllSpace(s)
    ensures s == s[..StripBounds(s).0] + (r + s[StripBounds(s).1..])
  {
    var b := StripBounds(s);
    assert s == s[..b.0] + (s[b.0..b.1] + s[b.1..]);
    s[b.0..b.1]
  }

  /** Stripping a text padded with whitespace on both sides gives the text
      back: the decomposition in `Strip`'s contract is unique. */
  lemma StripPadded(a: string, x: string, b: string)
    requires AllSpace(a) && AllSpace(b) && Stripped(x)
    ensures Strip(a + (x + b)) == x
  {
    var s := a + (x + b);
    if x == [] {
      assert s == a + b;
      assert AllSpace(s);
    } else {
      var k := LeadEnd(s, 0);
      assert s[|a|] == x[0];
      assert k == |a|;
      var e := TrailStart(s, k, |s|);
      assert s[|a| + |x| - 1] == x[|x| - 1];
      assert e == |a| + |x|;
      assert s[k..e] == x;
    }
  }

  // ---------------------------------------------------------------------------
  // find

  predicate OccursAt(t: string, pat: string, k: int) {
    0 <= k && k + |pat| <= |t| && t[k..k + |pat|] == pat
  }

  ghost predicate NoOccurrence(t: string, pat: string) {
    forall k :: !OccursAt(t, pat, k)
  }

  /** `t.find(pat, from)`, as an option: the least `k >= from` where `pat` occurs. */
  function FindFrom(t: string, pat: string, from: nat): (r: Option<nat>)
    ensures r.Some? ==> from <= r.value && OccursAt(t, pat, r.value)
    ensures r.Some? ==> forall k :: from <= k < r.value ==> !OccursAt(t, pat, k)
    ensures r.None? ==> forall k :: from <= k ==> !OccursAt(t, pat, k)
    decreases |t| - from
  {
    if from + |pat| > |t| then None
    else if t[from..from + |pat|] == pat then Some(from)
    else FindFrom(t, pat, from + 1)
  }

  lemma OccursAtShift(a: string, x: string, pat: string, k: int)
    requires 0 <= k
    ensures OccursAt(a + x, pat, |a| + k) <==> OccursAt(x, pat, k)
  {
    if 0 <= k && k + |pat| <= |x| {
      assert (a + x)[|a| + k..|a| + k + |pat|] == x[k..k + |pat|];
    }
  }

  /** An occurrence of a text that begins with `c` sits on a `c`. */
  lemma OccursAtHead(t: string, pat: string, k: int)
    requires pat != [] && OccursAt(t, pat, k)
    ensures t[k] == pat[0]
  {
    assert t[k..k + |pat|][0] == t[k];
  }

  /** Every occurrence in a slice of `t` is an occurrence in `t`. */
  lemma NoOccurrenceSlice(t: string, pat: string, i: nat, j: nat)
    requires i <= j <= |t| && NoOccurrence(t, pat)
    ensures NoOccurrence(t[i..j], pat)
  {
    forall k | 0 <= k && k + |pat| <= j - i
      ensures !OccursAt(t[i..j], pat, k)
    {
      assert t[i..j][k..k + |pat|] == t[i + k..i + k + |pat|];
      assert !OccursAt(t, pat, i + k);
    }
  }

  // ---------------------------------------------------------------------------
  // replace

  /** `t.replace(pat, rep, 1)`. */
  function ReplaceFirst(t: string, pat: string, rep: string): string {
    match FindFrom(t, pat, 0)
    case None => t
    case Some(k) => t[..k] + rep + t[k + |pat|..]
  }

  /** `replace(pat, rep, 1)` rewrites the first occurrence of `pat`, wherever it is. */
  lemma ReplaceFirstAt(t: string, pat: string, rep: string, k: nat)
    requires OccursAt(t, pat, k)
    requires forall j :: 0 <= j < k ==> !OccursAt(t, pat, j)
    ensures ReplaceFirst(t, pat, rep) == t[..k] + rep + t[k + |pat|..]
  {
  }

  /** A text without `pat` is kept as it is. */
  lemma ReplaceFirstNone(t: string, pat: string, rep: string)
    requires NoOccurrence(t, pat)
    ensures ReplaceFirst(t, pat, rep) == t
  {
    assert !OccursAt(t, pat, 0);
  }

  /** When no occurrence of `pat` starts inside `a`, the first one in `a + x`
      is the first one in `x`. */
  lemma ReplaceFirstSkip(a: string, x: string, pat: string, rep: string)
    requires forall j :: 0 <= j < |a| ==> !OccursAt(a + x, pat, j)
    ensures ReplaceFirst(a + x, pat, rep) == a + ReplaceFirst(x, pat, rep)
  {
    match FindFrom(x, pat, 0)
    case None =>
      SkipNone(a, x, pat);
    case Some(k) =>
      SkipFound(a, x, pat, rep, k);
  }

  /** `ReplaceFirstSkip` when `x` holds `pat`, first at `k`. */
  lemma SkipFound(a: string, x: string, pat: string, rep: string, k: nat)
    requires forall j :: 0 <= j < |a| ==> !OccursAt(a + x, pat, j)
    requires OccursAt(x, pat, k) && forall j :: 0 <= j < k ==> !OccursAt(x, pat, j)
    ensures ReplaceFirst(a + x, pat, rep) == a + (x[..k] + rep + x[k + |pat|..])
  {
    SkipSome(a, x, pat, k);
    ReplaceFirstAt(a + x, pat, rep, |a| + k);
    SliceAppend(a, x, k, k + |pat|);
    var b, t := x[..k], x[k + |pat|..];
    AppendAssoc(a + b, rep, t);
    AppendAssoc(a, b, rep + t);
    AppendAssoc(b, rep, t);
  }

  /** Cutting `a + x` inside `x`. */
  lemma SliceAppend(a: string, x: string, k: nat, m: nat)
    requires k <= m <= |x|
    ensures (a + x)[..|a| + k] == a + x[..k]
    ensures (a + x)[|a| + m..] == x[m..]
  {
  }

  /** An occurrence in `a + x` that starts at or after `x` is one in `x`. */
  lemma OccursAfter(a: string, x: string, pat: string, j: int)
    ensures j >= |a| && OccursAt(a + x, pat, j) ==> OccursAt(x, pat, j - |a|)
  {
    if j >= |a| {
      OccursAtShift(a, x, pat, j - |a|);
    }
  }

  lemma SkipNone(a: string, x: string, pat: string)
    requires forall j :: 0 <= j < |a| ==> !OccursAt(a + x, pat, j)
    requires NoOccurrence(x, pat)
    ensures FindFrom(a + x, pat, 0).None?
  {
    var r := FindFrom(a + x, pat, 0);
    var j := if r.Some? then r.value else 0;
    OccursAfter(a, x, pat, j);
  }

  lemma SkipSome(a: string, x: string, pat: string, k: nat)
    requires forall j :: 0 <= j < |a| ==> !OccursAt(a + x, pat, j)
    requires OccursAt(x, pat, k) && forall j :: 0 <= j < k ==> !OccursAt(x, pat, j)
    ensures OccursAt(a + x, pat, |a| + k)
    ensures forall j :: 0 <= j < |a| + k ==> !OccursAt(a + x, pat, j)
  {
    OccursAtShift(a, x, pat, k);
    forall j | |a| <= j < |a| + k
      ensures !OccursAt(a + x, pat, j)
    {
      OccursAtShift(a, x, pat, j - |a|);
    }
  }

  /** `t.replace(pat, rep)`: every occurrence of `pat`, found scanning left
      to right without overlap; an empty `pat` puts `rep` around every
      character. */
  function ReplaceAll(t: string, pat: string, rep: string): string
    decreases |t|
  {
    if pat == [] then
      if t == [] then rep else rep + [t[0]] + ReplaceAll(t[1..], pat, rep)
    else if |t| < |pat| then t
    else if t[..|pat|] == pat then rep + ReplaceAll(t[|pat|..], pat, rep)
    else [t[0]] + ReplaceAll(t[1..], pat, rep)
  }

  /** A text with no occurrence of `pat` is left alone. */
  lemma {:induction false} ReplaceAllAbsent(t: string, pat: string, rep: string)
    requires pat != [] && NoOccurrence(t, pat)
    ensures ReplaceAll(t, pat, rep) == t
    decreases |t|
  {
    if |t| >= |pat| {
      assert !OccursAt(t, pat, 0);
      NoOccurrenceSlice(t, pat, 1, |t|);
      assert t[1..|t|] == t[1..];
      ReplaceAllAbsent(t[1..], pat, rep);
      assert t == [t[0]] + t[1..];
    }
  }

  /** The pattern alone is replaced by the replacement. */
  lemma ReplaceAllWhole(pat: string, rep: string)
    requires pat != []
    ensures ReplaceAll(pat, pat, rep) == rep
  {
    assert pat[..|pat|] == pat;
    assert ReplaceAll(pat[|pat|..], pat, rep) == [];
  }

  /** No occurrence of `pat` in `x + y` starts in `x` and ends in `y`. */
  ghost predicate NoStraddle(x: string, y: string, pat: string) {
    forall k :: 0 <= k < |x| < k + |pat| ==> !OccursAt(x + y, pat, k)
  }

  /** Replacing all occurrences works piecewise across a boundary that no
      occurrence straddles. */
  lemma {:induction false} ReplaceAllConcat(x: string, y: string, pat: string, rep: string)
    requires pat != [] && NoStraddle(x, y, pat)
    ensures ReplaceAll(x + y, pat, rep) == ReplaceAll(x, pat, rep) + ReplaceAll(y, pat, rep)
    decreases |x|
  {
    var t := x + y;
    if x == [] {
      assert t == y;
    } else if |t| < |pat| {
      assert ReplaceAll(x, pat, rep) == x;
      assert ReplaceAll(y, pat, rep) == y;
    } else if t[..|pat|] == pat {
      StraddleMatch(x, y, pat);
      var x' := x[|pat|..];
      ReplaceAllConcat(x', y, pat, rep);
      assert ReplaceAll(x, pat, rep) == rep + ReplaceAll(x', pat, rep);
      AppendAssoc(rep, ReplaceAll(x', pat, rep), ReplaceAll(y, pat, rep));
    } else {
      var x' := x[1..];
      StraddleSkip(x, y, pat);
      ReplaceAllConcat(x', y, pat, rep);
      if |x| >= |pat| {
        assert x[..|pat|] == t[..|pat|];
      } else {
        assert ReplaceAll(x', pat, rep) == x';
        assert ReplaceAll(x, pat, rep) == x;
        assert x == [x[0]] + x';
      }
      assert ReplaceAll(x, pat, rep) == [x[0]] + ReplaceAll(x', pat, rep);
      AppendAssoc([x[0]], ReplaceAll(x', pat, rep), ReplaceAll(y, pat, rep));
    }
  }

  lemma AppendAssoc(a: string, b: string, c: string)
    ensures a + (b + c) == (a + b) + c
  {
  }

  /** When `x + y` starts with the pattern and nothing straddles, the match
      lies in `x` and nothing straddles what follows it either. */
  lemma StraddleMatch(x: string, y: string, pat: string)
    requires pat != [] && NoStraddle(x, y, pat) && x != []
    requires |pat| <= |x + y| && (x + y)[..|pat|] == pat
    ensures |pat| <= |x| && x[..|pat|] == pat
    ensures (x + y)[|pat|..] == x[|pat|..] + y
    ensures NoStraddle(x[|pat|..], y, pat)
  {
    assert OccursAt(x + y, pat, 0);
    var x' := x[|pat|..];
    assert x == pat + x';
    forall k | 0 <= k < |x'| < k + |pat|
      ensures !OccursAt(x' + y, pat, k)
    {
      OccursAtShift(pat, x' + y, pat, k);
      assert pat + (x' + y) == x + y;
    }
  }

  /** Dropping the first character of `x` keeps nothing straddling. */
  lemma StraddleSkip(x: string, y: string, pat: string)
    requires NoStraddle(x, y, pat) && x != []
    ensures (x + y)[1..] == x[1..] + y
    ensures NoStraddle(x[1..], y, pat)
  {
    var x' := x[1..];
    assert x == [x[0]] + x';
    forall k | 0 <= k < |x'| < k + |pat|
      ensures !OccursAt(x' + y, pat, k)
    {
      OccursAtShift([x[0]], x' + y, pat, k);
      assert [x[0]] + (x' + y) == x + y;
    }
  }

  /** Replacing with a text that does not end in whitespace keeps a text that
      does not end in whitespace from ending in whitespace. */
  lemma {:induction false} ReplaceAllKeepsEnd(t: string, pat: string, rep: string)
    requires pat != [] && rep != [] && !IsSpace(rep[|rep| - 1])
    requires t != [] && !IsSpace(t[|t| - 1])
    ensures var r := ReplaceAll(t, pat, rep); r != [] && !IsSpace(r[|r| - 1])
    decreases |t|
  {
    if |t| < |pat| {
    } else if t[..|pat|] == pat {
      var u := t[|pat|..];
      var r' := ReplaceAll(u, pat, rep);
      if u != [] {
        assert u[|u| - 1] == t[|t| - 1];
        ReplaceAllKeepsEnd(u, pat, rep);
      } else {
        assert r' == [];
      }
      assert ReplaceAll(t, pat, rep) == rep + r';
      LastChar(rep, r');
    } else {
      var u := t[1..];
      var r' := ReplaceAll(u, pat, rep);
      if u != [] {
        assert u[|u| - 1] == t[|t| - 1];
        ReplaceAllKeepsEnd(u, pat, rep);
      } else {
        assert r' == [];
      }
      assert ReplaceAll(t, pat, rep) == [t[0]] + r';
      LastChar([t[0]], r');
    }
  }

  lemma LastChar(p: string, q: string)
    requires p != []
    ensures (p + q)[|p + q| - 1] == if q == [] then p[|p| - 1] else q[|q| - 1]
  {
  }

  /** Likewise at the front. */
  lemma ReplaceAllKeepsStart(t: string, pat: string, rep: string)
    requires pat != [] && rep != [] && !IsSpace(rep[0])
    requires t != [] && !IsSpace(t[0])
    ensures var r := ReplaceAll(t, pat, rep); r != [] && !IsSpace(r[0])
  {
  }

  /** Each character of an occurrence is the matching character of the pattern. */
  lemma OccursAtChar(t: string, pat: string, k: int, m: int)
    requires OccursAt(t, pat, k) && k <= m < k + |pat|
    ensures t[m] == pat[m - k]
  {
    assert t[k..k + |pat|][m - k] == t[m];
  }

  predicate NoSpaceIn(pat: string) {
    forall i :: 0 <= i < |pat| ==> !IsSpace(pat[i])
  }

  /** A pattern without whitespace is replaced inside the whitespace padding
      of a text, never across it. */
  lemma ReplaceAllPadded(a: string, x: string, b: string, pat: string, rep: string)
    requires AllSpace(a) && AllSpace(b)
    requires pat != [] && NoSpaceIn(pat)
    ensures ReplaceAll(a + (x + b), pat, rep) == a + (ReplaceAll(x, pat, rep) + b)
  {
    ReplaceAllBlankFront(a, x + b, pat, rep);
    ReplaceAllBlankBack(x, b, pat, rep);
  }

  lemma ReplaceAllBlankFront(a: string, y: string, pat: string, rep: string)
    requires AllSpace(a) && pat != [] && NoSpaceIn(pat)
    ensures ReplaceAll(a + y, pat, rep) == a + ReplaceAll(y, pat, rep)
  {
    NoSpaceNoOccurrence(a, pat);
    ReplaceAllAbsent(a, pat, rep);
    forall k | 0 <= k < |a| < k + |pat|
      ensures !OccursAt(a + y, pat, k)
    {
      assert (a + y)[k] == a[k];
      if OccursAt(a + y, pat, k) {
        OccursAtChar(a + y, pat, k, k);
      }
    }
    ReplaceAllConcat(a, y, pat, rep);
  }

  lemma ReplaceAllBlankBack(x: string, b: string, pat: string, rep: string)
    requires AllSpace(b) && pat != [] && NoSpaceIn(pat)
    ensures ReplaceAll(x + b, pat, rep) == ReplaceAll(x, pat, rep) + b
  {
    NoSpaceNoOccurrence(b, pat);
    ReplaceAllAbsent(b, pat, rep);
    forall k | 0 <= k < |x| < k + |pat|
      ensures !OccursAt(x + b, pat, k)
    {
      if b != [] {
        assert (x + b)[|x|] == b[0];
        if OccursAt(x + b, pat, k) {
          OccursAtChar(x + b, pat, k, |x|);
        }
      }
    }
    ReplaceAllConcat(x, b, pat, rep);
  }

  /** A replacement whose pattern has no whitespace and whose replacement has
      none at its ends commutes with `strip`. */
  lemma ReplaceAllStrip(t: string, pat: string, rep: string)
    requires pat != [] && NoSpaceIn(pat)
    requires rep != [] && !IsSpace(rep[0]) && !IsSpace(rep[|rep| - 1])
    ensures Strip(ReplaceAll(t, pat, rep)) == ReplaceAll(Strip(t), pat, rep)
  {
    var x := Strip(t);
    var a, b := t[..StripBounds(t).0], t[StripBounds(t).1..];
    ReplaceAllPadded(a, x, b, pat, rep);
    var y := ReplaceAll(x, pat, rep);
    ReplaceAllStripped(x, pat, rep);
    StripPadded(a, y, b);
  }

  /** Replacing with a text that has no whitespace at its ends keeps a
      stripped text stripped. */
  lemma ReplaceAllStripped(x: string, pat: string, rep: string)
    requires pat != [] && Stripped(x)
    requires rep != [] && !IsSpace(rep[0]) && !IsSpace(rep[|rep| - 1])
    ensures Stripped(ReplaceAll(x, pat, rep))
  {
    if x != [] {
      ReplaceAllKeepsStart(x, pat, rep);
      ReplaceAllKeepsEnd(x, pat, rep);
    }
  }


  /** A text with no whitespace never occurs inside a blank text. */
  lemma NoSpaceNoOccurrence(w: string, pat: string)
    requires AllSpace(w)
    requires pat != [] && NoSpaceIn(pat)
    ensures NoOccurrence(w, pat)
  {
    forall k
      ensures !OccursAt(w, pat, k)
    {
      if 0 <= k && k + |pat| <= |w| {
        assert IsSpace(w[k..k + |pat|][0]);
      }
    }
  }

  // ---------------------------------------------------------------------------
  // join

  /** `''.join(xs)`. */
  function Concat(xs: seq<string>): string {
    if xs == [] then [] else xs[0] + Concat(xs[1..])
  }

  lemma {:induction false} ConcatAppend(xs: seq<string>, ys: seq<string>)
    ensures Concat(xs + ys) == Concat(xs) + Concat(ys)
  {
    if xs == [] {
      assert xs + ys == ys;
    } else {
      assert (xs + ys)[1..] == xs[1..] + ys;
      ConcatAppend(xs[1..], ys);
    }
  }

  /** Two neighbouring pieces meet at a newline, or one of them is empty. */
  predicate Seam(x: string, y: string) {
    x == [] || y == [] || x[|x| - 1] == '\n' || y[0] == '\n'
  }

  /** Every piece meets the rest of the list at a seam. */
  predicate Seams(xs: seq<string>) {
    |xs| <= 1 || (Seam(xs[0], Concat(xs[1..])) && Seams(xs[1..]))
  }

  /** `sep.join(xs)`. */
  function Join(sep: string, xs: seq<string>): string {
    if xs == [] then []
    else if |xs| == 1 then xs[0]
    else xs[0] + sep + Join(sep, xs[1..])
  }

  /** Appending one more item appends the separator and the item. */
  lemma {:induction false} JoinSnoc(sep: string, xs: seq<string>, y: string)
    requires xs != []
    ensures Join(sep, xs + [y]) == Join(sep, xs) + sep + y
  {
    if |xs| == 1 {
      assert xs + [y] == [xs[0], y];
    } else {
      assert (xs + [y])[1..] == xs[1..] + [y];
      JoinSnoc(sep, xs[1..], y);
    }
  }

  // ---------------------------------------------------------------------------
  // str(int)

  function DigitChar(d: nat): (c: char)
    requires d < 10
    ensures IsDigit(c) && c as int - '0' as int == d
  {
    ('0' as int + d) as char
  }

  /** `str(n)` for a non-negative `n`: its decimal digits, no leading zero. */
  function Decimal(n: nat): (r: string)
    ensures 1 <= |r| && forall i :: 0 <= i < |r| ==> IsDigit(r[i])
    ensures n < 10 <==> |r| == 1
  {
    if n < 10 then [DigitChar(n)] else Decimal(n / 10) + [DigitChar(n % 10)]
  }

  /** Distinct numbers print differently. */
  lemma {:induction false} DecimalInjective(m: nat, n: nat)
    ensures Decimal(m) == Decimal(n) ==> m == n
  {
    if m >= 10 && n >= 10 && Decimal(m) == Decimal(n) {
      var dm, dn := Decimal(m), Decimal(n);
      assert dm[..|dm| - 1] == Decimal(m / 10);
      assert dn[..|dn| - 1] == Decimal(n / 10);
      DecimalInjective(m / 10, n / 10);
      assert dm[|dm| - 1] == DigitChar(m % 10);
    }
  }
}
