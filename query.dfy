/** The pure steps around a search in vectormd/vmd.py: the heading trim that
    prepares headings for embedding (line 74), and, once the user has picked
    some of the results of a query, the mapping from picked headings back to
    result positions and the markdown block appended to the log
    (lines 95-100). */
module Query {
  import opened Strings
  import opened Headings
  import opened Sectionizer

  // ---------------------------------------------------------------------------
  // heading trim

  /** The first `n` characters of `h` are all `#`. */
  predicate HashPrefix(h: string, n: nat) {
    n <= |h| && forall j :: 0 <= j < n ==> h[j] == '#'
  }

  /** `re.sub(r'^#+\s', '', h)`: a leading run of `#` followed by one
      whitespace character is removed; otherwise `h` is left as it is. The
      result is either `h` or what follows such a prefix. */
  function TrimHeading(h: string): (r: string)
    ensures r == h || (2 <= |h| - |r| && r == h[|h| - |r|..]
                       && HashPrefix(h, |h| - |r| - 1) && IsSpace(h[|h| - |r| - 1]))
  {
    if h != [] && h[0] == '#' && HashRunEnd(h, 0) < |h| && IsSpace(h[HashRunEnd(h, 0)])
    then h[HashRunEnd(h, 0) + 1..]
    else h
  }

  /** A `#` run of the same length at the front of two texts ends at the same
      place in both. */
  lemma {:induction false} HashRunPrefix(h: string, n: nat, p: nat)
    requires HashPrefix(h, n) && p <= n && (n == |h| || h[n] != '#')
    ensures HashRunEnd(h, p) == n
    decreases n - p
  {
    if p < n {
      HashRunPrefix(h, n, p + 1);
    }
  }

  /** The whole `#` run and exactly one whitespace character go, and the rest
      of the heading is kept as it is, whatever it holds. */
  lemma TrimRemovesPrefix(n: nat, c: char, rest: string)
    requires 1 <= n && IsSpace(c)
    ensures var h := seq(n, _ => '#') + [c] + rest;
            TrimHeading(h) == rest
  {
    var h := seq(n, _ => '#') + [c] + rest;
    assert HashPrefix(h, n);
    HashRunPrefix(h, n, 0);
    assert h[n + 1..] == rest;
  }

  /** The heading is left unchanged exactly when it does not start with a
      `#` run followed by whitespace. */
  lemma TrimKeeps(h: string)
    ensures TrimHeading(h) == h <==>
            forall n :: 1 <= n < |h| && HashPrefix(h, n) ==> !IsSpace(h[n])
  {
    if TrimHeading(h) == h {
      forall n | 1 <= n < |h| && HashPrefix(h, n)
        ensures !IsSpace(h[n])
      {
        var k := HashRunEnd(h, 0);
        assert n <= k;
        if n < k {
          assert h[n] == '#';
        }
      }
    } else {
      var n := |h| - |TrimHeading(h)| - 1;
      assert 1 <= n < |h| && HashPrefix(h, n) && IsSpace(h[n]);
    }
  }

  /** A heading line that `md2df` produced (a `#` run, a space, the title)
      is trimmed to its title. */
  lemma TrimHeadingLine(x: string)
    requires IsHeadingLine(x)
    ensures TrimHeading(x) == x[HashRunEnd(x, 0) + 1..]
    ensures |TrimHeading(x)| < |x| - 1
  {
  }

  // ---------------------------------------------------------------------------
  // choice -> index

  /** `{choice: idx for idx, choice in enumerate(choices[..k])}`. */
  function ChoiceFold(choices: seq<string>, k: nat): (m: map<string, nat>)
    requires k <= |choices|
    ensures forall c :: c in m <==> c in choices[..k]
    ensures forall c :: c in m ==>
              m[c] < k && choices[m[c]] == c
              && forall j :: m[c] < j < k ==> choices[j] != c
  {
    if k == 0 then map[]
    else
      var j := k - 1;
      ChoiceStep(choices, ChoiceFold(choices, j), j, k);
      ChoiceFold(choices, j)[choices[j] := j]
  }

  /** One more choice: it maps to its own position, and the choices before
      it keep theirs unless they hold the same heading. */
  lemma ChoiceStep(choices: seq<string>, m: map<string, nat>, j: nat, k: nat)
    requires k == j + 1 && k <= |choices|
    requires forall c :: c in m <==> c in choices[..j]
    requires forall c :: c in m ==>
               m[c] < j && choices[m[c]] == c
               && forall i :: m[c] < i < j ==> choices[i] != c
    ensures var m' := m[choices[j] := j];
            && (forall c :: c in m' <==> c in choices[..k])
            && (forall c :: c in m' ==>
                  m'[c] < k && choices[m'[c]] == c
                  && forall i :: m'[c] < i < k ==> choices[i] != c)
  {
    assert choices[..k] == choices[..j] + [choices[j]];
  }

  /** `choice_to_index`: every result heading maps to a position holding it,
      and when two results share a heading, to the last such position. */
  function ChoiceToIndex(choices: seq<string>): (m: map<string, nat>)
    ensures forall c :: c in m <==> c in choices
    ensures forall c :: c in m ==>
              m[c] < |choices| && choices[m[c]] == c
              && forall j :: m[c] < j < |choices| ==> choices[j] != c
  {
    assert choices[..|choices|] == choices;
    ChoiceFold(choices, |choices|)
  }

  /** Looking up the picked headings either gives their positions or stops at
      the first heading that is not a key, as `KeyError` does. */
  datatype Selection = Picked(indexes: seq<nat>) | KeyError(choice: string)

  /** `[choice_to_index[choice] for choice in selected]`. */
  function SelectedIndexes(m: map<string, nat>, selected: seq<string>): (r: Selection)
    ensures r.Picked? <==> forall i :: 0 <= i < |selected| ==> selected[i] in m
    ensures r.Picked? ==> |r.indexes| == |selected|
                          && forall i :: 0 <= i < |selected| ==> r.indexes[i] == m[selected[i]]
    ensures r.KeyError? ==> exists i :: 0 <= i < |selected| && selected[i] == r.choice
                                        && selected[i] !in m
                                        && forall j :: 0 <= j < i ==> selected[j] in m
  {
    if selected == [] then Picked([])
    else if selected[0] !in m then KeyError(selected[0])
    else
      match SelectedIndexes(m, selected[1..])
      case KeyError(c) =>
        assert forall j :: 1 <= j < |selected| ==> selected[j] == selected[1..][j - 1];
        KeyError(c)
      case Picked(rest) => Picked([m[selected[0]]] + rest)
  }

  /** Picking among the results' own headings always succeeds: each pick
      maps, in the order picked, to a result position that holds it. */
  lemma PicksFindResults(choices: seq<string>, selected: seq<string>)
    ensures var r := SelectedIndexes(ChoiceToIndex(choices), selected);
            r.Picked? <==> forall i :: 0 <= i < |selected| ==> selected[i] in choices
    ensures var r := SelectedIndexes(ChoiceToIndex(choices), selected);
            r.Picked? ==> forall i :: 0 <= i < |selected| ==>
                            r.indexes[i] < |choices| && choices[r.indexes[i]] == selected[i]
  {
  }

  // ---------------------------------------------------------------------------
  // the log block

  /** One result: the section's heading and content and the score text. */
  datatype Hit = Hit(section: Section, score: string)

  function HitHeadings(hits: seq<Hit>): (hs: seq<string>)
    ensures |hs| == |hits| && forall i :: 0 <= i < |hits| ==> hs[i] == hits[i].section.heading
  {
    seq(|hits|, i requires 0 <= i < |hits| => hits[i].section.heading)
  }

  /** The first line of an entry: the heading one level deeper, then the
      score in brackets. */
  function EntryTitle(hit: Hit): string {
    "#" + hit.section.heading + " (" + hit.score + ")"
  }

  /** `f'#{heading} ({score})\n\n{content}'`. */
  function Entry(hit: Hit): string {
    EntryTitle(hit) + "\n\n" + hit.section.content
  }

  /** The log entry for a heading line opens with a heading line one level
      deeper whose title is the heading's title followed by the score, and
      the trim takes the extra `#` away with the others. */
  lemma EntryDeepens(hit: Hit)
    requires IsHeadingLine(hit.section.heading) && '\n' !in hit.score
    ensures var x, t := hit.section.heading, EntryTitle(hit);
            && IsHeadingLine(t)
            && HashRunEnd(t, 0) == HashRunEnd(x, 0) + 1
            && TrimHeading(Entry(hit)) == TrimHeading(x) + " (" + hit.score + ")\n\n" + hit.section.content
  {
    var x, t, e := hit.section.heading, EntryTitle(hit), Entry(hit);
    var n := HashRunEnd(x, 0);
    TitleDeepens(hit);
    TrimTitled(t, hit.section.content, n + 1);
    assert TrimHeading(x) == x[n + 1..];
  }

  /** Text after a title line that opens with a run of `n` `#` and a blank
      is kept whole by the trim. */
  lemma TrimTitled(t: string, c: string, n: nat)
    requires 0 < n && HashPrefix(t, n) && n < |t| && t[n] == ' '
    ensures TrimHeading(t + "\n\n" + c) == t[n + 1..] + "\n\n" + c
  {
    var e := t + "\n\n" + c;
    assert forall j :: 0 <= j < |t| ==> t[j] == e[j];
    assert HashPrefix(e, n) && e[0] == '#' && e[n] == ' ';
    HashRunPrefix(e, n, 0);
    assert e[n + 1..] == t[n + 1..] + "\n\n" + c;
  }

  /** The title of an entry is a heading line one `#` deeper than the
      result's heading, with the score after the heading's title. */
  lemma TitleDeepens(hit: Hit)
    requires IsHeadingLine(hit.section.heading) && '\n' !in hit.score
    ensures var x, t, n := hit.section.heading, EntryTitle(hit), HashRunEnd(hit.section.heading, 0);
            && IsHeadingLine(t) && HashRunEnd(t, 0) == n + 1
            && HashPrefix(t, n + 1) && t[n + 1] == ' '
            && t[n + 2..] == x[n + 1..] + " (" + hit.score + ")"
  {
    var x, t := hit.section.heading, EntryTitle(hit);
    var n := HashRunEnd(x, 0);
    assert HashPrefix(x, n);
    assert HashPrefix(t, n + 1) && t[n + 1] == ' ';
    HashRunPrefix(t, n + 1, 0);
    assert t[n + 2..] == x[n + 1..] + " (" + hit.score + ")";
  }

  /** The first line of the block: the query as a level-one heading, with
      the time in brackets, after a blank line. */
  function Header(query: string, stamp: string): string {
    "\n\n# " + query + " (" + stamp + ")\n\n"
  }

  /** The entry of the last result whose heading is `c`, which is the one
      `choice_to_index` keeps for `c`. */
  function EntryFor(hits: seq<Hit>, c: string): (e: string)
    requires c in HitHeadings(hits)
    ensures exists j :: 0 <= j < |hits| && hits[j].section.heading == c && e == Entry(hits[j])
                        && forall l :: j < l < |hits| ==> hits[l].section.heading != c
  {
    var hs := HitHeadings(hits);
    var j := ChoiceToIndex(hs)[c];
    assert forall l :: j < l < |hits| ==> hits[l].section.heading == hs[l];
    Entry(hits[j])
  }

  /** `str_formatted`: the header followed by the picked entries, in the
      order picked, separated by blank lines; a heading the results do not
      hold stops it with `KeyError`. */
  function LogBlock(hits: seq<Hit>, selected: seq<string>, query: string, stamp: string)
    : (r: Option<string>)
    ensures r.Some? <==> forall i :: 0 <= i < |selected| ==> selected[i] in HitHeadings(hits)
    ensures r.Some? ==>
              r.value == Header(query, stamp) + Join("\n\n", PickedEntries(hits, selected))
  {
    match SelectedIndexes(ChoiceToIndex(HitHeadings(hits)), selected)
    case KeyError(_) => None
    case Picked(idx) =>
      assert Entries(hits, idx) == PickedEntries(hits, selected);
      Some(Header(query, stamp) + Join("\n\n", Entries(hits, idx)))
  }

  /** For each pick, in the order picked, the entry of the last result that
      carries it. */
  function PickedEntries(hits: seq<Hit>, selected: seq<string>): (es: seq<string>)
    requires forall i :: 0 <= i < |selected| ==> selected[i] in HitHeadings(hits)
    ensures |es| == |selected|
  {
    seq(|selected|, i requires 0 <= i < |selected| => EntryFor(hits, selected[i]))
  }

  /** The entries of the results at the given positions, in that order. */
  function Entries(hits: seq<Hit>, idx: seq<nat>): (es: seq<string>)
    ensures |es| == |idx|
  {
    seq(|idx|, i requires 0 <= i < |idx| => if idx[i] < |hits| then Entry(hits[idx[i]]) else [])
  }

  /** Picking nothing logs the header alone. */
  lemma LogNothingPicked(hits: seq<Hit>, query: string, stamp: string)
    ensures LogBlock(hits, [], query, stamp) == Some(Header(query, stamp))
  {
    assert Header(query, stamp) + [] == Header(query, stamp);
  }

  /** Picking one heading logs the header followed by the entry of the last
      result that carries it. */
  lemma LogOnePick(hits: seq<Hit>, c: string, query: string, stamp: string)
    requires c in HitHeadings(hits)
    ensures var m := ChoiceToIndex(HitHeadings(hits));
            && c in m && m[c] < |hits| && hits[m[c]].section.heading == c
            && LogBlock(hits, [c], query, stamp) == Some(Header(query, stamp) + Entry(hits[m[c]]))
  {
    var m := ChoiceToIndex(HitHeadings(hits));
    assert PickedEntries(hits, [c]) == [Entry(hits[m[c]])];
  }

  /** Picking one heading more appends a blank line and the entry of the last
      result that carries it. */
  lemma LogOneMore(hits: seq<Hit>, selected: seq<string>, c: string,
                   query: string, stamp: string)
    requires selected != [] && c in HitHeadings(hits)
    requires forall i :: 0 <= i < |selected| ==> selected[i] in HitHeadings(hits)
    ensures LogBlock(hits, selected, query, stamp).Some?
    ensures var m := ChoiceToIndex(HitHeadings(hits));
            && c in m && m[c] < |hits|
            && LogBlock(hits, selected + [c], query, stamp)
               == Some(LogBlock(hits, selected, query, stamp).value + "\n\n" + Entry(hits[m[c]]))
  {
    var hs := HitHeadings(hits);
    var m := ChoiceToIndex(hs);
    assert |hs| == |hits| && m[c] < |hs|;
    assert forall i :: 0 <= i < |selected| ==> selected[i] in m;
    var idx := SelectedIndexes(m, selected).indexes;
    SelectedOneMore(m, selected, c);
    EntriesOneMore(hits, idx, m[c]);
    AppendEntry(Header(query, stamp), Entries(hits, idx), Entry(hits[m[c]]));
  }

  lemma AppendEntry(header: string, entries: seq<string>, e: string)
    requires entries != []
    ensures header + Join("\n\n", entries + [e]) == header + Join("\n\n", entries) + "\n\n" + e
  {
    JoinSnoc("\n\n", entries, e);
  }

  lemma EntriesOneMore(hits: seq<Hit>, idx: seq<nat>, j: nat)
    requires j < |hits|
    ensures Entries(hits, idx + [j]) == Entries(hits, idx) + [Entry(hits[j])]
  {
  }

  /** Looking up one heading more appends its position. */
  lemma SelectedOneMore(m: map<string, nat>, selected: seq<string>, c: string)
    requires SelectedIndexes(m, selected).Picked? && c in m
    ensures SelectedIndexes(m, selected + [c])
            == Picked(SelectedIndexes(m, selected).indexes + [m[c]])
  {
    var sel := selected + [c];
    assert forall i :: 0 <= i < |selected| ==> sel[i] == selected[i];
  }

  // ---------------------------------------------------------------------------
  // the time stamp

  const HourMicros: nat := 3600 * 1000000
  const DayMicros: nat := 24 * HourMicros

  /** A `datetime` as its day number and the microseconds into that day. */
  datatype Stamp = Stamp(day: int, micros: nat)

  predicate ValidStamp(t: Stamp) {
    t.micros < DayMicros
  }

  /** Microseconds since the start of day zero. */
  function Elapsed(t: Stamp): int {
    t.day * DayMicros + t.micros
  }

  /** `t + timedelta(hours=h)`: the hours are added and carried into the day. */
  function AddHours(t: Stamp, h: int): (r: Stamp)
    ensures ValidStamp(r)
    ensures Elapsed(r) == Elapsed(t) + h * HourMicros
  {
    var total := Elapsed(t) + h * HourMicros;
    Stamp(total / DayMicros, total % DayMicros)
  }

  /** The stamp written to the log: the UTC time nine hours later. */
  function LogTime(utc: Stamp): (r: Stamp)
    ensures ValidStamp(r) && Elapsed(r) == Elapsed(utc) + 9 * HourMicros
  {
    AddHours(utc, 9)
  }

  /** A valid stamp is determined by the time it stands for. */
  lemma ElapsedInjective(a: Stamp, b: Stamp)
    requires ValidStamp(a) && ValidStamp(b) && Elapsed(a) == Elapsed(b)
    ensures a == b
  {
    assert a.day < b.day ==> Elapsed(a) < (a.day + 1) * DayMicros <= Elapsed(b);
    assert b.day < a.day ==> Elapsed(b) < (b.day + 1) * DayMicros <= Elapsed(a);
  }

  /** The shift stays on the same day exactly when the UTC time is before
      15:00, and otherwise moves to the next day. */
  lemma LogTimeDay(utc: Stamp)
    requires ValidStamp(utc)
    ensures var r := LogTime(utc);
            && (utc.micros < 15 * HourMicros ==> r == Stamp(utc.day, utc.micros + 9 * HourMicros))
            && (15 * HourMicros <= utc.micros ==> r == Stamp(utc.day + 1, utc.micros - 15 * HourMicros))
  {
    var r := LogTime(utc);
    if utc.micros < 15 * HourMicros {
      ElapsedInjective(r, Stamp(utc.day, utc.micros + 9 * HourMicros));
    } else {
      ElapsedInjective(r, Stamp(utc.day + 1, utc.micros - 15 * HourMicros));
    }
  }

  /** Shifting back nine hours gives the UTC time again. */
  lemma LogTimeUndone(utc: Stamp)
    requires ValidStamp(utc)
    ensures AddHours(LogTime(utc), -9) == utc
  {
    ElapsedInjective(AddHours(LogTime(utc), -9), utc);
  }
}
