/**
  extract_calories: the (item, calories) pairs read line by line from the
  model's free text with `\d+\.\s*(.*?)\s*-\s*(\d+)\s*calories`, and the
  one-row fallback used when no line yields one.
 */
module Calories {
  import opened Wrappers
  import opened Text
  import Lines

  /** The word that closes an entry; it matches under re.IGNORECASE. */
  const Unit: string := "calories"

  /** No character of line[b..q] is a line break: the span `.` can cover. */
  predicate NoLineBreak(line: string, b: nat, q: nat) {
    b <= q <= |line| && forall m :: b <= m < q ==> line[m] != '\n'
  }

  /**
    One way the tail `\s*-\s*(\d+)\s*calories` matches from q: whitespace up to
    h, the hyphen at h, whitespace up to e, the digits of group 2 in e..f,
    whitespace up to g and the word at g.
   */
  ghost predicate TailSplit(line: string, q: nat, h: nat, e: nat, f: nat, g: nat) {
    && AllIn(line, q, h, Space)
    && h < |line| && line[h] == '-'
    && AllIn(line, h + 1, e, Space)
    && AllIn(line, e, f, Digit) && e < f
    && AllIn(line, f, g, Space)
    && MatchesIgnoreCaseAt(line, g, Unit)
  }

  /** The tail matches from q and its group 2 reads as v. */
  ghost predicate TailMatch(line: string, q: nat, v: nat) {
    exists h: nat, e: nat, f: nat, g: nat :: TailSplit(line, q, h, e, f, g) && v == NumberIn(line, e, f)
  }

  /**
    The tail read from q the way the backtracking matcher settles it: each `\s*`
    and the `\d+` take their longest run, since the character that must follow
    each (hyphen, digit, `c`) is outside the class.
   */
  function TailAt(line: string, q: nat): Option<nat>
    requires q <= |line|
  {
    TailFromHyphen(line, RunEnd(line, q, Space))
  }

  /** The tail read from h, where its leading whitespace ends: the hyphen must be at h. */
  function TailFromHyphen(line: string, h: nat): Option<nat>
    requires h <= |line|
  {
    if h < |line| && line[h] == '-' then
      var e := RunEnd(line, h + 1, Space);
      var f := RunEnd(line, e, Digit);
      var g := RunEnd(line, f, Space);
      if e < f && MatchesIgnoreCaseAt(line, g, Unit) then Some(NumberIn(line, e, f)) else None
    else
      None
  }

  /** The first letter of the unit is neither a space nor a digit. */
  lemma UnitStartsWithLetter(line: string, g: nat)
    requires MatchesIgnoreCaseAt(line, g, Unit)
    ensures g < |line| && !IsSpace(line[g]) && !IsDigit(line[g])
  {
    assert Lower(line[g + 0]) == Lower(Unit[0]);
  }

  /** A value TailAt reads is one the tail can match with. */
  lemma TailAtSound(line: string, q: nat)
    requires q <= |line|
    requires TailAt(line, q).Some?
    ensures TailMatch(line, q, TailAt(line, q).value)
  {
    var h := RunEnd(line, q, Space);
    var e := RunEnd(line, h + 1, Space);
    var f := RunEnd(line, e, Digit);
    var g := RunEnd(line, f, Space);
    assert TailSplit(line, q, h, e, f, g);
  }

  /** Every split of the tail is the one TailAt reads. */
  lemma TailSplitIsTailAt(line: string, q: nat, h: nat, e: nat, f: nat, g: nat)
    requires TailSplit(line, q, h, e, f, g)
    ensures TailAt(line, q) == Some(NumberIn(line, e, f))
  {
    UnitStartsWithLetter(line, g);
    RunEndUnique(line, q, h, Space);
    assert InClass(line[e], Digit);
    RunEndUnique(line, h + 1, e, Space);
    if f < g {
      assert InClass(line[f], Space);
    }
    RunEndUnique(line, e, f, Digit);
    RunEndUnique(line, f, g, Space);
  }

  /** The deterministic reading of the tail finds exactly the values it can match with: at most one. */
  lemma TailAtIsMatch(line: string, q: nat, v: nat)
    requires q <= |line|
    ensures TailAt(line, q) == Some(v) <==> TailMatch(line, q, v)
  {
    if TailAt(line, q) == Some(v) {
      TailAtSound(line, q);
    }
    if TailMatch(line, q, v) {
      var h: nat, e: nat, f: nat, g: nat :| TailSplit(line, q, h, e, f, g) && v == NumberIn(line, e, f);
      TailSplitIsTailAt(line, q, h, e, f, g);
    }
  }

  /** A match of the tail is the one TailAt reads. */
  lemma TailMatchIsTailAt(line: string, q: nat, v: nat)
    requires TailMatch(line, q, v)
    ensures TailAt(line, q) == Some(v)
  {
    var h: nat, e: nat, f: nat, g: nat :| TailSplit(line, q, h, e, f, g) && v == NumberIn(line, e, f);
    TailSplitIsTailAt(line, q, h, e, f, g);
  }

  /** Whitespace in front of the tail changes nothing: the tail's own `\s*` absorbs it. */
  lemma TailThroughSpaces(line: string, p: nat, q: nat)
    requires AllIn(line, p, q, Space)
    ensures TailAt(line, p) == TailAt(line, q)
  {
    RunEndSkips(line, p, q, Space);
  }

  /**
    One way the whole pattern matches from s: the ordinal digits s..d, the dot
    at d, whitespace up to b, group 1 (the item) in b..q, and the tail from q
    with group 2 reading as v.
   */
  ghost predicate EntrySplit(line: string, s: nat, d: nat, b: nat, q: nat, v: nat) {
    && AllIn(line, s, d, Digit) && s < d
    && d < |line| && line[d] == '.'
    && AllIn(line, d + 1, b, Space)
    && b <= q && NoLineBreak(line, b, q)
    && TailMatch(line, q, v)
  }

  /**
    The split the backtracking matcher reports among those from s: it tries the
    longest whitespace after the dot first and, for that, the shortest item
    (`.*?` is lazy), so it takes the greatest feasible b and then the least
    feasible q. (The ordinal digits cannot be shortened: a digit is not a dot.)
   */
  ghost predicate PreferredSplit(line: string, s: nat, d: nat, b: nat, q: nat, v: nat) {
    && EntrySplit(line, s, d, b, q, v)
    && (forall d': nat, b': nat, q': nat, v': nat :: EntrySplit(line, s, d', b', q', v') ==> b' <= b)
    && (forall q': nat, v': nat :: EntrySplit(line, s, d, b, q', v') ==> q <= q')
  }

  /**
    The lazy `(.*?)`: the least item end at or after q, reached without crossing a
    line break, at which the tail matches, with the tail's value.
   */
  function ShortestItem(line: string, q: nat): (r: Option<(nat, nat)>)
    requires q <= |line|
    ensures r.Some? ==> q <= r.value.0 <= |line|
    decreases |line| - q
  {
    match TailAt(line, q)
    case Some(v) => Some((q, v))
    case None =>
      if q < |line| && line[q] != '\n' then ShortestItem(line, q + 1) else None
  }

  /** The item found spans no line break and the tail matches right after it, with the value reported. */
  lemma {:induction false} ShortestItemFound(line: string, q: nat)
    requires q <= |line| && ShortestItem(line, q).Some?
    ensures NoLineBreak(line, q, ShortestItem(line, q).value.0)
    ensures TailAt(line, ShortestItem(line, q).value.0) == Some(ShortestItem(line, q).value.1)
    decreases |line| - q
  {
    if TailAt(line, q).None? {
      ShortestItemFound(line, q + 1);
    }
  }

  /**
    The item end is the least: wherever the tail matches at or after q without
    crossing a line break, ShortestItem finds an end no later than that.
   */
  lemma {:induction false} ShortestItemIsLeast(line: string, q: nat, p: nat)
    requires q <= p && NoLineBreak(line, q, p) && TailAt(line, p).Some?
    ensures ShortestItem(line, q).Some? && ShortestItem(line, q).value.0 <= p
    decreases p - q
  {
    if TailAt(line, q).None? {
      ShortestItemIsLeast(line, q + 1, p);
    }
  }

  /**
    The pattern tried from s as the backtracking matcher settles it: where group
    1 starts and ends and the value of group 2.
   */
  function EntryBounds(line: string, s: nat): (r: Option<(nat, nat, nat)>)
    requires s <= |line|
    ensures r.Some? ==> r.value.0 <= r.value.1 <= |line|
  {
    var d := RunEnd(line, s, Digit);
    if s < d < |line| && line[d] == '.' then
      var b := RunEnd(line, d + 1, Space);
      var item := ShortestItem(line, b);
      if item.Some? then Some((b, item.value.0, item.value.1)) else None
    else
      None
  }

  /** The pattern tried from s: group 1 stripped, group 2 as an integer. */
  function EntryAt(line: string, s: nat): (r: Option<(string, nat)>)
    requires s <= |line|
    ensures r.Some? <==> EntryBounds(line, s).Some?
    ensures r.Some? ==> r.value.1 == EntryBounds(line, s).value.2
  {
    match EntryBounds(line, s)
    case Some((b, q, v)) => Some((Strip(line[b..q]), v))
    case None => None
  }

  /** In any split from s the ordinal digits run to the first non-digit and the whitespace after the dot stops no later than its longest run. */
  lemma SplitBounds(line: string, s: nat, d: nat, b: nat, q: nat, v: nat)
    requires EntrySplit(line, s, d, b, q, v)
    ensures d == RunEnd(line, s, Digit)
    ensures b <= RunEnd(line, d + 1, Space)
  {
    RunEndUnique(line, s, d, Digit);
  }

  /** Any split from s makes EntryAt succeed: the longest whitespace and the shortest item lose no match. */
  lemma SplitGivesEntry(line: string, s: nat, d: nat, b: nat, q: nat, v: nat)
    requires EntrySplit(line, s, d, b, q, v)
    ensures EntryAt(line, s).Some?
  {
    SplitBounds(line, s, d, b, q, v);
    var b0 := RunEnd(line, d + 1, Space);
    TailMatchIsTailAt(line, q, v);
    TailFoundAfter(line, d + 1, b, q, b0);
    EntryBoundsFound(line, s, d, b0);
  }

  /** With the ordinal and its dot in place, EntryBounds succeeds once the item search after the whitespace does. */
  lemma EntryBoundsFound(line: string, s: nat, d: nat, b: nat)
    requires s <= |line| && d == RunEnd(line, s, Digit) && s < d < |line| && line[d] == '.'
    requires b == RunEnd(line, d + 1, Space) && ShortestItem(line, b).Some?
    ensures EntryBounds(line, s).Some?
  {
  }

  /**
    If the tail matches at q, reached from b without a line break, and b0 is the
    end of the whitespace run that contains b, the item search from b0 succeeds.
   */
  lemma TailFoundAfter(line: string, a: nat, b: nat, q: nat, b0: nat)
    requires AllIn(line, a, b0, Space) && a <= b <= q && b <= b0
    requires NoLineBreak(line, b, q) && TailAt(line, q).Some?
    ensures ShortestItem(line, b0).Some?
  {
    if q < b0 {
      assert AllIn(line, q, b0, Space);
      TailThroughSpaces(line, q, b0);
      ShortestItemIsLeast(line, b0, b0);
    } else {
      assert NoLineBreak(line, b0, q);
      ShortestItemIsLeast(line, b0, q);
    }
  }

  /** EntryAt succeeds exactly when some split of the pattern exists from s. */
  lemma EntryAtIffSplit(line: string, s: nat)
    requires s <= |line|
    ensures EntryAt(line, s).Some? <==> exists d: nat, b: nat, q: nat, v: nat :: EntrySplit(line, s, d, b, q, v)
  {
    if EntryAt(line, s).Some? {
      EntryAtIsPreferredSplit(line, s);
    } else if exists d: nat, b: nat, q: nat, v: nat :: EntrySplit(line, s, d, b, q, v) {
      var d: nat, b: nat, q: nat, v: nat :| EntrySplit(line, s, d, b, q, v);
      SplitGivesEntry(line, s, d, b, q, v);
    }
  }

  /**
    The shortest item after the longest whitespace neither starts nor ends with
    whitespace: it starts at a non-space, and a space at its end would have let
    the tail match one character earlier.
   */
  lemma ShortestItemIsStripped(line: string, b: nat, q: nat, v: nat)
    requires b <= |line| && (b == |line| || !IsSpace(line[b]))
    requires ShortestItem(line, b) == Some((q, v))
    ensures Strip(line[b..q]) == line[b..q]
  {
    if b < q {
      ShortestItemEndsInNonSpace(line, b, q, v);
    }
    StripSliceKeeps(line, b, q);
  }

  /**
    The converse of ShortestItemFound and ShortestItemIsLeast: the first end,
    reached without a line break, at which the tail matches is the one found.
   */
  lemma ShortestItemIsFirstTail(line: string, b: nat, q: nat, v: nat)
    requires NoLineBreak(line, b, q) && TailAt(line, q) == Some(v)
    requires forall p :: b <= p < q ==> TailAt(line, p).None?
    ensures ShortestItem(line, b) == Some((q, v))
  {
    ShortestItemIsLeast(line, b, q);
    ShortestItemFound(line, b);
    var (e, w) := ShortestItem(line, b).value;
    FirstTailIsThatAt(line, b, q, v, e, w);
  }

  /** A tail found no later than q, when none is found before q, is the one at q. */
  lemma FirstTailIsThatAt(line: string, b: nat, q: nat, v: nat, e: nat, w: nat)
    requires b <= e <= q <= |line| && TailAt(line, e) == Some(w) && TailAt(line, q) == Some(v)
    requires forall p :: b <= p < q ==> TailAt(line, p).None?
    ensures e == q && w == v
  {
  }

  /** No position before the item end completes the tail. */
  lemma NoEarlierTail(line: string, b: nat, p: nat)
    requires b <= p && b <= |line| && ShortestItem(line, b).Some? && p < ShortestItem(line, b).value.0
    ensures TailAt(line, p).None?
  {
    ShortestItemFound(line, b);
    assert NoLineBreak(line, b, p);
    if TailAt(line, p).Some? {
      ShortestItemIsLeast(line, b, p);
    }
  }

  /** A non-empty shortest item ends in a non-space. */
  lemma ShortestItemEndsInNonSpace(line: string, b: nat, q: nat, v: nat)
    requires b <= |line|
    requires ShortestItem(line, b) == Some((q, v)) && b < q
    ensures !IsSpace(line[q - 1])
  {
    ShortestItemFound(line, b);
    NoEarlierTail(line, b, q - 1);
  }

  /** The split EntryAt reads is preferred over every other split from s. */
  lemma ReadSplitIsPreferred(line: string, s: nat, d: nat, b: nat, q: nat, v: nat)
    requires s <= |line| && d == RunEnd(line, s, Digit) && s < d < |line| && line[d] == '.'
    requires b == RunEnd(line, d + 1, Space)
    requires ShortestItem(line, b) == Some((q, v))
    ensures PreferredSplit(line, s, d, b, q, v)
  {
    ShortestItemFound(line, b);
    TailAtIsMatch(line, q, v);
    assert EntrySplit(line, s, d, b, q, v);
    forall d': nat, b': nat, q': nat, v': nat | EntrySplit(line, s, d', b', q', v')
      ensures b' <= b
    {
      SplitBounds(line, s, d', b', q', v');
    }
    forall q': nat, v': nat | EntrySplit(line, s, d, b, q', v')
      ensures q <= q'
    {
      TailAtIsMatch(line, q', v');
      ShortestItemIsLeast(line, b, q');
    }
  }

  /** EntryAt reports the item and value the longest whitespace and the shortest item give. */
  lemma EntryAtReads(line: string, s: nat, d: nat, b: nat, q: nat, v: nat)
    requires s <= |line| && d == RunEnd(line, s, Digit) && s < d < |line| && line[d] == '.'
    requires b == RunEnd(line, d + 1, Space)
    requires ShortestItem(line, b) == Some((q, v))
    ensures EntryAt(line, s) == Some((line[b..q], v))
  {
    assert EntryBounds(line, s) == Some((b, q, v));
    ShortestItemIsStripped(line, b, q, v);
  }

  /**
    What EntryAt reports is the preferred split, and its item is group 1 exactly:
    the strip applied to it removes nothing.
   */
  lemma EntryAtIsPreferredSplit(line: string, s: nat)
    requires s <= |line|
    requires EntryAt(line, s).Some?
    ensures exists d: nat, b: nat, q: nat ::
              && PreferredSplit(line, s, d, b, q, EntryAt(line, s).value.1)
              && EntryAt(line, s).value.0 == line[b..q]
  {
    var d := RunEnd(line, s, Digit);
    assert s < d < |line| && line[d] == '.';
    var b := RunEnd(line, d + 1, Space);
    assert ShortestItem(line, b).Some?;
    var q := ShortestItem(line, b).value.0;
    var v := ShortestItem(line, b).value.1;
    ReadSplitIsPreferred(line, s, d, b, q, v);
    EntryAtReads(line, s, d, b, q, v);
  }

  /** The starts from which the pattern matches in line. */
  function EntryStarts(line: string): nat -> bool {
    (s: nat) => s <= |line| && EntryAt(line, s).Some?
  }

  /** Line 74 with the appends of lines 76-77: the pair from re.search on one line, or None. */
  function SearchLine(line: string): Option<(string, nat)> {
    match Leftmost(0, |line|, EntryStarts(line))
    case Some(s) => EntryAt(line, s)
    case None => None
  }

  /** The pair re.search reports for a line: the preferred split from the leftmost start that has any split. */
  ghost predicate ReportedEntry(line: string, item: string, v: nat) {
    exists s: nat, d: nat, b: nat, q: nat ::
      && PreferredSplit(line, s, d, b, q, v)
      && item == line[b..q]
      && forall s': nat, d': nat, b': nat, q': nat, v': nat :: s' < s ==> !EntrySplit(line, s', d', b', q', v')
  }

  /** A line yields a pair exactly when the pattern matches somewhere in it, and the pair is the one re.search reports. */
  lemma SearchLineIsLeftmostMatch(line: string)
    ensures SearchLine(line).None? <==>
              forall s: nat, d: nat, b: nat, q: nat, v: nat :: !EntrySplit(line, s, d, b, q, v)
    ensures SearchLine(line).Some? ==> ReportedEntry(line, SearchLine(line).value.0, SearchLine(line).value.1)
  {
    var at := EntryStarts(line);
    match Leftmost(0, |line|, at)
    case Some(s) =>
      EntryAtIsPreferredSplit(line, s);
      forall s': nat, d': nat, b': nat, q': nat, v': nat | s' < s
        ensures !EntrySplit(line, s', d', b', q', v')
      {
        assert !at(s');
        EntryAtIffSplit(line, s');
      }
    case None =>
      forall s: nat, d: nat, b: nat, q: nat, v: nat
        ensures !EntrySplit(line, s, d, b, q, v)
      {
        if s <= |line| {
          assert !at(s);
          EntryAtIffSplit(line, s);
        }
      }
  }

  /** Only a line holding digits followed by a dot can yield a pair. */
  lemma MatchedLineHasOrdinal(line: string)
    requires SearchLine(line).Some?
    ensures exists i :: 0 <= i && i + 1 < |line| && IsDigit(line[i]) && line[i + 1] == '.'
  {
    SearchLineIsLeftmostMatch(line);
    var s: nat, d: nat, b: nat, q: nat, v: nat :| EntrySplit(line, s, d, b, q, v);
    assert InClass(line[d - 1], Digit);
  }

  /** What re.search gives on each line, in line order. */
  function LineResults(lines: seq<string>): (r: seq<Option<(string, nat)>>)
    ensures |r| == |lines|
    ensures forall j :: 0 <= j < |lines| ==> r[j] == SearchLine(lines[j])
  {
    seq(|lines|, j requires 0 <= j < |lines| => SearchLine(lines[j]))
  }

  /** The two lists extract_calories returns, items and calories side by side. */
  datatype Breakdown = Breakdown(items: seq<string>, calories: seq<nat>)

  /** Lines 80-82: the single row used when no line yields a pair. */
  const Fallback: Breakdown := Breakdown(["Sample Item"], [500])

  /** The two lists built from the kept pairs, side by side. */
  function Unzip(entries: seq<(string, nat)>): (r: Breakdown)
    ensures |r.items| == |r.calories| == |entries|
    ensures forall k :: 0 <= k < |entries| ==> (r.items[k], r.calories[k]) == entries[k]
  {
    Breakdown(
      seq(|entries|, k requires 0 <= k < |entries| => entries[k].0),
      seq(|entries|, k requires 0 <= k < |entries| => entries[k].1))
  }

  /** Lines 79-84 applied to the per-line results: the kept pairs, or the fallback row when there are none. */
  function Collect(results: seq<Option<(string, nat)>>): Breakdown {
    var entries := Somes(results, 0);
    if |entries| == 0 then Fallback else Unzip(entries)
  }

  /**
    The fallback is used exactly when no result is a pair; otherwise the k-th
    row is the k-th pair, and the pairs come one per matching position, in order.
   */
  lemma CollectKeepsOrder(results: seq<Option<(string, nat)>>)
    ensures |Collect(results).items| == |Collect(results).calories| >= 1
    ensures (forall j :: 0 <= j < |results| ==> results[j].None?) ==> Collect(results) == Fallback
    ensures (exists j :: 0 <= j < |results| && results[j].Some?) ==>
              && |Collect(results).items| == |SomeIndices(results, 0)|
              && forall k :: 0 <= k < |SomeIndices(results, 0)| ==>
                   results[SomeIndices(results, 0)[k]] == Some((Collect(results).items[k], Collect(results).calories[k]))
    ensures forall k, k' :: 0 <= k < k' < |SomeIndices(results, 0)| ==> SomeIndices(results, 0)[k] < SomeIndices(results, 0)[k']
    ensures forall j :: 0 <= j < |results| && results[j].Some? ==> j in SomeIndices(results, 0)
  {
    var entries := Somes(results, 0);
    var idx := SomeIndices(results, 0);
    SomesInOrder(results, 0);
    if exists j :: 0 <= j < |results| && results[j].Some? {
      var j :| 0 <= j < |results| && results[j].Some?;
      assert j in idx;
    }
  }

  /**
    Lines 66-84: the pairs of the matching lines of the text split on line
    breaks, or the fallback row when no line matches; never empty.
   */
  function ExtractCalories(text: string): (r: Breakdown)
    ensures |r.items| == |r.calories| >= 1
  {
    CollectKeepsOrder(LineResults(Lines.Split(text, '\n')));
    Collect(LineResults(Lines.Split(text, '\n')))
  }

  /** Each per-line result is that line's search. */
  lemma LineResultAt(lines: seq<string>, j: nat)
    requires j < |lines|
    ensures LineResults(lines)[j] == SearchLine(lines[j])
  {
  }

  /** The k-th row is the pair of the line at the k-th index kept. */
  lemma CollectLinesRows(lines: seq<string>)
    ensures var idx := SomeIndices(LineResults(lines), 0);
            var r := Collect(LineResults(lines));
              (exists j :: 0 <= j < |lines| && SearchLine(lines[j]).Some?) ==>
                && |r.items| == |idx|
                && forall k :: 0 <= k < |idx| ==> SearchLine(lines[idx[k]]) == Some((r.items[k], r.calories[k]))
  {
    var results := LineResults(lines);
    var idx := SomeIndices(results, 0);
    var r := Collect(results);
    CollectKeepsOrder(results);
    if exists j :: 0 <= j < |lines| && SearchLine(lines[j]).Some? {
      var j :| 0 <= j < |lines| && SearchLine(lines[j]).Some?;
      LineResultAt(lines, j);
      forall k | 0 <= k < |idx|
        ensures SearchLine(lines[idx[k]]) == Some((r.items[k], r.calories[k]))
      {
        LineResultAt(lines, idx[k]);
      }
    }
  }

  /** Every matching line has its index kept. */
  lemma CollectLinesComplete(lines: seq<string>)
    ensures var idx := SomeIndices(LineResults(lines), 0);
            forall j :: 0 <= j < |lines| && SearchLine(lines[j]).Some? ==> j in idx
  {
    var results := LineResults(lines);
    CollectKeepsOrder(results);
    forall j | 0 <= j < |lines| && SearchLine(lines[j]).Some?
      ensures j in SomeIndices(results, 0)
    {
      LineResultAt(lines, j);
    }
  }

  /** With no matching line the fallback row is used. */
  lemma CollectLinesFallback(lines: seq<string>)
    ensures (forall j :: 0 <= j < |lines| ==> SearchLine(lines[j]).None?) ==> Collect(LineResults(lines)) == Fallback
  {
    var results := LineResults(lines);
    CollectKeepsOrder(results);
    if forall j :: 0 <= j < |lines| ==> SearchLine(lines[j]).None? {
      forall j | 0 <= j < |results|
        ensures results[j].None?
      {
        LineResultAt(lines, j);
      }
    }
  }

  /**
    The fallback is used exactly when no line matches; otherwise the k-th row is
    the pair of the k-th matching line, so rows follow line order, one per
    matching line.
   */
  lemma CollectLines(lines: seq<string>)
    ensures (forall j :: 0 <= j < |lines| ==> SearchLine(lines[j]).None?) ==> Collect(LineResults(lines)) == Fallback
    ensures var idx := SomeIndices(LineResults(lines), 0);
            var r := Collect(LineResults(lines));
              (exists j :: 0 <= j < |lines| && SearchLine(lines[j]).Some?) ==>
                && |r.items| == |idx|
                && (forall k :: 0 <= k < |idx| ==> SearchLine(lines[idx[k]]) == Some((r.items[k], r.calories[k])))
                && (forall k, k' :: 0 <= k < k' < |idx| ==> idx[k] < idx[k'])
                && (forall j :: 0 <= j < |lines| && SearchLine(lines[j]).Some? ==> j in idx)
  {
    CollectKeepsOrder(LineResults(lines));
    CollectLinesFallback(lines);
    CollectLinesRows(lines);
    CollectLinesComplete(lines);
  }

  /** extract_calories in terms of the text's lines: the fallback when none matches, else one row per matching line. */
  lemma ExtractCaloriesByLine(text: string)
    ensures var lines := Lines.Split(text, '\n');
              (forall j :: 0 <= j < |lines| ==> SearchLine(lines[j]).None?) ==> ExtractCalories(text) == Fallback
    ensures var lines := Lines.Split(text, '\n');
            var idx := SomeIndices(LineResults(lines), 0);
            var r := ExtractCalories(text);
              (exists j :: 0 <= j < |lines| && SearchLine(lines[j]).Some?) ==>
                && |r.items| == |idx|
                && (forall k :: 0 <= k < |idx| ==> SearchLine(lines[idx[k]]) == Some((r.items[k], r.calories[k])))
                && (forall k, k' :: 0 <= k < k' < |idx| ==> idx[k] < idx[k'])
                && (forall j :: 0 <= j < |lines| && SearchLine(lines[j]).Some? ==> j in idx)
  {
    ExtractCaloriesUnfold(text);
    CollectLines(Lines.Split(text, '\n'));
  }

  /** ExtractCalories is Collect over the per-line results. */
  lemma ExtractCaloriesUnfold(text: string)
    ensures ExtractCalories(text) == Collect(LineResults(Lines.Split(text, '\n')))
  {
  }
}
