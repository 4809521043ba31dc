/**
  The values the page script derives from one response besides the two
  parsers: the health flag, the headline, the total, and the recommendations
  excerpt.
 */
module Report {
  import opened Wrappers
  import opened Text
  import Lines
  import Nutrition
  import Calories

  /** Line 303: the healthy style is chosen when "healthy" occurs in the lowercased response. */
  predicate IsHealthy(response: string) {
    Contains(LowerStr(response), "healthy")
  }

  /** The flag is a case-insensitive substring test: it holds exactly when some position spells "healthy" in any case. */
  lemma IsHealthyIffMentioned(response: string)
    ensures IsHealthy(response) <==> exists i: nat :: MatchesIgnoreCaseAt(response, i, "healthy")
  {
    var low := LowerStr(response);
    ContainsIffOccurs(low, "healthy");
    forall i: nat
      ensures OccursAt(low, "healthy", i) <==> MatchesIgnoreCaseAt(response, i, "healthy")
    {
      LoweredOccursAt(response, "healthy", i);
    }
  }

  /** A response that says "unhealthy", in any case, is flagged healthy: the flag cannot tell the two apart. */
  lemma UnhealthyIsFlaggedHealthy(response: string, i: nat)
    requires MatchesIgnoreCaseAt(response, i, "unhealthy")
    ensures IsHealthy(response)
  {
    forall m | 0 <= m < 7
      ensures Lower(response[i + 2 + m]) == Lower("healthy"[m])
    {
      assert Lower(response[i + (m + 2)]) == Lower("unhealthy"[m + 2]);
    }
    assert MatchesIgnoreCaseAt(response, i + 2, "healthy");
    IsHealthyIffMentioned(response);
  }

  /** Line 304: the text before the first '.', with a '.' put after it. */
  function Headline(response: string): (r: string)
    ensures 0 < |r| && r[|r| - 1] == '.'
    ensures r[..|r| - 1] <= response && '.' !in r[..|r| - 1]
    ensures |r| - 1 < |response| ==> response[|r| - 1] == '.'
  {
    var first := Lines.Split(response, '.')[0];
    Lines.SplitFirstPiece(response, '.');
    assert (first + ".")[..|first|] == first;
    first + "."
  }

  /** The word that opens the recommendations excerpt. */
  const Keyword: string := "suggest"

  /** "suggest" cannot overlap itself: two occurrences are at least seven characters apart. */
  lemma KeywordDoesNotOverlap(s: string, k: nat, p: nat)
    requires OccursAt(s, Keyword, k) && k < p < k + |Keyword|
    ensures !OccursAt(s, Keyword, p)
  {
    var w := s[k..k + 7];
    assert s[p] == w[p - k] == Keyword[p - k];
    assert s[k + 6] == w[6] == 't';
    if p + 7 <= |s| {
      var v := s[p..p + 7];
      assert v[0] == s[p] && v[1] == s[p + 1];
      if p - k == 5 {
        assert v[1] != Keyword[1];
      } else {
        assert v[0] != Keyword[0];
      }
    }
  }

  /** Where element 1 of the split ends: the next "suggest" at or after from, or the end of the text. */
  function SectionEnd(low: string, from: nat): (e: nat)
    requires from <= |low|
    ensures from <= e <= |low|
    ensures e == |low| || OccursAt(low, Keyword, e)
    ensures forall p: nat :: from <= p < e ==> !OccursAt(low, Keyword, p)
  {
    match FindFrom(low, Keyword, from)
    case Some(k) => k
    case None => |low|
  }

  /**
    Lines 339-342: empty when the lowercased response lacks "suggest";
    otherwise "Suggest" followed by element 1 of the lowercased response split
    on "suggest".
   */
  function Recommendations(response: string): string {
    var low := LowerStr(response);
    match FindFrom(low, Keyword, 0)
    case None => ""
    case Some(k) => "Suggest" + low[k + |Keyword|..SectionEnd(low, k + |Keyword|)]
  }

  /**
    The text strictly between the first occurrence of "suggest" (at k) and the
    next one (at e), or the end of the text (e == |low|).
   */
  ghost predicate BetweenFirstTwo(low: string, k: nat, e: nat) {
    && OccursAt(low, Keyword, k)
    && (forall p: nat :: p < k ==> !OccursAt(low, Keyword, p))
    && k + |Keyword| <= e <= |low|
    && (e == |low| || OccursAt(low, Keyword, e))
    && (forall p: nat :: k < p < e ==> !OccursAt(low, Keyword, p))
  }

  /** The first occurrence and the end of the section after it bound the text between the first two occurrences. */
  lemma SectionIsBetweenFirstTwo(low: string, k: nat)
    requires FindFrom(low, Keyword, 0) == Some(k)
    ensures BetweenFirstTwo(low, k, SectionEnd(low, k + |Keyword|))
  {
    var e := SectionEnd(low, k + |Keyword|);
    forall p: nat | k < p < e
      ensures !OccursAt(low, Keyword, p)
    {
      if p < k + |Keyword| {
        KeywordDoesNotOverlap(low, k, p);
      }
    }
  }

  /** No "suggest" lies wholly inside a stretch that has no occurrence starting in it. */
  lemma SectionHasNoKeyword(low: string, from: nat, e: nat)
    requires from <= e <= |low|
    requires forall p: nat :: from <= p < e ==> !OccursAt(low, Keyword, p)
    ensures !Contains(low[from..e], Keyword)
  {
    var section := low[from..e];
    forall p: nat
      ensures !OccursAt(section, Keyword, p)
    {
      if p + |Keyword| <= |section| {
        assert !OccursAt(low, Keyword, from + p);
        var u, v := section[p..p + |Keyword|], low[from + p..from + p + |Keyword|];
        assert forall j :: 0 <= j < |Keyword| ==> u[j] == v[j];
        assert u == v;
      }
    }
    ContainsIffOccurs(section, Keyword);
  }

  /**
    The excerpt is empty exactly when "suggest" does not occur; otherwise it is
    "Suggest" and the lowercased text between the first and the second
    occurrence, which therefore holds no "suggest" of its own.
   */
  lemma RecommendationsBetweenFirstTwo(response: string)
    ensures var low := LowerStr(response);
            !Contains(low, Keyword) <==> Recommendations(response) == ""
    ensures var low := LowerStr(response);
            Contains(low, Keyword) ==>
              exists k: nat, e: nat ::
                && BetweenFirstTwo(low, k, e)
                && Recommendations(response) == "Suggest" + low[k + |Keyword|..e]
    ensures var r := Recommendations(response);
            r != "" ==> |r| >= 7 && r[..7] == "Suggest" && !Contains(r[7..], Keyword)
  {
    var low := LowerStr(response);
    match FindFrom(low, Keyword, 0)
    case None =>
    case Some(k) =>
      var from := k + |Keyword|;
      var e := SectionEnd(low, from);
      SectionIsBetweenFirstTwo(low, k);
      SectionHasNoKeyword(low, from, e);
      var r := Recommendations(response);
      assert r == "Suggest" + low[from..e];
      assert r[7..] == low[from..e];
  }

  /** Python's sum() of the calorie list. */
  function Sum(xs: seq<nat>): (r: nat)
    ensures forall k :: 0 <= k < |xs| ==> xs[k] <= r
    decreases |xs|
  {
    if |xs| == 0 then 0 else xs[0] + Sum(xs[1..])
  }

  /** The total of two lists put together is the sum of their totals. */
  lemma {:induction false} SumAppend(a: seq<nat>, b: seq<nat>)
    ensures Sum(a + b) == Sum(a) + Sum(b)
    decreases |a|
  {
    if |a| == 0 {
      assert a + b == b;
    } else {
      SumAppend(a[1..], b);
      assert (a + b)[1..] == a[1..] + b;
    }
  }

  /** Line 333: the metric text is the decimal total followed by " kcal", and its number reads back as the total. */
  function TotalCaloriesLabel(calories: seq<nat>): (t: string)
    ensures |t| > 5 && t[|t| - 5..] == " kcal"
    ensures AllIn(t, 0, |t| - 5, Digit) && NumberIn(t, 0, |t| - 5) == Sum(calories)
    ensures |t| - 5 > 1 ==> t[0] != '0'
  {
    var digits := Decimal(Sum(calories));
    var t := digits + " kcal";
    assert t[..|digits|] == digits;
    assert t[|t| - 5..] == " kcal";
    DecimalRoundTrip(Sum(calories));
    t
  }

  /** What lines 296-342 derive from one response. */
  datatype Analysis = Analysis(
    nutrients: Nutrition.Nutrients,
    items: seq<string>,
    calories: seq<nat>,
    healthy: bool,
    headline: string,
    totalCalories: nat,
    recommendations: string)

  /**
    Lines 296-342: everything the page derives from one response. The calorie
    table is never empty (Calories.ExtractCalories), so the message of lines
    334-335 is never shown.
   */
  function Analyze(response: string): Analysis {
    var breakdown := Calories.ExtractCalories(response);
    Analysis(
      Nutrition.ExtractNutritionPercentages(response),
      breakdown.items,
      breakdown.calories,
      IsHealthy(response),
      Headline(response),
      Sum(breakdown.calories),
      Recommendations(response))
  }
}
