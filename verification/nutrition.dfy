/**
  extract_nutrition_percentages: the percentages of the five fixed nutrients read
  from the model's free text, with the three macros (protein, carbs, fat) given a
  fallback and rescaled to about 100 in all.
 */
module Nutrition {
  import opened Wrappers
  import opened Text

  /** The fixed keys of the nutrient dictionary, in its insertion order. */
  datatype Nutrient = Protein | Carbs | Fat | Fiber | Sugar {

    /** The key as written, which is also the literal that heads the key's pattern. */
    function Name(): string {
      match this
      case Protein => "Protein"
      case Carbs => "Carbs"
      case Fat => "Fat"
      case Fiber => "Fiber"
      case Sugar => "Sugar"
    }
  }

  /** The dictionary the parser returns: one whole percentage per key. */
  datatype Nutrients = Nutrients(protein: nat, carbs: nat, fat: nat, fiber: nat, sugar: nat) {

    /** The sum of the three macros: the `total` of the rescaling step. */
    function MacroTotal(): nat {
      protein + carbs + fat
    }
  }

  /**
    One way the pattern `Name:?\s*(\d+)%` matches at i under re.IGNORECASE: the
    name ends at i + |name|, the optional colon at c, the whitespace at w, the
    digits of group 1 are text[w..e], and text[e] is the percent sign.
   */
  ghost predicate PercentSplit(text: string, name: string, i: nat, c: nat, w: nat, e: nat) {
    && MatchesIgnoreCaseAt(text, i, name)
    && (c == i + |name| || (c == i + |name| + 1 && c <= |text| && text[c - 1] == ':'))
    && AllIn(text, c, w, Space)
    && AllIn(text, w, e, Digit)
    && w < e < |text|
    && text[e] == '%'
  }

  /** The pattern for name matches at i, and its group 1 reads as v. */
  ghost predicate PercentMatch(text: string, name: string, i: nat, v: nat) {
    exists c: nat, w: nat, e: nat :: PercentSplit(text, name, i, c, w, e) && v == NumberIn(text, w, e)
  }

  /** The pattern for name matches at i with value v and nowhere to the left of i: what re.search reports. */
  ghost predicate FirstPercentMatch(text: string, name: string, i: nat, v: nat) {
    && PercentMatch(text, name, i, v)
    && forall j: nat, u: nat :: j < i ==> !PercentMatch(text, name, j, u)
  }

  /**
    The pattern tried at i the way the backtracking matcher settles it: the colon
    is taken when present, and the whitespace and the digits take their longest
    runs (a shorter run would leave a space or a digit where a digit or the
    percent sign must follow).
   */
  function PercentAt(text: string, name: string, i: nat): Option<nat>
    requires i <= |text|
  {
    if !MatchesIgnoreCaseAt(text, i, name) then None
    else
      var n := i + |name|;
      var c := if n < |text| && text[n] == ':' then n + 1 else n;
      var w := RunEnd(text, c, Space);
      var e := RunEnd(text, w, Digit);
      if w < e < |text| && text[e] == '%' then Some(NumberIn(text, w, e)) else None
  }

  /** Right after the optional colon of a match stands a space or a digit, never a second colon. */
  lemma AfterColon(text: string, name: string, i: nat, c: nat, w: nat, e: nat)
    requires PercentSplit(text, name, i, c, w, e)
    ensures c < |text| && (IsSpace(text[c]) || IsDigit(text[c]))
  {
    if c < w {
      assert InClass(text[c], Space);
    } else {
      assert InClass(text[w], Digit);
    }
  }

  /** A value PercentAt reads is one the pattern can match with at i. */
  lemma PercentAtSound(text: string, name: string, i: nat)
    requires i <= |text| && PercentAt(text, name, i).Some?
    ensures PercentMatch(text, name, i, PercentAt(text, name, i).value)
  {
    var n := i + |name|;
    var c := if n < |text| && text[n] == ':' then n + 1 else n;
    var w := RunEnd(text, c, Space);
    var e := RunEnd(text, w, Digit);
    assert PercentSplit(text, name, i, c, w, e);
  }

  /** Every split of the pattern at i is the one PercentAt reads. */
  lemma PercentSplitIsPercentAt(text: string, name: string, i: nat, c: nat, w: nat, e: nat)
    requires PercentSplit(text, name, i, c, w, e)
    ensures PercentAt(text, name, i) == Some(NumberIn(text, w, e))
  {
    var n := i + |name|;
    AfterColon(text, name, i, c, w, e);
    assert c == if n < |text| && text[n] == ':' then n + 1 else n;
    assert InClass(text[w], Digit);
    RunEndUnique(text, c, w, Space);
    RunEndUnique(text, w, e, Digit);
  }

  /** The deterministic reading finds exactly the values the pattern can match with at i: at most one. */
  lemma PercentAtIsMatch(text: string, name: string, i: nat, v: nat)
    requires i <= |text|
    ensures PercentAt(text, name, i) == Some(v) <==> PercentMatch(text, name, i, v)
  {
    if PercentAt(text, name, i) == Some(v) {
      PercentAtSound(text, name, i);
    }
    if PercentMatch(text, name, i, v) {
      var c: nat, w: nat, e: nat :| PercentSplit(text, name, i, c, w, e) && v == NumberIn(text, w, e);
      PercentSplitIsPercentAt(text, name, i, c, w, e);
    }
  }

  /** The starts at which the pattern for name matches. */
  function PercentStarts(text: string, name: string): nat -> bool {
    (i: nat) => i <= |text| && PercentAt(text, name, i).Some?
  }

  /** Group 1 of the leftmost match of the pattern for name as an integer, or 0 when nothing matches. */
  function FirstPercent(text: string, name: string): nat {
    match Leftmost(0, |text|, PercentStarts(text, name))
    case Some(i) => PercentAt(text, name, i).value
    case None => 0
  }

  /** Lines 44-48 for one key. */
  function ExtractPercent(text: string, n: Nutrient): nat {
    FirstPercent(text, n.Name())
  }

  /** The value read for a name is that of the leftmost match of its pattern, and 0 when there is none. */
  lemma FirstPercentIsFirstMatch(text: string, name: string)
    ensures (exists i: nat, v: nat :: PercentMatch(text, name, i, v)) ==>
              exists i: nat :: FirstPercentMatch(text, name, i, FirstPercent(text, name))
    ensures (forall i: nat, v: nat :: !PercentMatch(text, name, i, v)) ==> FirstPercent(text, name) == 0
  {
    var at := PercentStarts(text, name);
    match Leftmost(0, |text|, at)
    case Some(i) =>
      var v := PercentAt(text, name, i).value;
      PercentAtIsMatch(text, name, i, v);
      assert FirstPercent(text, name) == v;
      forall j: nat, u: nat | j < i
        ensures !PercentMatch(text, name, j, u)
      {
        assert !at(j);
        PercentAtIsMatch(text, name, j, u);
      }
      assert FirstPercentMatch(text, name, i, v);
    case None =>
      forall j: nat, u: nat
        ensures !PercentMatch(text, name, j, u)
      {
        if j <= |text| {
          assert !at(j);
          PercentAtIsMatch(text, name, j, u);
        }
      }
  }

  /** Lines 36-48: each key read on its own, 0 when its pattern does not match. */
  function Extracted(text: string): Nutrients {
    Nutrients(
      ExtractPercent(text, Protein), ExtractPercent(text, Carbs), ExtractPercent(text, Fat),
      ExtractPercent(text, Fiber), ExtractPercent(text, Sugar))
  }

  /** The fixed distribution substituted when no macro was read. */
  const FallbackProtein: nat := 33
  const FallbackCarbs: nat := 34
  const FallbackFat: nat := 33

  /**
    Lines 50-54: three zero macros are replaced by 33/34/33, whether they were
    missing or read as 0%; otherwise nothing changes.
   */
  function WithFallback(n: Nutrients): (r: Nutrients)
    ensures r.fiber == n.fiber && r.sugar == n.sugar
    ensures n.MacroTotal() == 0 ==> r.protein == 33 && r.carbs == 34 && r.fat == 33
    ensures n.MacroTotal() != 0 ==> r == n
    ensures r.MacroTotal() > 0
  {
    if n.protein == 0 && n.carbs == 0 && n.fat == 0 then
      n.(protein := FallbackProtein, carbs := FallbackCarbs, fat := FallbackFat)
    else
      n
  }

  /** r is within one half of the exact quotient num / den: |r - num/den| <= 1/2. */
  predicate NearestTo(r: int, num: int, den: int) {
    -den <= 2 * (r * den - num) <= den
  }

  /** r lies exactly halfway between two integers' worth of num / den: a tie. */
  predicate IsTie(r: int, num: int, den: int) {
    2 * (r * den - num) == den || 2 * (r * den - num) == -den
  }

  /**
    Python's `round(num / den)` on the exact quotient: the nearest integer, and
    the even one of the two when the quotient ends in exactly one half.
   */
  function RoundHalfEven(num: nat, den: nat): (r: nat)
    requires den > 0
    ensures NearestTo(r, num, den)
    ensures IsTie(r, num, den) ==> r % 2 == 0
  {
    var q := num / den;
    var rem := num % den;
    assert num == q * den + rem;
    assert (q + 1) * den - num == den - rem;
    if 2 * rem < den then q
    else if 2 * rem > den then q + 1
    else if q % 2 == 0 then q
    else q + 1
  }

  lemma MulMono(a: int, b: int, den: int)
    requires den > 0 && a <= b
    ensures a * den <= b * den
  {
    assert b * den - a * den == (b - a) * den;
  }

  /** The nearest integer with ties to even is unique: RoundHalfEven is the only function with its contract. */
  lemma RoundHalfEvenUnique(num: nat, den: nat, r': int)
    requires den > 0
    requires NearestTo(r', num, den)
    requires IsTie(r', num, den) ==> r' % 2 == 0
    ensures r' == RoundHalfEven(num, den)
  {
    var r := RoundHalfEven(num, den);
    if r' > r {
      NotTwoApart(num, den, r, r');
    } else if r' < r {
      NotTwoApart(num, den, r', r);
    }
  }

  /** Two integers both within one half of num / den, the larger first, are equal or adjacent ties. */
  lemma NotTwoApart(num: nat, den: nat, lo: int, hi: int)
    requires den > 0 && lo < hi
    requires NearestTo(lo, num, den) && NearestTo(hi, num, den)
    ensures hi == lo + 1 && IsTie(lo, num, den) && IsTie(hi, num, den)
  {
    MulMono(lo + 1, hi, den);
    assert (lo + 1) * den == lo * den + den;
    if hi >= lo + 2 {
      MulMono(lo + 2, hi, den);
    }
  }

  /**
    r is what Python's `round(value * 100 / total)` gives: the nearest integer
    to the exact share, and the even one on a tie.
   */
  predicate IsRoundedShare(r: int, value: nat, total: nat) {
    && NearestTo(r, 100 * value, total)
    && (IsTie(r, 100 * value, total) ==> r % 2 == 0)
  }

  /** Each of the three rescaled macros: round(value * 100 / total). */
  function Share(value: nat, total: nat): nat
    requires total > 0
  {
    RoundHalfEven(value * 100, total)
  }

  /** A share of a part of the total is at most 100. */
  lemma ShareAtMost100(value: nat, total: nat)
    requires 0 < total && value <= total
    ensures Share(value, total) <= 100
  {
    var r := Share(value, total);
    MulMono(value, total, 100);
    if r > 100 {
      MulMono(101, r, total);
      assert false;
    }
  }

  /** Three integers each within one half of its exact share of 100 add up to 99, 100 or 101. */
  lemma SlackOfThree(a: int, b: int, c: int, p: int, q: int, f: int, total: int)
    requires total > 0 && p + q + f == total
    requires NearestTo(a, 100 * p, total) && NearestTo(b, 100 * q, total) && NearestTo(c, 100 * f, total)
    ensures 99 <= a + b + c <= 101
  {
    var sum := a + b + c;
    assert sum * total == a * total + b * total + c * total;
    if sum > 101 {
      MulMono(102, sum, total);
    } else if sum < 99 {
      MulMono(sum, 98, total);
    }
  }

  /** The three rescaled macros add up to 99, 100 or 101. */
  lemma SharesSumSlack(p: nat, c: nat, f: nat, total: nat)
    requires total > 0 && p + c + f == total
    ensures 99 <= Share(p, total) + Share(c, total) + Share(f, total) <= 101
  {
    SlackOfThree(Share(p, total), Share(c, total), Share(f, total), p, c, f, total);
  }

  /** When the total is 100, each share is the value itself. */
  lemma ShareOfHundred(value: nat)
    ensures Share(value, 100) == value
  {
    RoundHalfEvenUnique(value * 100, 100, value);
  }

  /**
    Lines 56-61: when the macros have a positive total each becomes its rounded
    share of 100; fiber and sugar are not touched.
   */
  function Normalize(n: Nutrients): (r: Nutrients)
    ensures r.fiber == n.fiber && r.sugar == n.sugar
    ensures n.MacroTotal() == 0 ==> r == n
    ensures n.MacroTotal() > 0 ==>
              && IsRoundedShare(r.protein, n.protein, n.MacroTotal())
              && IsRoundedShare(r.carbs, n.carbs, n.MacroTotal())
              && IsRoundedShare(r.fat, n.fat, n.MacroTotal())
    ensures n.MacroTotal() > 0 ==> r.protein <= 100 && r.carbs <= 100 && r.fat <= 100
    ensures n.MacroTotal() > 0 ==> 99 <= r.MacroTotal() <= 101
    ensures n.MacroTotal() == 100 ==> r == n
  {
    var total := n.MacroTotal();
    if total > 0 then
      ShareAtMost100(n.protein, total);
      ShareAtMost100(n.carbs, total);
      ShareAtMost100(n.fat, total);
      SharesSumSlack(n.protein, n.carbs, n.fat, total);
      ShareOfHundred(n.protein);
      ShareOfHundred(n.carbs);
      ShareOfHundred(n.fat);
      n.(protein := Share(n.protein, total), carbs := Share(n.carbs, total), fat := Share(n.fat, total))
    else
      n
  }

  /** Lines 34-63: read the five keys, substitute the fallback, rescale the macros. */
  function ExtractNutritionPercentages(text: string): (r: Nutrients)
    ensures r.fiber == ExtractPercent(text, Fiber) && r.sugar == ExtractPercent(text, Sugar)
    ensures r.protein <= 100 && r.carbs <= 100 && r.fat <= 100
    ensures 99 <= r.MacroTotal() <= 101
    ensures Extracted(text).MacroTotal() == 0 ==> r.protein == 33 && r.carbs == 34 && r.fat == 33
    ensures Extracted(text).MacroTotal() == 100 ==> r == Extracted(text)
    ensures Extracted(text).MacroTotal() > 0 ==>
              && IsRoundedShare(r.protein, ExtractPercent(text, Protein), Extracted(text).MacroTotal())
              && IsRoundedShare(r.carbs, ExtractPercent(text, Carbs), Extracted(text).MacroTotal())
              && IsRoundedShare(r.fat, ExtractPercent(text, Fat), Extracted(text).MacroTotal())
  {
    Normalize(WithFallback(Extracted(text)))
  }
}
