/**
  Character classes and string primitives shared by the response parsers: the
  pieces of Python's `re`, `str.lower()`, `str.strip()`, `in` and `int()` that the
  parsers rely on, restricted to what the model needs.
 */
module Text {
  import opened Wrappers

  /** Python's `str.isspace()`: the characters `\s` matches in a str pattern and that `str.strip()` removes. */
  predicate IsSpace(c: char) {
    || '\U{9}' <= c <= '\U{D}'
    || '\U{1C}' <= c <= '\U{20}'
    || c == '\U{85}' || c == '\U{A0}' || c == '\U{1680}'
    || '\U{2000}' <= c <= '\U{200A}'
    || c == '\U{2028}' || c == '\U{2029}' || c == '\U{202F}' || c == '\U{205F}' || c == '\U{3000}'
  }

  /** `\d`, restricted to the ASCII digits. */
  predicate IsDigit(c: char) {
    '0' <= c <= '9'
  }

  /** The two repeated classes of the patterns: `\s` and `\d`. */
  datatype CharClass = Space | Digit

  predicate InClass(c: char, cls: CharClass) {
    match cls
    case Space => IsSpace(c)
    case Digit => IsDigit(c)
  }

  /** Every character of s[a..b] belongs to the class. */
  predicate AllIn(s: string, a: nat, b: nat, cls: CharClass) {
    a <= b <= |s| && forall m :: a <= m < b ==> InClass(s[m], cls)
  }

  /** The end of the longest run of class characters starting at j: how far a greedy `\s*` or `\d+` reaches. */
  function RunEnd(s: string, j: nat, cls: CharClass): (k: nat)
    requires j <= |s|
    ensures AllIn(s, j, k, cls)
    ensures k == |s| || !InClass(s[k], cls)
    decreases |s| - j
  {
    if j < |s| && InClass(s[j], cls) then RunEnd(s, j + 1, cls) else j
  }

  /** A run of class characters that stops at a character outside the class is the one RunEnd finds. */
  lemma RunEndUnique(s: string, j: nat, k: nat, cls: CharClass)
    requires AllIn(s, j, k, cls)
    requires k == |s| || !InClass(s[k], cls)
    ensures RunEnd(s, j, cls) == k
  {
  }

  /** Starting a run inside a run of class characters reaches the same end. */
  lemma RunEndSkips(s: string, j: nat, k: nat, cls: CharClass)
    requires AllIn(s, j, k, cls)
    ensures RunEnd(s, j, cls) == RunEnd(s, k, cls)
  {
    var e := RunEnd(s, k, cls);
    RunEndUnique(s, j, e, cls);
  }

  /** The numeric value of an ASCII digit. */
  function DigitValue(c: char): nat
    requires IsDigit(c)
  {
    c as int - '0' as int
  }

  /** Python's `int(t)` for a string of ASCII digits (leading zeros allowed). */
  function DigitsValue(t: string): nat
    requires forall m :: 0 <= m < |t| ==> IsDigit(t[m])
    decreases |t|
  {
    if |t| == 0 then 0 else 10 * DigitsValue(t[..|t| - 1]) + DigitValue(t[|t| - 1])
  }

  /** Python's `int(s[a..b])` for a run of ASCII digits inside s. */
  function NumberIn(s: string, a: nat, b: nat): nat
    requires AllIn(s, a, b, Digit)
  {
    assert forall m :: 0 <= m < b - a ==> s[a..b][m] == s[a + m];
    DigitsValue(s[a..b])
  }

  /** The ASCII digit with value d. */
  function DigitChar(d: nat): (c: char)
    requires d < 10
    ensures IsDigit(c) && DigitValue(c) == d
  {
    ('0' as int + d) as char
  }

  /** Python's `str(n)` for a non-negative integer: its decimal digits, no leading zero. */
  function Decimal(n: nat): (t: string)
    ensures 0 < |t|
    ensures forall m :: 0 <= m < |t| ==> IsDigit(t[m])
    ensures |t| > 1 ==> t[0] != '0'
    decreases n
  {
    if n < 10 then [DigitChar(n)] else Decimal(n / 10) + [DigitChar(n % 10)]
  }

  /** Reading back the decimal rendering of n gives n: `int(str(n)) == n`. */
  lemma {:induction false} DecimalRoundTrip(n: nat)
    ensures DigitsValue(Decimal(n)) == n
    decreases n
  {
    var t := Decimal(n);
    if n >= 10 {
      DecimalRoundTrip(n / 10);
      assert t[..|t| - 1] == Decimal(n / 10);
    }
  }

  /** `str.lower()` on one character, restricted to ASCII case. */
  function Lower(c: char): char {
    if 'A' <= c <= 'Z' then (c as int - 'A' as int + 'a' as int) as char else c
  }

  /** `str.lower()` on a string: each character lowered, the length kept. */
  function LowerStr(s: string): (r: string)
    ensures |r| == |s|
    ensures forall m :: 0 <= m < |s| ==> r[m] == Lower(s[m])
  {
    seq(|s|, m requires 0 <= m < |s| => Lower(s[m]))
  }

  /** The text at i spells pat, ignoring ASCII case: how a literal matches under `re.IGNORECASE`. */
  predicate MatchesIgnoreCaseAt(s: string, i: nat, pat: string) {
    i + |pat| <= |s| && forall m :: 0 <= m < |pat| ==> Lower(s[i + m]) == Lower(pat[m])
  }

  /** For a pattern with no upper-case letters, finding it in the lowered text is matching it ignoring case. */
  lemma LoweredOccursAt(s: string, pat: string, i: nat)
    requires forall m :: 0 <= m < |pat| ==> Lower(pat[m]) == pat[m]
    ensures OccursAt(LowerStr(s), pat, i) <==> MatchesIgnoreCaseAt(s, i, pat)
  {
    var low := LowerStr(s);
    if i + |pat| <= |s| {
      if MatchesIgnoreCaseAt(s, i, pat) {
        forall m | 0 <= m < |pat|
          ensures low[i..i + |pat|][m] == pat[m]
        {
          assert low[i + m] == Lower(s[i + m]);
        }
      }
      if OccursAt(low, pat, i) {
        forall m | 0 <= m < |pat|
          ensures Lower(s[i + m]) == Lower(pat[m])
        {
          assert low[i..i + |pat|][m] == pat[m];
        }
      }
    }
  }

  /** pat occurs in s at i, exactly. */
  predicate OccursAt(s: string, pat: string, i: nat) {
    i + |pat| <= |s| && s[i..i + |pat|] == pat
  }

  /**
    The least position p with i <= p <= n at which `at` holds, or None: the start
    position `re.search` or `str.find` settles on when it scans left to right.
   */
  function Leftmost(i: nat, n: nat, at: nat -> bool): (r: Option<nat>)
    requires i <= n + 1
    ensures r.Some? ==> i <= r.value <= n && at(r.value)
    ensures r.Some? ==> forall p :: i <= p < r.value ==> !at(p)
    ensures r.None? ==> forall p :: i <= p <= n ==> !at(p)
    decreases n + 1 - i
  {
    if i > n then None else if at(i) then Some(i) else Leftmost(i + 1, n, at)
  }

  /** The first occurrence of pat in s at or after i: `s.find(pat, i)` with None for -1. */
  function FindFrom(s: string, pat: string, i: nat): (r: Option<nat>)
    requires i <= |s|
    ensures r.Some? ==> i <= r.value && OccursAt(s, pat, r.value)
    ensures r.Some? ==> forall p :: i <= p < r.value ==> !OccursAt(s, pat, p)
    ensures r.None? ==> forall p :: i <= p ==> !OccursAt(s, pat, p)
  {
    var at := (p: nat) => OccursAt(s, pat, p);
    assert forall p: nat :: at(p) == OccursAt(s, pat, p);
    Leftmost(i, |s|, at)
  }

  /** Python's `pat in s`. */
  predicate Contains(s: string, pat: string) {
    FindFrom(s, pat, 0).Some?
  }

  lemma ContainsIffOccurs(s: string, pat: string)
    ensures Contains(s, pat) <==> exists p :: OccursAt(s, pat, p)
  {
    var r := FindFrom(s, pat, 0);
    if r.Some? {
      assert OccursAt(s, pat, r.value);
    }
  }

  /** s with its trailing whitespace removed: `s.rstrip()`. */
  function StripEnd(s: string): (r: string)
    ensures r <= s
    ensures |r| == 0 || !IsSpace(r[|r| - 1])
    ensures forall m :: |r| <= m < |s| ==> IsSpace(s[m])
    decreases |s|
  {
    if |s| > 0 && IsSpace(s[|s| - 1]) then StripEnd(s[..|s| - 1]) else s
  }

  /**
    Python's `s.strip()`: the text left between the leading and the trailing
    whitespace of s, which itself neither starts nor ends with whitespace.
   */
  function Strip(s: string): (r: string)
    ensures exists a: nat ::
              && a + |r| <= |s|
              && AllIn(s, 0, a, Space)
              && r == s[a..a + |r|]
              && AllIn(s, a + |r|, |s|, Space)
    ensures |r| == 0 || (!IsSpace(r[0]) && !IsSpace(r[|r| - 1]))
  {
    var a := RunEnd(s, 0, Space);
    var r := StripEnd(s[a..]);
    assert r == s[a..a + |r|];
    assert AllIn(s, a + |r|, |s|, Space) by {
      forall m | a + |r| <= m < |s|
        ensures InClass(s[m], Space)
      {
        assert s[a..][m - a] == s[m];
      }
    }
    r
  }

  /** Only one text meets the contract of Strip: whitespace is removed from both ends and nothing else. */
  lemma StripIsUnique(s: string, a: nat, r: string)
    requires a + |r| <= |s| && AllIn(s, 0, a, Space) && r == s[a..a + |r|] && AllIn(s, a + |r|, |s|, Space)
    requires |r| == 0 || (!IsSpace(r[0]) && !IsSpace(r[|r| - 1]))
    ensures Strip(s) == r
  {
    if |r| == 0 {
      assert AllIn(s, 0, |s|, Space);
      RunEndUnique(s, 0, |s|, Space);
      assert s[|s|..] == "";
    } else {
      assert s[a] == r[0];
      RunEndUnique(s, 0, a, Space);
      var t := s[a..];
      assert r <= t;
      assert AllIn(t, |r|, |t|, Space) by {
        forall m | |r| <= m < |t|
          ensures InClass(t[m], Space)
        {
          assert t[m] == s[a + m];
        }
      }
    }
  }

  /** A slice that neither starts nor ends with whitespace is its own strip. */
  lemma StripSliceKeeps(s: string, a: nat, b: nat)
    requires a <= b <= |s|
    requires a == b || (!IsSpace(s[a]) && !IsSpace(s[b - 1]))
    ensures Strip(s[a..b]) == s[a..b]
  {
    var t := s[a..b];
    assert t == t[0..|t|];
    StripIsUnique(t, 0, t);
  }
}
