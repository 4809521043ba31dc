# Calmeal response parsing, modelled in Dafny

Calmeal is a Streamlit page that sends a photo of a meal to a vision model
and renders the model's free-text answer as charts, a table and a few
highlighted snippets. Everything the page shows besides the raw text is
derived from that one answer by a handful of pure text routines. This
project models those routines and proves what they compute:

- `extract_nutrition_percentages` (module `Nutrition`).
  - It searches the answer case-insensitively for `<Nutrient>:? <digits>%`, once per key: Protein, Carbs, Fat, Fiber and Sugar.
  - When protein, carbs and fat are all 0 (found as 0 or not found at all), it substitutes 33/34/33.
  - It rescales the three macros with `round(value * 100 / total)`.
- `extract_calories` (module `Calories`).
  - It splits the answer into lines.
  - On each line it searches for `\d+\.\s*(.*?)\s*-\s*(\d+)\s*calories`, case-insensitively.
  - It keeps the stripped item and the integer calories of each matching line, in line order.
  - When no line matches, it substitutes the single row `("Sample Item", 500)`.
- The page values built from the same answer (module `Report`):
  - the healthy/unhealthy style flag;
  - the headline, which is the text before the first `.`;
  - the total-calories metric;
  - the recommendations excerpt.

Supporting modules:
- `Wrappers`: `Option`, and filtering a sequence of options while keeping the indices.
- `Text`: Python's `\s`/`\d` character classes, runs, case-insensitive matching, `str.find`, `str.strip` and decimal numerals.
- `Lines`: `str.split` with a one-character separator, and its inverse `join`.
- `Examples`: worked cases of the rescaling.

Each regular expression appears twice:
- as a declarative ghost predicate that names every way the pattern can match at a position (`PercentSplit`, `TailSplit`, `EntrySplit`);
- as a deterministic reader that scans the text once (`PercentAt`, `TailAt`, `EntryAt`).

Lemmas prove the two agree in both directions. `re.search` is the leftmost start at which a split exists. Among the splits at that start, it reports the one its backtracking order prefers (`PreferredSplit`):
- The greedy `\s*` after the ordinal's dot takes as much whitespace as it can.
- The lazy `(.*?)` then stops at the first place where the rest of the pattern matches.

`round` is Python's exact round-half-to-even. It is specified as "within one half of the exact quotient, and even on a tie", and that specification is proved to determine the result.

## Model

| member | source | states |
|---|---|---|
| Nutrition.PercentAtIsMatch | Calmeal_app.py:45-46 | The reader for `<Nutrient>:?\s*(\d+)%` returns v at position i exactly when the pattern can match at i with group 1 reading v. So the match at a position is unique. |
| Nutrition.FirstPercentIsFirstMatch | Calmeal_app.py:44-48 | A key's value is group 1 of the leftmost match of its pattern, like `re.search` followed by `int(group(1))`. With no match anywhere, the key keeps its initial 0. |
| Nutrition.WithFallback | Calmeal_app.py:50-54 | When protein, carbs and fat are all 0, they become 33/34/33. Otherwise nothing changes. Fiber and sugar are never touched, and the macro total afterwards is positive. |
| Nutrition.RoundHalfEven | Calmeal_app.py:59-61 | The rounded share lies within one half of the exact quotient, and is even when the quotient lies exactly halfway between two integers. |
| Nutrition.RoundHalfEvenUnique | Calmeal_app.py:59-61 | Any integer meeting the rounding contract equals RoundHalfEven. So the contract pins down Python's `round` completely. |
| Nutrition.NotTwoApart | Calmeal_app.py:59-61 | Two different integers within one half of the same quotient are adjacent, and both are ties. |
| Nutrition.ShareAtMost100 | Calmeal_app.py:59-61 | A macro's rescaled share never exceeds 100. |
| Nutrition.SharesSumSlack | Calmeal_app.py:56-61 | The three rescaled macros add up to 99, 100 or 101: the rescaling does not force a total of exactly 100. |
| Nutrition.ShareOfHundred | Calmeal_app.py:57-61 | When the macros already total 100, rescaling leaves each one unchanged. |
| Nutrition.Normalize | Calmeal_app.py:56-61 | With a zero total, the dictionary is returned unchanged. Otherwise each macro is Python's `round` of its exact share of 100: the nearest integer, and the even one on a tie. Each is at most 100, and they total 99 to 101. A total of 100 is a fixed point. Fiber and sugar are kept. |
| Nutrition.ExtractNutritionPercentages | Calmeal_app.py:34-63 | Fiber and sugar are the values found in the text. When the three macros read from the text are all 0, whether found as 0 or not found, the result is 33/34/33. Otherwise each macro is Python's `round` of its exact share of the read total: the nearest integer, and the even one on a tie. Macros that total 100 as read are returned as read. The macros always total 99 to 101. |
| Examples.TiesRoundToEven | Calmeal_app.py:59-61 | Macros in the ratio 1:1:6 have exact shares 12.5, 12.5 and 75. They rescale to 12/12/75: the ties go to the even 12. |
| Examples.SharesCanSumTo101 | Calmeal_app.py:56-61 | Macros in the ratio 1:1:4 rescale to 17/17/67, whose total is 101: the upper slack is reached. |
| Calories.TailAtIsMatch | Calmeal_app.py:74 | The reader for the entry's tail `\s*-\s*(\d+)\s*calories` returns v at position q exactly when the tail can match there with group 2 reading v. |
| Calories.TailThroughSpaces | Calmeal_app.py:74 | Whitespace in front of the tail does not change what it reads, since the tail's own leading `\s*` absorbs it. |
| Calories.ShortestItemFound | Calmeal_app.py:74 | The lazy item `(.*?)` that is found crosses no line break, and the tail matches right after it with the reported value. |
| Calories.ShortestItemIsLeast | Calmeal_app.py:74 | If the tail matches at any later position without a line break in between, an item end is found, and it is no later than that position. |
| Calories.ShortestItemIsFirstTail | Calmeal_app.py:74 | The first position at which the tail matches, with no line break before it, is exactly the item end and value the lazy item finds. |
| Calories.EntryAtIffSplit | Calmeal_app.py:74 | The whole pattern succeeds at a start exactly when some split of it exists there. |
| Calories.ReadSplitIsPreferred | Calmeal_app.py:74 | The split the reader takes has the longest whitespace after the dot, and the shortest item for that whitespace: the split backtracking tries first. |
| Calories.EntryAtIsPreferredSplit | Calmeal_app.py:74-77 | The item and calories reported at a start come from the preferred split. The item is reported exactly as captured, because a captured item neither starts nor ends with whitespace, so `strip()` changes nothing. |
| Calories.ShortestItemIsStripped | Calmeal_app.py:74-76 | An item that starts after the longest run of whitespace and ends at the shortest tail has no whitespace to strip. |
| Calories.SearchLineIsLeftmostMatch | Calmeal_app.py:74-77 | A line yields nothing exactly when the pattern matches nowhere in it. Otherwise it yields the pair `re.search` reports: the preferred split from the leftmost start that has any split. |
| Calories.MatchedLineHasOrdinal | Calmeal_app.py:73-74 | Only a line containing a digit immediately followed by a dot can yield a pair. |
| Calories.CollectKeepsOrder | Calmeal_app.py:75-84 | From any per-line results: with no pair, the output is the single fallback row. Otherwise there is one row per kept pair, in increasing line order, and every pair is kept. The two lists always have equal, positive length. |
| Calories.ExtractCalories | Calmeal_app.py:66-84 | The two returned lists have equal length, and are never empty. |
| Calories.ExtractCaloriesByLine | Calmeal_app.py:71-84 | Over the text split on line breaks: with no matching line, the result is `(["Sample Item"], [500])`. Otherwise row k is the pair of the k-th matching line, rows follow line order, and no matching line is skipped. |
| Lines.Split | Calmeal_app.py:71 | `split('\n')` gives one more piece than there are line breaks, and no piece contains one. |
| Lines.JoinSplit | Calmeal_app.py:71 | Joining the pieces with the separator restores the text, so no character is lost or added by splitting. |
| Lines.SplitJoin | Calmeal_app.py:71 | Splitting a join of separator-free pieces gives back the pieces. |
| Lines.SplitFirstPiece | Calmeal_app.py:304 | The first piece is a prefix of the text that ends at the first separator, or at the end of the text when there is none. |
| Report.IsHealthyIffMentioned | Calmeal_app.py:303 | The healthy style is chosen exactly when "healthy" occurs somewhere in the response, in any letter case. |
| Report.UnhealthyIsFlaggedHealthy | Calmeal_app.py:303 | A response saying "unhealthy", in any case, is styled healthy. |
| Report.Headline | Calmeal_app.py:304 | The headline is a prefix of the response with no `.` in it, followed by a `.`. The prefix stops at the response's first `.`, or at its end. |
| Report.KeywordDoesNotOverlap | Calmeal_app.py:341 | Two occurrences of "suggest" never overlap, so the split pieces are well defined. |
| Report.RecommendationsBetweenFirstTwo | Calmeal_app.py:339-342 | The excerpt is empty exactly when the lowercased response lacks "suggest". Otherwise it is "Suggest" followed by the lowercased text strictly between the first and the second occurrence (or the end), and that text contains no "suggest". |
| Report.SumAppend | Calmeal_app.py:333 | The total of two calorie lists put together is the sum of their totals. |
| Report.TotalCaloriesLabel | Calmeal_app.py:333 | The metric text is a decimal numeral with no leading zero, followed by " kcal", and the numeral reads back as the sum of the calories. |
| Text.DecimalRoundTrip | Calmeal_app.py:333 | Reading back the decimal numeral of a number gives the number. |
| Text.LoweredOccursAt | Calmeal_app.py:303 | For a lowercase pattern, an occurrence in `lower()` of the text is the same as a case-insensitive match in the text itself. |
| Text.Strip | Calmeal_app.py:76 | `strip()` removes only whitespace, at the front and at the back: the result is the text that remains between them. The result neither starts nor ends with whitespace. |
| Text.StripIsUnique | Calmeal_app.py:76 | Any text that meets Strip's contract equals Strip's result. So the contract determines `strip()` completely. |
| Wrappers.SomesInOrder | Calmeal_app.py:75-77 | Keeping only the present results gives them paired with strictly increasing indices, with none skipped, and gives nothing when every result is absent. |

## Left out

- The Gemini call (`get_gemini_response`), API-key configuration, `input_image_setup`, the upload widgets, the CSS, the Plotly charts and the rest of the Streamlit layout are left out. They are I/O or presentation. The model answer is a parameter of every function here, and the exception handler around the page has no counterpart.
- `streamlit_app.py` is not part of this model. It is a separate, simpler page: it makes its own Gemini call with `GOOGLE_API_KEY` and has its own upload and button. It only writes the raw response, and has no parsing logic.
- Report.Analyze gathers every derived value of lines 296-342 into one record, but carries no contract of its own. Its fields are exactly the members above, and restating their contracts on the record was too expensive for the solver.
- Nutrition.Normalize: `value * 100 / total` is exact rational arithmetic here. Python computes it in floating point before rounding, which can differ for enormous percentages only.
- `\d`, `lower()` and `re.IGNORECASE` are modelled for ASCII letters and digits only. Other Unicode digits, and case pairs outside ASCII, are not modelled. `\s` is Python's full `str.isspace` set.
- The message "Couldn't extract detailed calorie information" on line 335 is not modelled, because it is unreachable. `ExtractCalories` always returns at least one row, which is proved.
- The sample text "1. Rice - 150 calories\n2. Dal - 120 calories" is not worked through as a concrete lemma, because evaluating the pattern on a literal string is too expensive for the solver. The general lemmas `SearchLineIsLeftmostMatch` and `ExtractCaloriesByLine` cover it.
- The recommendations excerpt is piece 1 of the lowercased response split on "suggest". It therefore stops at a second "suggest", and it is lowercased: it is not the rest of the response in its original case.
- A calorie entry's item may be empty: "1. - 5 calories" yields `("", 5)`.
- The comment on line 73 says "Rice - 150 calories" also matches, but the pattern demands an ordinal, so such a line yields nothing (`MatchedLineHasOrdinal`).
- The 33/34/33 and "Sample Item"/500 fallbacks are not tagged as synthetic, because the code does not tag them. A response that really lists "1. Sample Item - 500 calories" gives the same result as one that lists nothing.
- Python refuses to convert a decimal string of more than 4300 digits with `int()` (lines 48 and 77), and refuses to convert a sum of more than 4300 digits with `str()` (line 333). It raises `ValueError` in both cases, and the page then shows its error message. The model has no digit limit and always returns a value.
