/**
  Worked cases of the rescaling of lines 56-61: equal macros share the hundred
  evenly, and the rounded shares can miss 100 by one in either direction.
 */
module Examples {
  import opened Nutrition

  /** Ten grams of each macro become a third each, rounded down. */
  lemma EqualMacros()
    ensures Normalize(Nutrients(10, 10, 10, 0, 0)) == Nutrients(33, 33, 33, 0, 0)
  {
  }

  /** Three equal shares round down to 99 in total. */
  lemma SharesCanSumTo99()
    ensures Normalize(Nutrients(1, 1, 1, 0, 0)).MacroTotal() == 99
  {
  }

  /** 1:1:6 gives exact shares 12.5, 12.5 and 75: the ties round to the even 12, not 13. */
  lemma TiesRoundToEven()
    ensures Normalize(Nutrients(1, 1, 6, 0, 0)) == Nutrients(12, 12, 75, 0, 0)
  {
  }

  /** 1:1:4 rounds 16.67, 16.67 and 66.67 up, to 101 in total. */
  lemma SharesCanSumTo101()
    ensures Normalize(Nutrients(1, 1, 4, 0, 0)) == Nutrients(17, 17, 67, 0, 0)
    ensures Normalize(Nutrients(1, 1, 4, 0, 0)).MacroTotal() == 101
  {
  }
}
