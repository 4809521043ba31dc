/** The optional value returned by the matchers: `None` where Python's `re.search` returns no match. */
module Wrappers {

  datatype Option<+T> = None | Some(value: T)

  /** The values of the Some entries of rs[i..], in order: a filter-and-unwrap. */
  function Somes<T>(rs: seq<Option<T>>, i: nat): (r: seq<T>)
    requires i <= |rs|
    ensures |r| <= |rs| - i
    decreases |rs| - i
  {
    if i == |rs| then []
    else if rs[i].Some? then [rs[i].value] + Somes(rs, i + 1)
    else Somes(rs, i + 1)
  }

  /** The indices of the Some entries of rs[i..], in increasing order. */
  function SomeIndices<T>(rs: seq<Option<T>>, i: nat): (r: seq<nat>)
    requires i <= |rs|
    ensures forall k :: 0 <= k < |r| ==> i <= r[k] < |rs|
    decreases |rs| - i
  {
    if i == |rs| then []
    else if rs[i].Some? then [i] + SomeIndices(rs, i + 1)
    else SomeIndices(rs, i + 1)
  }

  /** The k-th value kept is the value of the entry at the k-th index kept. */
  lemma {:induction false} SomesPaired<T>(rs: seq<Option<T>>, i: nat)
    requires i <= |rs|
    ensures |SomeIndices(rs, i)| == |Somes(rs, i)|
    ensures forall k :: 0 <= k < |SomeIndices(rs, i)| ==> rs[SomeIndices(rs, i)[k]] == Some(Somes(rs, i)[k])
    decreases |rs| - i
  {
    if i < |rs| {
      SomesPaired(rs, i + 1);
      if rs[i].Some? {
        assert SomeIndices(rs, i) == [i] + SomeIndices(rs, i + 1);
        assert Somes(rs, i) == [rs[i].value] + Somes(rs, i + 1);
      }
    }
  }

  /** The indices kept are strictly increasing. */
  lemma {:induction false} SomeIndicesIncreasing<T>(rs: seq<Option<T>>, i: nat)
    requires i <= |rs|
    ensures forall k, k' :: 0 <= k < k' < |SomeIndices(rs, i)| ==> SomeIndices(rs, i)[k] < SomeIndices(rs, i)[k']
    decreases |rs| - i
  {
    if i < |rs| {
      SomeIndicesIncreasing(rs, i + 1);
      if rs[i].Some? {
        assert SomeIndices(rs, i) == [i] + SomeIndices(rs, i + 1);
      }
    }
  }

  /** Every Some entry has its index kept. */
  lemma {:induction false} SomeIndicesComplete<T>(rs: seq<Option<T>>, i: nat)
    requires i <= |rs|
    ensures forall j :: i <= j < |rs| && rs[j].Some? ==> j in SomeIndices(rs, i)
    decreases |rs| - i
  {
    if i < |rs| {
      SomeIndicesComplete(rs, i + 1);
      if rs[i].Some? {
        assert SomeIndices(rs, i) == [i] + SomeIndices(rs, i + 1);
      }
    }
  }

  /**
    The k-th value kept comes from the k-th Some entry: one value per Some
    entry, none from the None entries, in order.
   */
  lemma SomesInOrder<T>(rs: seq<Option<T>>, i: nat)
    requires i <= |rs|
    ensures |SomeIndices(rs, i)| == |Somes(rs, i)|
    ensures forall k :: 0 <= k < |SomeIndices(rs, i)| ==>
              i <= SomeIndices(rs, i)[k] < |rs| && rs[SomeIndices(rs, i)[k]] == Some(Somes(rs, i)[k])
    ensures forall k, k' :: 0 <= k < k' < |SomeIndices(rs, i)| ==> SomeIndices(rs, i)[k] < SomeIndices(rs, i)[k']
    ensures forall j :: i <= j < |rs| && rs[j].Some? ==> j in SomeIndices(rs, i)
    ensures (forall j :: i <= j < |rs| ==> rs[j].None?) ==> Somes(rs, i) == []
  {
    SomesPaired(rs, i);
    SomeIndicesIncreasing(rs, i);
    SomeIndicesComplete(rs, i);
    if |SomeIndices(rs, i)| > 0 {
      assert rs[SomeIndices(rs, i)[0]].Some?;
    }
  }
}
