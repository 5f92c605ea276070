/** Python's `needle in haystack` test on strings: substring containment. */
module Substring {

  /** `needle` occurs in `hay` starting at position `i`. */
  ghost predicate OccursAt(needle: string, hay: string, i: int)
  {
    0 <= i && i + |needle| <= |hay| && hay[i..i + |needle|] == needle
  }

  /** `hay` starts with `p`. */
  predicate IsPrefix(p: string, hay: string)
  {
    |p| <= |hay| && hay[..|p|] == p
  }

  /** Executable containment test: try every start position from the left. */
  function Contains(needle: string, hay: string): bool
    decreases |hay|
  {
    if IsPrefix(needle, hay) then true
    else if hay == [] then false
    else Contains(needle, hay[1..])
  }

  /** `Contains` agrees with the reference definition: some position holds an occurrence. */
  lemma {:induction false} ContainsIff(needle: string, hay: string)
    ensures Contains(needle, hay) <==> exists i :: OccursAt(needle, hay, i)
    decreases |hay|
  {
    if IsPrefix(needle, hay) {
      assert OccursAt(needle, hay, 0);
    } else if hay == [] {
      assert needle != [];
    } else {
      ContainsIff(needle, hay[1..]);
      assert !OccursAt(needle, hay, 0) by {
        if |needle| <= |hay| {
          assert hay[0..|needle|] == hay[..|needle|];
        }
      }
      forall j | OccursAt(needle, hay[1..], j)
        ensures OccursAt(needle, hay, j + 1)
      {
        assert hay[1..][j..j + |needle|] == hay[j + 1..j + 1 + |needle|];
      }
      forall i | OccursAt(needle, hay, i)
        ensures OccursAt(needle, hay[1..], i - 1)
      {
        assert hay[1..][i - 1..i - 1 + |needle|] == hay[i..i + |needle|];
      }
    }
  }

  /** The empty string occurs in every string, so an empty needle matches everything. */
  lemma EmptyNeedleAlwaysContained(hay: string)
    ensures Contains("", hay)
  {
    assert IsPrefix("", hay);
  }

  /** A non-empty needle never occurs in the empty string. */
  lemma NothingInEmpty(needle: string)
    requires needle != ""
    ensures !Contains(needle, "")
  {
  }
}
