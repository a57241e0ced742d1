/**
  Plain substring containment on strings: the meaning given here to the
  pattern match of the catalog search, which surrounds the term with
  wildcards (wildcards inside the term and collation-dependent case folding
  are not modelled).
 */
module Text {

  /** `needle` is an initial segment of `hay`. */
  predicate IsPrefix(needle: string, hay: string) {
    |needle| <= |hay| && hay[..|needle|] == needle
  }

  /** `needle` occurs somewhere in `hay`, found by sliding the start of `hay`. */
  predicate Contains(hay: string, needle: string)
    decreases |hay|
  {
    IsPrefix(needle, hay) || (|hay| > 0 && Contains(hay[1..], needle))
  }

  /** `needle` occurs in `hay` starting at position `i`: the reference definition. */
  ghost predicate OccursAt(hay: string, needle: string, i: int) {
    0 <= i && i + |needle| <= |hay| && hay[i..i + |needle|] == needle
  }

  /** A slice of the tail of `hay` is the slice of `hay` one position further on. */
  lemma SliceOfTail(hay: string, i: int, n: nat)
    requires 1 <= i && i + n <= |hay|
    ensures hay[1..][i - 1..i - 1 + n] == hay[i..i + n]
  {
    var shifted, direct := hay[1..][i - 1..i - 1 + n], hay[i..i + n];
    assert forall k :: 0 <= k < n ==> shifted[k] == direct[k];
  }

  /** The sliding search agrees with the positional definition, in both directions. */
  lemma {:induction false} ContainsIff(hay: string, needle: string)
    ensures Contains(hay, needle) <==> exists i :: OccursAt(hay, needle, i)
    decreases |hay|
  {
    if IsPrefix(needle, hay) {
      assert OccursAt(hay, needle, 0);
    } else if |hay| == 0 {
      assert forall i :: !OccursAt(hay, needle, i);
    } else {
      ContainsIff(hay[1..], needle);
      if Contains(hay[1..], needle) {
        var i :| OccursAt(hay[1..], needle, i);
        SliceOfTail(hay, i + 1, |needle|);
        assert OccursAt(hay, needle, i + 1);
      } else {
        forall i | OccursAt(hay, needle, i)
          ensures false
        {
          if i != 0 {
            SliceOfTail(hay, i, |needle|);
            assert OccursAt(hay[1..], needle, i - 1);
          }
        }
      }
    }
  }

  /** The empty term is contained in every string, so an unguarded search would select everything. */
  lemma EmptyContained(hay: string)
    ensures Contains(hay, [])
  {
    assert IsPrefix([], hay);
  }
}
