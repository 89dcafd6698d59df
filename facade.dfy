/**
 * The element-set facade `Dom` of js/squares.js, reduced to what the grid
 * commands use: an ordered sequence of wrapped elements and the indexed
 * removal `remove(index)`.  The other facade operations act on the grid
 * directly in module Widget: `find('tr')` is the sequence of rows, `each` is a
 * loop over a sequence, `append` adds an element at the end of a sequence.
 */
module Facade {

  /** `this.elements[index]` is `undefined` for an index outside the wrapped set,
      and calling `.remove()` on it throws. */
  datatype DomError = IndexOutOfRange(index: int)

  /** Whether a facade call returned normally or threw. */
  datatype Outcome = Pass | Fail(error: DomError)

  /** `elements.filter((_, idx) => idx !== index)`: keeps every element whose
      position differs from `index`, in order.  Written from the back so that the
      positions of the kept prefix do not move. */
  function Filtered<T>(s: seq<T>, index: int): (r: seq<T>)
    ensures |r| == if 0 <= index < |s| then |s| - 1 else |s|
  {
    if s == [] then []
    else Filtered(s[..|s| - 1], index) + (if |s| - 1 == index then [] else [s[|s| - 1]])
  }

  /** Inside the bounds, filtering by position removes exactly the element at
      `index` and keeps the others in their relative order. */
  lemma {:induction false} FilteredSplices<T>(s: seq<T>, index: int)
    requires 0 <= index < |s|
    ensures Filtered(s, index) == s[..index] + s[index + 1..]
  {
    var n := |s| - 1;
    if n == index {
      FilteredOutside(s[..n], index);
      assert s[..index] + s[index + 1..] == s[..n];
    } else {
      FilteredSplices(s[..n], index);
      assert s[..n][..index] == s[..index];
      assert s[..n][index + 1..] + [s[n]] == s[index + 1..];
    }
  }

  /** Outside the bounds, the filter keeps everything. */
  lemma {:induction false} FilteredOutside<T>(s: seq<T>, index: int)
    requires !(0 <= index < |s|)
    ensures Filtered(s, index) == s
  {
    if s != [] {
      FilteredOutside(s[..|s| - 1], index);
      assert s[..|s| - 1] + [s[|s| - 1]] == s;
    }
  }

  /** The removal is undone by putting the removed element back at its position. */
  lemma {:induction false} FilteredReinsert<T>(s: seq<T>, index: int)
    requires 0 <= index < |s|
    ensures Filtered(s, index)[..index] + [s[index]] + Filtered(s, index)[index..] == s
  {
    var r := Filtered(s, index);
    FilteredSplices(s, index);
    assert r[..index] == s[..index];
    assert r[index..] == s[index + 1..];
    assert s == s[..index] + [s[index]] + s[index + 1..];
  }

  /** A facade over an ordered sequence of elements. */
  class Dom<T> {
    var elements: seq<T>

    /** `$(array)`: wraps the given elements, in order. */
    constructor (elements: seq<T>)
      ensures this.elements == elements
    {
      this.elements := elements;
    }

    /** `remove(index)`: detaches the element at `index` and drops it from the
        wrapped set; throws, changing nothing, when there is no element there. */
    method Remove(index: int) returns (res: Outcome)
      modifies this
      ensures res.Pass? <==> 0 <= index < |old(elements)|
      ensures res.Pass? ==> elements == old(elements)[..index] + old(elements)[index + 1..]
      ensures res.Fail? ==> res.error == IndexOutOfRange(index) && elements == old(elements)
    {
      if !(0 <= index < |elements|) {
        return Fail(IndexOutOfRange(index));
      }
      FilteredSplices(elements, index);
      elements := Filtered(elements, index);
      res := Pass;
    }
  }
}
