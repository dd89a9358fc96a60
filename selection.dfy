/**
 * onToggleSelected: the list of selected image indices with one index toggled. The
 * gallery copies its `selectedImages` state, appends the index when it is absent and
 * removes its first occurrence otherwise, and hands the copy to the caller's callback.
 */
module Selection {

  /** Array.prototype.indexOf: the position of the first occurrence of `x`, or -1. */
  function IndexOf(s: seq<int>, x: int): (i: int)
    ensures -1 <= i < |s|
    ensures i == -1 <==> x !in s
    ensures i >= 0 ==> s[i] == x && x !in s[..i]
  {
    if s == [] then -1
    else if s[0] == x then 0
    else
      var k := IndexOf(s[1..], x);
      if k == -1 then -1
      else
        assert s[..k + 1] == [s[0]] + s[1..][..k];
        k + 1
  }

  /** `s` without the first occurrence of `x`. */
  function RemoveFirst(s: seq<int>, x: int): (r: seq<int>)
    requires x in s
    ensures |r| == |s| - 1
    ensures multiset(r) + multiset{x} == multiset(s)
  {
    if s[0] == x then
      assert s == [s[0]] + s[1..];
      s[1..]
    else
      assert s == [s[0]] + s[1..];
      [s[0]] + RemoveFirst(s[1..], x)
  }

  /** The selection after toggling `x`: removed (its first occurrence) when selected, appended otherwise. */
  function Toggled(s: seq<int>, x: int): (r: seq<int>)
    ensures x in s ==> |r| == |s| - 1 && multiset(r) + multiset{x} == multiset(s)
    ensures x !in s ==> |r| == |s| + 1 && multiset(r) == multiset(s) + multiset{x}
  {
    if x in s then RemoveFirst(s, x) else s + [x]
  }

  /** No index occurs twice. */
  predicate Distinct(s: seq<int>)
  {
    forall i, j :: 0 <= i < j < |s| ==> s[i] != s[j]
  }

  /** Cutting out the element at indexOf's answer removes exactly the first occurrence. */
  lemma {:induction false} SpliceIsRemoveFirst(s: seq<int>, x: int)
    requires x in s
    ensures var i := IndexOf(s, x);
      s[..i] + s[i + 1..] == RemoveFirst(s, x)
  {
    if s[0] != x {
      var t := s[1..];
      assert x in t by {
        assert s == [s[0]] + t;
      }
      var i, k := IndexOf(s, x), IndexOf(t, x);
      assert i == k + 1;
      calc {
        s[..i] + s[i + 1..];
        { assert s[..i] == [s[0]] + t[..k]; assert s[i + 1..] == t[k + 1..]; }
        [s[0]] + (t[..k] + t[k + 1..]);
        { SpliceIsRemoveFirst(t, x); }
        [s[0]] + RemoveFirst(t, x);
      }
    }
  }

  /** Cutting one element out of a list without duplicates leaves a list without duplicates that lacks it. */
  lemma DistinctSplice(s: seq<int>, i: int)
    requires Distinct(s) && 0 <= i < |s|
    ensures s[i] !in s[..i] + s[i + 1..]
    ensures Distinct(s[..i] + s[i + 1..])
  {
    var r := s[..i] + s[i + 1..];
    forall j | 0 <= j < |r|
      ensures r[j] == s[if j < i then j else j + 1]
    {
    }
  }

  /** Removing the first occurrence of an index just appended to a list without it restores the list. */
  lemma {:induction false} RemoveFirstOfAppended(s: seq<int>, x: int)
    requires x !in s
    ensures RemoveFirst(s + [x], x) == s
  {
    if s != [] {
      assert (s + [x])[1..] == s[1..] + [x];
      RemoveFirstOfAppended(s[1..], x);
      assert s == [s[0]] + s[1..];
    }
  }

  /**
   * Toggling an index that was not selected, and then again, gives back the same
   * list; in a selection without duplicates toggling twice gives back the same
   * indices, the toggled one moved to the end.
   */
  lemma ToggleTwice(s: seq<int>, x: int)
    ensures x !in s ==> Toggled(Toggled(s, x), x) == s
    ensures Distinct(s) ==> multiset(Toggled(Toggled(s, x), x)) == multiset(s)
  {
    if x in s {
      if Distinct(s) {
        SpliceIsRemoveFirst(s, x);
        DistinctSplice(s, IndexOf(s, x));
        assert Toggled(Toggled(s, x), x) == RemoveFirst(s, x) + [x];
      }
    } else {
      RemoveFirstOfAppended(s, x);
    }
  }

  /**
   * Toggling flips the toggled index's membership in a selection without duplicates,
   * keeps it free of duplicates, and leaves every other index as it was.
   */
  lemma ToggleFlipsMembership(s: seq<int>, x: int)
    requires Distinct(s)
    ensures x in Toggled(s, x) <==> x !in s
    ensures Distinct(Toggled(s, x))
    ensures forall y :: y != x ==> (y in Toggled(s, x) <==> y in s)
  {
    var r := Toggled(s, x);
    forall y | y != x
      ensures y in r <==> y in s
    {
      assert multiset(r)[y] == multiset(s)[y];
    }
    if x in s {
      SpliceIsRemoveFirst(s, x);
      DistinctSplice(s, IndexOf(s, x));
    } else {
      assert r[|s|] == x;
    }
  }

  /** onToggleSelected(index): the new selection handed to the callback. */
  method OnToggleSelected(selectedImages: seq<int>, index: int) returns (selected: seq<int>)
    ensures selected == Toggled(selectedImages, index)
  {
    var i := IndexOf(selectedImages, index);
    selected := selectedImages;
    if i == -1 {
      selected := selected + [index];
    } else {
      SpliceIsRemoveFirst(selectedImages, index);
      selected := selected[..i] + selected[i + 1..];
    }
  }
}
