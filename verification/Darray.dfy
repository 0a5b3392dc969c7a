// The growable array.
module Darray {
  const DEFAULT_EXPAND_RATE := 300

  // Where a new last element el comes to rest: behind the last smaller element.
  ghost function Place<T>(s: seq<T>, el: T, cmp: (T, T) -> int): (p: nat)
    ensures p <= |s| && (p > 0 ==> cmp(el, s[p - 1]) > 0) && forall i :: p <= i < |s| ==> cmp(el, s[i]) <= 0
  {
    if s == [] || cmp(el, s[|s| - 1]) > 0 then |s| else Place(s[..|s| - 1], el, cmp)
  }

  // s with el put in at i.
  ghost function With<T>(s: seq<T>, i: nat, el: T): (r: seq<T>)
    requires i <= |s|
    ensures |r| == |s| + 1
    ensures forall k :: 0 <= k < |r| ==> r[k] == if k < i then s[k] else if k == i then el else s[k - 1]
  {
    s[..i] + [el] + s[i..]
  }

  lemma Shift<T>(s: seq<T>, i: nat, el: T, t: seq<T>)
    requires 0 < i <= |s| && t == With(s, i, el)[i := s[i - 1]][i - 1 := el]
    ensures t == With(s, i - 1, el)
  {
  }

  lemma PlaceHere<T>(s: seq<T>, i: nat, el: T, cmp: (T, T) -> int)
    requires i <= |s| && Place(s, el, cmp) <= i && (i == 0 || cmp(el, s[i - 1]) > 0)
    ensures Place(s, el, cmp) == i
  {
  }

  class DArray<T(0)> {
    var end: int
    var contents: array<T>

    ghost predicate Valid()
      reads this
    {
      0 <= end < contents.Length
    }

    ghost function Elements(): seq<T>
      reads this, contents
      requires Valid()
    {
      contents[..end]
    }

    constructor (initial_max: nat)
      requires initial_max > 0
      ensures Valid() && Elements() == [] && fresh(contents)
    {
      contents := new T[initial_max];
      end := 0;
    }

    // A larger block with the old contents in front.
    method Expand()
      requires 0 <= end <= contents.Length
      modifies `contents
      ensures Valid() && fresh(contents) && Elements() == old(contents[..end])
    {
      var larger := new T[contents.Length + DEFAULT_EXPAND_RATE];
      forall k | 0 <= k < contents.Length {
        larger[k] := contents[k];
      }
      contents := larger;
    }

    method Push(el: T)
      requires Valid()
      modifies this, contents
      ensures Valid() && Elements() == old(Elements()) + [el]
      ensures fresh(contents) || contents == old(contents)
    {
      contents[end] := el;
      end := end + 1;
      if end >= contents.Length {
        Expand();
      }
    }

    method PushSort(el: T, cmp: (T, T) -> int)
      requires Valid()
      modifies this, contents
      ensures Valid() && (fresh(contents) || contents == old(contents))
      ensures var s := old(Elements()); Elements() == With(s, Place(s, el, cmp), el)
    {
      hide With, Place;
      ghost var s := Elements();
      Push(el);
      WithLast(s, el);
      PlaceBounds(s, el, cmp);
      var i := end - 1;
      while i > 0
        invariant Valid() && end == |s| + 1 && Place(s, el, cmp) <= i < end
        invariant (fresh(contents) || contents == old(contents))
        invariant Elements() == With(s, i, el)
      {
        ghost var t := Elements();
        Neighbours(s, i, el);
        assert contents[i] == t[i] && contents[i - 1] == t[i - 1];
        if cmp(contents[i], contents[i - 1]) > 0 {
          break;
        }
        contents[i], contents[i - 1] := contents[i - 1], contents[i];
        assert Elements() == t[i := s[i - 1]][i - 1 := el];
        Shift(s, i, el, Elements());
        PlaceBefore(s, i, el, cmp);
        i := i - 1;
      }
      PlaceHere(s, i, el, cmp);
    }
  }

  lemma WithLast<T>(s: seq<T>, el: T)
    ensures With(s, |s|, el) == s + [el]
  {
  }

  lemma Neighbours<T>(s: seq<T>, i: nat, el: T)
    requires 0 < i <= |s|
    ensures |With(s, i, el)| == |s| + 1 && With(s, i, el)[i] == el && With(s, i, el)[i - 1] == s[i - 1]
  {
  }

  lemma PlaceBounds<T>(s: seq<T>, el: T, cmp: (T, T) -> int)
    ensures Place(s, el, cmp) <= |s|
  {
  }

  lemma PlaceBefore<T>(s: seq<T>, i: nat, el: T, cmp: (T, T) -> int)
    requires 0 < i <= |s| && Place(s, el, cmp) <= i && cmp(el, s[i - 1]) <= 0
    ensures Place(s, el, cmp) <= i - 1
  {
  }
}
