/** src/lcthw/darray.c: a growable array of pointers; None is the NULL pointer. */
module DArrays {
  import opened Bytes

  const DEFAULT_EXPAND_RATE: nat := 300

  /** What DArray_compact leaves: the entries that are not NULL, in their order. */
  function NonNull<T>(s: seq<Option<T>>): (r: seq<Option<T>>)
    ensures |r| <= |s|
  {
    if |s| == 0 then [] else (if s[0].Some? then [s[0]] else []) + NonNull(s[1..])
  }

  lemma {:induction false} NonNullDrop<T>(s: seq<Option<T>>, i: nat)
    requires i < |s| && s[i].None?
    ensures NonNull(s[..i] + s[i + 1..]) == NonNull(s)
  {
    if i == 0 {
      assert s[..0] + s[1..] == s[1..];
    } else {
      assert (s[..i] + s[i + 1..])[1..] == s[1..][..i - 1] + s[1..][i..];
      NonNullDrop(s[1..], i - 1);
    }
  }

  lemma {:induction false} NonNullAll<T>(s: seq<Option<T>>)
    requires forall k :: 0 <= k < |s| ==> s[k].Some?
    ensures NonNull(s) == s
  {
    if |s| > 0 {
      assert s[0].Some?;
      NonNullAll(s[1..]);
      assert s == [s[0]] + s[1..];
    }
  }

  class DArray<T> {
    var end: nat
    var max: nat
    var contents: array<Option<T>>

    /** There is always a free cell past the end. */
    ghost predicate Valid()
      reads this
    {
      contents.Length == max && end < max
    }

    ghost function Items(): seq<Option<T>>
      requires Valid()
      reads this, contents
    {
      contents[..end]
    }

    /** DArray_create */
    constructor (initialMax: nat)
      requires initialMax > 0
      ensures Valid() && Items() == [] && fresh(contents)
      ensures max == initialMax
    {
      end, max := 0, initialMax;
      contents := new Option<T>[initialMax](_ => None);
    }

    /** DArray_resize: realloc keeps what fits and says nothing about new cells. */
    method Resize(newSize: nat)
      requires contents.Length == max && end < newSize && end <= max
      modifies this
      ensures Valid() && fresh(contents) && max == newSize && end == old(end)
      ensures contents[..end] == old(contents[..end])
    {
      var cells := new Option<T>[newSize];
      for i := 0 to end
        invariant unchanged(this) && unchanged(contents)
        invariant end <= contents.Length && forall k :: 0 <= k < i ==> cells[k] == contents[k]
      {
        cells[i] := contents[i];
      }
      contents := cells;
      max := newSize;
    }

    /** DArray_push */
    method Push(el: Option<T>)
      requires Valid()
      modifies this, contents
      ensures Valid() && (contents == old(contents) || fresh(contents))
      ensures Items() == old(Items()) + [el]
      ensures max >= old(max)
    {
      contents[end] := el;
      end := end + 1;
      if end >= max {
        Resize(max + DEFAULT_EXPAND_RATE);
      }
    }

    /** DArray_pop; NULL out of an empty array. */
    method Pop() returns (el: Option<T>)
      requires Valid()
      modifies this, contents
      ensures Valid() && (contents == old(contents) || fresh(contents))
      ensures old(end) == 0 ==> el == None && Items() == old(Items())
      ensures old(end) > 0 ==> el == old(Items())[old(end) - 1] && Items() == old(Items())[..old(end) - 1]
    {
      if end == 0 {
        return None;
      }
      el := contents[end - 1];
      contents[end - 1] := None;
      end := end - 1;
      if end > DEFAULT_EXPAND_RATE && end % DEFAULT_EXPAND_RATE != 0 {
        Resize((if end < DEFAULT_EXPAND_RATE then DEFAULT_EXPAND_RATE else end) + 1);
      }
    }

    /** DArray_get; NULL past max. */
    function Get(i: nat): Option<T>
      requires Valid()
      reads this, contents
    {
      if i < max then contents[i] else None
    }

    /** DArray_set; nothing happens past max. */
    method Set(i: nat, el: Option<T>)
      requires Valid()
      modifies contents
      ensures Valid()
      ensures contents[..] == if i < max then old(contents[..])[i := el] else old(contents[..])
    {
      if i < max {
        contents[i] := el;
      }
    }

    /** The inner loop of DArray_compact: move every later entry one cell down. */
    method CloseGap(i: nat)
      requires Valid() && i < end
      modifies contents
      ensures Valid() && contents[..end - 1] == old(Items()[..i] + Items()[i + 1..])
    {
      ghost var before := Items();
      for j := i to end - 1
        invariant Valid()
        invariant forall k :: 0 <= k < i ==> contents[k] == before[k]
        invariant forall k :: i <= k < j ==> contents[k] == before[k + 1]
        invariant forall k :: j <= k < end ==> contents[k] == before[k]
      {
        var tmp := Get(j + 1);
        ghost var cells := contents[..];
        Set(j, tmp);
        assert forall k :: 0 <= k < end ==> contents[k] == contents[..][k] == cells[j := tmp][k];
      }
    }

    /** DArray_compact: squeeze out the NULL entries, keeping the order of the others. */
    method Compact()
      requires Valid()
      modifies this, contents
      ensures Valid() && (contents == old(contents) || fresh(contents))
      ensures Items() == NonNull(old(Items()))
    {
      var i := 0;
      while i < end
        invariant Valid() && (contents == old(contents) || fresh(contents))
        invariant 0 <= i <= end && forall k :: 0 <= k < i ==> Items()[k].Some?
        invariant NonNull(Items()) == NonNull(old(Items()))
        decreases end - i
      {
        if Get(i).Some? {
          i := i + 1;
          continue;
        }
        ghost var before := Items();
        NonNullDrop(before, i);
        CloseGap(i);
        var _ := Pop();
        assert Items() == before[..i] + before[i + 1..];
      }
      NonNullAll(Items());
    }
  }
}
