/**
  * The archive to be written: the items of an input archive that were not deleted, then the new items.
  * The archiver numbers its output from 0; each output number maps to an index in the input archive or,
  * from the number of input items on, to a new item.
  */
module OutputArchives {
  import opened Common

  // ----- the mapping -----

  /** The numbers from `lo` up to `hi` that are not deleted, in order. */
  function Remaining(deleted: set<nat>, lo: nat, hi: nat): seq<nat> {
    if hi <= lo then []
    else Remaining(deleted, lo, hi - 1) + (if hi - 1 in deleted then [] else [hi - 1])
  }

  ghost predicate Increasing(s: seq<nat>) {
    forall i, j :: 0 <= i < j < |s| ==> s[i] < s[j]
  }

  lemma RemainingIs(deleted: set<nat>, lo: nat, hi: nat)
    ensures forall x :: x in Remaining(deleted, lo, hi) <==> lo <= x < hi && x !in deleted
    ensures Increasing(Remaining(deleted, lo, hi))
  {
    hide Remaining, Increasing;
    RemainingMembers(deleted, lo, hi);
    RemainingIncreases(deleted, lo, hi);
  }

  lemma {:induction false} RemainingMembers(deleted: set<nat>, lo: nat, hi: nat)
    ensures forall x :: x in Remaining(deleted, lo, hi) <==> lo <= x < hi && x !in deleted
    decreases hi
  {
    if hi > lo {
      RemainingMembers(deleted, lo, hi - 1);
      var before, r := Remaining(deleted, lo, hi - 1), Remaining(deleted, lo, hi);
      forall x ensures x in r <==> x in before || (x == hi - 1 && x !in deleted) {
      }
      hide Remaining;
    }
  }

  lemma RemainingAt(deleted: set<nat>, lo: nat, hi: nat, i: nat)
    requires i < |Remaining(deleted, lo, hi)|
    ensures var x := Remaining(deleted, lo, hi)[i]; lo <= x < hi && x !in deleted
  {
    hide Remaining;
    RemainingMembers(deleted, lo, hi);
    assert Remaining(deleted, lo, hi)[i] in Remaining(deleted, lo, hi);
  }

  lemma {:induction false} RemainingIncreases(deleted: set<nat>, lo: nat, hi: nat)
    ensures Increasing(Remaining(deleted, lo, hi))
    ensures forall i :: 0 <= i < |Remaining(deleted, lo, hi)| ==> lo <= Remaining(deleted, lo, hi)[i] < hi
    decreases hi
  {
    if hi > lo {
      RemainingIncreases(deleted, lo, hi - 1);
    }
  }

  lemma {:induction false} SmallerDeleted(deleted: set<nat>, hi: nat) returns (below: set<nat>)
    ensures below == set d | d in deleted && d < hi
    ensures |Remaining(deleted, 0, hi)| + |below| == hi
    decreases hi
  {
    below := set d | d in deleted && d < hi;
    if hi > 0 {
      var before := SmallerDeleted(deleted, hi - 1);
      if hi - 1 in deleted {
        assert below == before + {hi - 1};
      } else {
        assert below == before;
      }
    } else {
      assert below == {};
    }
  }

  /** The number of numbers left over once all deletions are below the bound. */
  lemma RemainingCount(deleted: set<nat>, hi: nat)
    requires forall d :: d in deleted ==> d < hi
    ensures |Remaining(deleted, 0, hi)| + |deleted| == hi
  {
    var below := SmallerDeleted(deleted, hi);
    assert below == deleted;
  }

  lemma {:induction false} RemainingPrefix(deleted: set<nat>, k: nat, hi: nat)
    requires k <= hi
    ensures |Remaining(deleted, 0, k)| <= |Remaining(deleted, 0, hi)|
    ensures Remaining(deleted, 0, hi)[..|Remaining(deleted, 0, k)|] == Remaining(deleted, 0, k)
    decreases hi - k
  {
    if k < hi {
      RemainingPrefix(deleted, k, hi - 1);
    }
  }

  lemma {:induction false} RemainingSplit(deleted: set<nat>, mid: nat, hi: nat)
    requires mid <= hi && forall d :: d in deleted ==> d < mid
    ensures Remaining(deleted, 0, hi) == Remaining(deleted, 0, mid) + Remaining({}, mid, hi)
    decreases hi
  {
    if mid < hi {
      RemainingSplit(deleted, mid, hi - 1);
    }
  }

  lemma SkippingDeleted(deleted: set<nat>, k: nat)
    ensures Remaining(deleted, 0, k + 1) == Remaining(deleted, 0, k) + (if k in deleted then [] else [k])
  {
  }

  /** An increasing list is determined by its members: there is only one such mapping. */
  lemma {:induction false} IncreasingIsUnique(a: seq<nat>, b: seq<nat>)
    requires Increasing(a) && Increasing(b) && forall x :: x in a <==> x in b
    ensures a == b
  {
    if a == [] {
      assert forall i :: 0 <= i < |b| ==> b[i] in b;
    } else {
      assert a[|a| - 1] in b;
      assert b != [];
      var x, y := a[|a| - 1], b[|b| - 1];
      assert x == y by {
        assert y in a && x in b;
      }
      var a', b' := a[..|a| - 1], b[..|b| - 1];
      forall z ensures z in a' <==> z in b' {
        if z in a' {
          var i :| 0 <= i < |a'| && a'[i] == z;
          assert a[i] < x && z in b;
        }
        if z in b' {
          var i :| 0 <= i < |b'| && b'[i] == z;
          assert b[i] < y && z in a;
        }
      }
      IncreasingIsUnique(a', b');
    }
  }

  // ----- the archive object -----

  /** An item of the input archive. */
  datatype InputItem = InputItem(path: string, isDir: bool)

  /** An item added by the user: its path in the archive and where its data comes from. */
  datatype NewItem = NewItem(path: string, source: nat)

  datatype UpdateMode = AppendOnly | Update

  /** The first item with a path, or the number of items. */
  function FirstWithPath(items: seq<InputItem>, path: string): (k: nat)
    ensures k <= |items|
    ensures k < |items| ==> items[k].path == path
    ensures forall i :: 0 <= i < k ==> items[i].path != path
  {
    if items == [] || items[0].path == path then 0 else FirstWithPath(items[1..], path) + 1
  }

  /** The input items that the new items replace. */
  function Replaced(items: seq<InputItem>, added: seq<NewItem>): set<nat> {
    set i | 0 <= i < |items| && IsReplaced(items, added, i)
  }

  predicate IsReplaced(items: seq<InputItem>, added: seq<NewItem>, i: nat) {
    exists j :: 0 <= j < |added| && FirstWithPath(items, added[j].path) == i
  }

  class BitOutputArchive {
    const inputItems: seq<InputItem>
    var newItems: seq<NewItem>
    var deletedItems: set<nat>
    var inputIndices: seq<nat>

    ghost predicate Valid()
      reads this
    {
      && |inputItems| + |newItems| < TWO_32
      && (forall d :: d in deletedItems ==> d < |inputItems|)
    }

    /** Nothing has been compressed yet. */
    ghost predicate Unmapped()
      reads this
    {
      Valid() && inputIndices == []
    }

    /** The mapping is in place: either computed, or not needed because nothing is deleted. */
    ghost predicate Mapped()
      reads this
    {
      && Valid()
      && inputIndices == if deletedItems == {} then [] else Remaining(deletedItems, 0, |inputItems| + |newItems|)
    }

    constructor (inputItems: seq<InputItem>)
      requires |inputItems| < TWO_32
      ensures Unmapped() && this.inputItems == inputItems && newItems == [] && deletedItems == {}
    {
      this.inputItems := inputItems;
      newItems, deletedItems, inputIndices := [], {}, [];
    }

    method AddItem(item: NewItem)
      requires Unmapped() && |inputItems| + |newItems| + 1 < TWO_32
      modifies this`newItems
      ensures Unmapped() && newItems == old(newItems) + [item]
    {
      newItems := newItems + [item];
    }

    method SetDeletedIndex(index: nat)
      requires Unmapped() && index < |inputItems|
      modifies this`deletedItems
      ensures Unmapped() && deletedItems == old(deletedItems) + {index}
    {
      deletedItems := deletedItems + {index};
    }

    predicate IsDeletedIndex(index: nat)
      reads this
    {
      index in deletedItems
    }

    function ItemsCount(): (n: nat)
      requires Valid()
      reads this
      ensures n == |Remaining(deletedItems, 0, |inputItems| + |newItems|)| < TWO_32
    {
      RemainingCount(deletedItems, |inputItems| + |newItems|);
      RemainingCount(deletedItems, |inputItems|);
      Low32(Low32(|newItems|) + Low32(|inputItems| - Low32(|deletedItems|)))
    }

    /** Computes the mapping from output numbers to input indices, skipping the deleted ones. */
    method UpdateInputIndices()
      requires Unmapped()
      modifies this`inputIndices
      ensures Mapped()
    {
      hide ItemsCount;
      if deletedItems == {} {
        return;
      }
      ghost var all := |inputItems| + |newItems|;
      var offset: nat, newIndex: nat := 0, 0;
      while newIndex < ItemsCount()
        invariant Valid() && newIndex <= ItemsCount()
        invariant newIndex + offset <= all
        invariant inputIndices == Remaining(deletedItems, 0, newIndex + offset) && |inputIndices| == newIndex
      {
        while newIndex + offset in deletedItems
          invariant Valid() && newIndex < ItemsCount() && newIndex + offset <= all && |inputIndices| == newIndex
          invariant inputIndices == Remaining(deletedItems, 0, newIndex + offset)
          decreases all - (newIndex + offset)
        {
          SkippingDeleted(deletedItems, newIndex + offset);
          offset := offset + 1;
        }
        SkippingDeleted(deletedItems, newIndex + offset);
        inputIndices := inputIndices + [newIndex + offset];
        newIndex := newIndex + 1;
      }
      RemainingPrefix(deletedItems, newIndex + offset, all);
    }

    /** In Update mode a new item replaces the input item of the same path. */
    method DeleteReplaced()
      requires Unmapped()
      modifies this`deletedItems
      ensures Unmapped()
      ensures deletedItems == old(deletedItems) + Replaced(inputItems, newItems)
    {
      hide Replaced;
      NothingReplaced(inputItems);
      var i := 0;
      ghost var before := deletedItems;
      assert before + Replaced(inputItems, []) == before;
      while i < |newItems|
        invariant 0 <= i <= |newItems| && Unmapped()
        invariant deletedItems == before + Replaced(inputItems, newItems[..i])
      {
        var updatedItem := FirstWithPath(inputItems, newItems[i].path);
        ReplacedAppend(inputItems, newItems[..i], newItems[i]);
        assert newItems[..i + 1] == newItems[..i] + [newItems[i]];
        if updatedItem < |inputItems| {
          SetDeletedIndex(updatedItem);
        }
        i := i + 1;
      }
      assert newItems[..i] == newItems;
    }

    /** What happens before the archiver is asked to write. */
    method PrepareOutput(mode: UpdateMode)
      requires Unmapped()
      modifies this`deletedItems, this`inputIndices
      ensures Mapped()
      ensures deletedItems == old(deletedItems) + (if mode.Update? then Replaced(inputItems, newItems) else {})
    {
      if mode.Update? {
        DeleteReplaced();
      }
      UpdateInputIndices();
    }

    function ItemInputIndex(newIndex: nat): nat
      reads this
    {
      if newIndex < |inputIndices| then inputIndices[newIndex] else newIndex
    }

    /** The index of the item in the input archive, none for a new item. */
    function IndexInArchive(index: nat): Option<nat>
      reads this
    {
      var originalIndex := ItemInputIndex(index);
      if originalIndex < |inputItems| then Some(originalIndex) else None
    }

    /**
      * The mapping is the increasing numbering of what is left of the input followed by all new items:
      * each surviving input index and each new item is hit exactly once, in order.
      */
    lemma MappingIsOrderedBijection()
      requires Mapped()
      ensures var n := ItemsCount();
              && (forall i, j :: 0 <= i < j < n ==> ItemInputIndex(i) < ItemInputIndex(j))
              && (forall i :: 0 <= i < n ==> ItemInputIndex(i) !in deletedItems
                                             && ItemInputIndex(i) < |inputItems| + |newItems|)
              && (forall x :: 0 <= x < |inputItems| + |newItems| && x !in deletedItems ==>
                    exists i :: 0 <= i < n && ItemInputIndex(i) == x)
    {
      hide Remaining;
      MappingIsRemaining();
      var all := |inputItems| + |newItems|;
      RemainingIs(deletedItems, 0, all);
      var r := Remaining(deletedItems, 0, all);
      forall i | 0 <= i < |r| ensures ItemInputIndex(i) == r[i] && r[i] in r {
      }
      forall x | 0 <= x < all && x !in deletedItems
        ensures exists i :: 0 <= i < |r| && ItemInputIndex(i) == x
      {
        assert x in r;
        var i :| 0 <= i < |r| && r[i] == x;
        assert ItemInputIndex(i) == x;
      }
    }

    lemma MappingIsRemaining()
      requires Mapped()
      ensures forall i :: 0 <= i < ItemsCount() ==>
                ItemInputIndex(i) == Remaining(deletedItems, 0, |inputItems| + |newItems|)[i]
    {
      if deletedItems == {} {
        RemainingOfNothing(0, |inputItems| + |newItems|);
      }
    }
  }

  lemma {:induction false} RemainingOfNothing(lo: nat, hi: nat)
    requires lo <= hi
    ensures |Remaining({}, lo, hi)| == hi - lo
    ensures forall i :: 0 <= i < hi - lo ==> Remaining({}, lo, hi)[i] == lo + i
    decreases hi
  {
    if lo < hi {
      RemainingOfNothing(lo, hi - 1);
    }
  }

  lemma NothingReplaced(items: seq<InputItem>)
    ensures Replaced(items, []) == {}
  {
  }

  lemma ReplacedAppend(items: seq<InputItem>, added: seq<NewItem>, item: NewItem)
    ensures var k := FirstWithPath(items, item.path);
            Replaced(items, added + [item]) == Replaced(items, added) + (if k < |items| then {k} else {})
  {
    var k := FirstWithPath(items, item.path);
    var a, b := Replaced(items, added + [item]), Replaced(items, added) + (if k < |items| then {k} else {});
    forall x ensures x in a <==> x in b {
      if x in b && x in Replaced(items, added) {
        var j :| 0 <= j < |added| && FirstWithPath(items, added[j].path) == x;
        assert (added + [item])[j] == added[j];
      }
      if x in b && x == k {
        assert (added + [item])[|added|] == item;
      }
      if x in a {
        var j :| 0 <= j < |added + [item]| && FirstWithPath(items, (added + [item])[j].path) == x;
        if j < |added| {
          assert (added + [item])[j] == added[j];
        }
      }
    }
  }
}
