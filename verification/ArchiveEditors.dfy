/** The editor object: its calls carry out the plan, and its answers to the archiver spell the plan out. */
module ArchiveEditors {
  import opened Common
  import opened Paths
  import opened RelativePaths
  import opened OutputArchives
  import opened ArchiveEditing

  /** The slot of an item, from the two containers of the editor; a deletion hides an edit. */
  function SlotAt(edited: map<nat, Edit>, deleted: set<nat>, i: nat): Slot {
    if i in deleted then Deleted else if i in edited then Edited(edited[i]) else Untouched
  }

  function Slots(edited: map<nat, Edit>, deleted: set<nat>, n: nat): (r: seq<Slot>)
    ensures |r| == n && forall i :: 0 <= i < n ==> r[i] == SlotAt(edited, deleted, i)
  {
    if n == 0 then [] else Slots(edited, deleted, n - 1) + [SlotAt(edited, deleted, n - 1)]
  }

  // ----- what the archiver is told -----

  /** The archiver's view of one output item: new data, new properties, old index, path, data source. */
  datatype Seen = Seen(newData: bool, newProperties: bool, oldIndex: Option<nat>, path: string, source: Option<nat>)

  function SeenSlot(items: seq<InputItem>, i: nat, slot: Slot): Seen
    requires i < |items|
  {
    match slot
    case Edited(Rename(path)) => Seen(false, true, Some(i), path, None)
    case Edited(NewData(path, source)) => Seen(true, true, Some(i), path, Some(source))
    case _ => Seen(false, false, Some(i), items[i].path, None)
  }

  /** The planned output: what is left of the first `n` items, edits applied. */
  function KeptPart(items: seq<InputItem>, slots: seq<Slot>, n: nat): seq<Seen>
    requires n <= |items| == |slots|
  {
    if n == 0 then []
    else KeptPart(items, slots, n - 1) + (if slots[n - 1].Deleted? then [] else [SeenSlot(items, n - 1, slots[n - 1])])
  }

  function AddedPart(added: seq<NewItem>): (r: seq<Seen>)
    ensures |r| == |added|
    ensures forall i :: 0 <= i < |added| ==> r[i] == Seen(true, true, None, added[i].path, Some(added[i].source))
  {
    if added == [] then []
    else AddedPart(added[..|added| - 1])
         + [Seen(true, true, None, added[|added| - 1].path, Some(added[|added| - 1].source))]
  }

  function PlannedOutput(items: seq<InputItem>, p: Plan): seq<Seen>
    requires |items| == |p.slots|
  {
    KeptPart(items, p.slots, |items|) + AddedPart(p.added)
  }

  lemma {:induction false} KeptPartIs(items: seq<InputItem>, edited: map<nat, Edit>, deleted: set<nat>, n: nat)
    requires n <= |items|
    ensures var slots := Slots(edited, deleted, |items|);
            var k := KeptPart(items, slots, n);
            var r := Remaining(deleted, 0, n);
            && |k| == |r|
            && forall j :: 0 <= j < |r| ==> r[j] < n && k[j] == SeenSlot(items, r[j], slots[r[j]])
  {
    hide SeenSlot, Slots;
    if n > 0 {
      KeptPartIs(items, edited, deleted, n - 1);
      hide SlotAt;
      DeletedSlot(edited, deleted, n - 1);
    }
  }

  lemma DeletedSlot(edited: map<nat, Edit>, deleted: set<nat>, i: nat)
    ensures SlotAt(edited, deleted, i).Deleted? <==> i in deleted
  {
  }

  class BitArchiveEditor {
    const archive: BitOutputArchive
    var editedItems: map<nat, Edit>

    /** Edited and deleted items are disjoint, and both are items of the input archive. */
    ghost predicate Valid()
      reads this, archive
    {
      && archive.Unmapped()
      && (forall i :: i in editedItems ==> i < |archive.inputItems| && i !in archive.deletedItems)
    }

    ghost function CurrentPlan(): Plan
      reads this, archive
    {
      Plan(Slots(editedItems, archive.deletedItems, |archive.inputItems|), archive.newItems)
    }

    constructor (items: seq<InputItem>)
      requires |items| < TWO_32
      ensures Valid() && fresh(archive) && archive.inputItems == items
      ensures CurrentPlan() == Plan(Fresh(|items|), [])
    {
      archive := new BitOutputArchive(items);
      editedItems := map[];
      new;
      assert Slots(map[], {}, |items|) == Fresh(|items|);
    }

    /** An index can be edited if it is there and not deleted. */
    method CheckIndex(index: nat) returns (status: EditStatus)
      requires Valid()
      ensures status == if index >= |archive.inputItems| then InvalidIndex
                        else if index in archive.deletedItems then ItemMarkedAsDeleted else Done
    {
      if index >= |archive.inputItems| {
        return InvalidIndex;
      }
      if archive.IsDeletedIndex(index) {
        return ItemMarkedAsDeleted;
      }
      status := Done;
    }

    /** Looks up an item by path; the first match decides. */
    method FindItem(itemPath: string) returns (status: EditStatus, index: nat)
      requires Valid()
      ensures index == FirstWithPath(archive.inputItems, itemPath)
      ensures status == if index >= |archive.inputItems| then NoSuchFile
                        else if index in archive.deletedItems then ItemMarkedAsDeleted else Done
    {
      index := FirstWithPath(archive.inputItems, itemPath);
      if index == |archive.inputItems| {
        return NoSuchFile, index;
      }
      if archive.IsDeletedIndex(index) {
        return ItemMarkedAsDeleted, index;
      }
      status := Done;
    }

    /** Records an edit unless the item has one already. */
    method SetEditedItem(index: nat, edit: Edit)
      requires Valid() && index < |archive.inputItems| && index !in archive.deletedItems
      modifies this
      ensures Valid()
      ensures CurrentPlan() == Edits(old(CurrentPlan()), index, edit).plan
      ensures Edits(old(CurrentPlan()), index, edit).status == Done
    {
      ghost var before := CurrentPlan();
      if index !in editedItems {
        editedItems := editedItems[index := edit];
      }
      assert CurrentPlan().slots == Edits(before, index, edit).plan.slots;
    }

    method RenameItem(index: nat, newPath: string) returns (status: EditStatus)
      requires Valid()
      modifies this
      ensures Valid()
      ensures Outcome(CurrentPlan(), status) ==
              PlanStep(archive.inputItems, old(CurrentPlan()), RenameAt(index, newPath))
      ensures status == if index >= |archive.inputItems| then InvalidIndex
                        else if index in archive.deletedItems then ItemMarkedAsDeleted else Done
    {
      status := CheckIndex(index);
      if status == Done {
        SetEditedItem(index, Rename(newPath));
      }
    }

    method RenameItemByPath(oldPath: string, newPath: string) returns (status: EditStatus)
      requires Valid()
      modifies this
      ensures Valid()
      ensures Outcome(CurrentPlan(), status) ==
              PlanStep(archive.inputItems, old(CurrentPlan()), RenamePath(oldPath, newPath))
      ensures status == NoSuchFile <==>
              forall i :: 0 <= i < |archive.inputItems| ==> archive.inputItems[i].path != oldPath
      ensures status == ItemMarkedAsDeleted <==>
              exists k :: IsFirstWithPath(archive.inputItems, oldPath, k) && k in archive.deletedItems
    {
      var index;
      status, index := FindItem(oldPath);
      if status == Done {
        SetEditedItem(index, Rename(newPath));
      }
    }

    method UpdateItem(index: nat, source: nat) returns (status: EditStatus)
      requires Valid()
      modifies this
      ensures Valid()
      ensures Outcome(CurrentPlan(), status) ==
              PlanStep(archive.inputItems, old(CurrentPlan()), UpdateAt(index, source))
      ensures status == if index >= |archive.inputItems| then InvalidIndex
                        else if index in archive.deletedItems then ItemMarkedAsDeleted else Done
    {
      status := CheckIndex(index);
      if status == Done {
        SetEditedItem(index, NewData(archive.inputItems[index].path, source));
      }
    }

    method UpdateItemByPath(itemPath: string, source: nat) returns (status: EditStatus)
      requires Valid()
      modifies this
      ensures Valid()
      ensures Outcome(CurrentPlan(), status) ==
              PlanStep(archive.inputItems, old(CurrentPlan()), UpdatePath(itemPath, source))
      ensures status == NoSuchFile <==>
              forall i :: 0 <= i < |archive.inputItems| ==> archive.inputItems[i].path != itemPath
      ensures status == ItemMarkedAsDeleted <==>
              exists k :: IsFirstWithPath(archive.inputItems, itemPath, k) && k in archive.deletedItems
    {
      var index;
      status, index := FindItem(itemPath);
      if status == Done {
        SetEditedItem(index, NewData(itemPath, source));
      }
    }

    /** Forgets any edit of the item and marks it. */
    method MarkItemAsDeleted(index: nat)
      requires Valid() && index < |archive.inputItems|
      modifies this, archive`deletedItems
      ensures Valid()
      ensures archive.deletedItems == old(archive.deletedItems) + {index}
      ensures editedItems == old(editedItems) - {index}
    {
      editedItems := editedItems - {index};
      archive.SetDeletedIndex(index);
    }

    method DeleteItem(index: nat, recurse: bool) returns (status: EditStatus)
      requires Valid()
      modifies this, archive`deletedItems
      ensures Valid()
      ensures Outcome(CurrentPlan(), status) ==
              PlanStep(archive.inputItems, old(CurrentPlan()), DeleteAt(index, recurse))
      ensures status == if index < |archive.inputItems| then Done else InvalidIndex
    {
      ghost var before, items := CurrentPlan(), archive.inputItems;
      ghost var op := DeleteAt(index, recurse);
      if index >= |archive.inputItems| {
        return InvalidIndex;
      }
      ghost var edited, deleted := editedItems, archive.deletedItems;
      MarkItemAsDeleted(index);
      status := Done;
      var deletedItem := archive.inputItems[index];
      if !deletedItem.isDir || !recurse {
        MarkedIs(items, before.slots, op);
        assert CurrentPlan().slots == Marked(items, before.slots, op, |items|);
        return;
      }
      var deletedPath := deletedItem.path + "/";
      if |deletedPath| <= 1 {
        MarkedIs(items, before.slots, op);
        assert CurrentPlan().slots == Marked(items, before.slots, op, |items|);
        return;
      }
      var i := 0;
      while i < |archive.inputItems|
        invariant 0 <= i <= |items| && Valid() && archive.newItems == before.added
        invariant forall j :: 0 <= j < |items| ==>
                    SlotAt(editedItems, archive.deletedItems, j) ==
                    if j == index || (j < i && deletedPath <= items[j].path) then Deleted else before.slots[j]
      {
        if deletedPath <= archive.inputItems[i].path {
          MarkItemAsDeleted(i);
        }
        i := i + 1;
      }
      MarkedIs(items, before.slots, op);
      assert CurrentPlan().slots == Marked(items, before.slots, op, |items|);
    }

    method DeleteItemByPath(itemPath: string, recurse: bool) returns (status: EditStatus)
      requires Valid()
      modifies this, archive`deletedItems
      ensures Valid()
      ensures Outcome(CurrentPlan(), status) ==
              PlanStep(archive.inputItems, old(CurrentPlan()), DeletePath(itemPath, recurse))
      ensures status == InvalidArgument <==> itemPath == "" || itemPath[0] == '/'
      ensures status == Done <==>
              exists j :: 0 <= j < |archive.inputItems| && Deletes(archive.inputItems, DeletePath(itemPath, recurse), j)
      ensures status in {Done, InvalidArgument, NoSuchFile}
      ensures status == NoSuchFile || status == InvalidArgument ==> CurrentPlan() == old(CurrentPlan())
    {
      hide LexicallyNormal, IsInsidePath, SamePath;
      ghost var before, items := CurrentPlan(), archive.inputItems;
      ghost var op := DeletePath(itemPath, recurse);
      if itemPath == "" || itemPath[0] == '/' {
        return InvalidArgument;
      }
      var deleted := false;
      var deletedPath := LexicallyNormal(itemPath);
      var i: nat := 0;
      while i < |archive.inputItems|
        invariant i <= |items| && Valid() && archive.newItems == before.added
        invariant forall j :: 0 <= j < |items| ==>
                    SlotAt(editedItems, archive.deletedItems, j) ==
                    if j < i && Deletes(items, op, j) then Deleted else before.slots[j]
        invariant deleted <==> exists j: nat :: j < i && Deletes(items, op, j)
      {
        var item := archive.inputItems[i];
        if SamePath(item.path, deletedPath) || (recurse && IsInsidePath(item.path, item.isDir, deletedPath)) {
          assert Deletes(items, op, i);
          MarkItemAsDeleted(i);
          deleted := true;
        }
        i := i + 1;
      }
      if !deleted {
        assert CurrentPlan().slots == before.slots;
        return NoSuchFile;
      }
      MarkedIs(items, before.slots, op);
      assert CurrentPlan().slots == Marked(items, before.slots, op, |items|);
      status := Done;
    }

    method AddItem(item: NewItem)
      requires Valid() && |archive.inputItems| + |archive.newItems| + 1 < TWO_32
      modifies archive`newItems
      ensures Valid()
      ensures CurrentPlan() == PlanStep(archive.inputItems, old(CurrentPlan()), Add(item)).plan
    {
      archive.AddItem(item);
    }

    // ----- answers to the archiver -----

    predicate HasNewData(index: nat)
      reads this, archive
    {
      var mappedIndex := archive.ItemInputIndex(index);
      if mappedIndex >= |archive.inputItems| then true
      else mappedIndex in editedItems && editedItems[mappedIndex].NewData?
    }

    predicate HasNewProperties(index: nat)
      reads this, archive
    {
      var mappedIndex := archive.ItemInputIndex(index);
      mappedIndex >= |archive.inputItems| || mappedIndex in editedItems
    }

    function ItemPath(index: nat): string
      requires archive.ItemInputIndex(index) < |archive.inputItems| + |archive.newItems|
      reads this, archive
    {
      var mappedIndex := archive.ItemInputIndex(index);
      if mappedIndex >= |archive.inputItems| then archive.newItems[mappedIndex - |archive.inputItems|].path
      else if mappedIndex in editedItems then editedItems[mappedIndex].path
      else archive.inputItems[mappedIndex].path
    }

    function ItemSource(index: nat): Option<nat>
      requires archive.ItemInputIndex(index) < |archive.inputItems| + |archive.newItems|
      reads this, archive
    {
      var mappedIndex := archive.ItemInputIndex(index);
      if mappedIndex >= |archive.inputItems| then Some(archive.newItems[mappedIndex - |archive.inputItems|].source)
      else if mappedIndex in editedItems && editedItems[mappedIndex].NewData? then Some(editedItems[mappedIndex].source)
      else None
    }

    function Answer(index: nat): Seen
      requires archive.ItemInputIndex(index) < |archive.inputItems| + |archive.newItems|
      reads this, archive
    {
      Seen(HasNewData(index), HasNewProperties(index), archive.IndexInArchive(index),
           ItemPath(index), ItemSource(index))
    }

    /**
      * Once the mapping is in place the archiver sees exactly the planned output, item by item: the
      * surviving items in their old order with their edits applied, then the added items.
      */
    lemma AnswersArePlan()
      requires archive.Mapped()
      ensures var out := PlannedOutput(archive.inputItems, CurrentPlan());
              && archive.ItemsCount() == |out|
              && forall i :: 0 <= i < |out| ==>
                   archive.ItemInputIndex(i) < |archive.inputItems| + |archive.newItems| && Answer(i) == out[i]
    {
      hide Remaining, KeptPart, Slots, Answer;
      var n := |archive.inputItems|;
      var deleted, all := archive.deletedItems, n + |archive.newItems|;
      RemainingSplit(deleted, n, all);
      RemainingOfNothing(n, all);
      KeptPartIs(archive.inputItems, editedItems, deleted, n);
      var out := PlannedOutput(archive.inputItems, CurrentPlan());
      forall i | 0 <= i < |out|
        ensures archive.ItemInputIndex(i) < all && Answer(i) == out[i]
      {
        AnswerIs(i);
      }
    }

    lemma KeptAnswer(i: nat)
      requires archive.Mapped() && archive.ItemInputIndex(i) < |archive.inputItems|
      requires archive.ItemInputIndex(i) !in archive.deletedItems
      ensures var k := archive.ItemInputIndex(i);
              Answer(i) == SeenSlot(archive.inputItems, k, CurrentPlan().slots[k])
    {
    }

    lemma AddedAnswer(i: nat, j: nat)
      requires j < |archive.newItems| && archive.ItemInputIndex(i) == |archive.inputItems| + j
      ensures Answer(i) == AddedPart(archive.newItems)[j]
    {
    }

    lemma AnswerIs(i: nat)
      requires archive.Mapped() && i < |PlannedOutput(archive.inputItems, CurrentPlan())|
      ensures archive.ItemInputIndex(i) < |archive.inputItems| + |archive.newItems|
      ensures Answer(i) == PlannedOutput(archive.inputItems, CurrentPlan())[i]
    {
      hide Remaining, KeptPart, Slots, archive.ItemsCount, Answer, SeenSlot, AddedPart;
      var items, n := archive.inputItems, |archive.inputItems|;
      var deleted, all := archive.deletedItems, n + |archive.newItems|;
      archive.MappingIsRemaining();
      RemainingSplit(deleted, n, all);
      RemainingOfNothing(n, all);
      KeptPartIs(items, editedItems, deleted, n);
      var r := Remaining(deleted, 0, n);
      if i < |r| {
        RemainingAt(deleted, 0, n, i);
        assert archive.ItemInputIndex(i) == r[i];
        KeptAnswer(i);
      } else {
        assert archive.ItemInputIndex(i) == n + (i - |r|);
        AddedAnswer(i, i - |r|);
      }
    }
  }

  /** Only items without new data are copied from the input, and never a deleted one. */
  lemma CopiedItemsSurvive(e: BitArchiveEditor, i: nat)
    requires e.archive.Mapped() && i < e.archive.ItemsCount()
    requires !e.HasNewData(i)
    ensures var k := e.archive.IndexInArchive(i); k.Some? && k.value !in e.archive.deletedItems
  {
    e.archive.MappingIsOrderedBijection();
  }

  // ----- whole sessions -----

  /** What Update mode does to a plan at the last moment: new items push out the input items of the same path. */
  function PushedOut(items: seq<InputItem>, p: Plan, n: nat): (r: seq<Slot>)
    requires n <= |items| == |p.slots|
    ensures |r| == n && forall i :: 0 <= i < n ==> r[i] == if IsReplaced(items, p.added, i) then Deleted else p.slots[i]
  {
    if n == 0 then []
    else PushedOut(items, p, n - 1) + [if IsReplaced(items, p.added, n - 1) then Deleted else p.slots[n - 1]]
  }

  function FinalPlan(items: seq<InputItem>, p: Plan, mode: UpdateMode): (r: Plan)
    requires |items| == |p.slots|
    ensures |items| == |r.slots|
  {
    if mode.Update? then p.(slots := PushedOut(items, p, |items|)) else p
  }

  method Perform(e: BitArchiveEditor, op: EditOp)
    requires e.Valid() && |e.archive.inputItems| + |e.archive.newItems| + 1 < TWO_32
    modifies e, e.archive`deletedItems, e.archive`newItems
    ensures e.Valid()
    ensures e.CurrentPlan() == PlanStep(e.archive.inputItems, old(e.CurrentPlan()), op).plan
  {
    var status;
    match op {
      case RenameAt(index, newPath) => status := e.RenameItem(index, newPath);
      case RenamePath(oldPath, newPath) => status := e.RenameItemByPath(oldPath, newPath);
      case UpdateAt(index, source) => status := e.UpdateItem(index, source);
      case UpdatePath(itemPath, source) => status := e.UpdateItemByPath(itemPath, source);
      case DeleteAt(index, recurse) => status := e.DeleteItem(index, recurse);
      case DeletePath(itemPath, recurse) => status := e.DeleteItemByPath(itemPath, recurse);
      case Add(item) => e.AddItem(item);
    }
  }

  method PerformAll(e: BitArchiveEditor, ops: seq<EditOp>)
    requires e.Valid() && |e.archive.inputItems| + |e.archive.newItems| + |ops| < TWO_32
    modifies e, e.archive`deletedItems, e.archive`newItems
    ensures e.Valid()
    ensures e.CurrentPlan() == PlanRun(e.archive.inputItems, old(e.CurrentPlan()), ops)
  {
    hide PlanStep, Slots;
    ghost var start, items := e.CurrentPlan(), e.archive.inputItems;
    var i := 0;
    while i < |ops|
      invariant 0 <= i <= |ops| && e.Valid()
      invariant e.CurrentPlan() == PlanRun(items, start, ops[..i])
      invariant |e.archive.newItems| <= |start.added| + i
    {
      AddedByStep(items, e.CurrentPlan(), ops[i]);
      Perform(e, ops[i]);
      assert ops[..i + 1][..i] == ops[..i];
      i := i + 1;
    }
    assert ops[..i] == ops;
  }

  /** The answers for all output numbers, in order. */
  method CollectAnswers(e: BitArchiveEditor) returns (output: seq<Seen>)
    requires e.archive.Mapped()
    ensures output == PlannedOutput(e.archive.inputItems, e.CurrentPlan())
  {
    hide PlannedOutput, Remaining, Slots;
    e.AnswersArePlan();
    ghost var planned := PlannedOutput(e.archive.inputItems, e.CurrentPlan());
    output := [];
    var k: nat := 0;
    while k < e.archive.ItemsCount()
      invariant k <= e.archive.ItemsCount() && output == planned[..k]
    {
      output := output + [e.Answer(k)];
      k := k + 1;
    }
  }

  // ----- the outcome of a session, in terms of its calls -----

  /**
    * What happens to an input item: a call deleted it, or in Update mode an addition pushed it out; else its
    * first edit.
    */
  ghost function IntendedSlot(items: seq<InputItem>, ops: seq<EditOp>, mode: UpdateMode, i: nat): Slot
    requires i < |items|
  {
    if EverDeleted(items, ops, i) || (mode.Update? && IsReplaced(items, Additions(ops), i)) then Deleted
    else match FirstEdit(items, ops, i)
      case None => Untouched
      case Some(e) => Edited(e)
  }

  ghost function IntendedSlots(items: seq<InputItem>, ops: seq<EditOp>, mode: UpdateMode, n: nat): (r: seq<Slot>)
    requires n <= |items|
    ensures |r| == n
  {
    if n == 0 then [] else IntendedSlots(items, ops, mode, n - 1) + [IntendedSlot(items, ops, mode, n - 1)]
  }

  lemma {:induction false} IntendedAt(items: seq<InputItem>, ops: seq<EditOp>, mode: UpdateMode, n: nat, i: nat)
    requires i < n <= |items|
    ensures IntendedSlots(items, ops, mode, n)[i] == IntendedSlot(items, ops, mode, i)
  {
    hide IntendedSlot;
    if i < n - 1 {
      IntendedAt(items, ops, mode, n - 1, i);
    }
  }

  ghost function Intended(items: seq<InputItem>, ops: seq<EditOp>, mode: UpdateMode): (p: Plan)
    ensures |p.slots| == |items|
  {
    Plan(IntendedSlots(items, ops, mode, |items|), Additions(ops))
  }

  /** The plan that is carried out in the end, step by step and pushed out at the last moment, is the intended one. */
  lemma FinalMeaning(items: seq<InputItem>, ops: seq<EditOp>, mode: UpdateMode)
    ensures FinalPlan(items, PlanRun(items, Plan(Fresh(|items|), []), ops), mode) == Intended(items, ops, mode)
  {
    hide EverDeleted, FirstEdit, IsReplaced, PlanRun, Additions, IntendedSlots;
    SessionMeaning(items, ops);
    var p := PlanRun(items, Plan(Fresh(|items|), []), ops);
    var final, intended := FinalPlan(items, p, mode).slots, Intended(items, ops, mode).slots;
    forall i | 0 <= i < |items| ensures final[i] == intended[i] {
      IntendedAt(items, ops, mode, |items|, i);
    }
    assert final == intended;
  }

  lemma {:induction false} KeptAt(items: seq<InputItem>, slots: seq<Slot>, n: nat, i: nat)
    requires i < n <= |items| == |slots| && !slots[i].Deleted?
    ensures var place := |KeptPart(items, slots, i)|;
            place < |KeptPart(items, slots, n)| && KeptPart(items, slots, n)[place] == SeenSlot(items, i, slots[i])
    decreases n
  {
    hide SeenSlot;
    if i < n - 1 {
      KeptAt(items, slots, n - 1, i);
    }
  }

  /**
    * From the calls to what the archiver is told of one item: the earliest call that edits it decides. A rename
    * gives the new path and keeps the old data; an update gives new data under the old path, or under the path
    * that the call named.
    */
  lemma {:induction false} SessionShows(items: seq<InputItem>, ops: seq<EditOp>, mode: UpdateMode, i: nat, k: nat)
    requires i < |items| && k < |ops| && EditsItem(items, ops[k], i)
    requires forall m :: 0 <= m < k ==> !EditsItem(items, ops[m], i)
    requires !EverDeleted(items, ops, i) && !(mode.Update? && IsReplaced(items, Additions(ops), i))
    ensures var p := Intended(items, ops, mode);
            var out, place := PlannedOutput(items, p), |KeptPart(items, p.slots, i)|;
            && place < |out| && out[place].oldIndex == Some(i) && out[place].newProperties
            && match ops[k]
               case RenameAt(_, newPath) => out[place].path == newPath && !out[place].newData
               case RenamePath(_, newPath) => out[place].path == newPath && !out[place].newData
               case UpdateAt(_, source) =>
                 out[place].path == items[i].path && out[place].newData && out[place].source == Some(source)
               case UpdatePath(path, source) =>
                 out[place].path == path && out[place].newData && out[place].source == Some(source)
               case _ => false
  {
    hide EverDeleted, FirstEdit, IsReplaced, Additions, KeptPart;
    FirstEditIs(items, ops, i, k);
    IntendedAt(items, ops, mode, |items|, i);
    KeptAt(items, Intended(items, ops, mode).slots, |items|, i);
  }

  /** An item that no call touches is kept as it is, and an added one is told with its path and its data. */
  lemma {:induction false} SessionKeeps(items: seq<InputItem>, ops: seq<EditOp>, mode: UpdateMode, i: nat)
    requires i < |items| && forall m :: 0 <= m < |ops| ==> !EditsItem(items, ops[m], i)
    requires !EverDeleted(items, ops, i) && !(mode.Update? && IsReplaced(items, Additions(ops), i))
    ensures var p := Intended(items, ops, mode);
            var out, place := PlannedOutput(items, p), |KeptPart(items, p.slots, i)|;
            && place < |out| && out[place].oldIndex == Some(i) && out[place].path == items[i].path
            && !out[place].newData && !out[place].newProperties
  {
    hide EverDeleted, FirstEdit, IsReplaced, Additions, KeptPart;
    NoEdit(items, ops, i);
    IntendedAt(items, ops, mode, |items|, i);
    KeptAt(items, Intended(items, ops, mode).slots, |items|, i);
  }

  /** After the items that are left come the added ones, in the order of the calls, each with its path and data. */
  lemma SessionAdds(items: seq<InputItem>, ops: seq<EditOp>, mode: UpdateMode, j: nat)
    requires j < |Additions(ops)|
    ensures var out, item := PlannedOutput(items, Intended(items, ops, mode)), Additions(ops)[j];
            var place := |out| - |Additions(ops)| + j;
            0 <= place && out[place] == Seen(true, true, None, item.path, Some(item.source))
  {
    hide Additions, KeptPart, IntendedSlots;
  }

  /** A recorded edit is carried out exactly unless, in Update mode, an added item bears the path of its item. */
  lemma EditSurvivesIff(items: seq<InputItem>, p: Plan, mode: UpdateMode, i: nat, e: Edit)
    requires |p.slots| == |items| && i < |items| && p.slots[i] == Edited(e)
    ensures FinalPlan(items, p, mode).slots[i] == Edited(e) <==> !(mode.Update? && IsReplaced(items, p.added, i))
    ensures FinalPlan(items, p, mode).slots[i] != Edited(e) ==> FinalPlan(items, p, mode).slots[i] == Deleted
  {
    hide IsReplaced;
  }

  /** How an edit is lost: rename the only item "a" to "b", then add a new "a" in Update mode. */
  lemma RenameLostInUpdateMode()
    ensures var items := [InputItem("a", false)];
            var ops := [RenameAt(0, "b"), Add(NewItem("a", 0))];
            && Intended(items, ops, AppendOnly).slots == [Edited(Rename("b"))]
            && Intended(items, ops, Update).slots == [Deleted]
  {
    hide IntendedSlot;
    var items := [InputItem("a", false)];
    var ops := [RenameAt(0, "b"), Add(NewItem("a", 0))];
    LostSlot(items, ops);
    IntendedAt(items, ops, AppendOnly, 1, 0);
    IntendedAt(items, ops, Update, 1, 0);
  }

  lemma LostSlot(items: seq<InputItem>, ops: seq<EditOp>)
    requires items == [InputItem("a", false)] && ops == [RenameAt(0, "b"), Add(NewItem("a", 0))]
    ensures IntendedSlot(items, ops, AppendOnly, 0) == Edited(Rename("b"))
    ensures IntendedSlot(items, ops, Update, 0) == Deleted
  {
    hide FirstEdit, Additions, FirstWithPath;
    assert ops == [ops[0]] + [ops[1]];
    TargetIs(items, 0, "a", "b", 0);
    FirstEditIs(items, ops, 0, 0);
    AdditionsInOrder([ops[0]], [ops[1]]);
    assert Additions(ops)[|Additions(ops)| - 1] == NewItem("a", 0);
    assert IsReplaced(items, Additions(ops), 0) by {
      var k := FirstWithPath(items, "a");
      assert k == 0;
    }
  }

  /**
    * A whole session: any calls in any order, then compression in either mode. The archiver is given exactly
    * the intended output: the input items that no call deleted and no addition replaced, in their old order
    * with their first edits applied, then the additions in the order of the calls.
    */
  method Session(items: seq<InputItem>, ops: seq<EditOp>, mode: UpdateMode) returns (output: seq<Seen>)
    requires |items| + |ops| < TWO_32
    ensures output == PlannedOutput(items, FinalPlan(items, PlanRun(items, Plan(Fresh(|items|), []), ops), mode))
    ensures output == PlannedOutput(items, Intended(items, ops, mode))
  {
    hide PlanStep, PlannedOutput, Remaining, PlanRun, Slots, FinalPlan, Intended;
    var e := new BitArchiveEditor(items);
    PerformAll(e, ops);
    ghost var plan := e.CurrentPlan();
    e.archive.PrepareOutput(mode);
    FinalSlots(e, plan, mode);
    FinalMeaning(items, ops, mode);
    output := CollectAnswers(e);
  }

  lemma AddedByStep(items: seq<InputItem>, p: Plan, op: EditOp)
    requires |p.slots| == |items|
    ensures |PlanStep(items, p, op).plan.added| <= |p.added| + 1
  {
    hide Deletes, Target;
  }

  lemma FinalSlots(e: BitArchiveEditor, p: Plan, mode: UpdateMode)
    requires e.archive.Mapped() && p.added == e.archive.newItems && |p.slots| == |e.archive.inputItems|
    requires forall i :: 0 <= i < |p.slots| ==>
               SlotAt(e.editedItems, e.archive.deletedItems, i) ==
               if mode.Update? && i in Replaced(e.archive.inputItems, e.archive.newItems) then Deleted else p.slots[i]
    ensures e.CurrentPlan() == FinalPlan(e.archive.inputItems, p, mode)
  {
    assert e.CurrentPlan().slots == FinalPlan(e.archive.inputItems, p, mode).slots;
  }
}
