/**
  * Editing an archive: renaming, updating, deleting and adding items before the first compression.
  * The meaning of an edit session is a plan: one slot for each item of the input archive, and the added items.
  */
module ArchiveEditing {
  import opened Common
  import opened Paths
  import opened RelativePaths
  import opened OutputArchives

  datatype Edit = Rename(path: string) | NewData(path: string, source: nat)

  datatype Slot = Untouched | Edited(edit: Edit) | Deleted

  datatype Plan = Plan(slots: seq<Slot>, added: seq<NewItem>)

  datatype EditOp =
    | RenameAt(index: nat, newPath: string)
    | RenamePath(oldPath: string, newPath: string)
    | UpdateAt(index: nat, source: nat)
    | UpdatePath(itemPath: string, source: nat)
    | DeleteAt(index: nat, recurse: bool)
    | DeletePath(itemPath: string, recurse: bool)
    | Add(item: NewItem)

  datatype EditStatus = Done | InvalidIndex | ItemMarkedAsDeleted | NoSuchFile | InvalidArgument

  // ----- what deleting selects -----

  /**
    * Deleting item `index` also takes item `j`: itself, or, from a folder, an item whose path starts with the
    * folder's.
    */
  predicate SelectedByIndex(items: seq<InputItem>, index: nat, recurse: bool, j: nat)
    requires index < |items| && j < |items|
  {
    j == index || (items[index].isDir && recurse && items[index].path != "" && items[index].path + "/" <= items[j].path)
  }

  /** Deleting by path takes the items equal to the normalised path and, recursively, those inside it. */
  predicate SelectedByPath(items: seq<InputItem>, path: string, recurse: bool, j: nat)
    requires j < |items|
  {
    var deletedPath := LexicallyNormal(path);
    SamePath(items[j].path, deletedPath) || (recurse && IsInsidePath(items[j].path, items[j].isDir, deletedPath))
  }

  predicate IsRefusedPath(path: string) {
    path == "" || IsAbsolute(path)
  }

  /** The items an operation deletes, whatever was done before. */
  predicate Deletes(items: seq<InputItem>, op: EditOp, j: nat)
    requires j < |items|
  {
    match op
    case DeleteAt(index, recurse) => index < |items| && SelectedByIndex(items, index, recurse, j)
    case DeletePath(path, recurse) => !IsRefusedPath(path) && SelectedByPath(items, path, recurse, j)
    case _ => false
  }

  predicate DeletesSomething(items: seq<InputItem>, op: EditOp) {
    exists j: nat :: j < |items| && Deletes(items, op, j)
  }

  /** The item an operation edits and how, if it is there at all. */
  function Target(items: seq<InputItem>, op: EditOp): Option<(nat, Edit)> {
    match op
    case RenameAt(index, newPath) => if index < |items| then Some((index, Rename(newPath))) else None
    case RenamePath(oldPath, newPath) =>
      var k := FirstWithPath(items, oldPath);
      if k < |items| then Some((k, Rename(newPath))) else None
    case UpdateAt(index, source) => if index < |items| then Some((index, NewData(items[index].path, source))) else None
    case UpdatePath(itemPath, source) =>
      var k := FirstWithPath(items, itemPath);
      if k < |items| then Some((k, NewData(itemPath, source))) else None
    case _ => None
  }

  // ----- one operation on a plan -----

  /** The first `n` slots after an operation that deletes. */
  function Marked(items: seq<InputItem>, slots: seq<Slot>, op: EditOp, n: nat): (r: seq<Slot>)
    requires n <= |items| == |slots|
    ensures |r| == n
  {
    if n == 0 then []
    else Marked(items, slots, op, n - 1) + [if Deletes(items, op, n - 1) then Deleted else slots[n - 1]]
  }

  lemma {:induction false} MarkedAt(items: seq<InputItem>, slots: seq<Slot>, op: EditOp, n: nat, i: nat)
    requires i < n <= |items| == |slots|
    ensures Marked(items, slots, op, n)[i] == if Deletes(items, op, i) then Deleted else slots[i]
  {
    hide Deletes;
    if i < n - 1 {
      MarkedAt(items, slots, op, n - 1, i);
    }
  }

  lemma MarkedIs(items: seq<InputItem>, slots: seq<Slot>, op: EditOp)
    requires |items| == |slots|
    ensures forall i :: 0 <= i < |items| ==>
              Marked(items, slots, op, |items|)[i] == if Deletes(items, op, i) then Deleted else slots[i]
  {
    forall i | 0 <= i < |items|
      ensures Marked(items, slots, op, |items|)[i] == if Deletes(items, op, i) then Deleted else slots[i]
    {
      MarkedAt(items, slots, op, |items|, i);
    }
  }

  datatype Outcome = Outcome(plan: Plan, status: EditStatus)

  /** An edit is recorded unless the item is deleted; only the first edit of an item counts. */
  function Edits(p: Plan, index: nat, edit: Edit): Outcome
    requires index < |p.slots|
  {
    match p.slots[index]
    case Deleted => Outcome(p, ItemMarkedAsDeleted)
    case Edited(_) => Outcome(p, Done)
    case Untouched => Outcome(p.(slots := p.slots[index := Edited(edit)]), Done)
  }

  function PlanStep(items: seq<InputItem>, p: Plan, op: EditOp): (o: Outcome)
    requires |p.slots| == |items|
    ensures |o.plan.slots| == |items|
  {
    match op
    case Add(item) => Outcome(p.(added := p.added + [item]), Done)
    case DeleteAt(index, _) =>
      if index >= |items| then Outcome(p, InvalidIndex)
      else Outcome(p.(slots := Marked(items, p.slots, op, |items|)), Done)
    case DeletePath(path, _) =>
      if IsRefusedPath(path) then Outcome(p, InvalidArgument)
      else if DeletesSomething(items, op) then Outcome(p.(slots := Marked(items, p.slots, op, |items|)), Done)
      else Outcome(p, NoSuchFile)
    case _ =>
      match Target(items, op)
      case None => Outcome(p, if op.RenameAt? || op.UpdateAt? then InvalidIndex else NoSuchFile)
      case Some(t) => Edits(p, t.0, t.1)
  }

  function PlanRun(items: seq<InputItem>, p: Plan, ops: seq<EditOp>): (r: Plan)
    requires |p.slots| == |items|
    ensures |r.slots| == |items|
  {
    if ops == [] then p else PlanStep(items, PlanRun(items, p, ops[..|ops| - 1]), ops[|ops| - 1]).plan
  }

  function Fresh(n: nat): (r: seq<Slot>)
    ensures |r| == n && forall i :: 0 <= i < n ==> r[i] == Untouched
  {
    if n == 0 then [] else Fresh(n - 1) + [Untouched]
  }

  // ----- the meaning of a session -----

  /** The first operation that edits an item. */
  function FirstEdit(items: seq<InputItem>, ops: seq<EditOp>, i: nat): Option<Edit> {
    if ops == [] then None
    else
      var earlier := FirstEdit(items, ops[..|ops| - 1], i);
      var t := Target(items, ops[|ops| - 1]);
      if earlier.Some? then earlier else if t.Some? && t.value.0 == i then Some(t.value.1) else None
  }

  function Additions(ops: seq<EditOp>): seq<NewItem> {
    if ops == [] then []
    else Additions(ops[..|ops| - 1]) + (if ops[|ops| - 1].Add? then [ops[|ops| - 1].item] else [])
  }

  ghost predicate EverDeleted(items: seq<InputItem>, ops: seq<EditOp>, i: nat)
    requires i < |items|
  {
    exists k :: 0 <= k < |ops| && Deletes(items, ops[k], i)
  }

  /**
    * After any session, in whatever order the calls came: an item is deleted if some call deleted it,
    * else it carries its first edit, else it is untouched; and the additions are in order of the calls.
    */
  lemma {:induction false} SessionMeaning(items: seq<InputItem>, ops: seq<EditOp>)
    ensures var r := PlanRun(items, Plan(Fresh(|items|), []), ops);
            && r.added == Additions(ops)
            && forall i :: 0 <= i < |items| ==>
                 r.slots[i] == if EverDeleted(items, ops, i) then Deleted
                               else match FirstEdit(items, ops, i)
                                    case None => Untouched
                                    case Some(e) => Edited(e)
    decreases |ops|
  {
    hide Deletes, Target;
    if ops != [] {
      var before, op := ops[..|ops| - 1], ops[|ops| - 1];
      SessionMeaning(items, before);
      var p := PlanRun(items, Plan(Fresh(|items|), []), before);
      forall i | 0 <= i < |items|
        ensures EverDeleted(items, ops, i) <==> EverDeleted(items, before, i) || Deletes(items, op, i)
      {
        EverDeletedAppend(items, before, op, i);
        assert ops == before + [op];
      }
      StepMeaning(items, p, op);
    }
  }

  lemma EverDeletedAppend(items: seq<InputItem>, ops: seq<EditOp>, op: EditOp, i: nat)
    requires i < |items|
    ensures EverDeleted(items, ops + [op], i) <==> EverDeleted(items, ops, i) || Deletes(items, op, i)
  {
    var all := ops + [op];
    assert all[|ops|] == op;
    if k :| 0 <= k < |ops| && Deletes(items, ops[k], i) {
      assert all[k] == ops[k];
    }
    if k :| 0 <= k < |all| && Deletes(items, all[k], i) {
      assert k < |ops| ==> all[k] == ops[k];
    }
  }

  lemma StepMeaning(items: seq<InputItem>, p: Plan, op: EditOp)
    requires |p.slots| == |items|
    ensures var q := PlanStep(items, p, op).plan;
            && q.added == p.added + (if op.Add? then [op.item] else [])
            && forall i :: 0 <= i < |items| ==>
                 q.slots[i] == if Deletes(items, op, i) then Deleted
                               else if p.slots[i].Untouched? && Target(items, op).Some?
                                       && Target(items, op).value.0 == i
                               then Edited(Target(items, op).value.1)
                               else p.slots[i]
  {
    hide SelectedByIndex, SelectedByPath, Marked;
    assert p.added + [] == p.added;
    MarkedIs(items, p.slots, op);
  }

  /** Deleting a folder by index or by its path selects the same items, on archives with distinct normal paths. */
  lemma DeleteOverloadsAgree(items: seq<InputItem>, names: seq<seq<string>>, k: nat)
    requires |names| == |items| && forall i :: 0 <= i < |items| ==> IsNormalItem(items[i].path, names[i])
    requires forall i, j :: 0 <= i < j < |items| ==> items[i].path != items[j].path
    requires k < |items| && items[k].isDir
    ensures forall j :: 0 <= j < |items| ==>
              (Deletes(items, DeleteAt(k, true), j) <==> Deletes(items, DeletePath(items[k].path, true), j))
  {
    hide Join, LexicallyNormal, Elements, IsInsidePath, Resolve, Names;
    var path := items[k].path;
    forall j | 0 <= j < |items|
      ensures Deletes(items, DeleteAt(k, true), j) <==> Deletes(items, DeletePath(path, true), j)
    {
      ItemIsNormal(path, names[k]);
      ItemElements(path, names[k]);
      ItemElements(items[j].path, names[j]);
      InsideIffBelow(items[j].path, names[j], items[j].isDir, path);
      FolderPrefix(names[k], names[j]);
      SameNamesSamePath(items[j].path, names[j], path, names[k]);
    }
  }

  lemma ItemIsNormal(path: string, names: seq<string>)
    requires IsNormalItem(path, names)
    ensures LexicallyNormal(path) == path && path != "" && Resolve(false, [], Names(path)) == names
  {
    hide Names, Join, Resolve, SlashFree, EndsWithSlash;
    NameStartsPath(names);
    JoinedNames(names, "");
    assert Join(names) + "" == path;
    ResolveNames(false, [], names);
    assert [] + names == names;
    assert IsName(names[|names| - 1]);
  }

  lemma NameStartsPath(names: seq<string>)
    requires names != [] && AllNames(names)
    ensures Join(names) != ""
  {
    assert IsName(names[0]);
  }

  lemma SameNamesSamePath(p: string, a: seq<string>, q: string, b: seq<string>)
    requires IsNormalItem(p, a) && IsNormalItem(q, b)
    ensures p == q <==> a == b
  {
    ItemElements(p, a);
    ItemElements(q, b);
  }

  /** A path plus separator starts another path exactly when its names properly start the other's. */
  lemma FolderPrefix(a: seq<string>, b: seq<string>)
    requires a != [] && b != [] && AllNames(a) && AllNames(b)
    ensures Join(a) + "/" <= Join(b) <==> a <= b && a != b
  {
    hide Join;
    SlashedIsJoin(a);
    SlashedIsJoin(b);
    PrefixIffNames(a, b);
    assert Slashed(a) + "/" == "/" + (Join(a) + "/") && Slashed(b) + "/" == "/" + (Join(b) + "/");
    SlashPrefix(Join(a) + "/", Join(b) + "/");
    var x, y := Join(a), Join(b);
    SlashedEnd(b);
    if x + "/" <= y + "/" && !(x + "/" <= y) {
      assert |x| == |y|;
      assert x == (y + "/")[..|x|] == y;
    }
    if x + "/" <= y {
      assert x + "/" <= y + "/";
      assert x != y;
    }
    if a == b {
      assert x == y;
    }
    if x == y {
      SamePathsSameNames(a, b);
    }
  }

  lemma SamePathsSameNames(a: seq<string>, b: seq<string>)
    requires a != [] && b != [] && AllNames(a) && AllNames(b) && Join(a) == Join(b)
    ensures a == b
  {
    ItemElements(Join(a), a);
    ItemElements(Join(b), b);
  }

  // ----- what each deletion takes, name by name -----

  /** The names of all items of an archive whose paths are normal. */
  ghost predicate NormalItems(items: seq<InputItem>, names: seq<seq<string>>) {
    |names| == |items| && forall i :: 0 <= i < |items| ==> IsNormalItem(items[i].path, names[i])
  }

  /**
    * Deleting by index takes the item itself; what is below it goes with it only when it is a folder and the
    * deletion is recursive.
    */
  lemma DeleteAtTakes(items: seq<InputItem>, names: seq<seq<string>>, k: nat, recurse: bool, j: nat)
    requires NormalItems(items, names) && k < |items| && j < |items|
    ensures Deletes(items, DeleteAt(k, recurse), j) <==>
            j == k || (recurse && items[k].isDir && names[k] <= names[j] && names[k] != names[j])
  {
    hide Join;
    FolderPrefix(names[k], names[j]);
    NameStartsPath(names[k]);
  }

  /** In particular a deletion that is not recursive takes one item, on any archive. */
  lemma DeleteAtTakesOne(items: seq<InputItem>, k: nat, recurse: bool, j: nat)
    requires k < |items| && j < |items| && (!recurse || !items[k].isDir || items[k].path == "")
    ensures Deletes(items, DeleteAt(k, recurse), j) <==> j == k
  {
  }

  /**
    * Deleting by a path that stays in the archive takes the items of exactly its names, unless the path ends
    * like a folder's. A recursive deletion also takes all items below, and of those names the folders.
    */
  lemma DeletePathTakes(items: seq<InputItem>, names: seq<seq<string>>, path: string, recurse: bool, j: nat)
    requires NormalItems(items, names) && j < |items|
    requires !IsRefusedPath(path) && AllNames(Resolve(false, [], Names(path)))
    ensures var target := Resolve(false, [], Names(path));
            Deletes(items, DeletePath(path, recurse), j) <==>
            || (names[j] == target && !DirectoryLike(path))
            || (recurse && target <= names[j] && (target != names[j] || items[j].isDir))
  {
    hide Join, LexicallyNormal, Elements, IsInsidePath, Resolve, Names, DirectoryLike;
    var target := Resolve(false, [], Names(path));
    ItemElements(items[j].path, names[j]);
    InsideIffBelow(items[j].path, names[j], items[j].isDir, path);
    ElementsOfNormal(path);
    SameElements(names[j], target, DirectoryLike(path));
  }

  lemma SameElements(a: seq<string>, b: seq<string>, trailing: bool)
    requires AllNames(a) && a != [] && AllNames(b)
    ensures a == (if b == [] then ["."] else b + (if trailing then [""] else [])) <==> a == b && !trailing
  {
    assert b + [] == b;
    assert IsName(a[|a| - 1]) && IsName(a[0]);
    assert (b + [""])[|b|] == "";
  }

  /** A path that climbs out of the archive is no item's own path. */
  lemma ClimbingPathTakesNone(items: seq<InputItem>, names: seq<seq<string>>, path: string, j: nat)
    requires NormalItems(items, names) && j < |items|
    requires !IsRefusedPath(path) && !AllNames(Resolve(false, [], Names(path)))
    ensures !Deletes(items, DeletePath(path, false), j)
  {
    hide Join, LexicallyNormal, Elements, IsInsidePath, Resolve, Names;
    ItemElements(items[j].path, names[j]);
    var target, dots, trailing := NormalElements(path);
    assert target[0..] == target;
    assert IsName(names[j][0]) && (target + [""])[0] == target[0] == "..";
  }

  /** A recursive deletion by path takes every item whose own path is absolute, wherever that path leads. */
  lemma AbsoluteItemsTaken(items: seq<InputItem>, path: string, j: nat)
    requires j < |items| && IsAbsolute(items[j].path) && !IsRefusedPath(path)
    ensures Deletes(items, DeletePath(path, true), j)
  {
    hide Resolve, Names, Relative, Elements, DirectoryLike;
    JoinKeepsRelative(path);
    AbsoluteItemIsInside(items[j].path, items[j].isDir, LexicallyNormal(path));
  }

  lemma JoinKeepsRelative(path: string)
    requires !IsRefusedPath(path)
    ensures !IsAbsolute(LexicallyNormal(path))
  {
    var names, dots, trailing := NormalElements(path);
  }

  /** The call names the item: by its index, or by a path that leads to it and does not end like a folder's. */
  predicate NamesItem(op: EditOp, i: nat, names: seq<string>) {
    match op
    case DeleteAt(index, _) => index == i
    case DeletePath(path, _) =>
      !IsRefusedPath(path) && Resolve(false, [], Names(path)) == names && !DirectoryLike(path)
    case _ => false
  }

  predicate IsRecursive(op: EditOp) {
    (op.DeleteAt? || op.DeletePath?) && op.recurse
  }

  lemma DeletesNamed(items: seq<InputItem>, names: seq<seq<string>>, op: EditOp, i: nat)
    requires NormalItems(items, names) && i < |items| && !IsRecursive(op)
    ensures Deletes(items, op, i) <==> NamesItem(op, i, names[i])
  {
    hide LexicallyNormal, Resolve, Names, DirectoryLike, IsInsidePath;
    if op.DeletePath? && !IsRefusedPath(op.itemPath) {
      if AllNames(Resolve(false, [], Names(op.itemPath))) {
        DeletePathTakes(items, names, op.itemPath, false, i);
      } else {
        ClimbingPathTakesNone(items, names, op.itemPath, i);
      }
    }
  }

  /** After calls none of which is recursive, an item is deleted exactly when one of them named it. */
  lemma {:induction false} OnlyNamedAreDeleted(items: seq<InputItem>, names: seq<seq<string>>, ops: seq<EditOp>, i: nat)
    requires NormalItems(items, names) && i < |items|
    requires forall k :: 0 <= k < |ops| ==> !IsRecursive(ops[k])
    ensures PlanRun(items, Plan(Fresh(|items|), []), ops).slots[i].Deleted? <==>
            exists k :: 0 <= k < |ops| && NamesItem(ops[k], i, names[i])
  {
    hide Deletes, NamesItem, IsRecursive, PlanRun, FirstEdit;
    SessionMeaning(items, ops);
    forall k | 0 <= k < |ops| ensures Deletes(items, ops[k], i) <==> NamesItem(ops[k], i, names[i]) {
      DeletesNamed(items, names, ops[k], i);
    }
  }

  /** The additions of a longer session are those of its parts, in the order of the calls. */
  lemma {:induction false} AdditionsInOrder(a: seq<EditOp>, b: seq<EditOp>)
    ensures Additions(a + b) == Additions(a) + Additions(b)
    ensures forall item :: Additions([Add(item)]) == [item]
    decreases |b|
  {
    if b == [] {
      assert a + b == a;
    } else {
      assert (a + b)[..|a + b| - 1] == a + b[..|b| - 1];
      AdditionsInOrder(a, b[..|b| - 1]);
    }
    forall item ensures Additions([Add(item)]) == [item] {
      assert [Add(item)][..0] == [];
      assert Additions([]) + [item] == [item];
    }
  }

  // ----- what each edit records -----

  /** The item with this path, as the search finds it. */
  predicate IsFirstWithPath(items: seq<InputItem>, path: string, k: nat) {
    k < |items| && items[k].path == path && forall i :: 0 <= i < k ==> items[i].path != path
  }

  /** Which item a call edits and what it records: a new path and the old data, or new data under a path. */
  lemma TargetIs(items: seq<InputItem>, k: nat, path: string, newPath: string, source: nat)
    requires k < |items|
    ensures Target(items, RenameAt(k, newPath)) == Some((k, Rename(newPath)))
    ensures Target(items, UpdateAt(k, source)) == Some((k, NewData(items[k].path, source)))
    ensures IsFirstWithPath(items, path, k) ==>
              && Target(items, RenamePath(path, newPath)) == Some((k, Rename(newPath)))
              && Target(items, UpdatePath(path, source)) == Some((k, NewData(path, source)))
  {
    assert IsFirstWithPath(items, path, k) ==> FirstWithPath(items, path) == k;
  }

  /** A call edits nothing exactly when no item has its index or path. */
  lemma TargetMissing(items: seq<InputItem>, op: EditOp)
    ensures Target(items, op).None? <==>
            match op
            case RenameAt(index, _) => index >= |items|
            case UpdateAt(index, _) => index >= |items|
            case RenamePath(path, _) => forall i :: 0 <= i < |items| ==> items[i].path != path
            case UpdatePath(path, _) => forall i :: 0 <= i < |items| ==> items[i].path != path
            case _ => true
  {
  }

  ghost predicate EditsItem(items: seq<InputItem>, op: EditOp, i: nat) {
    Target(items, op).Some? && Target(items, op).value.0 == i
  }

  /** The edit that counts is that of the earliest call that edits the item. */
  lemma {:induction false} FirstEditIs(items: seq<InputItem>, ops: seq<EditOp>, i: nat, k: nat)
    requires k < |ops| && EditsItem(items, ops[k], i) && forall m :: 0 <= m < k ==> !EditsItem(items, ops[m], i)
    ensures FirstEdit(items, ops, i) == Some(Target(items, ops[k]).value.1)
    decreases |ops|
  {
    hide Target;
    var before := ops[..|ops| - 1];
    if k < |ops| - 1 {
      FirstEditIs(items, before, i, k);
    } else {
      NoEdit(items, before, i);
    }
  }

  lemma {:induction false} NoEdit(items: seq<InputItem>, ops: seq<EditOp>, i: nat)
    requires forall m :: 0 <= m < |ops| ==> !EditsItem(items, ops[m], i)
    ensures FirstEdit(items, ops, i) == None
    decreases |ops|
  {
    hide Target;
    if ops != [] {
      NoEdit(items, ops[..|ops| - 1], i);
      assert !EditsItem(items, ops[|ops| - 1], i);
    }
  }
}
