/** The output stream that spreads one archive over many files through a bounded set of open handles. */
module MultiVolumeOut {
  import opened Common
  import opened VolumesCaches
  import opened VolumeNames
  import opened MultiVolumeSpec
  import opened Seeking
  import opened Disks

  class MultiVolumeOutStream {
    const layout: Layout
    const disk: Disk
    const cache: VolumesCache
    var position: nat
    var total: nat

    ghost predicate Valid()
      reads this, disk, cache
    {
      && layout.Valid()
      && cache.policy == Newest && cache.maxSize == layout.maxSize
      && cache.Valid()
      && position < TWO_64 && total < TWO_64
      && Shaped(layout, Records(cache.volumes))
      && Backed(Records(cache.volumes), cache.lru, disk.files)
    }

    ghost function View(): OutView
      reads this, disk, cache
    {
      OutView(Records(cache.volumes), disk.files, position, total)
    }

    constructor (layout: Layout, threshold: nat, disk: Disk)
      requires layout.Valid() && threshold >= 3
      ensures Valid() && fresh(cache) && this.disk == disk && this.layout == layout
      ensures cache.threshold == threshold
      ensures View() == OutView([], disk.files, 0, 0)
    {
      this.layout, this.disk := layout, disk;
      this.cache := new VolumesCache(Newest, threshold, layout.maxSize);
      this.position, this.total := 0, 0;
    }

    /** Makes sure a volume is open and the most recently used one, closing another one if need be. */
    method EnsureVolumeOpen(index: nat) returns (ok: bool)
      requires Valid() && index < |cache.volumes|
      modifies cache, disk
      ensures Valid() && Records(cache.volumes) == old(Records(cache.volumes))
      ensures var o := Opened(old(disk.files), old(Record(cache.volumes[index])), index in old(cache.lru));
              && (ok <==> o.Some?)
              && disk.files == (if ok then o.value else old(disk.files))
              && cache.lru == (if ok then Touched(Newest, cache.threshold, old(cache.lru), index) else old(cache.lru))
      ensures ok ==> index in cache.lru
    {
      hide Records, Linked, Touched, Shaped, Backed, HandlesInStep;
      TouchedHead(Newest, cache.threshold, cache.lru, index);
      OpenIff(cache.volumes, cache.lru, index);
      var v := cache.volumes[index];
      ghost var rs := Records(cache.volumes);
      assert Record(v) == rs[index];
      OpeningBacks(rs, cache.lru, disk.files, Newest, cache.threshold, index);
      if v.stream.None? {
        var fileFlag := if v.size > 0 then Existing else CreateNew;
        ok := disk.Open(v.path, fileFlag);
        if ok {
          cache.Attach(index);
          cache.TrackReopen(index);
        }
      } else {
        cache.Promote(index);
        SameRecords(old(cache.volumes), cache.volumes);
        ok := true;
      }
    }

    /** Adds empty volumes until volume `index` exists, or the capacity is reached. */
    method AddVolumes(index: nat) returns (ok: bool)
      requires Valid()
      modifies cache
      ensures Valid() && cache.lru == old(cache.lru)
      ensures ok <==> index < old(|cache.volumes|) || index < layout.maxSize
      ensures Records(cache.volumes) ==
              Extended(layout, old(Records(cache.volumes)), if ok then index + 1 else layout.maxSize)
    {
      hide Records, Linked, HandlesInStep, OutName, Shaped, Backed, Extended;
      ghost var rs := Records(cache.volumes);
      var newVolumeIndex := |cache.volumes|;
      while newVolumeIndex <= index
        invariant newVolumeIndex == |cache.volumes|
        invariant Valid() && cache.lru == old(cache.lru)
        invariant Records(cache.volumes) == Extended(layout, rs, newVolumeIndex)
        invariant |rs| <= newVolumeIndex <= layout.maxSize
        invariant newVolumeIndex == |rs| || newVolumeIndex <= index + 1
      {
        ghost var vs := cache.volumes;
        ListIsDuplicateFree(vs, cache.newest, cache.oldest, cache.lru);
        var pushed := cache.PushBack(OutName(layout.prefix, newVolumeIndex), 0, Start(layout.max, newVolumeIndex));
        if !pushed {
          return false;
        }
        PushExtends(layout, rs, vs, cache.volumes, cache.lru, disk.files);
        newVolumeIndex := newVolumeIndex + 1;
      }
      ok := true;
    }

    /** The volume at the cursor: added if it does not exist yet, and open. */
    method CurrentVolume() returns (ok: bool, index: nat)
      requires Valid()
      modifies cache, disk
      ensures Valid() && index == VolumeOf(layout, position)
      ensures var rs := old(Records(cache.volumes));
              if index >= |rs| && index >= layout.maxSize then
                !ok && Records(cache.volumes) == Extended(layout, rs, layout.maxSize)
                && disk.files == old(disk.files) && cache.lru == old(cache.lru)
              else
                var grown := Extended(layout, rs, index + 1);
                var o := Opened(old(disk.files), grown[index], index in old(cache.lru));
                && Records(cache.volumes) == grown
                && (ok <==> o.Some?)
                && disk.files == (if ok then o.value else old(disk.files))
                && cache.lru == (if ok then Touched(Newest, cache.threshold, old(cache.lru), index) else old(cache.lru))
      ensures ok ==> index in cache.lru
    {
      hide Records, Linked, Touched, HandlesInStep, OutName, VolumeOf, Shaped;
      index := VolumeOf(layout, position);
      ok := AddVolumes(index);
      if ok {
        if index == cache.newest {
          NewestIsOpen(cache.volumes, cache.newest, cache.oldest, cache.lru, Newest, cache.threshold);
          return true, index;
        }
        ok := EnsureVolumeOpen(index);
      }
    }

    /** Writes a prefix of `data` at the cursor, into the open volume `index`. */
    method WriteToVolume(index: nat, data: seq<Byte>) returns (processed: nat)
      requires Valid() && |data| < TWO_32
      requires index == VolumeOf(layout, position) && index in cache.lru && index < |cache.volumes|
      modifies this, cache, disk
      ensures Valid() && cache.lru == old(cache.lru)
      ensures var w := WriteInto(layout, old(View()), index, data);
              View() == w.view && processed == w.processed
    {
      hide Records, Linked, HandlesInStep, VolumeOf, OffsetOf, OutName, Shaped, Backed, Overwritten, Low32, Low64;
      ghost var before := View();
      WritingKeepsShape(layout, before, cache.lru, index, data);
      var volumeOffset := OffsetOf(layout, position);
      cache.SeekWhenElsewhere(index, volumeOffset);
      var v := cache.volumes[index];
      ghost var r := before.records[index];
      assert Record(v) == r.(seek := volumeOffset) && Records(cache.volumes) == before.records[index := Record(v)];
      var writeSize := Min(|data|, Low32(layout.max - v.seek));
      disk.WriteAt(v.stream.value.path, v.stream.value.position, data[..writeSize]);
      cache.Advance(index, writeSize);
      ghost var moved := r.(seek := volumeOffset + writeSize);
      assert Records(cache.volumes) == before.records[index := moved] && Record(cache.volumes[index]) == moved;
      position := Low64(position + writeSize);
      total := Max(position, total);
      cache.Resize(index, Max(cache.volumes[index].seek, cache.volumes[index].size));
      processed := writeSize;
      assert Records(cache.volumes) == before.records[index := moved.(size := Max(moved.seek, r.size))];
    }

    /** Writes a prefix of `data` at the cursor and says how much was written. */
    method Write(data: seq<Byte>) returns (status: Status, processed: nat)
      requires Valid() && |data| < TWO_32
      modifies this, cache, disk
      ensures Valid()
      ensures var w := WriteView(layout, old(View()), VolumeOf(layout, old(position)) in old(cache.lru), data);
              View() == w.view && status == w.status && processed == w.processed
      ensures cache.lru ==
              if status == Ok then Touched(Newest, cache.threshold, old(cache.lru), VolumeOf(layout, old(position)))
              else old(cache.lru)
    {
      hide Records, Linked, Touched, HandlesInStep, VolumeOf, OutName, Shaped, Backed, Extended, Opened, WriteInto;
      processed := 0;
      var ok, index := CurrentVolume();
      if !ok {
        return Fail, 0;
      }
      processed := WriteToVolume(index, data);
      status := Ok;
    }

    method Seek(offset: int, origin: nat) returns (status: Status)
      requires Valid() && -TWO_63 <= offset < TWO_63
      modifies this`position
      ensures Valid() && total == old(total)
      ensures status == SeekStatus(old(position), total, offset, origin)
      ensures var t := SeekTarget(old(position), total, offset, origin);
              && (status == Ok <==> t.Some?)
              && position == (if t.Some? then t.value else old(position))
      ensures status == Ok <==> || (origin == 0 && 0 <= offset)
                                || (origin == 1 && CanMove(old(position), offset))
                                || (origin == 2 && CanMove(total, offset))
      ensures status == InvalidFunction <==> origin > 2
      ensures origin == 0 && status == Ok ==> position == offset
      ensures origin == 1 && status == Ok ==> position == old(position) + offset
      ensures origin == 2 && status == Ok ==> position == total + offset
      ensures status != Ok ==> position == old(position)
    {
      hide Linked, HandlesInStep, Shaped, Backed, Records;
      var seekPosition := 0;
      if origin == SEEK_CUR {
        seekPosition := position;
      } else if origin == SEEK_END {
        seekPosition := total;
      } else if origin != SEEK_SET {
        return InvalidFunction;
      }
      var s, target := SeekToOffset(seekPosition, offset);
      if s != Ok {
        return s;
      }
      position := target;
      return Ok;
    }

    /** Closes, deletes and forgets the volumes at the end that start at or beyond the new size. */
    method TrimVolumes(newSize: nat)
      requires Valid()
      modifies cache, disk
      ensures Valid()
      ensures var k := Trimmed(old(Records(cache.volumes)), old(disk.files), newSize);
              && Records(cache.volumes) == k.records && disk.files == k.files
              && cache.lru == Below(old(cache.lru), |k.records|)
    {
      hide Linked, HandlesInStep, OutName, Shaped, Backed, Trimmed, Records, Below, Without;
      ListIsDuplicateFree(cache.volumes, cache.newest, cache.oldest, cache.lru);
      BelowMembers(cache.lru, |cache.volumes|);
      while cache.volumes != []
        invariant Valid()
        invariant cache.lru == Below(old(cache.lru), |cache.volumes|)
        invariant Trimmed(Records(cache.volumes), disk.files, newSize) ==
                  Trimmed(old(Records(cache.volumes)), old(disk.files), newSize)
        decreases |cache.volumes|
      {
        TrimStep(layout, Records(cache.volumes), cache.lru, disk.files, newSize);
        var index := |cache.volumes| - 1;
        var lastVolume := cache.volumes[index];
        assert Record(lastVolume) == Records(cache.volumes)[index];
        if lastVolume.offset < newSize {
          return;
        }
        OpenIff(cache.volumes, cache.lru, index);
        WithoutMembers(cache.lru, index);
        BelowStep(old(cache.lru), index);
        ghost var rs, lru := Records(cache.volumes), cache.lru;
        if lastVolume.stream.Some? {
          cache.Close(index);
        }
        disk.Remove(lastVolume.path);
        ghost var vs := cache.volumes;
        cache.PopBack();
        PopRecords(vs);
        assert Records(cache.volumes) == rs[..index];
        assert cache.lru == Without(lru, index);
      }
      TrimNothing(disk.files, newSize);
    }

    /** Cuts the archive at `newSize`: volumes beyond it are deleted and the one it falls into is truncated. */
    method SetSize(newSize: nat) returns (status: Status)
      requires Valid() && newSize < TWO_64
      modifies this, cache, disk
      ensures Valid()
      ensures var s := SetSizeView(layout, old(View()), newSize);
              View() == s.view && status == s.status
      ensures cache.lru == SetSizeHandles(layout, old(View()), old(cache.lru), cache.threshold, newSize)
    {
      hide Linked, HandlesInStep, OutName, Shaped, Backed, Trimmed, Records, Touched, Below;
      if CeilDiv(newSize, layout.max) > layout.maxSize - 1 {
        return InvalidArgument;
      }
      TrimVolumes(newSize);
      if cache.volumes != [] {
        var index := |cache.volumes| - 1;
        var lastVolume := cache.volumes[index];
        ghost var rs := Records(cache.volumes);
        assert Record(lastVolume) == rs[index];
        var newVolumeSize := newSize - lastVolume.offset;
        if newVolumeSize < lastVolume.size {
          OpenIff(cache.volumes, cache.lru, index);
          LastIsBacked(rs, cache.lru, disk.files);
          if lastVolume.stream.None? {
            var ok := EnsureVolumeOpen(index);
            if !ok {
              return Fail;
            }
          }
          ShrinkKeepsShape(layout, rs, cache.lru, disk.files, newVolumeSize);
          disk.SetLength(lastVolume.path, newVolumeSize);
          cache.Resize(index, newVolumeSize);
        }
      }
      total := newSize;
      status := Ok;
    }
  }

  lemma TouchedHead(policy: EvictionPolicy, threshold: nat, lru: seq<nat>, index: nat)
    ensures index in Touched(policy, threshold, lru, index) && Touched(policy, threshold, lru, index)[0] == index
    ensures forall x :: x in Touched(policy, threshold, lru, index) ==> x in lru || x == index
  {
    WithoutMembers(lru, index);
    hide Without;
  }

  /** Opening a volume gives it a file, and the files of the others stay. */
  lemma OpeningBacks(rs: seq<VolumeRecord>, lru: seq<nat>, files: Files,
                                        policy: EvictionPolicy, threshold: nat, index: nat)
    requires Backed(rs, lru, files) && index < |rs|
    ensures var o := Opened(files, rs[index], index in lru);
            o.Some? ==> Backed(rs, Touched(policy, threshold, lru, index), o.value)
  {
    TouchedHead(policy, threshold, lru, index);
    hide Touched;
  }

  /** Visiting the newest volume again changes nothing. */
  lemma NewestIsOpen(vs: seq<CachedVolume>, newest: nat, oldest: nat, lru: seq<nat>,
                                        policy: EvictionPolicy, threshold: nat)
    requires Linked(vs, newest, oldest, lru) && newest < |vs|
    ensures newest in lru
    ensures Touched(policy, threshold, lru, newest) == lru
  {
    hide Linked, Touched;
    ListIsDuplicateFree(vs, newest, oldest, lru);
    EndsOfList(vs, newest, oldest, lru);
    RevisitNewest(policy, threshold, lru);
  }

  lemma RevisitNewest(policy: EvictionPolicy, threshold: nat, lru: seq<nat>)
    requires lru != [] && NoDuplicates(lru)
    ensures Touched(policy, threshold, lru, lru[0]) == lru
  {
    hide Without, NoDuplicates, Evicted, Victim;
    WithoutAt(lru, 0);
    assert lru[..0] + lru[0 + 1..] == lru[1..] && [lru[0]] + lru[1..] == lru;
  }

  lemma WritingKeepsShape(l: Layout, v: OutView, lru: seq<nat>, idx: nat, data: seq<Byte>)
    requires l.Valid() && idx < |v.records| && idx in lru
    requires Shaped(l, v.records) && Backed(v.records, lru, v.files)
    ensures var w := WriteInto(l, v, idx, data).view; Shaped(l, w.records) && Backed(w.records, lru, w.files)
    ensures v.records[idx].path in v.files
  {
    hide Overwritten, OutName;
  }

  lemma OpenIff(vs: seq<CachedVolume>, lru: seq<nat>, index: nat)
    requires HandlesInStep(vs, lru) && index < |vs|
    ensures vs[index].stream.Some? <==> index in lru
  {
  }

  lemma TrimNothing(files: Files, size: nat)
    ensures Trimmed([], files, size) == Kept([], files)
  {
  }

  lemma PopRecords(vs: seq<CachedVolume>)
    requires vs != []
    ensures Records(vs[..|vs| - 1]) == Records(vs)[..|vs| - 1]
  {
  }

  /** One round of trimming, and what it keeps of the other volumes. */
  lemma TrimStep(l: Layout, rs: seq<VolumeRecord>, lru: seq<nat>, files: Files, size: nat)
    requires rs != [] && Shaped(l, rs) && Backed(rs, lru, files)
    ensures var last, rest := rs[|rs| - 1], rs[..|rs| - 1];
            if last.offset < size then Trimmed(rs, files, size) == Kept(rs, files)
            else
              && Trimmed(rs, files, size) == Trimmed(rest, files - {last.path}, size)
              && Shaped(l, rest) && Backed(rest, Without(lru, |rs| - 1), files - {last.path})
  {
    hide OutName, Start, Without;
    WithoutMembers(lru, |rs| - 1);
    var last, rest := rs[|rs| - 1], rs[..|rs| - 1];
    forall i | 0 <= i < |rest| ensures rest[i].path != last.path {
      if rest[i].path == last.path {
        OutNamesDistinct(l.prefix, i, |rs| - 1);
      }
    }
  }

  lemma LastIsBacked(rs: seq<VolumeRecord>, lru: seq<nat>, files: Files)
    requires rs != [] && Backed(rs, lru, files) && rs[|rs| - 1].size > 0
    ensures rs[|rs| - 1].path in files
  {
  }

  lemma ShrinkKeepsShape(l: Layout, rs: seq<VolumeRecord>, lru: seq<nat>, files: Files, size: nat)
    requires rs != [] && Shaped(l, rs) && Backed(rs, lru, files) && rs[|rs| - 1].path in files
    ensures var last := rs[|rs| - 1];
            var shrunk := rs[|rs| - 1 := last.(size := size)];
            Shaped(l, shrunk) && Backed(shrunk, lru, files[last.path := Resized(files[last.path], size)])
  {
    hide OutName, Resized, Start;
  }

  lemma {:induction false} PushExtends(l: Layout, rs: seq<VolumeRecord>, a: seq<CachedVolume>, b: seq<CachedVolume>,
                                       lru: seq<nat>, files: Files)
    requires |rs| <= |a| && Records(a) == Extended(l, rs, |a|)
    requires b == a + [CachedVolume(OutName(l.prefix, |a|), 0, Start(l.max, |a|), 0, None, NO_VOLUME, NO_VOLUME)]
    ensures Records(b) == Extended(l, rs, |b|) && Records(b) == Records(a) + [FreshRecord(l, |a|)]
    ensures Shaped(l, Records(a)) ==> Shaped(l, Records(b))
    ensures Backed(Records(a), lru, files) && |a| !in lru ==> Backed(Records(b), lru, files)
  {
    hide Records, OutName;
    assert Records(b) == Records(a) + [FreshRecord(l, |a|)];
    assert Record(b[|a|]) == FreshRecord(l, |a|);
  }
}
