/** The input stream that reads the files of a multi-volume archive as one sequence of bytes. */
module MultiVolumeIn {
  import opened Common
  import opened VolumesCaches
  import opened VolumeNames
  import opened MultiVolumeSpec
  import opened Seeking
  import opened Disks
  import opened MultiVolumeOut

  // ----- a sequence cut into volumes -----

  /** The volumes are non-empty, contiguous, start at 0 and end at `size`. */
  ghost predicate Contiguous(rs: seq<VolumeRecord>, size: nat) {
    && (if rs == [] then size == 0 else rs[0].offset == 0 && rs[|rs| - 1].offset + rs[|rs| - 1].size == size)
    && (forall i :: 0 <= i < |rs| ==> rs[i].size > 0)
    && (forall i, j :: 0 <= i < j < |rs| && j <= i + 1 ==> rs[i].offset + rs[i].size == rs[j].offset)
  }

  /** Each volume's file holds the bytes of its range. */
  ghost predicate Stored(rs: seq<VolumeRecord>, files: Files, content: seq<Byte>) {
    forall i :: 0 <= i < |rs| ==>
      && rs[i].offset + rs[i].size <= |content|
      && rs[i].path in files
      && files[rs[i].path] == content[rs[i].offset..rs[i].offset + rs[i].size]
  }

  lemma {:induction false} OffsetsOrdered(rs: seq<VolumeRecord>, size: nat, i: nat, j: nat)
    requires Contiguous(rs, size) && i < j < |rs|
    ensures rs[i].offset + rs[i].size <= rs[j].offset
    decreases j - i
  {
    if i + 1 < j {
      OffsetsOrdered(rs, size, i + 1, j);
      assert rs[i + 1].size > 0;
    }
  }

  predicate Covers(r: VolumeRecord, position: nat) {
    r.offset <= position < r.offset + r.size
  }

  /** Every position before the end lies in exactly one volume. */
  ghost function VolumeAt(rs: seq<VolumeRecord>, position: nat): (k: nat)
    requires rs != [] && rs[0].offset == 0
    ensures k < |rs| && rs[k].offset <= position
    ensures k + 1 < |rs| ==> position < rs[|rs| - 1].offset
  {
    if |rs| == 1 || rs[|rs| - 1].offset <= position then |rs| - 1 else VolumeAt(rs[..|rs| - 1], position)
  }

  lemma {:induction false} VolumeAtCovers(rs: seq<VolumeRecord>, size: nat, position: nat)
    requires Contiguous(rs, size) && position < size
    ensures Covers(rs[VolumeAt(rs, position)], position)
    ensures forall i :: 0 <= i < |rs| && Covers(rs[i], position) ==> i == VolumeAt(rs, position)
  {
    var n := |rs|;
    if n > 1 && position < rs[n - 1].offset {
      var rest := rs[..n - 1];
      InitialVolumes(rs, size);
      hide Contiguous;
      VolumeAtCovers(rest, rs[n - 1].offset, position);
      forall i | 0 <= i < n && Covers(rs[i], position) ensures i == VolumeAt(rs, position) {
        assert i < n - 1 && rest[i] == rs[i];
      }
    } else {
      forall i | 0 <= i < n - 1 ensures !Covers(rs[i], position) {
        OffsetsOrdered(rs, size, i, n - 1);
      }
    }
  }

  lemma InitialVolumes(rs: seq<VolumeRecord>, size: nat)
    requires Contiguous(rs, size) && |rs| > 1
    ensures Contiguous(rs[..|rs| - 1], rs[|rs| - 1].offset)
  {
    assert rs[|rs| - 2].size > 0;
  }

  /** How many bytes one Read returns: up to the end of the volume, whose rest is cut to 32 bits. */
  ghost function Readable(rs: seq<VolumeRecord>, size: nat, position: nat, wanted: nat): nat
    requires Contiguous(rs, size)
  {
    if position >= size then 0
    else
      var r := rs[VolumeAt(rs, position)];
      VolumeAtCovers(rs, size, position);
      Min(wanted, Low32(r.offset + r.size - position))
  }

  /** Reading makes progress everywhere before the end exactly when every volume is shorter than 2^32 bytes. */
  lemma ReadProgress(rs: seq<VolumeRecord>, size: nat)
    requires Contiguous(rs, size)
    ensures (forall p: nat, wanted: nat :: p < size && wanted > 0 ==> Readable(rs, size, p, wanted) > 0)
            <==> (forall i :: 0 <= i < |rs| ==> rs[i].size < TWO_32)
  {
    hide Contiguous, VolumeAt, Readable, Low32;
    if i :| 0 <= i < |rs| && rs[i].size >= TWO_32 {
      LongVolumeStopsReading(rs, size, i);
      assert Readable(rs, size, rs[i].offset + rs[i].size - TWO_32, 1) == 0;
    } else {
      forall p: nat, wanted: nat | p < size && wanted > 0 ensures Readable(rs, size, p, wanted) > 0 {
        ShortVolumeIsRead(rs, size, p, wanted);
      }
    }
  }

  lemma LongVolumeStopsReading(rs: seq<VolumeRecord>, size: nat, i: nat)
    requires Contiguous(rs, size) && i < |rs| && rs[i].size >= TWO_32
    ensures var p := rs[i].offset + rs[i].size - TWO_32; p < size && Readable(rs, size, p, 1) == 0
  {
    hide VolumeAt, Low32;
    var p := rs[i].offset + rs[i].size - TWO_32;
    if i < |rs| - 1 {
      OffsetsOrdered(rs, size, i, |rs| - 1);
    }
    assert p < size;
    hide Contiguous;
    VolumeAtCovers(rs, size, p);
    assert Covers(rs[i], p);
  }

  lemma ShortVolumeIsRead(rs: seq<VolumeRecord>, size: nat, p: nat, wanted: nat)
    requires Contiguous(rs, size) && p < size && wanted > 0
    requires forall i :: 0 <= i < |rs| ==> rs[i].size < TWO_32
    ensures Readable(rs, size, p, wanted) > 0
  {
    VolumeAtCovers(rs, size, p);
    hide Contiguous, VolumeAt, Low32;
  }

  // ----- scanning -----

  /** The names of volumes 1 to n (counting from 0). */
  ghost function Numbered(stem: string, n: nat): (s: seq<string>)
    ensures |s| == n && forall i :: 0 <= i < n ==> s[i] == OutName(stem, i + 1)
  {
    if n == 0 then [] else Numbered(stem, n - 1) + [OutName(stem, n)]
  }

  /** Only finitely many names can exist, so the scan for the next volume ends. */
  lemma FewNamesExist(first: string, n: nat, files: Files)
    requires HasFilename(first)
    requires forall i :: 1 <= i <= n ==> InName(first, i) in files
    ensures n <= |files.Keys|
  {
    hide InName, OutName;
    var stem := first[..ExtensionStart(first)];
    var names := Numbered(stem, n);
    forall i | 0 <= i < n ensures names[i] in files.Keys {
      NumberedIs(first, i + 1);
      assert InName(first, i + 1) in files;
    }
    forall i, j | 0 <= i < j < n ensures names[i] != names[j] {
      if names[i] == names[j] {
        OutNamesDistinct(stem, i + 1, j + 1);
      }
    }
    CardinalityOfDistinct(names, files.Keys);
  }

  /** The volumes bear the derived names, in order, and their files exist. */
  ghost predicate Found(first: string, vs: seq<CachedVolume>, files: Files) {
    forall i :: 0 <= i < |vs| ==> vs[i].path == InName(first, i) && InName(first, i) in files
  }

  lemma FewVolumesFound(first: string, vs: seq<CachedVolume>, files: Files)
    requires Found(first, vs, files) && InName(first, |vs|) in files && HasFilename(first)
    ensures |vs| <= |files.Keys|
  {
    hide InName, HasFilename;
    FewNamesExist(first, |vs|, files);
  }

  lemma NumberedIs(first: string, i: nat)
    requires HasFilename(first) && i > 0
    ensures InName(first, i) == OutName(first[..ExtensionStart(first)], i)
  {
    InNameForm(first, i);
  }

  lemma AppendVolume(rs: seq<VolumeRecord>, content: seq<Byte>, files: Files, path: string)
    requires Contiguous(rs, |content|) && Stored(rs, files, content)
    requires path in files && files[path] != []
    ensures var grown := rs + [VolumeRecord(path, |files[path]|, |content|, 0)];
            Contiguous(grown, |content + files[path]|) && Stored(grown, files, content + files[path])
  {
    hide Contiguous, Stored;
    var r := VolumeRecord(path, |files[path]|, |content|, 0);
    AppendKeepsRanges(rs, |content|, r);
    AppendKeepsFiles(rs, content, files, r);
    assert |content + files[path]| == |content| + |files[path]|;
  }

  lemma AppendKeepsFiles(rs: seq<VolumeRecord>, content: seq<Byte>, files: Files, r: VolumeRecord)
    requires Stored(rs, files, content)
    requires r.path in files && r.size == |files[r.path]| && r.offset == |content|
    ensures Stored(rs + [r], files, content + files[r.path])
  {
    var more := content + files[r.path];
    assert more[|content|..|more|] == files[r.path];
    forall i | 0 <= i < |rs|
      ensures rs[i].offset + rs[i].size <= |content|
      ensures more[rs[i].offset..rs[i].offset + rs[i].size] == content[rs[i].offset..rs[i].offset + rs[i].size]
    {
    }
  }

  lemma AppendKeepsRanges(rs: seq<VolumeRecord>, size: nat, r: VolumeRecord)
    requires Contiguous(rs, size) && r.offset == size && r.size > 0
    ensures Contiguous(rs + [r], size + r.size)
  {
  }

  class MultiVolumeInStream {
    const disk: Disk
    const cache: VolumesCache
    var position: nat
    var total: nat
    var lastOpenedVolume: nat
    ghost var content: seq<Byte>

    ghost predicate Valid()
      reads this, disk, cache
    {
      && cache.policy == Oldest
      && cache.Valid()
      && total == |content|
      && Contiguous(Records(cache.volumes), |content|)
      && Stored(Records(cache.volumes), disk.files, content)
      && lastOpenedVolume == cache.newest
    }

    constructor (disk: Disk, threshold: nat, maxSize: nat)
      requires threshold >= 3 && maxSize < NO_VOLUME
      ensures Valid() && fresh(cache) && this.disk == disk && cache.maxSize == maxSize
      ensures cache.volumes == [] && content == [] && position == 0
    {
      this.disk := disk;
      this.cache := new VolumesCache(Oldest, threshold, maxSize);
      this.position, this.total, this.lastOpenedVolume, this.content := 0, 0, NO_VOLUME, [];
    }

    /** Appends one volume; an empty file is not a volume. */
    method AddVolume(path: string) returns (ok: bool)
      requires Valid() && path in disk.files
      modifies this, cache
      ensures Valid() && position == old(position)
      ensures ok <==> disk.files[path] != [] && old(|cache.volumes|) < cache.maxSize
      ensures ok ==> Records(cache.volumes) ==
                     old(Records(cache.volumes)) + [VolumeRecord(path, |disk.files[path]|, old(|content|), 0)]
      ensures content == if ok then old(content) + disk.files[path] else old(content)
      ensures !ok ==> cache.volumes == old(cache.volumes)
    {
      hide Linked, HandlesInStep, Records, Contiguous, Stored;
      var volumeSize := |disk.files[path]|;
      if volumeSize == 0 {
        return false;
      }
      ghost var rs := Records(cache.volumes);
      AppendVolume(rs, content, disk.files, path);
      var globalOffset := 0;
      if cache.volumes != [] {
        var lastVolume := cache.volumes[|cache.volumes| - 1];
        globalOffset := lastVolume.offset + lastVolume.size;
        assert Record(lastVolume) == rs[|rs| - 1];
      }
      EndIsSize(rs, |content|);
      assert globalOffset == |content|;
      ok := cache.PushBack(path, volumeSize, globalOffset);
      if ok {
        total := total + volumeSize;
        content := content + disk.files[path];
        assert Records(cache.volumes) == rs + [VolumeRecord(path, volumeSize, globalOffset, 0)];
      }
    }

    /**
      * Collects the volumes starting at `firstVolume`: as many consecutively numbered files as exist.
      * Fails on an empty one, and when there are more than the vector can hold.
      */
    method Open(firstVolume: string) returns (ok: bool)
      requires Valid() && cache.volumes == []
      modifies this, cache
      ensures Valid() && position == old(position)
      ensures Found(firstVolume, cache.volumes, disk.files)
      ensures var next := InName(firstVolume, |cache.volumes|);
              ok <==> !disk.Exists(next)
      ensures !ok ==> var next := InName(firstVolume, |cache.volumes|);
                      disk.files[next] == [] || |cache.volumes| == cache.maxSize
    {
      hide Linked, HandlesInStep, Contiguous, Stored, InName, Records, Found, HasFilename;
      var volumeIndex := 1;
      var volumePath := firstVolume;
      NoVolumesYet(firstVolume);
      while disk.Exists(volumePath)
        invariant Valid() && position == old(position)
        invariant volumeIndex == |cache.volumes| + 1
        invariant volumePath == InName(firstVolume, |cache.volumes|)
        invariant volumeIndex > 1 ==> HasFilename(firstVolume)
        invariant Found(firstVolume, cache.volumes, disk.files)
        decreases |disk.files.Keys| + 2 - volumeIndex
      {
        NoVolumesYet(firstVolume);
        FewVolumesFound(firstVolume, cache.volumes, disk.files);
        ghost var vs := cache.volumes;
        var added := AddVolume(volumePath);
        if !added {
          return false;
        }
        OneMoreFound(firstVolume, vs, cache.volumes, disk.files);
        volumeIndex := volumeIndex + 1;
        NextName(firstVolume, volumeIndex - 1);
        volumePath := ReplaceExtension(volumePath, Padded(volumeIndex));
      }
      ok := true;
    }

    /** Makes sure a volume is open and the most recently used one. */
    method EnsureVolumeOpen(index: nat)
      requires Valid() && index < |cache.volumes|
      modifies this`lastOpenedVolume, cache, disk
      ensures Valid() && disk.files == old(disk.files)
      ensures Records(cache.volumes) == old(Records(cache.volumes))
      ensures cache.lru == Touched(Oldest, cache.threshold, old(cache.lru), index)
      ensures index in cache.lru && lastOpenedVolume == index
    {
      hide Linked, Touched, Records, Contiguous, Stored;
      TouchedHead(Oldest, cache.threshold, cache.lru, index);
      var v := cache.volumes[index];
      if v.stream.None? {
        assert Record(v) == Records(cache.volumes)[index];
        StoredInFiles(Records(cache.volumes), disk.files, content, index);
        var found := disk.Open(v.path, Existing);
        cache.Attach(index);
        cache.TrackReopen(index);
      } else {
        cache.Promote(index);
        SameRecords(old(cache.volumes), cache.volumes);
      }
      lastOpenedVolume := index;
      EndsOfList(cache.volumes, cache.newest, cache.oldest, cache.lru);
    }

    /** Finds and opens the volume the cursor is in, searching from the one opened last. */
    method CurrentVolume() returns (index: nat)
      requires Valid() && position < total
      modifies this`lastOpenedVolume, cache, disk
      ensures Valid() && disk.files == old(disk.files)
      ensures Records(cache.volumes) == old(Records(cache.volumes))
      ensures index == VolumeAt(Records(cache.volumes), position)
      ensures index in cache.lru && lastOpenedVolume == index
    {
      hide Linked, Touched, Records, Contiguous, Stored, HandlesInStep, VolumeAt;
      ghost var rs := Records(cache.volumes);
      FirstVolume(rs, total);
      VolumeAtCovers(rs, total, position);
      ghost var target := VolumeAt(rs, position);
      var left, right := 0, |cache.volumes|;
      var midpoint := if lastOpenedVolume == NO_VOLUME then right / 2 else lastOpenedVolume;
      NewestInRange(cache.volumes, cache.newest, cache.oldest, cache.lru);
      while true
        invariant Valid() && disk.files == old(disk.files) && Records(cache.volumes) == rs
        invariant 0 <= left <= target < right <= |rs| == |cache.volumes|
        invariant left <= midpoint < right
        decreases right - left
      {
        var v := cache.volumes[midpoint];
        assert Record(v) == rs[midpoint];
        SearchStep(rs, total, position, midpoint);
        if position < v.offset {
          right := midpoint;
        } else if position >= v.offset + v.size {
          left := midpoint + 1;
        } else {
          if midpoint == cache.newest {
            NewestIsOpen(cache.volumes, cache.newest, cache.oldest, cache.lru, Oldest, cache.threshold);
            return midpoint;
          }
          EnsureVolumeOpen(midpoint);
          return midpoint;
        }
        midpoint := (left + right) / 2;
      }
    }

    /** Reads at most `size` bytes at the cursor from the open volume `index`. */
    method ReadFromVolume(index: nat, size: nat) returns (data: seq<Byte>)
      requires Valid() && size < TWO_32
      requires index in cache.lru && index < |cache.volumes| && lastOpenedVolume == index
      requires Covers(Record(cache.volumes[index]), position)
      modifies this`position, cache
      ensures Valid() && SameRanges(old(cache.volumes), cache.volumes)
      ensures var v := old(cache.volumes)[index];
              |data| == Min(size, (v.offset + v.size - old(position)) % 0x1_0000_0000)
      ensures old(position) <= position <= |content| && data == Range(content, old(position), position)
    {
      hide Linked, Touched, Contiguous, Stored, HandlesInStep, Records, SameRanges, At, Range;
      HeadOfList(cache.volumes, cache.newest, cache.oldest, cache.lru);
      ghost var rs, before := Records(cache.volumes), cache.volumes;
      assert rs[index] == Record(before[index]);
      assert rs[index].offset <= position < rs[index].offset + rs[index].size;
      var volumeOffset := position - cache.volumes[index].offset;
      cache.SeekWhenElsewhere(index, volumeOffset);
      var v := cache.volumes[index];
      assert Record(v) == rs[index].(seek := volumeOffset);
      var readSize := Min(size, Low32(v.size - v.seek));
      var at := v.stream.value.position;
      VolumeSlice(rs, disk.files, content, index, position, readSize);
      data := disk.ReadAt(v.stream.value.path, at, readSize);
      assert |data| == readSize;
      position := position + |data|;
      cache.Advance(index, |data|);
      ghost var seek := v.seek + |data|;
      SeekKeepsCut(rs, disk.files, content, total, index, seek);
      assert Records(cache.volumes) == rs[index := rs[index].(seek := seek)];
      RangesOfUpdate(before, cache.volumes, index, seek);
      HeadOfList(cache.volumes, cache.newest, cache.oldest, cache.lru);
    }

    /** Reads at most `size` bytes at the cursor. */
    method Read(size: nat) returns (data: seq<Byte>)
      requires Valid() && size < TWO_32
      modifies this, cache, disk
      ensures Valid() && disk.files == old(disk.files) && content == old(content)
      ensures old(position) <= total ==> old(position) <= position <= total && data == content[old(position)..position]
      ensures old(position) > total ==> data == [] && position == old(position)
      ensures |data| == Readable(old(Records(cache.volumes)), total, old(position), size)
      ensures total == old(total) && SameRanges(old(cache.volumes), cache.volumes)
    {
      hide Linked, Touched, Contiguous, Stored, HandlesInStep, VolumeAt, Records;
      SameRangesRefl(cache.volumes);
      if size == 0 || position >= total {
        NothingReadable(Records(cache.volumes), total, position, size);
        return [];
      }
      ghost var rs := Records(cache.volumes);
      FirstVolume(rs, total);
      VolumeAtCovers(rs, total, position);
      ghost var before := cache.volumes;
      var index := CurrentVolume();
      InRange(cache.volumes, cache.newest, cache.oldest, cache.lru, index);
      assert Record(cache.volumes[index]) == rs[index];
      RangesOfUpdate(before, cache.volumes, index, rs[index].seek);
      data := ReadFromVolume(index, size);
    }

    method Seek(offset: int, origin: nat) returns (status: Status)
      requires Valid() && -TWO_63 <= offset < TWO_63 && position < TWO_64 && total < TWO_64
      modifies this`position
      ensures Valid() && position < TWO_64
      ensures status == SeekStatus(old(position), total, offset, origin)
      ensures var t := SeekTarget(old(position), total, offset, origin);
              && (status == Ok <==> t.Some?)
              && position == (if t.Some? then t.value else old(position))
      ensures status == Ok <==> || (origin == 0 && 0 <= offset)
                                || (origin == 1 && CanMove(old(position), offset))
                                || (origin == 2 && CanMove(total, offset))
      ensures status == InvalidFunction <==> origin > 2
      ensures origin == 0 && status == Ok ==> position == offset
      ensures origin == 1 && status == Ok ==> position == old(position) + offset
      ensures origin == 2 && status == Ok ==> position == total + offset
      ensures status != Ok ==> position == old(position)
    {
      hide Linked, HandlesInStep, Contiguous, Stored, Records;
      var seekPosition := 0;
      if origin == SEEK_CUR {
        seekPosition := position;
      } else if origin == SEEK_END {
        seekPosition := total;
      } else if origin != SEEK_SET {
        return InvalidFunction;
      }
      var s, target := SeekToOffset(seekPosition, offset);
      if s != Ok {
        return s;
      }
      position := target;
      return Ok;
    }

    /**
      * Reading on until nothing more comes, with buffers of `size` bytes. This reaches the end if all volumes
      * are shorter than 2^32 bytes, and never gets past the start of one whose size is a multiple of 2^32.
      */
    method ReadToEnd(size: nat) returns (data: seq<Byte>)
      requires Valid() && 0 < size < TWO_32 && position <= total
      modifies this, cache, disk
      ensures Valid() && disk.files == old(disk.files) && content == old(content)
      ensures SameRanges(old(cache.volumes), cache.volumes)
      ensures old(position) <= position <= total && data == content[old(position)..position]
      ensures Readable(Records(cache.volumes), total, position, size) == 0
      ensures (forall i :: 0 <= i < |cache.volumes| ==> cache.volumes[i].size < TWO_32) ==> position == total
      ensures forall k :: 0 <= k < |cache.volumes| && StopsAt(cache.volumes[k], old(position)) ==>
                position <= cache.volumes[k].offset
    {
      hide Linked, Touched, Contiguous, Stored, HandlesInStep, VolumeAt, Records, Readable, SameRanges, Low32;
      data := [];
      ghost var start, volumes := position, cache.volumes;
      SameRangesRefl(volumes);
      while true
        invariant Valid() && disk.files == old(disk.files) && content == old(content)
        invariant SameRanges(volumes, cache.volumes)
        invariant start <= position <= total && data == content[start..position]
        invariant forall k :: 0 <= k < |volumes| && StopsAt(volumes[k], start) ==> position <= volumes[k].offset
        decreases total - position
      {
        ghost var before, rs := cache.volumes, Records(cache.volumes);
        ReadsNotPast(volumes, before, total, start, position, size);
        var chunk := Read(size);
        SameRangesTransitive(volumes, before, cache.volumes);
        if chunk == [] {
          SameReadable(before, cache.volumes, total, position, size);
          StopsMean(volumes, cache.volumes, total, start, position, size);
          return;
        }
        data := data + chunk;
        assert data == content[start..position];
      }
    }
  }

  /** A volume, not before `start`, of which nothing can be read from its first byte on. */
  predicate StopsAt(v: CachedVolume, start: nat) {
    start <= v.offset && Low32(v.size) == 0
  }

  /** What one Read returns does not reach beyond the volume. */
  lemma ReadableInVolume(rs: seq<VolumeRecord>, total: nat, position: nat, wanted: nat, k: nat)
    requires Contiguous(rs, total) && k < |rs| && Low32(rs[k].size) == 0 && position <= rs[k].offset
    ensures position + Readable(rs, total, position, wanted) <= rs[k].offset
  {
    hide VolumeAt, Low32;
    if position < total {
      VolumeAtCovers(rs, total, position);
      var j := VolumeAt(rs, position);
      if position == rs[k].offset {
        assert Covers(rs[k], position);
      } else if j < k {
        OffsetsOrdered(rs, total, j, k);
      } else if k < j {
        OffsetsOrdered(rs, total, k, j);
      }
    }
  }

  lemma ReadsNotPast(a: seq<CachedVolume>, b: seq<CachedVolume>, total: nat, start: nat, position: nat, wanted: nat)
    requires SameRanges(a, b) && Contiguous(Records(b), total)
    requires forall k :: 0 <= k < |a| && StopsAt(a[k], start) ==> position <= a[k].offset
    ensures forall k :: 0 <= k < |a| && StopsAt(a[k], start) ==>
              position + Readable(Records(b), total, position, wanted) <= a[k].offset
  {
    hide Contiguous, Readable, Low32, Records;
    forall k | 0 <= k < |a| && StopsAt(a[k], start)
      ensures position + Readable(Records(b), total, position, wanted) <= a[k].offset
    {
      assert Record(b[k]) == Records(b)[k];
      ReadableInVolume(Records(b), total, position, wanted, k);
    }
  }

  lemma SameRangesTransitive(a: seq<CachedVolume>, b: seq<CachedVolume>, c: seq<CachedVolume>)
    requires SameRanges(a, b) && SameRanges(b, c)
    ensures SameRanges(a, c)
  {
  }

  lemma {:induction false} SameVolumeAt(a: seq<VolumeRecord>, b: seq<VolumeRecord>, position: nat)
    requires |a| == |b| && forall i :: 0 <= i < |a| ==> a[i].offset == b[i].offset
    requires a != [] && a[0].offset == 0
    ensures VolumeAt(a, position) == VolumeAt(b, position)
  {
    if |a| > 1 && a[|a| - 1].offset > position {
      SameVolumeAt(a[..|a| - 1], b[..|b| - 1], position);
    }
  }

  lemma SameReadable(a: seq<CachedVolume>, b: seq<CachedVolume>, total: nat, position: nat, wanted: nat)
    requires SameRanges(a, b) && Contiguous(Records(a), total) && Contiguous(Records(b), total)
    ensures Readable(Records(a), total, position, wanted) == Readable(Records(b), total, position, wanted)
  {
    hide VolumeAt, Low32, Records;
    if position < total {
      FirstVolume(Records(a), total);
      forall i | 0 <= i < |a|
        ensures Records(a)[i].offset == Records(b)[i].offset && Records(a)[i].size == Records(b)[i].size
      {
        assert Records(a)[i] == Record(a[i]) && Records(b)[i] == Record(b[i]);
      }
      SameVolumeAt(Records(a), Records(b), position);
    }
  }

  /** Where nothing can be read all volumes before the position are behind it, unless one of them is long. */
  lemma StopsBeyond(rs: seq<VolumeRecord>, total: nat, position: nat, wanted: nat, k: nat)
    requires Contiguous(rs, total) && k < |rs| && wanted > 0 && Readable(rs, total, position, wanted) == 0
    requires forall i :: 0 <= i < k ==> rs[i].size < TWO_32
    ensures position >= rs[k].offset
    ensures position == rs[k].offset ==> Low32(rs[k].size) == 0
  {
    hide VolumeAt, Low32;
    if position < total {
      VolumeAtCovers(rs, total, position);
      var j := VolumeAt(rs, position);
      if j < k {
        OffsetsOrdered(rs, total, j, k);
      } else if k < j {
        OffsetsOrdered(rs, total, k, j);
      }
    } else {
      if k < |rs| - 1 {
        OffsetsOrdered(rs, total, k, |rs| - 1);
      }
    }
  }

  lemma {:induction false} StopsMean(a: seq<CachedVolume>, b: seq<CachedVolume>, total: nat, start: nat,
                                     position: nat, wanted: nat)
    requires SameRanges(a, b) && Contiguous(Records(b), total) && wanted > 0 && position <= total
    requires Readable(Records(b), total, position, wanted) == 0
    requires forall k :: 0 <= k < |a| && StopsAt(a[k], start) ==> position <= a[k].offset
    ensures (forall i :: 0 <= i < |b| ==> b[i].size < TWO_32) ==> position == total
    ensures forall k :: 0 <= k < |b| && StopsAt(b[k], start) ==> position <= b[k].offset
  {
    hide Contiguous, Readable, Low32, Records;
    if forall i :: 0 <= i < |b| ==> b[i].size < TWO_32 {
      assert forall i :: 0 <= i < |b| ==> Records(b)[i] == Record(b[i]);
      ReadProgress(Records(b), total);
    }
    forall k | 0 <= k < |b| && StopsAt(b[k], start) ensures position <= b[k].offset {
      assert StopsAt(a[k], start);
    }
  }

  lemma HeadOfList(vs: seq<CachedVolume>, newest: nat, oldest: nat, lru: seq<nat>)
    requires Linked(vs, newest, oldest, lru)
    ensures newest == if lru == [] then NO_VOLUME else lru[0]
  {
  }

  lemma NoVolumesYet(first: string)
    ensures InName(first, 0) == first && forall files :: Found(first, [], files)
  {
  }

  lemma NextName(first: string, n: nat)
    requires n > 0
    ensures InName(first, n) == ReplaceExtension(InName(first, n - 1), Padded(n + 1))
  {
  }

  lemma EndIsSize(rs: seq<VolumeRecord>, size: nat)
    requires Contiguous(rs, size)
    ensures if rs == [] then size == 0 else rs[|rs| - 1].offset + rs[|rs| - 1].size == size
  {
  }

  lemma OneMoreFound(first: string, a: seq<CachedVolume>, b: seq<CachedVolume>, files: Files)
    requires Found(first, a, files) && InName(first, |a|) in files
    requires |b| == |a| + 1 && Records(b)[..|a|] == Records(a) && Records(b)[|a|].path == InName(first, |a|)
    ensures Found(first, b, files)
  {
    hide InName;
    forall i | 0 <= i < |a| ensures b[i].path == a[i].path {
      assert Record(b[i]) == Records(b)[i] == Records(b)[..|a|][i] == Record(a[i]);
    }
    assert b[|a|].path == Records(b)[|a|].path;
  }

  lemma StoredInFiles(rs: seq<VolumeRecord>, files: Files, content: seq<Byte>, index: nat)
    requires Stored(rs, files, content) && index < |rs|
    ensures rs[index].path in files
  {
  }

  lemma FirstVolume(rs: seq<VolumeRecord>, size: nat)
    requires Contiguous(rs, size) && size > 0
    ensures rs != [] && rs[0].offset == 0
  {
  }

  lemma NewestInRange(vs: seq<CachedVolume>, newest: nat, oldest: nat, lru: seq<nat>)
    requires Linked(vs, newest, oldest, lru)
    ensures newest == NO_VOLUME || newest < |vs|
    ensures |vs| <= NO_VOLUME
  {
  }

  /** Comparing with one volume tells on which side of it the position lies. */
  lemma SearchStep(rs: seq<VolumeRecord>, size: nat, position: nat, m: nat)
    requires Contiguous(rs, size) && position < size && m < |rs|
    ensures rs[0].offset == 0
    ensures var target := VolumeAt(rs, position);
            && (position < rs[m].offset ==> target < m)
            && (position >= rs[m].offset + rs[m].size ==> target > m)
            && (rs[m].offset <= position < rs[m].offset + rs[m].size ==> target == m)
  {
    VolumeAtCovers(rs, size, position);
    var target := VolumeAt(rs, position);
    if m < target {
      OffsetsOrdered(rs, size, m, target);
    } else if target < m {
      OffsetsOrdered(rs, size, target, m);
    }
  }

  lemma NothingReadable(rs: seq<VolumeRecord>, size: nat, position: nat, wanted: nat)
    requires Contiguous(rs, size) && (wanted == 0 || position >= size)
    ensures Readable(rs, size, position, wanted) == 0
  {
  }

  lemma VolumeSlice(rs: seq<VolumeRecord>, files: Files, content: seq<Byte>,
                                       index: nat, position: nat, n: nat)
    requires Stored(rs, files, content)
    requires index < |rs| && rs[index].offset <= position && position + n <= rs[index].offset + rs[index].size
    ensures rs[index].path in files && position + n <= |content|
    ensures var at := position - rs[index].offset;
            && at + n <= |files[rs[index].path]|
            && Range(files[rs[index].path], at, at + n) == Range(content, position, position + n)
  {
    var lo, hi := rs[index].offset, rs[index].offset + rs[index].size;
    var at := position - lo;
    assert |content[lo..hi]| == hi - lo;
    SliceOfSlice(content, lo, hi, at, at + n);
  }

  lemma SeekKeepsCut(rs: seq<VolumeRecord>, files: Files, content: seq<Byte>, size: nat,
                                        index: nat, seek: nat)
    requires Contiguous(rs, size) && Stored(rs, files, content) && index < |rs|
    ensures var r := rs[index := rs[index].(seek := seek)]; Contiguous(r, size) && Stored(r, files, content)
  {
    hide Contiguous, Stored;
    SeekKeepsRanges(rs, size, index, seek);
    SeekKeepsFiles(rs, files, content, index, seek);
  }

  lemma SeekKeepsFiles(rs: seq<VolumeRecord>, files: Files, content: seq<Byte>, index: nat, seek: nat)
    requires Stored(rs, files, content) && index < |rs|
    ensures Stored(rs[index := rs[index].(seek := seek)], files, content)
  {
    var r := rs[index := rs[index].(seek := seek)];
    forall i | 0 <= i < |r|
      ensures r[i].path == rs[i].path && r[i].offset == rs[i].offset && r[i].size == rs[i].size
    {
    }
  }

  lemma SeekKeepsRanges(rs: seq<VolumeRecord>, size: nat, index: nat, seek: nat)
    requires Contiguous(rs, size) && index < |rs|
    ensures Contiguous(rs[index := rs[index].(seek := seek)], size)
  {
  }

  /** The same files cover the same ranges. */
  ghost predicate SameRanges(a: seq<CachedVolume>, b: seq<CachedVolume>) {
    && |a| == |b|
    && forall i :: 0 <= i < |a| ==>
         a[i].path == b[i].path && a[i].size == b[i].size && a[i].offset == b[i].offset
  }

  lemma SameRangesRefl(a: seq<CachedVolume>)
    ensures SameRanges(a, a)
  {
  }

  lemma RangesOfUpdate(a: seq<CachedVolume>, b: seq<CachedVolume>, index: nat, seek: nat)
    requires index < |a| && Records(b) == Records(a)[index := Records(a)[index].(seek := seek)]
    ensures SameRanges(a, b)
  {
    forall i | 0 <= i < |a| ensures Record(b[i]).(seek := 0) == Record(a[i]).(seek := 0) {
      assert Records(b)[i].(seek := 0) == Records(a)[i].(seek := 0);
    }
  }
}
