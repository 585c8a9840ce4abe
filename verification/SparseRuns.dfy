/**
  * Any run on the output stream, holes and growth included, means one file in which what was never written
  * reads as zero.
  */
module SparseRuns {
  import opened Common
  import opened VolumesCaches
  import opened VolumeNames
  import opened MultiVolumeSpec
  import opened MultiVolumeLemmas
  import opened MultiVolumeOut
  import opened Evictions
  import opened MultiVolumeRuns

  // ----- the meaning -----

  /** What was written to a volume; a volume without data has nothing, whatever file bears its name. */
  function VolumeData(v: OutView, i: nat): seq<Byte> {
    if i < |v.records| && v.records[i].size > 0 && v.records[i].path in v.files then v.files[v.records[i].path] else []
  }

  /** A byte of a file in which what was never written is zero. */
  function ByteAt(bytes: seq<Byte>, q: nat): Byte {
    if q < |bytes| then bytes[q] else 0
  }

  /** The volumes, the cursor and the total are those of one file. */
  ghost predicate Spells(l: Layout, v: OutView, f: Flat)
    requires l.Valid()
  {
    && v.position == f.position && v.total == |f.bytes|
    && forall q: nat :: ByteAt(VolumeData(v, VolumeOf(l, q)), OffsetOf(l, q)) == ByteAt(f.bytes, q)
  }

  function Grown(bytes: seq<Byte>, size: nat): seq<Byte> {
    if size > |bytes| then bytes + Padding(size - |bytes|) else bytes
  }

  /** What a call does to one file, given what the caller was told. */
  function SparseCall(f: Flat, c: Call, r: Reply): Flat {
    if r.status != Ok then f
    else match c
      case WriteCall(data) =>
        var n := Min(r.processed, |data|);
        Flat(Overwritten(Grown(f.bytes, f.position), f.position, data[..n]), f.position + n)
      case SeekCall(offset, origin) =>
        var base := if origin == 0 then 0 else if origin == 1 then f.position else |f.bytes|;
        f.(position := if base + offset >= 0 then base + offset else 0)
      case SetSizeCall(size) => f.(bytes := Resized(f.bytes, size))
  }

  function SparseRun(f: Flat, calls: seq<Call>, replies: seq<Reply>): Flat
    requires |calls| == |replies|
    decreases |calls|
  {
    if calls == [] then f else SparseRun(SparseCall(f, calls[0], replies[0]), calls[1..], replies[1..])
  }

  /** Files are no longer than recorded, and no volume with data reaches beyond the total. */
  ghost predicate Tidy(l: Layout, v: OutView) {
    && Filed(l, v)
    && forall i :: 0 <= i < |v.records| ==>
         && |VolumeData(v, i)| <= v.records[i].size <= l.max
         && (v.records[i].size > 0 ==> Start(l.max, i) + v.records[i].size <= v.total)
  }

  /** An open volume has a file, an empty one if nothing is recorded. */
  ghost predicate OpenIsTidy(v: OutView, i: nat) {
    && i < |v.records| && v.records[i].path in v.files
    && (v.records[i].size == 0 ==> v.files[v.records[i].path] == [])
  }

  ghost predicate TidyStream(l: Layout, s: StreamState) {
    Tidy(l, s.view) && forall x :: x in s.lru ==> OpenIsTidy(s.view, x)
  }

  // ----- writing -----

  lemma PathsDiffer(l: Layout, rs: seq<VolumeRecord>, i: nat, j: nat)
    requires Shaped(l, rs) && i < |rs| && j < |rs| && i != j
    ensures rs[i].path != rs[j].path
  {
    hide OutName;
    if rs[i].path == rs[j].path {
      OutNamesDistinct(l.prefix, i, j);
    }
  }

  /** A write that succeeds overwrites the data of its volume and leaves that of all others alone. */
  lemma WriteVolumes(l: Layout, v: OutView, isOpen: bool, data: seq<Byte>, i: nat)
    requires Tidy(l, v) && (isOpen ==> OpenIsTidy(v, VolumeOf(l, v.position)))
    requires WriteView(l, v, isOpen, data).status == Ok
    ensures var w := WriteView(l, v, isOpen, data);
            var idx, off := VolumeOf(l, v.position), OffsetOf(l, v.position);
            && idx < |w.view.records| && w.processed == Accepted(l, v.position, |data|)
            && VolumeData(w.view, i) ==
               if i == idx then Overwritten(VolumeData(v, i), off, data[..w.processed]) else VolumeData(v, i)
    ensures var w := WriteView(l, v, isOpen, data);
            && w.view.position == Low64(v.position + w.processed) && w.view.total == Max(w.view.position, v.total)
            && (i < |w.view.records| ==>
                  w.view.records[i].size ==
                  Max(if i < |v.records| then v.records[i].size else 0,
                      if i == VolumeOf(l, v.position) then OffsetOf(l, v.position) + w.processed else 0))
            && OpenIsTidy(w.view, VolumeOf(l, v.position))
            && (i != VolumeOf(l, v.position) && OpenIsTidy(v, i) ==> OpenIsTidy(w.view, i))
  {
    hide VolumeOf, OffsetOf, Accepted, OutName, Overwritten, Start, Low64;
    var idx, off := VolumeOf(l, v.position), OffsetOf(l, v.position);
    var rs := Extended(l, v.records, idx + 1);
    assert Shaped(l, rs);
    var w := WriteView(l, v, isOpen, data);
    var n := w.processed;
    if i < |rs| && i != idx {
      PathsDiffer(l, rs, i, idx);
    }
    if n == 0 {
      NothingWritten(VolumeData(v, idx), off);
    }
  }


  lemma WriteKeepsTidy(l: Layout, v: OutView, isOpen: bool, data: seq<Byte>)
    requires Tidy(l, v) && (isOpen ==> OpenIsTidy(v, VolumeOf(l, v.position)))
    requires v.position + |data| < TWO_64
    ensures Tidy(l, WriteView(l, v, isOpen, data).view)
  {
    hide VolumeOf, OffsetOf, Accepted, OutName, Overwritten, Start, Low64, WriteView, VolumeData;
    WriteKeepsFiled(l, v, isOpen, data);
    var w := WriteView(l, v, isOpen, data);
    var idx, off := VolumeOf(l, v.position), OffsetOf(l, v.position);
    PositionBounds(l, v.position);
    forall i | 0 <= i < |w.view.records|
      ensures |VolumeData(w.view, i)| <= w.view.records[i].size <= l.max
      ensures w.view.records[i].size > 0 ==> Start(l.max, i) + w.view.records[i].size <= w.view.total
    {
      if w.status == Ok {
        WriteVolumes(l, v, isOpen, data, i);
        DataBounds(l, v, i);
        var n := w.processed;
        if n == 0 {
          NothingWritten(VolumeData(v, i), off);
        } else {
          OverwrittenBytes(VolumeData(v, i), off, data[..n]);
        }
      } else {
        FailedWrite(l, v, isOpen, data, i);
        DataBounds(l, v, i);
      }
    }
  }

  lemma DataBounds(l: Layout, v: OutView, i: nat)
    requires Tidy(l, v)
    ensures i < |v.records| ==> |VolumeData(v, i)| <= v.records[i].size <= l.max
    ensures i < |v.records| && v.records[i].size > 0 ==> Start(l.max, i) + v.records[i].size <= v.total
    ensures i >= |v.records| ==> VolumeData(v, i) == []
  {
    hide Start;
  }

  /** A write that fails may add volumes, but none with data. */
  lemma FailedWrite(l: Layout, v: OutView, isOpen: bool, data: seq<Byte>, i: nat)
    requires Tidy(l, v) && WriteView(l, v, isOpen, data).status != Ok
    ensures var w := WriteView(l, v, isOpen, data).view;
            && w.position == v.position && w.total == v.total && w.files == v.files
            && |w.records| >= |v.records|
            && (i < |w.records| ==> w.records[i].size == if i < |v.records| then v.records[i].size else 0)
            && VolumeData(w, i) == VolumeData(v, i)
            && (OpenIsTidy(v, i) ==> OpenIsTidy(w, i))
  {
    hide VolumeOf, OffsetOf, OutName, Start, WriteInto;
  }

  lemma GrownBytes(bytes: seq<Byte>, size: nat)
    ensures |Grown(bytes, size)| == Max(|bytes|, size)
    ensures forall q: nat :: ByteAt(Grown(bytes, size), q) == ByteAt(bytes, q)
  {
  }

  lemma OverwrittenByteAt(f: seq<Byte>, at: nat, chunk: seq<Byte>, q: nat)
    ensures ByteAt(Overwritten(f, at, chunk), q) ==
            if at <= q < at + |chunk| then chunk[q - at] else ByteAt(f, q)
    ensures |Overwritten(f, at, chunk)| == if chunk == [] then |f| else Max(|f|, at + |chunk|)
  {
    hide Overwritten;
    if chunk == [] {
      NothingWritten(f, at);
    } else {
      OverwrittenBytes(f, at, chunk);
    }
  }

  /** Positions in the range written lie in the volume of the cursor, at the same distance from its offset. */
  lemma SameVolumeIff(l: Layout, p: nat, n: nat, q: nat)
    requires l.Valid() && n <= l.max - OffsetOf(l, p)
    ensures p <= q < p + n <==>
            VolumeOf(l, q) == VolumeOf(l, p) && OffsetOf(l, p) <= OffsetOf(l, q) < OffsetOf(l, p) + n
    ensures p <= q < p + n ==> OffsetOf(l, q) - OffsetOf(l, p) == q - p
  {
    hide VolumeOf, OffsetOf, Start;
    PositionBounds(l, p);
    PositionBounds(l, q);
    StartMonotone(l.max, VolumeOf(l, q) + 1, VolumeOf(l, p));
    StartMonotone(l.max, VolumeOf(l, p) + 1, VolumeOf(l, q));
  }

  lemma WriteSpells(l: Layout, v: OutView, f: Flat, isOpen: bool, data: seq<Byte>)
    requires Tidy(l, v) && (isOpen ==> OpenIsTidy(v, VolumeOf(l, v.position)))
    requires l.Valid() && v.position + |data| < TWO_64 && Spells(l, v, f)
    ensures var w := WriteView(l, v, isOpen, data);
            Spells(l, w.view, SparseCall(f, WriteCall(data), Reply(w.status, w.processed)))
  {
    hide VolumeOf, OffsetOf, Accepted, OutName, Overwritten, Start, WriteView, VolumeData, ByteAt, Grown, Tidy;
    var w := WriteView(l, v, isOpen, data);
    var g := SparseCall(f, WriteCall(data), Reply(w.status, w.processed));
    WriteSpellsSize(l, v, f, isOpen, data);
    forall q: nat
      ensures ByteAt(VolumeData(w.view, VolumeOf(l, q)), OffsetOf(l, q)) == ByteAt(g.bytes, q)
    {
      WriteSpellsAt(l, v, f, isOpen, data, q);
    }
  }

  lemma WriteSpellsSize(l: Layout, v: OutView, f: Flat, isOpen: bool, data: seq<Byte>)
    requires Tidy(l, v) && (isOpen ==> OpenIsTidy(v, VolumeOf(l, v.position)))
    requires l.Valid() && v.position + |data| < TWO_64 && Spells(l, v, f)
    ensures var w := WriteView(l, v, isOpen, data);
            var g := SparseCall(f, WriteCall(data), Reply(w.status, w.processed));
            w.view.position == g.position && w.view.total == |g.bytes|
  {
    hide VolumeOf, OffsetOf, Accepted, OutName, Overwritten, Start, WriteView, VolumeData, ByteAt, Grown, Tidy;
    var w := WriteView(l, v, isOpen, data);
    if w.status == Ok {
      WriteVolumes(l, v, isOpen, data, 0);
      GrownBytes(f.bytes, f.position);
      OverwrittenByteAt(Grown(f.bytes, f.position), f.position, data[..w.processed], 0);
    } else {
      FailedWrite(l, v, isOpen, data, 0);
    }
  }

  lemma WriteSpellsAt(l: Layout, v: OutView, f: Flat, isOpen: bool, data: seq<Byte>, q: nat)
    requires Tidy(l, v) && (isOpen ==> OpenIsTidy(v, VolumeOf(l, v.position)))
    requires l.Valid() && Spells(l, v, f)
    ensures var w := WriteView(l, v, isOpen, data);
            var g := SparseCall(f, WriteCall(data), Reply(w.status, w.processed));
            ByteAt(VolumeData(w.view, VolumeOf(l, q)), OffsetOf(l, q)) == ByteAt(g.bytes, q)
  {
    hide VolumeOf, OffsetOf, Accepted, OutName, Overwritten, Start, WriteView, VolumeData, ByteAt, Grown, Tidy;
    var w := WriteView(l, v, isOpen, data);
    var idx, off, i := VolumeOf(l, v.position), OffsetOf(l, v.position), VolumeOf(l, q);
    if w.status == Ok {
      WriteVolumes(l, v, isOpen, data, i);
      var chunk := data[..w.processed];
      SameVolumeIff(l, v.position, |chunk|, q);
      GrownBytes(f.bytes, f.position);
      OverwrittenByteAt(Grown(f.bytes, f.position), f.position, chunk, q);
      OverwrittenByteAt(VolumeData(v, i), off, chunk, OffsetOf(l, q));
    } else {
      FailedWrite(l, v, isOpen, data, i);
    }
  }

  /**
    * When a write is answered with success, and how much it takes: what is left of the volume at the cursor, cut
    * to 32 bits. It needs room for the volume; and where neither a handle nor data is left, the file is created,
    * so it must not be there. The volumes up to the one at the cursor are added in any case, as far as they fit.
    */
  lemma WriteAnswers(l: Layout, v: OutView, isOpen: bool, data: seq<Byte>)
    requires Filed(l, v) && |v.records| <= l.maxSize && (isOpen ==> v.position / l.max < |v.records|)
    ensures var w := WriteView(l, v, isOpen, data);
            var idx := v.position / l.max;
            && (w.status == Ok <==>
                  && (idx < |v.records| || idx < l.maxSize)
                  && (isOpen || (idx < |v.records| && v.records[idx].size > 0) || OutName(l.prefix, idx) !in v.files))
            && (w.status == Ok ==>
                  w.processed == Min(|data|, (l.max - v.position % l.max) % 0x1_0000_0000))
            && (w.status != Ok ==> w.status == Fail && w.processed == 0)
            && |w.view.records| == Max(|v.records|, Min(idx + 1, l.maxSize))
  {
    hide OutName, Overwritten, Start;
    var rs := Extended(l, v.records, v.position / l.max + 1);
    assert Shaped(l, rs);
  }

  // ----- truncating and growing -----

  /** How many volumes SetSize keeps. */
  function KeptCount(l: Layout, v: OutView, size: nat): nat
    requires l.Valid()
  {
    Min(|v.records|, CeilDiv(size, l.max))
  }

  /** SetSize drops the volumes from the new size on. */
  lemma SetSizeDrops(l: Layout, v: OutView, size: nat)
    requires Tidy(l, v) && SetSizeView(l, v, size).status == Ok
    ensures var w := SetSizeView(l, v, size).view;
            && w.position == v.position && w.total == size && |w.records| == KeptCount(l, v, size)
    ensures |Trimmed(v.records, v.files, size).records| == KeptCount(l, v, size)
  {
    hide Trimmed, OutName, CeilDiv, Resized, Start, VolumeData;
    TrimmedIs(l, v.records, v.files, size);
  }

  /** It cuts the volume the new size lies in and leaves the ones before it alone. */
  lemma SetSizeVolumes(l: Layout, v: OutView, size: nat, i: nat)
    requires Tidy(l, v) && SetSizeView(l, v, size).status == Ok
    ensures var w := SetSizeView(l, v, size).view;
            var count := KeptCount(l, v, size);
            && w.position == v.position && w.total == size && |w.records| == count
            && (i < count ==>
                  && Start(l.max, i) < size && w.records[i].path == v.records[i].path
                  && (v.records[i].path in v.files ==> v.records[i].path in w.files)
                  && (i < count - 1 || v.records[i].size <= size - Start(l.max, i) ==>
                        w.records[i] == v.records[i] && VolumeData(w, i) == VolumeData(v, i)
                        && AgreeOn(v.records[i].path, v.files, w.files))
                  && (i == count - 1 && v.records[i].size > size - Start(l.max, i) ==>
                        w.records[i].size == size - Start(l.max, i)
                        && VolumeData(w, i) == Resized(VolumeData(v, i), size - Start(l.max, i))))
            && (i >= count ==> VolumeData(w, i) == [])
  {
    hide Trimmed, OutName, CeilDiv, Resized, Start, KeptCount, NamesTrimmed;
    SetSizeDrops(l, v, size);
    var k := Trimmed(v.records, v.files, size);
    var count := |k.records|;
    if i < count {
      TrimmedKeeps(l, v, size, i);
      TrimmedKeeps(l, v, size, count - 1);
      if i < count - 1 {
        PathsDiffer(l, v.records, i, count - 1);
      }
    }
  }

  lemma TrimmedKeeps(l: Layout, v: OutView, size: nat, i: nat)
    requires Tidy(l, v) && i < |Trimmed(v.records, v.files, size).records|
    ensures Start(l.max, i) < size && AgreeOn(v.records[i].path, v.files, Trimmed(v.records, v.files, size).files)
  {
    hide Trimmed, OutName, CeilDiv, Start;
    TrimmedIs(l, v.records, v.files, size);
    KeptName(l, i, |Trimmed(v.records, v.files, size).records|, |v.records|);
    KeepsVolumeIff(l, size, i);
  }

  lemma ResizedByteAt(f: seq<Byte>, size: nat, q: nat)
    ensures ByteAt(Resized(f, size), q) == if q < size then ByteAt(f, q) else 0
    ensures |Resized(f, size)| == size
  {
  }

  lemma SetSizeSpells(l: Layout, v: OutView, f: Flat, size: nat)
    requires Tidy(l, v) && l.Valid() && Spells(l, v, f)
    ensures var w := SetSizeView(l, v, size);
            Spells(l, w.view, SparseCall(f, SetSizeCall(size), Reply(w.status, 0)))
  {
    hide VolumeOf, OffsetOf, OutName, Start, VolumeData, ByteAt, Tidy, SetSizeView, Resized, CeilDiv;
    var w := SetSizeView(l, v, size);
    SetSizeFails(l, v, size);
    if w.status == Ok {
      SetSizeVolumes(l, v, size, 0);
      ResizedByteAt(f.bytes, size, 0);
      forall q: nat
        ensures ByteAt(VolumeData(w.view, VolumeOf(l, q)), OffsetOf(l, q)) == ByteAt(Resized(f.bytes, size), q)
      {
        ResizedByteAt(f.bytes, size, q);
        SetSizeSpellsAt(l, v, size, q);
      }
    }
  }

  lemma SetSizeFails(l: Layout, v: OutView, size: nat)
    requires l.Valid() && Tidy(l, v)
    ensures SetSizeView(l, v, size).status != Ok ==> SetSizeView(l, v, size).view == v
  {
    hide Filed, CeilDiv;
    assert Filed(l, v);
    SetSizeSucceedsIff(l, v, size);
    SetSizeRefusesIff(l, v, size);
  }

  lemma SetSizeSpellsAt(l: Layout, v: OutView, size: nat, q: nat)
    requires Tidy(l, v) && l.Valid() && SetSizeView(l, v, size).status == Ok
    ensures ByteAt(VolumeData(SetSizeView(l, v, size).view, VolumeOf(l, q)), OffsetOf(l, q)) ==
            if q < size then ByteAt(VolumeData(v, VolumeOf(l, q)), OffsetOf(l, q)) else 0
  {
    hide VolumeOf, OffsetOf, OutName, Start, VolumeData, Tidy, SetSizeView, Resized, CeilDiv;
    var i, off := VolumeOf(l, q), OffsetOf(l, q);
    var count := KeptCount(l, v, size);
    PositionBounds(l, q);
    SetSizeVolumes(l, v, size, i);
    DataBounds(l, v, i);
    if i >= count {
      KeepsVolumeIff(l, size, i);
    } else if i < count - 1 {
      StartMonotone(l.max, i + 1, count - 1);
      SetSizeVolumes(l, v, size, count - 1);
    } else {
      ResizedByteAt(VolumeData(v, i), size - Start(l.max, i), off);
    }
  }

  /** Which volumes are open after SetSize: of those kept the ones that were, and the one that had to be cut. */
  lemma SetSizeLeavesOpen(l: Layout, threshold: nat, s: StreamState, size: nat)
    requires l.Valid() && TidyStream(l, s) && SetSizeView(l, s.view, size).status == Ok && threshold >= 3
    ensures var after := SetSizeHandles(l, s.view, s.lru, threshold, size);
            var count := KeptCount(l, s.view, size);
            var cut := count > 0 && s.view.records[count - 1].size > size - Start(l.max, count - 1);
            && (forall x :: x in after ==> x < count && (x in s.lru || (cut && x == count - 1)))
            && (cut ==> count - 1 in after)
            && (!cut ==> forall x :: x in s.lru && x < count ==> x in after)
  {
    hide Trimmed, Below, CeilDiv, OutName, Start, Resized, Touched, OpenIsTidy;
    SetSizeRefusesIff(l, s.view, size);
    TrimmedIs(l, s.view.records, s.view.files, size);
    var count := KeptCount(l, s.view, size);
    BelowMembers(s.lru, count);
    if count > 0 {
      KeptName(l, count - 1, count, |s.view.records|);
      TouchedHead(Newest, threshold, Below(s.lru, count), count - 1);
    }
  }

  lemma SetSizeKeepsTidy(l: Layout, v: OutView, size: nat)
    requires l.Valid() && Tidy(l, v)
    ensures Tidy(l, SetSizeView(l, v, size).view)
  {
    hide OutName, Start, VolumeData, SetSizeView, Resized, CeilDiv, Shaped, Backed;
    SetSizeFails(l, v, size);
    SetSizeKeepsFiled(l, v, size);
    var w := SetSizeView(l, v, size);
    if w.status == Ok {
      forall i | 0 <= i < |w.view.records|
        ensures |VolumeData(w.view, i)| <= w.view.records[i].size <= l.max
        ensures w.view.records[i].size > 0 ==> Start(l.max, i) + w.view.records[i].size <= w.view.total
      {
        SetSizeKeepsBounds(l, v, size, i);
      }
    }
  }

  lemma SetSizeKeepsBounds(l: Layout, v: OutView, size: nat, i: nat)
    requires l.Valid() && Tidy(l, v) && SetSizeView(l, v, size).status == Ok
    requires i < |SetSizeView(l, v, size).view.records|
    ensures var w := SetSizeView(l, v, size).view;
            && |VolumeData(w, i)| <= w.records[i].size <= l.max
            && (w.records[i].size > 0 ==> Start(l.max, i) + w.records[i].size <= w.total)
  {
    hide OutName, Start, VolumeData, SetSizeView, Resized, CeilDiv, Tidy;
    var count := KeptCount(l, v, size);
    SetSizeVolumes(l, v, size, i);
    DataBounds(l, v, i);
    if i < count - 1 {
      StartStep(l.max, i);
      StartMonotone(l.max, i + 1, count - 1);
      SetSizeVolumes(l, v, size, count - 1);
    } else {
      ResizedByteAt(VolumeData(v, i), size - Start(l.max, i), 0);
    }
  }

  // ----- whole runs -----

  lemma CallKeepsTidy(l: Layout, threshold: nat, s: StreamState, c: Call)
    requires l.Valid() && TidyStream(l, s) && (c.WriteCall? ==> s.view.position + |c.data| < TWO_64)
    ensures TidyStream(l, StreamCall(l, threshold, s, c))
  {
    hide WriteView, SetSizeView, VolumeOf, Tidy, Touched, OpenIsTidy, SetSizeHandles;
    match c
    case WriteCall(data) => WriteKeepsTidyStream(l, threshold, s, data);
    case SeekCall(_, _) => SeekKeepsTidy(l, s, StreamCall(l, threshold, s, c).view);
    case SetSizeCall(size) => SetSizeKeepsTidyStream(l, threshold, s, size);
  }

  lemma SeekKeepsTidy(l: Layout, s: StreamState, v: OutView)
    requires TidyStream(l, s)
    requires v.records == s.view.records && v.files == s.view.files && v.total == s.view.total
    ensures TidyStream(l, StreamState(v, s.lru))
  {
    forall i | 0 <= i < |v.records| ensures VolumeData(v, i) == VolumeData(s.view, i) {
    }
  }

  lemma WriteKeepsTidyStream(l: Layout, threshold: nat, s: StreamState, data: seq<Byte>)
    requires l.Valid() && TidyStream(l, s) && s.view.position + |data| < TWO_64
    ensures TidyStream(l, StreamCall(l, threshold, s, WriteCall(data)))
  {
    hide WriteView, VolumeOf, OffsetOf, Accepted, Tidy, Touched, OpenIsTidy, VolumeData, Overwritten, Low64;
    var idx, isOpen := VolumeOf(l, s.view.position), HandleOpen(l, s);
    OpenIsThere(s, idx);
    WriteKeepsTidy(l, s.view, isOpen, data);
    var t := StreamCall(l, threshold, s, WriteCall(data));
    TouchedHead(Newest, threshold, s.lru, idx);
    forall x | x in t.lru ensures OpenIsTidy(t.view, x) {
      if WriteView(l, s.view, isOpen, data).status == Ok {
        WriteVolumes(l, s.view, isOpen, data, x);
      } else {
        FailedWrite(l, s.view, isOpen, data, x);
      }
    }
  }

  lemma OpenIsThere(s: StreamState, i: nat)
    requires forall x :: x in s.lru ==> OpenIsTidy(s.view, x)
    ensures i in s.lru ==> OpenIsTidy(s.view, i) && i < |s.view.records|
  {
  }

  lemma SetSizeKeepsTidyStream(l: Layout, threshold: nat, s: StreamState, size: nat)
    requires l.Valid() && TidyStream(l, s)
    ensures TidyStream(l, StreamCall(l, threshold, s, SetSizeCall(size)))
  {
    hide Tidy, Touched, VolumeData, Trimmed, Below, CeilDiv, OutName, Start, Resized;
    SetSizeKeepsTidy(l, s.view, size);
    SetSizeFails(l, s.view, size);
    SetSizeRefusesIff(l, s.view, size);
    var t := StreamCall(l, threshold, s, SetSizeCall(size));
    var k := Trimmed(s.view.records, s.view.files, size);
    BelowMembers(s.lru, |k.records|);
    if k.records != [] {
      TouchedHead(Newest, threshold, Below(s.lru, |k.records|), |k.records| - 1);
    }
    forall x | x in t.lru ensures OpenIsTidy(t.view, x) {
      if SetSizeView(l, s.view, size).status == Ok {
        SetSizeVolumes(l, s.view, size, x);
      }
    }
  }

  /** No write of the run goes beyond the last 64-bit position. */
  ghost predicate StaysInRange(l: Layout, threshold: nat, s: StreamState, calls: seq<Call>)
    requires l.Valid()
    decreases |calls|
  {
    calls != [] ==>
      && Passable(calls[0])
      && (calls[0].WriteCall? ==> s.view.position + |calls[0].data| < TWO_64)
      && StaysInRange(l, threshold, StreamCall(l, threshold, s, calls[0]), calls[1..])
  }

  lemma SeekSpells(l: Layout, v: OutView, f: Flat, offset: int, origin: nat, isOpen: bool)
    requires l.Valid() && v.position < TWO_64 && v.total < TWO_64 && -TWO_63 <= offset < TWO_63 && Spells(l, v, f)
    ensures var r := ViewCall(l, v, SeekCall(offset, origin), isOpen);
            Spells(l, r.view, SparseCall(f, SeekCall(offset, origin), r.reply))
  {
    hide VolumeOf, OffsetOf, VolumeData, ByteAt;
    SeekMeans(l, v, offset, origin, isOpen);
    SameData(v, ViewCall(l, v, SeekCall(offset, origin), isOpen).view);
  }

  lemma SameData(v: OutView, w: OutView)
    requires v.records == w.records && v.files == w.files
    ensures forall i: nat :: VolumeData(v, i) == VolumeData(w, i)
  {
  }

  lemma CallSpells(l: Layout, s: StreamState, f: Flat, c: Call)
    requires l.Valid() && TidyStream(l, s) && Spells(l, s.view, f) && Passable(c)
    requires s.view.position < TWO_64 && s.view.total < TWO_64
    requires c.WriteCall? ==> s.view.position + |c.data| < TWO_64
    ensures var r := Answered(l, s, c); Spells(l, r.view, SparseCall(f, c, r.reply))
  {
    hide VolumeOf, OpenIsTidy, Tidy, Spells, SparseCall, WriteView, SetSizeView;
    match c
    case WriteCall(data) =>
      OpenIsThere(s, VolumeOf(l, s.view.position));
      WriteSpells(l, s.view, f, HandleOpen(l, s), data);
    case SeekCall(offset, origin) => SeekSpells(l, s.view, f, offset, origin, HandleOpen(l, s));
    case SetSizeCall(size) => SetSizeSpells(l, s.view, f, size);
  }

  /** Cursor and total stay 64-bit numbers. */
  lemma CallStaysInRange(l: Layout, s: StreamState, c: Call)
    requires l.Valid() && Passable(c) && s.view.position < TWO_64 && s.view.total < TWO_64
    ensures Answered(l, s, c).view.position < TWO_64 && Answered(l, s, c).view.total < TWO_64
  {
    hide VolumeOf, OffsetOf, Accepted, OutName, Overwritten, Start, Low64, Trimmed, CeilDiv, Resized;
  }

  /**
    * Every run of a stream is a run on one file: whatever is written where, holes and growth included, and
    * whichever handles are closed in between, the volumes hold at each position what was written there last
    * and has not been cut off since, or else zero; and cursor and size are those of that file.
    */
  lemma {:induction false} SparseRunMeans(l: Layout, threshold: nat, s: StreamState, f: Flat, calls: seq<Call>)
    requires l.Valid() && TidyStream(l, s) && Spells(l, s.view, f)
    requires s.view.position < TWO_64 && s.view.total < TWO_64 && StaysInRange(l, threshold, s, calls)
    ensures var r := StreamRun(l, threshold, s, calls);
            |r.replies| == |calls| && Spells(l, r.state.view, SparseRun(f, calls, r.replies))
    decreases |calls|
  {
    hide TidyStream, Spells, SparseCall, Answered, HandlesAfter, Passable;
    if calls != [] {
      var t := StreamCall(l, threshold, s, calls[0]);
      var g := SparseCall(f, calls[0], Answered(l, s, calls[0]).reply);
      CallSpells(l, s, f, calls[0]);
      CallKeepsTidy(l, threshold, s, calls[0]);
      CallStaysInRange(l, s, calls[0]);
      SparseRunMeans(l, threshold, t, g, calls[1..]);
      var rest := StreamRun(l, threshold, t, calls[1..]);
      assert ([Answered(l, s, calls[0]).reply] + rest.replies)[1..] == rest.replies;
    }
  }

  lemma NewIsTidy(l: Layout, files: Files)
    requires l.Valid()
    ensures TidyStream(l, NewStream(files)) && Spells(l, NewStream(files).view, Flat([], 0))
  {
  }

  /** The same of a stream object on a disk that may already hold anything. */
  method MakeSparseCalls(layout: Layout, files: Files, calls: seq<Call>, threshold: nat)
    returns (view: OutView, replies: seq<Reply>)
    requires layout.Valid() && threshold >= 3 && AllPassable(calls)
    requires StaysInRange(layout, threshold, NewStream(files), calls)
    ensures |replies| == |calls| && Spells(layout, view, SparseRun(Flat([], 0), calls, replies))
  {
    hide TidyStream, Spells, StaysInRange, StreamRun, SparseRun;
    NewIsTidy(layout, files);
    SparseRunMeans(layout, threshold, NewStream(files), Flat([], 0), calls);
    view, replies := MakeCallsOnNew(layout, files, calls, threshold);
  }
}
