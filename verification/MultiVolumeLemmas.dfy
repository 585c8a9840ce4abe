/** The multi-volume output stream means one flat sequence of bytes: the step-by-step proofs. */
module MultiVolumeLemmas {
  import opened Common
  import opened VolumesCaches
  import opened VolumeNames
  import opened MultiVolumeSpec

  // ----- writing -----

  /** Writing at `p` inside volume `idx` leaves the slice of every other volume alone. */
  lemma SliceElsewhere(max: nat, bytes: seq<Byte>, p: nat, chunk: seq<Byte>, idx: nat, i: nat)
    requires max > 0 && p <= |bytes| && chunk != [] && i != idx
    requires Start(max, idx) <= p && p + |chunk| <= Start(max, idx + 1)
    requires Start(max, i) < |bytes|
    ensures var after := Overwritten(bytes, p, chunk);
            Start(max, i) < |after| && Slice(max, after, i) == Slice(max, bytes, i)
  {
    hide Start, Overwritten;
    OverwrittenBytes(bytes, p, chunk);
    StartMonotone(max, i, i + 1);
    StartMonotone(max, i + 1, idx);
    StartMonotone(max, idx + 1, i);
    var after := Overwritten(bytes, p, chunk);
    var lo, hi := Start(max, i), Min(Start(max, i + 1), |bytes|);
    assert hi == Min(Start(max, i + 1), |after|);
    assert after[lo..hi] == bytes[lo..hi];
  }

  /** The slice of the volume written to is overwritten at the offset within the volume. */
  lemma SliceWritten(max: nat, bytes: seq<Byte>, p: nat, chunk: seq<Byte>, idx: nat)
    requires max > 0 && p <= |bytes| && chunk != []
    requires Start(max, idx) <= p && p + |chunk| <= Start(max, idx + 1)
    ensures var after := Overwritten(bytes, p, chunk);
            && Start(max, idx) < |after| && Start(max, idx) <= |bytes|
            && Slice(max, after, idx) == Overwritten(Slice(max, bytes, idx), p - Start(max, idx), chunk)
  {
    StartStep(max, idx);
    hide Overwritten, Start;
    OverwrittenBytes(bytes, p, chunk);
    OverwrittenBytes(Slice(max, bytes, idx), p - Start(max, idx), chunk);
    var lo := Start(max, idx);
    var after := Overwritten(bytes, p, chunk);
    var a, b := Slice(max, after, idx), Overwritten(Slice(max, bytes, idx), p - lo, chunk);
    assert |a| == Min(lo + max, |after|) - lo;
    assert |a| == |b|;
    forall j | 0 <= j < |a| ensures a[j] == b[j] {
      assert a[j] == after[lo + j];
    }
  }

  lemma CountAfterWrite(max: nat, size: nat, p: nat, n: nat, idx: nat)
    requires max > 0 && p <= size && n > 0
    requires Start(max, idx) <= p && p + n <= Start(max, idx + 1)
    ensures CeilDiv(Max(size, p + n), max) == Max(CeilDiv(size, max), idx + 1)
    ensures idx <= CeilDiv(size, max)
    ensures idx == CeilDiv(size, max) ==> p == size == Start(max, idx)
  {
    hide CeilDiv, Start;
    var k := CeilDiv(size, max);
    CeilDivMeaning(size, max, k);
    CeilDivMeaning(Max(size, p + n), max, Max(k, idx + 1));
    StartMonotone(max, k, idx);
    StartStep(max, k);
    StartMonotone(max, k + 1, idx);
    StartMonotone(max, idx + 1, k);
    StartMonotone(max, k, idx + 1);
    if k > 0 {
      StartMonotone(max, k - 1, idx);
    }
  }

  lemma PositionBounds(l: Layout, p: nat)
    requires l.Valid()
    ensures Start(l.max, VolumeOf(l, p)) <= p < Start(l.max, VolumeOf(l, p) + 1)
    ensures OffsetOf(l, p) == p - Start(l.max, VolumeOf(l, p))
    ensures Start(l.max, VolumeOf(l, p) + 1) == Start(l.max, VolumeOf(l, p)) + l.max
  {
    QuotientBounds(p, l.max);
  }

  /**
    * The state in which Write finds the volume at the cursor: the archive itself, or with one fresh volume at the
    * end.
    */
  ghost predicate Grown(l: Layout, v: OutView, grown: OutView, idx: nat) {
    && grown.position == v.position && grown.total == v.total
    && idx < |grown.records| <= l.maxSize
    && (if idx < |v.records| then grown == v
        else
          && idx == |v.records|
          && grown.records == v.records + [FreshRecord(l, idx)]
          && OutName(l.prefix, idx) !in v.files
          && grown.files == v.files[OutName(l.prefix, idx) := []])
  }

  /** Writing into an open volume of a dense archive, or into a fresh one right after its last byte. */
  lemma WriteIntoRepresents(l: Layout, v: OutView, bytes: seq<Byte>, data: seq<Byte>, grown: OutView)
    requires Represents(l, v, bytes) && v.position <= |bytes| && v.position + |data| < TWO_64
    requires Accepted(l, v.position, |data|) > 0
    requires Grown(l, v, grown, VolumeOf(l, v.position))
    ensures var w := WriteInto(l, grown, VolumeOf(l, v.position), data);
            && Represents(l, w.view, Overwritten(bytes, v.position, data[..w.processed]))
            && w.view.position == v.position + w.processed
  {
    hide HoldsSlice, CeilDiv, OutName, Slice, Overwritten, VolumeOf, OffsetOf, Start, Accepted;
    var p, idx := v.position, VolumeOf(l, v.position);
    var w := WriteInto(l, grown, idx, data);
    var n := w.processed;
    var after := Overwritten(bytes, p, data[..n]);
    PositionBounds(l, p);
    CountAfterWrite(l.max, |bytes|, p, n, idx);
    OverwrittenSize(bytes, p, data[..n]);
    WrittenVolumeHolds(l, v, bytes, data, grown);
    forall i | 0 <= i < |w.view.records| ensures HoldsSlice(l, w.view, after, i) {
      if i != idx {
        OtherVolumeHolds(l, v, bytes, data, grown, i);
      }
    }
    assert Shaped(l, w.view.records);
  }

  lemma OtherVolumeHolds(l: Layout, v: OutView, bytes: seq<Byte>, data: seq<Byte>, grown: OutView, i: nat)
    requires Represents(l, v, bytes) && v.position <= |bytes|
    requires Accepted(l, v.position, |data|) > 0
    requires Grown(l, v, grown, VolumeOf(l, v.position))
    requires i < |v.records| && i != VolumeOf(l, v.position)
    ensures var w := WriteInto(l, grown, VolumeOf(l, v.position), data);
            HoldsSlice(l, w.view, Overwritten(bytes, v.position, data[..w.processed]), i)
  {
    hide CeilDiv, OutName, Slice, Overwritten, VolumeOf, OffsetOf, Start, Accepted;
    var p, idx := v.position, VolumeOf(l, v.position);
    var chunk := data[..Accepted(l, p, |data|)];
    PositionBounds(l, p);
    assert HoldsSlice(l, v, bytes, i);
    SliceElsewhere(l.max, bytes, p, chunk, idx, i);
    if OutName(l.prefix, i) == OutName(l.prefix, idx) {
      OutNamesDistinct(l.prefix, i, idx);
    }
  }

  lemma WrittenVolumeHolds(l: Layout, v: OutView, bytes: seq<Byte>, data: seq<Byte>, grown: OutView)
    requires Represents(l, v, bytes) && v.position <= |bytes|
    requires Accepted(l, v.position, |data|) > 0
    requires Grown(l, v, grown, VolumeOf(l, v.position))
    ensures var idx := VolumeOf(l, v.position);
            var w := WriteInto(l, grown, idx, data);
            HoldsSlice(l, w.view, Overwritten(bytes, v.position, data[..w.processed]), idx)
  {
    hide CeilDiv, OutName, Slice, Overwritten, VolumeOf, OffsetOf, Start, Accepted;
    var p, idx := v.position, VolumeOf(l, v.position);
    var n := Accepted(l, p, |data|);
    PositionBounds(l, p);
    CountAfterWrite(l.max, |bytes|, p, n, idx);
    SliceWritten(l.max, bytes, p, data[..n], idx);
    OldSlice(l, v, bytes, idx);
    var before := if idx < |v.records| then v.files[OutName(l.prefix, idx)] else [];
    OverwrittenSize(before, p - Start(l.max, idx), data[..n]);
  }

  /** What the file at the cursor held before: its slice, or nothing when the volume is new. */
  lemma OldSlice(l: Layout, v: OutView, bytes: seq<Byte>, idx: nat)
    requires Represents(l, v, bytes) && idx <= |v.records|
    ensures idx < |v.records| ==>
              Start(l.max, idx) < |bytes| && OutName(l.prefix, idx) in v.files
              && v.files[OutName(l.prefix, idx)] == Slice(l.max, bytes, idx)
              && v.records[idx].size == |Slice(l.max, bytes, idx)|
    ensures Start(l.max, idx) == |bytes| ==> Slice(l.max, bytes, idx) == []
  {
    hide CeilDiv, OutName, Start;
    if idx < |v.records| {
      assert HoldsSlice(l, v, bytes, idx);
    }
    StartMonotone(l.max, idx, idx + 1);
  }

  lemma OverwrittenSize(f: seq<Byte>, at: nat, chunk: seq<Byte>)
    requires chunk != []
    ensures |Overwritten(f, at, chunk)| == Max(at + |chunk|, |f|)
  {
    OverwrittenBytes(f, at, chunk);
  }

  /** What Write finds: the archive, or the archive with a fresh volume, whatever handles are open. */
  lemma WriteFinds(l: Layout, v: OutView, bytes: seq<Byte>, isOpen: bool, data: seq<Byte>, stale: Files)
    returns (grown: OutView)
    requires Represents(l, v, bytes) && OnlyStale(l, v, stale) && OutName(l.prefix, VolumeOf(l, v.position)) !in stale
    requires v.position <= |bytes| && VolumeOf(l, v.position) < l.maxSize
    requires isOpen ==> VolumeOf(l, v.position) < |v.records|
    ensures Grown(l, v, grown, VolumeOf(l, v.position))
    ensures WriteView(l, v, isOpen, data) == WriteInto(l, grown, VolumeOf(l, v.position), data)
  {
    hide CeilDiv, OutName, VolumeOf, OffsetOf, Start, Slice, WriteInto;
    var p, idx := v.position, VolumeOf(l, v.position);
    PositionBounds(l, p);
    CountAfterWrite(l.max, |bytes|, p, 1, idx);
    var rs := Extended(l, v.records, idx + 1);
    if idx < |v.records| {
      OldSlice(l, v, bytes, idx);
      SliceNotEmpty(l.max, bytes, idx);
      assert rs == v.records;
      grown := v;
      assert Opened(v.files, rs[idx], isOpen) == Some(v.files);
      assert v.(records := rs, files := v.files) == v;
    } else {
      assert rs == v.records + [FreshRecord(l, idx)];
      assert Opened(v.files, rs[idx], isOpen) == Some(v.files[OutName(l.prefix, idx) := []]);
      grown := v.(records := rs, files := v.files[OutName(l.prefix, idx) := []]);
    }
  }

  lemma SliceNotEmpty(max: nat, bytes: seq<Byte>, i: nat)
    requires max > 0 && Start(max, i) < |bytes|
    ensures |Slice(max, bytes, i)| > 0
  {
    StartStep(max, i);
    hide Start;
  }

  /**
    * Write on a dense archive: whatever handles are open, the call succeeds, moves the cursor by what
    * it accepted, and the volumes spell out the flat sequence overwritten at the cursor.
    */
  lemma WriteRepresents(l: Layout, v: OutView, bytes: seq<Byte>, isOpen: bool, data: seq<Byte>, stale: Files)
    requires Represents(l, v, bytes) && OnlyStale(l, v, stale) && OutName(l.prefix, VolumeOf(l, v.position)) !in stale
    requires v.position <= |bytes| && v.position + |data| < TWO_64
    requires VolumeOf(l, v.position) < l.maxSize
    requires Accepted(l, v.position, |data|) > 0
    requires isOpen ==> VolumeOf(l, v.position) < |v.records|
    ensures var w := WriteView(l, v, isOpen, data);
            && w.status == Ok
            && w.processed == Accepted(l, v.position, |data|)
            && w.view.position == v.position + w.processed
            && Represents(l, w.view, Overwritten(bytes, v.position, data[..w.processed]))
            && OnlyStale(l, w.view, stale)
  {
    hide Represents, VolumeOf, Accepted, OutName, WriteView, Overwritten, OffsetOf, WriteInto, OnlyStale;
    RecordPaths(l, v, bytes);
    var grown := WriteFinds(l, v, bytes, isOpen, data, stale);
    WriteIntoRepresents(l, v, bytes, data, grown);
    OnlyStaleAfter(l, v, data, grown, stale);
  }

  lemma OnlyStaleAfter(l: Layout, v: OutView, data: seq<Byte>, grown: OutView, stale: Files)
    requires l.Valid() && Grown(l, v, grown, VolumeOf(l, v.position))
    requires OnlyStale(l, v, stale) && OutName(l.prefix, VolumeOf(l, v.position)) !in stale
    requires grown.records[VolumeOf(l, v.position)].path == OutName(l.prefix, VolumeOf(l, v.position))
    ensures var w := WriteInto(l, grown, VolumeOf(l, v.position), data);
            w.processed == Accepted(l, v.position, |data|) && OnlyStale(l, w.view, stale)
  {
    hide VolumeOf, Accepted, OutName, Overwritten, OffsetOf;
    var idx := VolumeOf(l, v.position);
    var w := WriteInto(l, grown, idx, data);
    forall i: nat | i >= |w.view.records| ensures AgreeOn(OutName(l.prefix, i), w.view.files, stale) {
      assert AgreeOn(OutName(l.prefix, i), v.files, stale);
      if OutName(l.prefix, i) == OutName(l.prefix, idx) {
        OutNamesDistinct(l.prefix, i, idx);
      }
    }
  }

  lemma RecordPaths(l: Layout, v: OutView, bytes: seq<Byte>)
    requires Represents(l, v, bytes)
    ensures l.Valid() && forall i :: 0 <= i < |v.records| ==> v.records[i].path == OutName(l.prefix, i)
  {
    hide OutName;
  }

  /** A dense archive that has used up its capacity refuses to grow and stays as it is. */
  lemma WriteBeyondCapacity(l: Layout, v: OutView, bytes: seq<Byte>, isOpen: bool, data: seq<Byte>)
    requires Represents(l, v, bytes) && v.position <= |bytes|
    requires VolumeOf(l, v.position) >= l.maxSize
    ensures WriteView(l, v, isOpen, data) == WriteResult(v, Fail, 0)
  {
    PositionBounds(l, v.position);
    CountAfterWrite(l.max, |bytes|, v.position, 1, VolumeOf(l, v.position));
    assert Extended(l, v.records, l.maxSize) == v.records;
  }

  /** Every call makes progress at every position exactly when the volume size fits in 32 bits. */
  lemma WriteProgress(l: Layout)
    requires l.Valid()
    ensures (forall p: nat, size: nat :: size > 0 ==> Accepted(l, p, size) > 0) <==> l.max < TWO_32
  {
    if l.max >= TWO_32 {
      var p: nat := l.max - TWO_32;
      QuotientIs(p, l.max, 0);
      assert OffsetOf(l, p) == p;
      assert Accepted(l, p, 1) == 0;
    }
  }

  // ----- eviction -----

  /** The volume a Write would have to reopen exists on disk although its recorded size is zero. */
  predicate HidesEmptyFile(l: Layout, v: OutView)
    requires l.Valid()
  {
    var idx := VolumeOf(l, v.position);
    && idx < |v.records| && v.records[idx].size == 0 && v.records[idx].path in v.files
  }

  /**
    * Whether the handle of the volume at the cursor was closed in the meantime makes no difference to
    * Write, unless that volume is an empty file: it would be created again, and that fails.
    */
  lemma EvictionVisibleIff(l: Layout, v: OutView, data: seq<Byte>)
    requires l.Valid() && VolumeOf(l, v.position) < |v.records|
    requires var r := v.records[VolumeOf(l, v.position)]; r.path in v.files
    ensures WriteView(l, v, false, data) == WriteView(l, v, true, data) <==> !HidesEmptyFile(l, v)
  {
    var idx := VolumeOf(l, v.position);
    assert Extended(l, v.records, idx + 1) == v.records;
    assert v.(records := v.records, files := v.files) == v;
  }

  /** In a dense archive no volume is empty, so eviction is never visible. */
  lemma DenseHidesNothing(l: Layout, v: OutView, bytes: seq<Byte>)
    requires Represents(l, v, bytes)
    ensures !HidesEmptyFile(l, v)
  {
    var idx := VolumeOf(l, v.position);
    if idx < |v.records| {
      assert HoldsSlice(l, v, bytes, idx);
      StartMonotone(l.max, idx, idx + 1);
      StartStep(l.max, idx);
    }
  }

  /**
    * How such a file comes about: a call that writes nothing at the end of a full last volume. From then
    * on every Write there succeeds while the handle is kept and fails once it has been evicted.
    */
  lemma EmptyWriteHidesFile(l: Layout, v: OutView, bytes: seq<Byte>, data: seq<Byte>, stale: Files)
    requires Represents(l, v, bytes) && OnlyStale(l, v, stale) && OutName(l.prefix, VolumeOf(l, v.position)) !in stale
    requires v.position == |bytes| < TWO_64 && OffsetOf(l, v.position) == 0 && VolumeOf(l, v.position) < l.maxSize
    ensures var w := WriteView(l, v, false, []);
            && w.status == Ok && HidesEmptyFile(l, w.view)
            && WriteView(l, w.view, true, data).status == Ok
            && WriteView(l, w.view, false, data).status == Fail
  {
    hide OutName, CeilDiv, VolumeOf, OffsetOf, Start, Slice, Overwritten;
    var idx := VolumeOf(l, v.position);
    PositionBounds(l, v.position);
    CountAfterWrite(l.max, |bytes|, |bytes|, 1, idx);
    AtEndOfLastVolume(l, |bytes|, |v.records|);
    var grown := WriteFinds(l, v, bytes, false, [], stale);
    var w := WriteInto(l, grown, idx, []).view;
    assert w.records[idx] == FreshRecord(l, idx) && |w.records| == idx + 1;
    assert Extended(l, w.records, idx + 1) == w.records;
  }

  /** A position at a volume boundary that is the end of the archive is the start of the next volume. */
  lemma AtEndOfLastVolume(l: Layout, size: nat, n: nat)
    requires l.Valid() && n == CeilDiv(size, l.max) && OffsetOf(l, size) == 0
    ensures VolumeOf(l, size) == n
  {
    hide CeilDiv, VolumeOf, OffsetOf, Start;
    PositionBounds(l, size);
    CeilDivMeaning(size, l.max, n);
    CeilDivMeaning(size, l.max, VolumeOf(l, size));
    if VolumeOf(l, size) > 0 {
      StartStep(l.max, VolumeOf(l, size) - 1);
    }
  }

  // ----- truncating -----

  lemma SlicePrefix(max: nat, bytes: seq<Byte>, size: nat, i: nat)
    requires max > 0 && size <= |bytes| && Start(max, i) < size
    ensures var s := Slice(max, bytes, i);
            Slice(max, bytes[..size], i) == if Start(max, i + 1) <= size then s else Resized(s, size - Start(max, i))
  {
    hide Start;
    StartMonotone(max, i, i + 1);
    var lo, hi := Start(max, i), Min(Start(max, i + 1), |bytes|);
    SliceOfSlice(bytes, 0, size, lo, Min(hi, size));
    assert bytes[0..size] == bytes[..size];
    if Start(max, i + 1) > size {
      SliceOfSlice(bytes, lo, hi, 0, size - lo);
    }
  }

  ghost predicate NamesTrimmed(l: Layout, path: string, from: nat, to: nat) {
    exists i: nat :: from <= i < to && path == OutName(l.prefix, i)
  }

  lemma KeepsVolumeIff(l: Layout, size: nat, i: nat)
    requires l.Valid()
    ensures Start(l.max, i) < size <==> i < CeilDiv(size, l.max)
  {
    var c := CeilDiv(size, l.max);
    CeilDivMeaning(size, l.max, c);
    if i < c {
      StartMonotone(l.max, i, c - 1);
    } else {
      StartMonotone(l.max, c, i);
    }
  }

  /** Trimming keeps exactly the volumes that start before the new size and deletes the files of the others. */
  lemma {:induction false} TrimmedIs(l: Layout, rs: seq<VolumeRecord>, files: Files, size: nat)
    requires l.Valid() && Shaped(l, rs)
    ensures var k := Trimmed(rs, files, size);
            && |k.records| == Min(|rs|, CeilDiv(size, l.max))
            && (forall path :: path in k.files <==> path in files && !NamesTrimmed(l, path, |k.records|, |rs|))
            && (forall path :: path in k.files ==> k.files[path] == files[path])
  {
    hide CeilDiv, OutName, Start;
    if rs != [] {
      KeepsVolumeIff(l, size, |rs| - 1);
      var last := rs[|rs| - 1];
      if last.offset >= size {
        var k := Trimmed(rs[..|rs| - 1], files - {last.path}, size);
        TrimmedIs(l, rs[..|rs| - 1], files - {last.path}, size);
        forall path ensures NamesTrimmed(l, path, |k.records|, |rs|)
          <==> NamesTrimmed(l, path, |k.records|, |rs| - 1) || path == last.path {
        }
      }
    }
  }

  /** SetSize to a size the archive already has: the volumes spell out exactly the flat prefix of that size. */
  lemma SetSizeRepresents(l: Layout, v: OutView, bytes: seq<Byte>, size: nat, stale: Files)
    requires Represents(l, v, bytes) && OnlyStale(l, v, stale) && size <= |bytes|
    requires CeilDiv(size, l.max) <= l.maxSize - 1
    ensures var s := SetSizeView(l, v, size);
            && s.status == Ok
            && s.view.position == v.position
            && Represents(l, s.view, bytes[..size])
            && OnlyStale(l, s.view, stale)
  {
    hide Slice, HoldsSlice, CeilDiv, Trimmed, OutName, LastCut, Start, OnlyStale;
    var c := CeilDiv(size, l.max);
    var k := Trimmed(v.records, v.files, size);
    CeilDivMonotone(size, |bytes|, l.max);
    TrimmedIs(l, v.records, v.files, size);
    assert |k.records| == c;
    var u := v.(records := k.records, files := k.files);
    forall i | 0 <= i < c ensures HoldsSlice(l, u, bytes, i) {
      HeldFileKept(l, v, bytes, i, u);
    }
    TruncatedRepresents(l, u, bytes, size);
    TrimmingKeepsStale(l, v, u, stale);
    CuttingKeepsStale(l, u, size, stale);
  }

  lemma TrimmingKeepsStale(l: Layout, v: OutView, u: OutView, stale: Files)
    requires OnlyStale(l, v, stale) && |u.records| <= |v.records|
    requires forall path :: path in u.files <==> path in v.files && !NamesTrimmed(l, path, |u.records|, |v.records|)
    requires forall path :: path in u.files ==> u.files[path] == v.files[path]
    ensures OnlyStale(l, u, stale)
  {
    hide OutName;
    forall i: nat | i >= |u.records| ensures AgreeOn(OutName(l.prefix, i), u.files, stale) {
      if i < |v.records| {
        assert NamesTrimmed(l, OutName(l.prefix, i), |u.records|, |v.records|);
      } else {
        assert AgreeOn(OutName(l.prefix, i), v.files, stale);
        forall j: nat | j < |v.records| ensures OutName(l.prefix, j) != OutName(l.prefix, i) {
          if OutName(l.prefix, j) == OutName(l.prefix, i) {
            OutNamesDistinct(l.prefix, i, j);
          }
        }
      }
    }
  }

  lemma CuttingKeepsStale(l: Layout, u: OutView, size: nat, stale: Files)
    requires Shaped(l, u.records) && OnlyStale(l, u, stale)
    requires u.records != [] ==> u.records[|u.records| - 1].offset < size
    requires LastCut(Kept(u.records, u.files), size).Some?
    ensures var cut := LastCut(Kept(u.records, u.files), size).value;
            OnlyStale(l, OutView(cut.records, cut.files, u.position, size), stale)
  {
    hide OutName, Resized, Start;
    var cut := LastCut(Kept(u.records, u.files), size).value;
    forall i: nat | i >= |u.records| ensures AgreeOn(OutName(l.prefix, i), cut.files, stale) {
      assert AgreeOn(OutName(l.prefix, i), u.files, stale);
      if u.records != [] && OutName(l.prefix, i) == OutName(l.prefix, |u.records| - 1) {
        OutNamesDistinct(l.prefix, i, |u.records| - 1);
      }
    }
  }

  lemma CeilDivMonotone(a: nat, b: nat, m: nat)
    requires m > 0 && a <= b
    ensures CeilDiv(a, m) <= CeilDiv(b, m)
  {
    var i, j := CeilDiv(a, m), CeilDiv(b, m);
    CeilDivMeaning(a, m, i);
    CeilDivMeaning(b, m, j);
    if j < i {
      StartMonotone(m, j, i - 1);
    }
  }

  lemma HeldFileKept(l: Layout, v: OutView, bytes: seq<Byte>, i: nat, u: OutView)
    requires Represents(l, v, bytes) && i < |u.records| <= |v.records| && u.records == v.records[..|u.records|]
    requires forall path :: path in v.files && !NamesTrimmed(l, path, |u.records|, |v.records|) ==> path in u.files
    requires forall path :: path in u.files && path in v.files ==> u.files[path] == v.files[path]
    ensures HoldsSlice(l, u, bytes, i)
  {
    hide Slice, OutName, CeilDiv, Start;
    assert HoldsSlice(l, v, bytes, i);
    forall j: nat | |u.records| <= j ensures OutName(l.prefix, j) != OutName(l.prefix, i) {
      if OutName(l.prefix, j) == OutName(l.prefix, i) {
        OutNamesDistinct(l.prefix, i, j);
      }
    }
  }

  /** The first volumes of a dense archive, as they are before the last of them is cut. */
  ghost predicate Trimmable(l: Layout, u: OutView, bytes: seq<Byte>, size: nat) {
    && l.Valid() && size <= |bytes|
    && |u.records| == CeilDiv(size, l.max)
    && Shaped(l, u.records)
    && forall i :: 0 <= i < |u.records| ==> HoldsSlice(l, u, bytes, i)
  }

  lemma TruncatedRepresents(l: Layout, u: OutView, bytes: seq<Byte>, size: nat)
    requires Trimmable(l, u, bytes, size) && CeilDiv(size, l.max) <= l.maxSize
    requires u.records != [] ==> u.records[|u.records| - 1].offset < size
    ensures var cut := LastCut(Kept(u.records, u.files), size);
            && cut.Some? && cut.value.files.Keys == u.files.Keys && |cut.value.records| == |u.records|
            && Represents(l, OutView(cut.value.records, cut.value.files, u.position, size), bytes[..size])
  {
    hide HoldsSlice, CeilDiv, OutName, LastCut, Start;
    var c := |u.records|;
    if c == 0 {
      CeilDivMeaning(size, l.max, 0);
      StartStep(l.max, 0);
      NothingToCut(u.files, size);
    } else {
      LastVolumeHolds(l, u, bytes, size);
      CutKeepsRecords(l, u, size);
      var cut := LastCut(Kept(u.records, u.files), size).value;
      var w := OutView(cut.records, cut.files, u.position, size);
      forall i | 0 <= i < c ensures HoldsSlice(l, w, bytes[..size], i) {
        if i < c - 1 {
          EarlierVolumeHolds(l, u, bytes, size, i);
        }
      }
    }
  }

  lemma NothingToCut(files: Files, size: nat)
    ensures LastCut(Kept([], files), size) == Some(Kept([], files))
  {
  }

  lemma CutKeepsRecords(l: Layout, u: OutView, size: nat)
    requires u.records != [] && u.records[|u.records| - 1].offset < size
    requires Shaped(l, u.records) && LastCut(Kept(u.records, u.files), size).Some?
    ensures var cut := LastCut(Kept(u.records, u.files), size).value;
            |cut.records| == |u.records| && Shaped(l, cut.records) && cut.files.Keys == u.files.Keys
  {
    hide OutName, Start, Resized;
  }

  /** Where the new end falls: in the last volume that is kept. */
  lemma EndInLastVolume(l: Layout, size: nat, c: nat)
    requires l.Valid() && c == CeilDiv(size, l.max) && c > 0
    ensures Start(l.max, c - 1) < size <= Start(l.max, c) == Start(l.max, c - 1) + l.max
  {
    hide CeilDiv, Start;
    CeilDivMeaning(size, l.max, c);
    StartStep(l.max, c - 1);
  }

  lemma LastVolumeHolds(l: Layout, u: OutView, bytes: seq<Byte>, size: nat)
    requires Trimmable(l, u, bytes, size) && u.records != [] && u.records[|u.records| - 1].offset < size
    ensures var cut := LastCut(Kept(u.records, u.files), size);
            && cut.Some? && |cut.value.records| == |u.records|
            && HoldsSlice(l, OutView(cut.value.records, cut.value.files, u.position, size),
                          bytes[..size], |u.records| - 1)
  {
    hide CeilDiv, OutName, Start, Resized;
    var c := |u.records|;
    assert HoldsSlice(l, u, bytes, c - 1);
    EndInLastVolume(l, size, c);
    SlicePrefix(l.max, bytes, size, c - 1);
  }

  lemma EarlierVolumeHolds(l: Layout, u: OutView, bytes: seq<Byte>, size: nat, i: nat)
    requires Trimmable(l, u, bytes, size) && i < |u.records| - 1 && u.records[|u.records| - 1].offset < size
    requires LastCut(Kept(u.records, u.files), size).Some?
    ensures var cut := LastCut(Kept(u.records, u.files), size).value;
            && |cut.records| == |u.records|
            && HoldsSlice(l, OutView(cut.records, cut.files, u.position, size), bytes[..size], i)
  {
    hide CeilDiv, OutName, Start, Resized, Slice;
    var c := |u.records|;
    assert HoldsSlice(l, u, bytes, i);
    EndInLastVolume(l, size, c);
    StartMonotone(l.max, i + 1, c - 1);
    StartMonotone(l.max, i, c - 1);
    SlicePrefix(l.max, bytes, size, i);
    if OutName(l.prefix, i) == OutName(l.prefix, c - 1) {
      OutNamesDistinct(l.prefix, i, c - 1);
    }
  }

  /**
    * On any archive and for any size, growth included: SetSize refuses what needs too many volumes, and then does
    * nothing.
    */
  lemma SetSizeRefusesIff(l: Layout, v: OutView, size: nat)
    requires l.Valid()
    ensures SetSizeView(l, v, size).status == InvalidArgument <==> CeilDiv(size, l.max) > l.maxSize - 1
    ensures CeilDiv(size, l.max) > l.maxSize - 1 ==> SetSizeView(l, v, size) == SetSizeResult(v, InvalidArgument)
  {
    hide CeilDiv, Trimmed, LastCut;
  }
}
