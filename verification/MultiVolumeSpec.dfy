/**
  * What the multi-volume output stream computes, apart from handles: its volume records, the files
  * on disk, its position and its total size. The flat meaning is one sequence of bytes, cut into
  * slices of the maximum volume size.
  */
module MultiVolumeSpec {
  import opened Common
  import opened VolumesCaches
  import opened VolumeNames

  type Files = map<string, seq<Byte>>

  datatype Status = Ok | Fail | InvalidArgument | NegativeSeek | InvalidFunction

  /** What never changes in an output stream: archive name, volume size, and the capacity of its vector of volumes. */
  datatype Layout = Layout(prefix: string, max: nat, maxSize: nat) {
    predicate Valid() {
      0 < max < TWO_63 && 0 < maxSize < NO_VOLUME
    }
  }

  datatype OutView = OutView(records: seq<VolumeRecord>, files: Files, position: nat, total: nat)

  // ----- one file -----

  function Padding(n: nat): (s: seq<Byte>)
    ensures |s| == n && forall i :: 0 <= i < n ==> s[i] == 0
  {
    if n == 0 then [] else Padding(n - 1) + [0]
  }

  /** Writing `chunk` at `at`: a gap before it is filled with zeros; writing nothing changes nothing. */
  function Overwritten(f: seq<Byte>, at: nat, chunk: seq<Byte>): seq<Byte> {
    if chunk == [] then f
    else
      var padded := if |f| < at then f + Padding(at - |f|) else f;
      padded[..at] + chunk + (if at + |chunk| <= |f| then f[at + |chunk|..] else [])
  }

  lemma OverwrittenBytes(f: seq<Byte>, at: nat, chunk: seq<Byte>)
    requires chunk != []
    ensures var r := Overwritten(f, at, chunk);
            && |r| == Max(|f|, at + |chunk|)
            && forall i :: 0 <= i < |r| ==>
                 r[i] == if at <= i < at + |chunk| then chunk[i - at] else if i < |f| then f[i] else 0
  {
  }

  lemma NothingWritten(f: seq<Byte>, at: nat)
    ensures Overwritten(f, at, []) == f
  {
  }

  /** Setting the length of a file. */
  function Resized(f: seq<Byte>, size: nat): seq<Byte> {
    if size <= |f| then f[..size] else f + Padding(size - |f|)
  }

  /** The bytes from one position up to another. */
  function Range(s: seq<Byte>, from: nat, to: nat): (r: seq<Byte>)
    requires from <= to <= |s|
    ensures |r| == to - from
  {
    s[from..to]
  }

  // ----- arithmetic of volumes -----

  function CeilDiv(dividend: nat, divisor: nat): nat
    requires divisor > 0
  {
    if dividend == 0 then 0 else (dividend - 1) / divisor + 1
  }

  /** Where volume `i` starts in the flat sequence. */
  function Start(max: nat, i: nat): nat {
    i * max
  }

  lemma StartMonotone(max: nat, i: nat, j: nat)
    ensures i <= j ==> Start(max, i) <= Start(max, j)
  {
    if i <= j {
      MulMonotone(i, j, max);
    }
  }

  lemma StartStep(max: nat, i: nat)
    ensures Start(max, i + 1) == Start(max, i) + max && Start(max, 0) == 0
  {
  }

  lemma MulMonotone(i: int, j: int, m: nat)
    requires i <= j
    ensures i * m <= j * m
  {
  }

  lemma QuotientIs(p: nat, m: nat, k: nat)
    requires m > 0 && k * m <= p < (k + 1) * m
    ensures p / m == k && p % m == p - k * m
  {
    var q := p / m;
    assert p == q * m + p % m;
    if q < k {
      MulMonotone(q + 1, k, m);
    } else if q > k {
      MulMonotone(k + 1, q, m);
    }
  }

  lemma QuotientBounds(p: nat, m: nat)
    requires m > 0
    ensures p / m * m <= p < (p / m + 1) * m
    ensures p % m == p - p / m * m
    ensures (p / m + 1) * m == p / m * m + m
  {
  }

  /** The code's formula is the true ceiling: the least number of volumes that holds `t` bytes. */
  lemma CeilDivMeaning(t: nat, m: nat, n: nat)
    requires m > 0
    ensures CeilDiv(t, m) == n <==> t <= Start(m, n) && (n > 0 ==> Start(m, n - 1) < t)
  {
    if t > 0 {
      QuotientBounds(t - 1, m);
      if n > 0 && t <= n * m && (n - 1) * m < t {
        QuotientIs(t - 1, m, n - 1);
      }
    } else if n > 0 {
      MulMonotone(0, n - 1, m);
    }
  }

  // ----- opening and writing -----

  function FreshRecord(l: Layout, i: nat): VolumeRecord {
    VolumeRecord(OutName(l.prefix, i), 0, Start(l.max, i), 0)
  }

  /** The records after adding empty volumes until there are `count`. */
  function Extended(l: Layout, rs: seq<VolumeRecord>, count: nat): (r: seq<VolumeRecord>)
    ensures |r| == Max(|rs|, count)
    ensures forall i :: 0 <= i < |rs| ==> r[i] == rs[i]
    ensures forall i :: |rs| <= i < |r| ==> r[i] == FreshRecord(l, i)
    decreases count - |rs|
  {
    if |rs| >= count then rs else Extended(l, rs + [FreshRecord(l, |rs|)], count)
  }

  /** The files after opening a volume: a volume with data must exist, one without data must not. */
  function Opened(files: Files, r: VolumeRecord, isOpen: bool): Option<Files> {
    if isOpen then Some(files)
    else if r.size > 0 then (if r.path in files then Some(files) else None)
    else if r.path in files then None else Some(files[r.path := []])
  }

  function VolumeOf(l: Layout, position: nat): nat
    requires l.Valid()
  {
    position / l.max
  }

  function OffsetOf(l: Layout, position: nat): (r: nat)
    requires l.Valid()
    ensures r < l.max
  {
    position % l.max
  }

  /** How many of `size` bytes one call accepts: up to the end of the volume, whose rest is cut to 32 bits. */
  function Accepted(l: Layout, position: nat, size: nat): (n: nat)
    requires l.Valid()
    ensures n <= size && n <= l.max - OffsetOf(l, position)
  {
    Min(size, Low32(l.max - OffsetOf(l, position)))
  }

  datatype WriteResult = WriteResult(view: OutView, status: Status, processed: nat)

  /** Writing into volume `idx`, whose file is open. */
  function WriteInto(l: Layout, v: OutView, idx: nat, data: seq<Byte>): (w: WriteResult)
    requires l.Valid() && idx < |v.records|
    ensures w.status == Ok && w.processed <= |data|
  {
    var r := v.records[idx];
    var off := OffsetOf(l, v.position);
    var n := Accepted(l, v.position, |data|);
    var position := Low64(v.position + n);
    var content := if r.path in v.files then v.files[r.path] else [];
    WriteResult(
      OutView(v.records[idx := r.(seek := off + n, size := Max(off + n, r.size))],
              v.files[r.path := Overwritten(content, off, data[..n])],
              position, Max(position, v.total)),
      Ok, n)
  }

  /** One call of Write, given whether the volume at the position has an open handle. */
  function WriteView(l: Layout, v: OutView, isOpen: bool, data: seq<Byte>): WriteResult
    requires l.Valid()
  {
    var idx := VolumeOf(l, v.position);
    if idx >= |v.records| && idx >= l.maxSize then
      WriteResult(v.(records := Extended(l, v.records, l.maxSize)), Fail, 0)
    else
      var rs := Extended(l, v.records, idx + 1);
      match Opened(v.files, rs[idx], isOpen)
      case None => WriteResult(v.(records := rs), Fail, 0)
      case Some(files) => WriteInto(l, v.(records := rs, files := files), idx, data)
  }

  // ----- truncating -----

  datatype Kept = Kept(records: seq<VolumeRecord>, files: Files)

  /** Deleting volumes from the end while they start at or beyond the new size. */
  function Trimmed(rs: seq<VolumeRecord>, files: Files, size: nat): (k: Kept)
    ensures |k.records| <= |rs| && k.records == rs[..|k.records|]
    ensures k.records != [] ==> k.records[|k.records| - 1].offset < size
  {
    if rs == [] || rs[|rs| - 1].offset < size then Kept(rs, files)
    else Trimmed(rs[..|rs| - 1], files - {rs[|rs| - 1].path}, size)
  }

  /** Cutting the last volume so that the archive ends at `size`; nothing when it does not reach that far. */
  function LastCut(k: Kept, size: nat): Option<Kept>
    requires k.records != [] ==> k.records[|k.records| - 1].offset < size
  {
    if k.records == [] then Some(k)
    else
      var last := k.records[|k.records| - 1];
      var lastSize := size - last.offset;
      if lastSize >= last.size then Some(k)
      else if last.path !in k.files then None
      else Some(Kept(k.records[|k.records| - 1 := last.(size := lastSize)],
                     k.files[last.path := Resized(k.files[last.path], lastSize)]))
  }

  datatype SetSizeResult = SetSizeResult(view: OutView, status: Status)

  function SetSizeView(l: Layout, v: OutView, size: nat): SetSizeResult
    requires l.Valid()
  {
    if CeilDiv(size, l.max) > l.maxSize - 1 then SetSizeResult(v, InvalidArgument)
    else
      var k := Trimmed(v.records, v.files, size);
      match LastCut(k, size)
      case None => SetSizeResult(v.(records := k.records, files := k.files), Fail)
      case Some(cut) => SetSizeResult(OutView(cut.records, cut.files, v.position, size), Ok)
  }

  // ----- handles -----

  /** A volume that has data or an open handle has a file. */
  ghost predicate Backed(rs: seq<VolumeRecord>, lru: seq<nat>, files: Files) {
    forall i :: 0 <= i < |rs| && (rs[i].size > 0 || i in lru) ==> rs[i].path in files
  }

  /** The open volumes that remain when those from `count` on are closed. */
  function Below(lru: seq<nat>, count: nat): seq<nat> {
    if lru == [] then [] else (if lru[0] < count then [lru[0]] else []) + Below(lru[1..], count)
  }

  lemma {:induction false} BelowMembers(lru: seq<nat>, count: nat)
    ensures forall x :: x in Below(lru, count) <==> x in lru && x < count
    ensures (forall x :: x in lru ==> x < count) ==> Below(lru, count) == lru
  {
    if lru != [] {
      BelowMembers(lru[1..], count);
      assert lru == [lru[0]] + lru[1..] && lru[0] in lru;
      assert forall x :: x in lru[1..] ==> x in lru;
    }
  }

  /** Closing the last volume that remains. */
  lemma {:induction false} BelowStep(lru: seq<nat>, count: nat)
    ensures Without(Below(lru, count + 1), count) == Below(lru, count)
  {
    if lru != [] {
      BelowStep(lru[1..], count);
      var rest := Below(lru[1..], count + 1);
      assert [] + rest == rest && [] + Below(lru[1..], count) == Below(lru[1..], count);
      assert ([lru[0]] + rest)[1..] == rest;
    }
  }

  /** The open volumes after SetSize: deleted ones are closed, and the last one is reopened if it must be cut. */
  function SetSizeHandles(l: Layout, v: OutView, lru: seq<nat>, threshold: nat, size: nat): seq<nat>
    requires l.Valid()
  {
    if CeilDiv(size, l.max) > l.maxSize - 1 then lru
    else
      var k := Trimmed(v.records, v.files, size);
      var left := Below(lru, |k.records|);
      if k.records == [] then left
      else
        var index := |k.records| - 1;
        var last := k.records[index];
        if size - last.offset >= last.size || index in left || last.path !in k.files then left
        else Touched(Newest, threshold, left, index)
  }

  // ----- the flat meaning -----

  /** The part of the flat sequence that volume `i` holds. */
  function Slice(max: nat, bytes: seq<Byte>, i: nat): seq<Byte>
    requires Start(max, i) <= |bytes|
  {
    StartMonotone(max, i, i + 1);
    bytes[Start(max, i)..Min(Start(max, i + 1), |bytes|)]
  }

  ghost predicate Shaped(l: Layout, rs: seq<VolumeRecord>) {
    forall i :: 0 <= i < |rs| ==> rs[i].path == OutName(l.prefix, i) && rs[i].offset == Start(l.max, i)
  }

  ghost predicate HoldsSlice(l: Layout, v: OutView, bytes: seq<Byte>, i: nat)
    requires i < |v.records|
  {
    && Start(l.max, i) < |bytes|
    && v.records[i].path in v.files
    && v.files[v.records[i].path] == Slice(l.max, bytes, i)
    && v.records[i].size == |Slice(l.max, bytes, i)|
  }

  /** The volumes are dense and spell out `bytes`: as many volumes as needed, each holding its slice. */
  ghost predicate Represents(l: Layout, v: OutView, bytes: seq<Byte>) {
    && l.Valid()
    && v.total == |bytes|
    && |v.records| == CeilDiv(|bytes|, l.max) <= l.maxSize
    && Shaped(l, v.records)
    && forall i :: 0 <= i < |v.records| ==> HoldsSlice(l, v, bytes, i)
  }

  ghost predicate AgreeOn(path: string, a: Files, b: Files) {
    (path in a <==> path in b) && (path in a && path in b ==> a[path] == b[path])
  }

  /** Under the names of volumes that do not exist there is what `stale` holds, and it holds none of those that do. */
  ghost predicate OnlyStale(l: Layout, v: OutView, stale: Files) {
    && (forall i :: 0 <= i < |v.records| ==> OutName(l.prefix, i) !in stale)
    && (forall i: nat :: i >= |v.records| ==> AgreeOn(OutName(l.prefix, i), v.files, stale))
  }

  /** Every volume but the last is full, the last is not empty, and the sizes add up to the total. */
  function SizeSum(rs: seq<VolumeRecord>): nat {
    if rs == [] then 0 else SizeSum(rs[..|rs| - 1]) + rs[|rs| - 1].size
  }

  lemma {:induction false} PrefixSizes(l: Layout, v: OutView, bytes: seq<Byte>, k: nat)
    requires Represents(l, v, bytes) && k <= |v.records|
    ensures SizeSum(v.records[..k]) == Min(Start(l.max, k), |bytes|)
  {
    CeilDivMeaning(|bytes|, l.max, |v.records|);
    if k > 0 {
      PrefixSizes(l, v, bytes, k - 1);
      assert v.records[..k][..k - 1] == v.records[..k - 1];
      assert HoldsSlice(l, v, bytes, k - 1);
      StartMonotone(l.max, k - 1, k);
    }
  }

  lemma DenseVolumes(l: Layout, v: OutView, bytes: seq<Byte>)
    requires Represents(l, v, bytes)
    ensures |v.records| == CeilDiv(v.total, l.max)
    ensures SizeSum(v.records) == v.total
    ensures forall i :: 0 <= i < |v.records| - 1 ==> v.records[i].size == l.max
    ensures v.records != [] ==> 0 < v.records[|v.records| - 1].size <= l.max
  {
    hide SizeSum, OutName, CeilDiv;
    var n := |v.records|;
    CeilDivMeaning(|bytes|, l.max, n);
    PrefixSizes(l, v, bytes, n);
    assert v.records[..n] == v.records;
    forall i | 0 <= i < n ensures v.records[i].size == Min(Start(l.max, i + 1), |bytes|) - Start(l.max, i) {
      assert HoldsSlice(l, v, bytes, i);
    }
    forall i | 0 <= i < n - 1 ensures v.records[i].size == l.max {
      StartMonotone(l.max, i + 1, n - 1);
      StartStep(l.max, i);
    }
    if n > 0 {
      StartStep(l.max, n - 1);
    }
  }

  lemma EmptyRepresents(l: Layout, files: Files)
    requires l.Valid()
    ensures Represents(l, OutView([], files, 0, 0), [])
  {
  }
}
