/** Whole runs of the multi-volume streams: the flat meaning, eviction, and writing followed by reading. */
module MultiVolumeRuns {
  import opened Common
  import opened VolumesCaches
  import opened VolumeNames
  import opened MultiVolumeSpec
  import opened MultiVolumeLemmas
  import opened Seeking
  import opened Disks
  import opened MultiVolumeOut
  import opened MultiVolumeIn
  import opened Evictions

  /** One file with a cursor: what a caller of the output stream believes it writes to. */
  datatype Flat = Flat(bytes: seq<Byte>, position: nat)

  // ----- runs of single calls, on the specification -----

  /** The flat effect of one call; a Write may accept only a prefix of its data. */
  function FlatCall(l: Layout, f: Flat, c: Call): Flat
    requires l.Valid()
  {
    match c
    case WriteCall(data) =>
      var n := Accepted(l, f.position, |data|);
      Flat(Overwritten(f.bytes, f.position, data[..n]), f.position + n)
    case SeekCall(offset, origin) =>
      var t := SeekTarget(f.position, |f.bytes|, offset, origin);
      if t.Some? then f.(position := t.value) else f
    case SetSizeCall(size) =>
      if size <= |f.bytes| then f.(bytes := f.bytes[..size]) else f
  }

  /** The calls the flat meaning covers: non-empty writes that leave no hole and meet no stale file, and truncations. */
  predicate Covered(l: Layout, stale: Files, f: Flat, c: Call)
    requires l.Valid()
  {
    match c
    case WriteCall(data) =>
      && f.position <= |f.bytes| && f.position + |data| < TWO_64
      && VolumeOf(l, f.position) < l.maxSize
      && OutName(l.prefix, VolumeOf(l, f.position)) !in stale
      && Accepted(l, f.position, |data|) > 0
    case SeekCall(_, _) => true
    case SetSizeCall(size) => size <= |f.bytes| && CeilDiv(size, l.max) <= l.maxSize - 1
  }

  ghost predicate AllCovered(l: Layout, stale: Files, f: Flat, calls: seq<Call>)
    requires l.Valid()
    decreases |calls|
  {
    calls != [] ==> Covered(l, stale, f, calls[0]) && AllCovered(l, stale, FlatCall(l, f, calls[0]), calls[1..])
  }

  function FlatRun(l: Layout, f: Flat, calls: seq<Call>): Flat
    requires l.Valid()
    decreases |calls|
  {
    if calls == [] then f else FlatRun(l, FlatCall(l, f, calls[0]), calls[1..])
  }

  ghost predicate Means(l: Layout, v: OutView, f: Flat, stale: Files) {
    Represents(l, v, f.bytes) && OnlyStale(l, v, stale) && v.position == f.position
  }

  lemma CallMeans(l: Layout, v: OutView, f: Flat, stale: Files, c: Call, isOpen: bool)
    requires Means(l, v, f, stale) && Covered(l, stale, f, c)
    ensures Means(l, ViewCall(l, v, c, isOpen).view, FlatCall(l, f, c), stale)
  {
    match c
    case WriteCall(data) =>
      WriteRepresents(l, v, f.bytes, isOpen && VolumeOf(l, v.position) < |v.records|, data, stale);
    case SeekCall(offset, origin) =>
      var w := ViewCall(l, v, c, isOpen).view;
      forall i | 0 <= i < |w.records| ensures HoldsSlice(l, w, f.bytes, i) {
        assert HoldsSlice(l, v, f.bytes, i);
      }
    case SetSizeCall(size) =>
      SetSizeRepresents(l, v, f.bytes, size, stale);
  }

  /**
    * Every run of covered calls on an archive that starts empty leaves dense volumes that spell out the
    * bytes of the flat run, whichever handles were closed on the way.
    */
  lemma {:induction false} RunMeans(l: Layout, v: OutView, f: Flat, stale: Files, calls: seq<Call>, handles: seq<bool>)
    requires Means(l, v, f, stale) && AllCovered(l, stale, f, calls) && |handles| == |calls|
    ensures Means(l, ViewRun(l, v, calls, handles).view, FlatRun(l, f, calls), stale)
    decreases |calls|
  {
    if calls != [] {
      CallMeans(l, v, f, stale, calls[0], handles[0]);
      RunMeans(l, ViewCall(l, v, calls[0], handles[0]).view, FlatCall(l, f, calls[0]), stale, calls[1..], handles[1..]);
    }
  }

  lemma MeansIsFiled(l: Layout, v: OutView, f: Flat, stale: Files)
    requires Means(l, v, f, stale)
    ensures Filed(l, v) && forall i :: 0 <= i < |v.records| ==> v.records[i].size > 0
  {
    hide OutName, CeilDiv, Start;
    forall i | 0 <= i < |v.records| ensures v.records[i].path in v.files && v.records[i].size > 0 {
      assert HoldsSlice(l, v, f.bytes, i);
      SliceNotEmpty(l.max, f.bytes, i);
    }
  }

  /** Covered runs find handles open only on volumes that have data. */
  lemma {:induction false} CoveredOnData(l: Layout, v: OutView, f: Flat, stale: Files,
                                         calls: seq<Call>, handles: seq<bool>)
    requires Means(l, v, f, stale) && AllCovered(l, stale, f, calls) && |handles| == |calls|
    ensures AllOnData(l, v, calls, handles)
    decreases |calls|
  {
    hide Means, Covered, ViewCall, FlatCall, VolumeOf, Shaped, Backed;
    if calls != [] {
      MeansIsFiled(l, v, f, stale);
      CallMeans(l, v, f, stale, calls[0], handles[0]);
      var next := ViewCall(l, v, calls[0], handles[0]).view;
      CoveredOnData(l, next, FlatCall(l, f, calls[0]), stale, calls[1..], handles[1..]);
    }
  }

  /** So two covered runs on a dense archive agree, whichever handles each of them finds open. */
  lemma CoveredRunsAgree(l: Layout, v: OutView, f: Flat, stale: Files, calls: seq<Call>,
                         handles: seq<bool>, others: seq<bool>)
    requires Means(l, v, f, stale) && AllCovered(l, stale, f, calls) && |handles| == |calls| == |others|
    ensures ViewRun(l, v, calls, handles) == ViewRun(l, v, calls, others)
  {
    hide Means, AllCovered, ViewRun, AllOnData, Shaped, Backed;
    MeansIsFiled(l, v, f, stale);
    CoveredOnData(l, v, f, stale, calls, handles);
    CoveredOnData(l, v, f, stale, calls, others);
    EvictionInvisible(l, v, calls, handles);
    EvictionInvisible(l, v, calls, others);
  }

  /**
    * On stream objects: the same calls, made on two new archives with any two bounds on open handles, get
    * the same replies and leave the same volume records, files, cursor and total, if every write accepts
    * something at the start of a volume or there is no room for three volumes. Covered calls spell out
    * the flat run.
    */
  method HandlesMakeNoDifference(layout: Layout, files: Files, calls: seq<Call>, threshold: nat, otherThreshold: nat)
    returns (one: OutView, other: OutView, replies: seq<Reply>, otherReplies: seq<Reply>)
    requires layout.Valid() && threshold >= 3 && otherThreshold >= 3 && AllPassable(calls)
    ensures layout.maxSize < 3 || (forall i :: 0 <= i < |calls| ==> TakesSomething(layout, calls[i])) ==>
              one == other && replies == otherReplies
    ensures AllCovered(layout, files, Flat([], 0), calls) ==>
              && one == other && replies == otherReplies
              && Means(layout, one, FlatRun(layout, Flat([], 0), calls), files)
  {
    hide StreamRun, TakesSomething, ViewRun, FlatRun, AllCovered, Means, OutName;
    one, replies := MakeCallsOnNew(layout, files, calls, threshold);
    other, otherReplies := MakeCallsOnNew(layout, files, calls, otherThreshold);
    if layout.maxSize < 3 {
      FewVolumesAgree(layout, threshold, otherThreshold, NewStream(files), calls);
    } else if forall i :: 0 <= i < |calls| ==> TakesSomething(layout, calls[i]) {
      SubstantialRunsAgree(layout, files, calls, threshold, otherThreshold);
    }
    CoveredOnNew(layout, files, calls, threshold, otherThreshold);
  }

  lemma CoveredOnNew(l: Layout, files: Files, calls: seq<Call>, threshold: nat, other: nat)
    requires l.Valid()
    ensures AllCovered(l, files, Flat([], 0), calls) ==>
              && SameOutcome(l, files, calls, threshold, other)
              && var v := StreamRun(l, threshold, NewStream(files), calls).state.view;
                 Means(l, v, FlatRun(l, Flat([], 0), calls), files)
  {
    hide StreamRun, ViewRun, FlatRun, AllCovered, OutName, Represents;
    if AllCovered(l, files, Flat([], 0), calls) {
      EmptyRepresents(l, files);
      var s := NewStream(files);
      var handles := StreamRunHandles(l, threshold, s, calls);
      var others := StreamRunHandles(l, other, s, calls);
      CoveredRunsAgree(l, s.view, Flat([], 0), files, calls, handles, others);
      RunMeans(l, s.view, Flat([], 0), files, calls, handles);
    }
  }

  // ----- whole writes -----

  lemma OverwrittenTwice(f: seq<Byte>, at: nat, a: seq<Byte>, b: seq<Byte>)
    requires at <= |f|
    ensures Overwritten(Overwritten(f, at, a), at + |a|, b) == Overwritten(f, at, a + b)
  {
    hide Overwritten;
    var x, y := Overwritten(Overwritten(f, at, a), at + |a|, b), Overwritten(f, at, a + b);
    if a == [] {
      NothingWritten(f, at);
      assert a + b == b;
    } else if b == [] {
      NothingWritten(Overwritten(f, at, a), at + |a|);
      assert a + b == a;
    } else {
      OverwrittenBytes(f, at, a);
      OverwrittenBytes(Overwritten(f, at, a), at + |a|, b);
      OverwrittenBytes(f, at, a + b);
      assert |x| == |y|;
      forall i | 0 <= i < |x| ensures x[i] == y[i] {
      }
    }
  }

  lemma RoomFor(l: Layout, position: nat, size: nat)
    requires l.Valid() && position < size && CeilDiv(size, l.max) <= l.maxSize
    ensures VolumeOf(l, position) < CeilDiv(size, l.max) <= l.maxSize
  {
    var count := CeilDiv(size, l.max);
    CeilDivMeaning(size, l.max, count);
    PositionBounds(l, position);
    if VolumeOf(l, position) >= count {
      StartMonotone(l.max, count, VolumeOf(l, position));
    }
  }

  /** The flat state after the first `done` bytes of a longer write. */
  function Progress(f: Flat, done: seq<Byte>): Flat {
    Flat(Overwritten(f.bytes, f.position, done), f.position + |done|)
  }

  /** The number of volumes after a whole write. */
  function VolumesAfter(l: Layout, f: Flat, data: seq<Byte>): nat
    requires l.Valid()
  {
    CeilDiv(Max(|f.bytes|, f.position + |data|), l.max)
  }

  /** The write leaves no hole, the vector holds its volumes, and none of them has a stale file. */
  predicate HasRoom(l: Layout, stale: Files, f: Flat, data: seq<Byte>)
    requires l.Valid()
  {
    && f.position <= |f.bytes| && f.position + |data| < TWO_64
    && VolumesAfter(l, f, data) <= l.maxSize
    && forall i :: 0 <= i < VolumesAfter(l, f, data) ==> OutName(l.prefix, i) !in stale
  }

  lemma WriteAllStep(l: Layout, v: OutView, f: Flat, stale: Files, done: seq<Byte>, rest: seq<Byte>, isOpen: bool)
    requires l.Valid() && l.max < TWO_32 && HasRoom(l, stale, f, done + rest) && rest != []
    requires Means(l, v, Progress(f, done), stale)
    requires isOpen ==> VolumeOf(l, v.position) < |v.records|
    ensures var w := WriteView(l, v, isOpen, rest);
            && w.status == Ok && 0 < w.processed <= |rest|
            && Means(l, w.view, Progress(f, done + rest[..w.processed]), stale)
  {
    hide Represents, OnlyStale, CeilDiv, WriteView, VolumeOf, OutName;
    var now := Progress(f, done);
    RoomFor(l, now.position, Max(|f.bytes|, f.position + |done + rest|));
    WriteRepresents(l, v, now.bytes, isOpen, rest, stale);
    var n := Accepted(l, v.position, |rest|);
    OverwrittenTwice(f.bytes, f.position, done, rest[..n]);
  }

  /** Calls Write until all of `data` is taken, as the archiver does. */
  method WriteAll(out: MultiVolumeOutStream, data: seq<Byte>, ghost f: Flat, ghost stale: Files)
    requires out.Valid() && out.layout.max < TWO_32
    requires Means(out.layout, out.View(), f, stale)
    requires |data| < TWO_32 && HasRoom(out.layout, stale, f, data)
    modifies out, out.cache, out.disk
    ensures out.Valid()
    ensures Means(out.layout, out.View(), Progress(f, data), stale)
  {
    hide Means, HasRoom, Touched, WriteView, VolumeOf, Progress;
    var rest := data;
    ghost var done: seq<Byte> := [];
    NoProgress(f);
    while rest != []
      invariant out.Valid()
      invariant data == done + rest
      invariant Means(out.layout, out.View(), Progress(f, done), stale)
      decreases |rest|
    {
      OpenVolumesExist(out);
      ghost var isOpen := VolumeOf(out.layout, out.position) in out.cache.lru;
      WriteAllStep(out.layout, out.View(), f, stale, done, rest, isOpen);
      var status, n := out.Write(rest);
      Regrouped(done, rest, n);
      done, rest := done + rest[..n], rest[n..];
    }
    assert done == data;
  }

  lemma NoProgress(f: Flat)
    ensures Progress(f, []) == f
  {
  }

  // ----- writing, then reading back -----

  /** What whole writes mean on one file. */
  function Meaning(f: Flat, calls: seq<Call>): Flat
    decreases |calls|
  {
    if calls == [] then f else Meaning(Effect(f, calls[0]), calls[1..])
  }

  function Effect(f: Flat, c: Call): Flat {
    match c
    case WriteCall(data) => Progress(f, data)
    case SeekCall(offset, origin) =>
      var t := SeekTarget(f.position, |f.bytes|, offset, origin);
      if t.Some? then f.(position := t.value) else f
    case SetSizeCall(size) => f.(bytes := f.bytes[..Min(size, |f.bytes|)])
  }

  /** A seek on one flat file: both flat meanings go to the same place, counted from the origin that was named. */
  lemma FlatSeek(l: Layout, f: Flat, offset: int, origin: nat)
    requires l.Valid() && -TWO_63 <= offset < TWO_63
    ensures var g := Effect(f, SeekCall(offset, origin));
            && g == FlatCall(l, f, SeekCall(offset, origin)) && g.bytes == f.bytes
            && (origin == 0 && 0 <= offset ==> g.position == offset)
            && (origin == 1 && CanMove(f.position, offset) ==> g.position == f.position + offset)
            && (origin == 2 && CanMove(|f.bytes|, offset) ==> g.position == |f.bytes| + offset)
            && (origin > 2 || (origin == 0 && offset < 0) ==> g == f)
            && (origin == 1 && !CanMove(f.position, offset) ==> g == f)
            && (origin == 2 && !CanMove(|f.bytes|, offset) ==> g == f)
  {
  }

  /** No holes, no growth by SetSize, room in the vector of volumes, and no stale file where a volume will be. */
  predicate Legal(l: Layout, stale: Files, f: Flat, calls: seq<Call>)
    requires l.Valid()
    decreases |calls|
  {
    calls != [] ==>
      && Passable(calls[0])
      && (match calls[0]
          case WriteCall(data) => HasRoom(l, stale, f, data)
          case SeekCall(_, _) => true
          case SetSizeCall(size) => size <= |f.bytes| && CeilDiv(size, l.max) <= l.maxSize - 1)
      && Legal(l, stale, Effect(f, calls[0]), calls[1..])
  }

  method Perform(out: MultiVolumeOutStream, calls: seq<Call>, ghost f: Flat, ghost stale: Files)
    requires out.Valid() && out.layout.max < TWO_32
    requires Means(out.layout, out.View(), f, stale) && Legal(out.layout, stale, f, calls)
    modifies out, out.cache, out.disk
    ensures out.Valid() && Means(out.layout, out.View(), Meaning(f, calls), stale)
    decreases |calls|
  {
    hide Represents, OnlyStale, Touched, WriteView, VolumeOf, Progress, HasRoom, SetSizeView;
    if calls != [] {
      match calls[0] {
        case WriteCall(data) =>
          WriteAll(out, data, f, stale);
        case SeekCall(offset, origin) =>
          ghost var v := out.View();
          TotalIsSize(out.layout, v, f.bytes);
          var status := out.Seek(offset, origin);
          MovingMeans(out.layout, v, f.bytes, stale, out.position);
        case SetSizeCall(size) =>
          SetSizeRepresents(out.layout, out.View(), f.bytes, size, stale);
          var status := out.SetSize(size);
      }
      Perform(out, calls[1..], Effect(f, calls[0]), stale);
    }
  }

  lemma TotalIsSize(l: Layout, v: OutView, bytes: seq<Byte>)
    requires Represents(l, v, bytes)
    ensures v.total == |bytes|
  {
  }

  lemma MovingMeans(l: Layout, v: OutView, bytes: seq<Byte>, stale: Files, position: nat)
    requires Represents(l, v, bytes) && OnlyStale(l, v, stale)
    ensures var w := v.(position := position); Represents(l, w, bytes) && OnlyStale(l, w, stale)
  {
    forall i | 0 <= i < |v.records| ensures HoldsSlice(l, v.(position := position), bytes, i) {
      assert HoldsSlice(l, v, bytes, i);
    }
  }

  /** Contiguous volumes over the files of a dense archive start where its slices start. */
  lemma {:induction false} ScannedOffsets(l: Layout, v: OutView, bytes: seq<Byte>,
                                          rs: seq<VolumeRecord>, content: seq<Byte>, k: nat)
    requires Represents(l, v, bytes)
    requires Contiguous(rs, |content|) && Stored(rs, v.files, content)
    requires forall i :: 0 <= i < |rs| ==> rs[i].path == OutName(l.prefix, i)
    requires k < |rs| && k < |v.records|
    ensures Start(l.max, k) < |bytes| && rs[k].offset == Start(l.max, k)
    ensures rs[k].offset + rs[k].size == Min(Start(l.max, k + 1), |bytes|) <= |content|
    ensures content[..rs[k].offset + rs[k].size] == bytes[..rs[k].offset + rs[k].size]
  {
    hide OutName, CeilDiv, Represents, Contiguous, Stored, Start;
    StartStep(l.max, 0);
    FileIsBoth(l, v, bytes, rs, content, k);
    var lo, hi := rs[k].offset, rs[k].offset + rs[k].size;
    if k > 0 {
      ScannedOffsets(l, v, bytes, rs, content, k - 1);
      FollowsPrevious(rs, |content|, k);
    } else {
      StartsAtZero(rs, |content|);
    }
    assert lo == Start(l.max, k);
    PrefixesExtend(content, bytes, lo, hi);
  }

  lemma FileIsBoth(l: Layout, v: OutView, bytes: seq<Byte>,
                   rs: seq<VolumeRecord>, content: seq<Byte>, k: nat)
    requires Represents(l, v, bytes) && Stored(rs, v.files, content)
    requires k < |rs| && k < |v.records| && rs[k].path == OutName(l.prefix, k)
    ensures Start(l.max, k) < |bytes| && Start(l.max, k) < Start(l.max, k + 1)
    ensures rs[k].offset + rs[k].size <= |content|
    ensures var hi := Min(Start(l.max, k + 1), |bytes|);
            && bytes[Start(l.max, k)..hi] == content[rs[k].offset..rs[k].offset + rs[k].size]
            && rs[k].size == hi - Start(l.max, k)
  {
    hide OutName, CeilDiv;
    assert HoldsSlice(l, v, bytes, k);
    StartMonotone(l.max, k, k + 1);
    StartStep(l.max, k);
    var lo, hi := Start(l.max, k), Min(Start(l.max, k + 1), |bytes|);
    assert v.files[rs[k].path] == bytes[lo..hi];
    assert |content[rs[k].offset..rs[k].offset + rs[k].size]| == rs[k].size;
  }

  lemma StartsAtZero(rs: seq<VolumeRecord>, size: nat)
    requires Contiguous(rs, size) && rs != []
    ensures rs[0].offset == 0
  {
  }

  lemma FollowsPrevious(rs: seq<VolumeRecord>, size: nat, k: nat)
    requires Contiguous(rs, size) && 0 < k < |rs|
    ensures rs[k - 1].offset + rs[k - 1].size == rs[k].offset
  {
  }

  /** Volumes found over the files of a dense archive hold its bytes; further ones hold what comes after. */
  lemma ScanReads(l: Layout, v: OutView, bytes: seq<Byte>, rs: seq<VolumeRecord>, content: seq<Byte>)
    requires Represents(l, v, bytes)
    requires Contiguous(rs, |content|) && Stored(rs, v.files, content)
    requires |rs| >= |v.records| && forall i :: 0 <= i < |rs| ==> rs[i].path == OutName(l.prefix, i)
    ensures bytes <= content
    ensures if |rs| == |v.records| then content == bytes else rs[|v.records|].offset == |bytes|
    ensures forall i :: 0 <= i < |v.records| ==> rs[i].size <= l.max
  {
    hide OutName, CeilDiv, Stored, HoldsSlice;
    var n := |v.records|;
    CeilDivMeaning(|bytes|, l.max, n);
    if n > 0 {
      ScannedOffsets(l, v, bytes, rs, content, n - 1);
      assert bytes[..|bytes|] == bytes;
      assert content[..|content|] == content;
    }
    forall i | 0 <= i < n ensures rs[i].size <= l.max {
      ScannedOffsets(l, v, bytes, rs, content, i);
      StartStep(l.max, i);
    }
  }

  /** Which of the writer's names the reader finds on disk: those of the volumes, then those of stale files. */
  lemma NamesFound(l: Layout, v: OutView, bytes: seq<Byte>, stale: Files, i: nat)
    requires Represents(l, v, bytes) && OnlyStale(l, v, stale) && HasFilename(l.prefix)
    ensures InName(OutName(l.prefix, 0), i) == OutName(l.prefix, i) && HasFilename(OutName(l.prefix, i))
    ensures i < |v.records| ==> OutName(l.prefix, i) in v.files && v.files[OutName(l.prefix, i)] != []
    ensures i >= |v.records| ==> AgreeOn(OutName(l.prefix, i), v.files, stale)
    ensures |v.records| == CeilDiv(|bytes|, l.max) <= l.maxSize
  {
    hide CeilDiv, InName, Padded, OutName;
    NamesAgreeUpTo(l.prefix, i);
    OutNameHasFilename(l.prefix, i);
    if i < |v.records| {
      VolumeNotEmpty(l, v, bytes, i);
    }
  }

  lemma OutNameHasFilename(prefix: string, i: nat)
    ensures HasFilename(OutName(prefix, i))
  {
    var s := Padded(i + 1);
    assert s[|s| - 1] in s;
  }

  lemma VolumeNotEmpty(l: Layout, v: OutView, bytes: seq<Byte>, i: nat)
    requires Represents(l, v, bytes) && i < |v.records|
    ensures OutName(l.prefix, i) in v.files && v.files[OutName(l.prefix, i)] != []
  {
    hide CeilDiv, OutName;
    assert HoldsSlice(l, v, bytes, i);
    StartStep(l.max, i);
  }

  /** The name under which the reader looks for a volume after the last one. */
  function NextVolume(l: Layout, bytes: seq<Byte>): string
    requires l.Valid()
  {
    OutName(l.prefix, CeilDiv(|bytes|, l.max))
  }

  /**
    * From volume `n` on, the reader takes in files as long as the names exist; none may be empty, and there
    * must be room for all of them.
    */
  ghost predicate Accepts(l: Layout, n: nat, files: Files) {
    exists last :: n <= last <= l.maxSize && TakenIn(l, n, last, files) && OutName(l.prefix, last) !in files
  }

  ghost predicate TakenIn(l: Layout, n: nat, last: nat, files: Files) {
    forall k :: n <= k < last ==> OutName(l.prefix, k) in files && files[OutName(l.prefix, k)] != []
  }

  /**
    * What opening the first volume of a dense archive finds: exactly its volumes and its bytes, unless a
    * stale file bears the name of the next volume. Then opening fails, or the reader appends what it holds.
    */
  ghost predicate Opens(l: Layout, bytes: seq<Byte>, stale: Files, ok: bool, vs: seq<CachedVolume>, content: seq<Byte>)
    requires l.Valid()
  {
    var n, next := CeilDiv(|bytes|, l.max), NextVolume(l, bytes);
    && (ok <==> Accepts(l, n, stale))
    && (next !in stale ==> ok && |vs| == n && content == bytes)
    && (ok ==> |vs| >= n && bytes <= content && forall i :: 0 <= i < n ==> vs[i].size < TWO_32)
    && (ok && next in stale ==>
          && |vs| > n && vs[n].offset == |bytes| && vs[n].size == |stale[next]| > 0
          && bytes + stale[next] <= content)
  }

  method OpenArchive(out: MultiVolumeOutStream, threshold: nat, ghost bytes: seq<Byte>, ghost stale: Files)
    returns (ok: bool, input: MultiVolumeInStream)
    requires out.Valid() && threshold >= 3 && out.layout.max < TWO_32
    requires Represents(out.layout, out.View(), bytes) && OnlyStale(out.layout, out.View(), stale)
    requires HasFilename(out.layout.prefix)
    ensures input.Valid() && fresh(input) && fresh(input.cache) && input.disk == out.disk && input.position == 0
    ensures Opens(out.layout, bytes, stale, ok, input.cache.volumes, input.content)
  {
    hide Represents, OnlyStale, OutName, InName, HasFilename, Found, CeilDiv, Opens;
    hide Contiguous, Stored, Linked, HandlesInStep, Shaped, Backed;
    ghost var l, v := out.layout, out.View();
    NamesFound(l, v, bytes, stale, 0);
    input := new MultiVolumeInStream(out.disk, threshold, out.layout.maxSize);
    ok := input.Open(OutName(out.layout.prefix, 0));
    ghost var vs := input.cache.volumes;
    FoundOpens(l, v, bytes, stale, ok, vs, input.content);
  }

  lemma {:induction false} FoundOpens(l: Layout, v: OutView, bytes: seq<Byte>, stale: Files, ok: bool,
                                      vs: seq<CachedVolume>, content: seq<Byte>)
    requires Represents(l, v, bytes) && OnlyStale(l, v, stale) && HasFilename(l.prefix) && l.max < TWO_32
    requires Found(OutName(l.prefix, 0), vs, v.files)
    requires Contiguous(Records(vs), |content|) && Stored(Records(vs), v.files, content) && |vs| <= l.maxSize
    requires var next := InName(OutName(l.prefix, 0), |vs|);
             && (ok <==> !(HasFilename(next) && next in v.files))
             && (!ok ==> v.files[next] == [] || |vs| == l.maxSize)
    ensures Opens(l, bytes, stale, ok, vs, content)
  {
    hide Represents, OnlyStale, OutName, InName, HasFilename, CeilDiv, Contiguous, Stored, Records;
    var n := |v.records|;
    NamesFound(l, v, bytes, stale, n);
    NamesFound(l, v, bytes, stale, |vs|);
    var rs := Records(vs);
    forall i | 0 <= i < |vs| ensures rs[i].path == OutName(l.prefix, i) {
      NamesFound(l, v, bytes, stale, i);
      assert rs[i] == Record(vs[i]);
    }
    if |vs| >= n {
      ScanReads(l, v, bytes, rs, content);
      assert forall i :: 0 <= i < |vs| ==> rs[i] == Record(vs[i]);
    }
    AcceptsIff(l, v, bytes, stale, ok, vs, content);
    if |vs| > n {
      assert Found(OutName(l.prefix, 0), vs, v.files) && vs[n].path in v.files;
      StoredAt(rs, v.files, content, n);
      SizesPositive(rs, |content|, n);
      assert bytes + v.files[rs[n].path] == content[..rs[n].offset] + content[rs[n].offset..rs[n].offset + rs[n].size];
      assert bytes + v.files[rs[n].path] == content[..rs[n].offset + rs[n].size];
    }
  }

  lemma {:induction false} AcceptsIff(l: Layout, v: OutView, bytes: seq<Byte>, stale: Files, ok: bool,
                                      vs: seq<CachedVolume>, content: seq<Byte>)
    requires Represents(l, v, bytes) && OnlyStale(l, v, stale) && HasFilename(l.prefix) && |vs| <= l.maxSize
    requires Contiguous(Records(vs), |content|) && Stored(Records(vs), v.files, content)
    requires forall i :: 0 <= i < |vs| ==> Records(vs)[i].path == OutName(l.prefix, i)
    requires var next := OutName(l.prefix, |vs|);
             && (ok <==> next !in v.files)
             && (!ok ==> v.files[next] == [] || |vs| == l.maxSize)
    ensures ok <==> Accepts(l, |v.records|, stale)
  {
    hide Represents, OnlyStale, OutName, InName, HasFilename, CeilDiv, Contiguous, Stored, Records;
    var n, rs := |v.records|, Records(vs);
    NamesFound(l, v, bytes, stale, |vs|);
    forall k | 0 <= k < |vs|
      ensures k >= n ==> OutName(l.prefix, k) in stale && stale[OutName(l.prefix, k)] != []
    {
      NamesFound(l, v, bytes, stale, k);
      StoredAt(rs, v.files, content, k);
      SizesPositive(rs, |content|, k);
    }
    if ok {
      assert TakenIn(l, n, |vs|, stale);
    }
  }

  lemma StoredAt(rs: seq<VolumeRecord>, files: Files, content: seq<Byte>, k: nat)
    requires Stored(rs, files, content) && k < |rs|
    ensures rs[k].offset + rs[k].size <= |content| && rs[k].path in files
    ensures files[rs[k].path] == content[rs[k].offset..rs[k].offset + rs[k].size]
    ensures |files[rs[k].path]| == rs[k].size
  {
  }

  lemma SizesPositive(rs: seq<VolumeRecord>, size: nat, k: nat)
    requires Contiguous(rs, size) && k < |rs|
    ensures rs[k].size > 0
  {
  }

  /**
    * Round trip: whatever legal calls are made on the output stream, with any two bounds on open handles
    * and any read buffer, reading the volumes back from `.001` gives the bytes of the flat run, exactly
    * unless a stale file bears the name of the next volume. Opening then fails when that file or one numbered
    * on from it is empty, or when they are too many; otherwise its bytes come after the others, and only one
    * of a multiple of 2^32 bytes goes unnoticed, since nothing is read of it.
    */
  method RoundTrip(layout: Layout, outThreshold: nat, inThreshold: nat, files: Files, calls: seq<Call>, bufferSize: nat)
    returns (ok: bool, data: seq<Byte>)
    requires layout.Valid() && layout.max < TWO_32 && HasFilename(layout.prefix)
    requires outThreshold >= 3 && inThreshold >= 3 && 0 < bufferSize < TWO_32
    requires Legal(layout, files, Flat([], 0), calls)
    ensures var bytes := Meaning(Flat([], 0), calls).bytes;
            var next := NextVolume(layout, bytes);
            && (ok <==> Accepts(layout, CeilDiv(|bytes|, layout.max), files))
            && (next !in files ==> ok && data == bytes)
            && (ok ==> bytes <= data && (data == bytes <==> next !in files || |files[next]| % 0x1_0000_0000 == 0))
  {
    hide Represents, Contiguous, Stored, Linked, HandlesInStep, Shaped, Backed, Opens, Legal, OutName, CeilDiv, Accepts;
    var disk := new Disk(files);
    var out := new MultiVolumeOutStream(layout, outThreshold, disk);
    EmptyRepresents(layout, files);
    Perform(out, calls, Flat([], 0), files);
    ghost var bytes := Meaning(Flat([], 0), calls).bytes;
    var input;
    ok, input := OpenArchive(out, inThreshold, bytes, files);
    ghost var vs := input.cache.volumes;
    OpensWhen(layout, bytes, files, ok, vs, input.content);
    if !ok {
      return false, [];
    }
    data := input.ReadToEnd(bufferSize);
    ReadBack(layout, bytes, files, vs, input.cache.volumes, input.content, input.position, bufferSize);
  }

  lemma OpensWhen(l: Layout, bytes: seq<Byte>, stale: Files, ok: bool, vs: seq<CachedVolume>, content: seq<Byte>)
    requires l.Valid() && Opens(l, bytes, stale, ok, vs, content)
    ensures ok <==> Accepts(l, CeilDiv(|bytes|, l.max), stale)
    ensures !ok ==> NextVolume(l, bytes) in stale
  {
  }

  lemma {:induction false} ReadBack(l: Layout, bytes: seq<Byte>, stale: Files, before: seq<CachedVolume>,
                                    vs: seq<CachedVolume>, content: seq<Byte>, position: nat, wanted: nat)
    requires l.Valid() && Opens(l, bytes, stale, true, before, content) && SameRanges(before, vs)
    requires Contiguous(Records(vs), |content|) && position <= |content| && wanted > 0
    requires Readable(Records(vs), |content|, position, wanted) == 0
    requires (forall i :: 0 <= i < |vs| ==> vs[i].size < TWO_32) ==> position == |content|
    requires forall k :: 0 <= k < |vs| && StopsAt(vs[k], 0) ==> position <= vs[k].offset
    ensures var next := NextVolume(l, bytes);
            && bytes <= content[0..position]
            && (content[0..position] == bytes <==> next !in stale || |stale[next]| % 0x1_0000_0000 == 0)
  {
    hide Contiguous, Readable, Records, CeilDiv, OutName;
    var n, next := CeilDiv(|bytes|, l.max), NextVolume(l, bytes);
    if next !in stale {
      assert content[0..position] == content;
    } else {
      var rs := Records(vs);
      assert forall i :: 0 <= i < |vs| ==> rs[i] == Record(vs[i]);
      StopsBeyond(rs, |content|, position, wanted, n);
      assert bytes == content[..|bytes|];
      assert position == |bytes| ==> content[0..position] == bytes;
    }
  }
}
