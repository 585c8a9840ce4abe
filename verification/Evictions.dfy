/**
  * Runs of calls on the output stream, with the handles its cache keeps: when it makes a difference
  * which handles the cache has closed in between, and when it never does.
  */
module Evictions {
  import opened Common
  import opened VolumesCaches
  import opened VolumeNames
  import opened MultiVolumeSpec
  import opened MultiVolumeLemmas
  import opened Seeking
  import opened Disks
  import opened MultiVolumeOut

  datatype Call = WriteCall(data: seq<Byte>) | SeekCall(offset: int, origin: nat) | SetSizeCall(size: nat)

  /** The arguments a caller can pass at all. */
  predicate Passable(c: Call) {
    match c
    case WriteCall(data) => |data| < TWO_32
    case SeekCall(offset, _) => -TWO_63 <= offset < TWO_63
    case SetSizeCall(size) => size < TWO_64
  }

  ghost predicate AllPassable(calls: seq<Call>) {
    forall i :: 0 <= i < |calls| ==> Passable(calls[i])
  }

  /** What a caller is told. */
  datatype Reply = Reply(status: Status, processed: nat)

  datatype CallResult = CallResult(view: OutView, reply: Reply)

  datatype RunResult = RunResult(view: OutView, replies: seq<Reply>)

  // ----- runs for given handles -----

  /** One call, when the handle of the volume at the cursor is open or not. */
  function ViewCall(l: Layout, v: OutView, c: Call, isOpen: bool): CallResult
    requires l.Valid()
  {
    match c
    case WriteCall(data) =>
      var w := WriteView(l, v, isOpen && VolumeOf(l, v.position) < |v.records|, data);
      CallResult(w.view, Reply(w.status, w.processed))
    case SeekCall(offset, origin) =>
      var t := SeekTarget(v.position, v.total, offset, origin);
      CallResult(if t.Some? then v.(position := t.value) else v,
                 Reply(SeekStatus(v.position, v.total, offset, origin), 0))
    case SetSizeCall(size) =>
      var s := SetSizeView(l, v, size);
      CallResult(s.view, Reply(s.status, 0))
  }

  /** The three origins of a seek on any archive, and every answer it can give. */
  lemma SeekMeans(l: Layout, v: OutView, offset: int, origin: nat, isOpen: bool)
    requires l.Valid() && v.position < TWO_64 && v.total < TWO_64 && -TWO_63 <= offset < TWO_63
    ensures var r := ViewCall(l, v, SeekCall(offset, origin), isOpen);
            && r.view.records == v.records && r.view.files == v.files && r.view.total == v.total
            && (origin == 0 && 0 <= offset ==> r.view.position == offset && r.reply.status == Ok)
            && (origin == 1 && CanMove(v.position, offset) ==>
                  r.view.position == v.position + offset && r.reply.status == Ok)
            && (origin == 2 && CanMove(v.total, offset) ==>
                  r.view.position == v.total + offset && r.reply.status == Ok)
            && (origin > 2 ==> r.reply.status == InvalidFunction)
            && (origin == 0 && offset < 0 ==> r.reply.status == NegativeSeek)
            && ((origin == 1 && !CanMove(v.position, offset)) || (origin == 2 && !CanMove(v.total, offset)) ==>
                  r.reply.status == if offset < 0 then NegativeSeek else InvalidArgument)
            && (r.reply.status != Ok ==> r.view.position == v.position)
  {
  }

  /** A run in which `handles[k]` tells whether the handle needed by call k has survived until then. */
  function ViewRun(l: Layout, v: OutView, calls: seq<Call>, handles: seq<bool>): RunResult
    requires l.Valid() && |handles| == |calls|
    decreases |calls|
  {
    if calls == [] then RunResult(v, [])
    else
      var first := ViewCall(l, v, calls[0], handles[0]);
      var rest := ViewRun(l, first.view, calls[1..], handles[1..]);
      RunResult(rest.view, [first.reply] + rest.replies)
  }

  /** The handles of a cache that keeps nothing open. */
  function Closed(n: nat): (s: seq<bool>)
    ensures |s| == n && forall k :: 0 <= k < n ==> !s[k]
  {
    if n == 0 then [] else [false] + Closed(n - 1)
  }

  /** Every volume with data has a file. */
  ghost predicate Filed(l: Layout, v: OutView) {
    l.Valid() && Shaped(l, v.records) && Backed(v.records, [], v.files)
  }

  /** A write that finds its handle open finds it on a volume that has data. */
  predicate OnData(l: Layout, v: OutView, c: Call, isOpen: bool)
    requires l.Valid()
  {
    var idx := VolumeOf(l, v.position);
    c.WriteCall? && isOpen && idx < |v.records| ==> v.records[idx].size > 0
  }

  ghost predicate AllOnData(l: Layout, v: OutView, calls: seq<Call>, handles: seq<bool>)
    requires l.Valid() && |handles| == |calls|
    decreases |calls|
  {
    calls != [] ==>
      && OnData(l, v, calls[0], handles[0])
      && AllOnData(l, ViewCall(l, v, calls[0], handles[0]).view, calls[1..], handles[1..])
  }

  lemma OpenOrNot(l: Layout, v: OutView, c: Call, isOpen: bool)
    requires Filed(l, v) && OnData(l, v, c, isOpen)
    ensures ViewCall(l, v, c, isOpen) == ViewCall(l, v, c, false)
  {
    hide WriteView, VolumeOf, OutName, Start;
    if c.WriteCall? && isOpen && VolumeOf(l, v.position) < |v.records| {
      EvictionVisibleIff(l, v, c.data);
    }
  }

  lemma WriteKeepsFiled(l: Layout, v: OutView, isOpen: bool, data: seq<Byte>)
    requires Filed(l, v)
    ensures var w := WriteView(l, v, isOpen, data);
            && Filed(l, w.view)
            && |w.view.records| >= |v.records|
            && (forall i :: 0 <= i < |v.records| ==> w.view.records[i].size >= v.records[i].size)
    ensures var w := WriteView(l, v, isOpen, data);
            w.status == Ok ==>
              && VolumeOf(l, v.position) < |w.view.records|
              && w.view.records[VolumeOf(l, v.position)].size >=
                 OffsetOf(l, v.position) + Accepted(l, v.position, |data|)
  {
    hide VolumeOf, OffsetOf, Accepted, OutName, Overwritten, Start;
  }

  lemma SetSizeKeepsFiled(l: Layout, v: OutView, size: nat)
    requires Filed(l, v)
    ensures var s := SetSizeView(l, v, size);
            && Filed(l, s.view)
            && (forall i :: 0 <= i < |s.view.records| ==>
                  i < |v.records| && (v.records[i].size > 0 ==> s.view.records[i].size > 0))
    ensures var s := SetSizeView(l, v, size);
            |s.view.records| == if s.status == InvalidArgument then |v.records|
                                else |Trimmed(v.records, v.files, size).records|
  {
    hide Trimmed, OutName, CeilDiv, Resized, Start;
    TrimmedIs(l, v.records, v.files, size);
    var k := Trimmed(v.records, v.files, size);
    forall i | 0 <= i < |k.records| && k.records[i].size > 0 ensures k.records[i].path in k.files {
      KeptName(l, i, |k.records|, |v.records|);
    }
  }

  /** Where every volume with data has a file, everything that is not refused succeeds. */
  lemma SetSizeSucceedsIff(l: Layout, v: OutView, size: nat)
    requires Filed(l, v)
    ensures SetSizeView(l, v, size).status == Ok <==> CeilDiv(size, l.max) <= l.maxSize - 1
  {
    hide Trimmed, OutName, CeilDiv, Resized, Start;
    TrimmedIs(l, v.records, v.files, size);
    var k := Trimmed(v.records, v.files, size);
    if k.records != [] {
      KeptName(l, |k.records| - 1, |k.records|, |v.records|);
    }
  }

  lemma KeptName(l: Layout, i: nat, from: nat, to: nat)
    requires i < from
    ensures !NamesTrimmed(l, OutName(l.prefix, i), from, to)
  {
    hide OutName;
    forall j: nat | from <= j ensures OutName(l.prefix, j) != OutName(l.prefix, i) {
      if OutName(l.prefix, j) == OutName(l.prefix, i) {
        OutNamesDistinct(l.prefix, i, j);
      }
    }
  }

  lemma CallKeepsFiled(l: Layout, v: OutView, c: Call, isOpen: bool)
    requires Filed(l, v)
    ensures Filed(l, ViewCall(l, v, c, isOpen).view)
  {
    hide WriteView, SetSizeView, OutName, Start, VolumeOf;
    match c
    case WriteCall(data) => WriteKeepsFiled(l, v, isOpen && VolumeOf(l, v.position) < |v.records|, data);
    case SeekCall(_, _) =>
    case SetSizeCall(size) => SetSizeKeepsFiled(l, v, size);
  }

  /**
    * Eviction is invisible wherever a handle is found open only on a volume that has data: with holes or
    * without, growing or shrinking, over stale files and up to the last volume that fits, the run leaves
    * the records, seek positions, files, cursor and total, and gives the replies, of a run that never
    * finds a handle open.
    */
  lemma {:induction false} EvictionInvisible(l: Layout, v: OutView, calls: seq<Call>, handles: seq<bool>)
    requires Filed(l, v) && |handles| == |calls| && AllOnData(l, v, calls, handles)
    ensures ViewRun(l, v, calls, handles) == ViewRun(l, v, calls, Closed(|calls|))
    decreases |calls|
  {
    hide ViewCall, OnData, Shaped, Backed;
    if calls != [] {
      OpenOrNot(l, v, calls[0], handles[0]);
      CallKeepsFiled(l, v, calls[0], handles[0]);
      EvictionInvisible(l, ViewCall(l, v, calls[0], handles[0]).view, calls[1..], handles[1..]);
      assert Closed(|calls|)[1..] == Closed(|calls| - 1);
    }
  }

  // ----- runs of a stream -----

  /** A stream as its cache sees it: what it has written, and which volumes are open, newest first. */
  datatype StreamState = StreamState(view: OutView, lru: seq<nat>)

  datatype StreamResult = StreamResult(state: StreamState, replies: seq<Reply>)

  /** Whether the volume at the cursor is open. */
  predicate HandleOpen(l: Layout, s: StreamState)
    requires l.Valid()
  {
    VolumeOf(l, s.view.position) in s.lru
  }

  function Answered(l: Layout, s: StreamState, c: Call): CallResult
    requires l.Valid()
  {
    ViewCall(l, s.view, c, HandleOpen(l, s))
  }

  function HandlesAfter(l: Layout, threshold: nat, s: StreamState, c: Call): seq<nat>
    requires l.Valid()
  {
    match c
    case WriteCall(_) =>
      if Answered(l, s, c).reply.status == Ok then Touched(Newest, threshold, s.lru, VolumeOf(l, s.view.position))
      else s.lru
    case SeekCall(_, _) => s.lru
    case SetSizeCall(size) => SetSizeHandles(l, s.view, s.lru, threshold, size)
  }

  function StreamCall(l: Layout, threshold: nat, s: StreamState, c: Call): StreamState
    requires l.Valid()
  {
    StreamState(Answered(l, s, c).view, HandlesAfter(l, threshold, s, c))
  }

  function StreamRun(l: Layout, threshold: nat, s: StreamState, calls: seq<Call>): StreamResult
    requires l.Valid()
    decreases |calls|
  {
    if calls == [] then StreamResult(s, [])
    else
      var rest := StreamRun(l, threshold, StreamCall(l, threshold, s, calls[0]), calls[1..]);
      StreamResult(rest.state, [Answered(l, s, calls[0]).reply] + rest.replies)
  }

  /** A stream on a disk that may already hold anything. */
  function NewStream(files: Files): StreamState {
    StreamState(OutView([], files, 0, 0), [])
  }

  /** A run of a stream is a run for some handles. */
  lemma {:induction false} StreamRunHandles(l: Layout, threshold: nat, s: StreamState, calls: seq<Call>)
    returns (handles: seq<bool>)
    requires l.Valid()
    ensures |handles| == |calls|
    ensures var r := StreamRun(l, threshold, s, calls);
            ViewRun(l, s.view, calls, handles) == RunResult(r.state.view, r.replies)
    decreases |calls|
  {
    hide ViewCall, HandleOpen, HandlesAfter;
    if calls == [] {
      handles := [];
    } else {
      var rest := StreamRunHandles(l, threshold, StreamCall(l, threshold, s, calls[0]), calls[1..]);
      handles := [HandleOpen(l, s)] + rest;
      assert handles[1..] == rest;
    }
  }

  /** Every open volume has data. */
  ghost predicate OpenHasData(l: Layout, s: StreamState) {
    && Filed(l, s.view)
    && forall x :: x in s.lru ==> x < |s.view.records| && s.view.records[x].size > 0
  }

  /**
    * At the start of a volume the write accepts something: the data is not empty, nor the volume size a multiple
    * of 2^32.
    */
  predicate Substantial(l: Layout, data: seq<Byte>) {
    data != [] && Low32(l.max) > 0
  }

  predicate TakesSomething(l: Layout, c: Call) {
    c.WriteCall? ==> Substantial(l, c.data)
  }

  lemma SubstantialReaches(l: Layout, position: nat, data: seq<Byte>)
    requires l.Valid() && Substantial(l, data)
    ensures OffsetOf(l, position) + Accepted(l, position, |data|) > 0
  {
    hide Low32, OffsetOf;
  }

  lemma CallKeepsData(l: Layout, threshold: nat, s: StreamState, c: Call)
    requires OpenHasData(l, s) && TakesSomething(l, c)
    ensures OnData(l, s.view, c, HandleOpen(l, s))
    ensures OpenHasData(l, StreamCall(l, threshold, s, c))
  {
    hide WriteView, SetSizeView, VolumeOf, Shaped, Backed, Touched, OffsetOf, Accepted, Substantial;
    hide CeilDiv, Trimmed, Below;
    CallKeepsFiled(l, s.view, c, HandleOpen(l, s));
    var idx := VolumeOf(l, s.view.position);
    match c
    case WriteCall(data) =>
      WriteKeepsFiled(l, s.view, HandleOpen(l, s) && idx < |s.view.records|, data);
      SubstantialReaches(l, s.view.position, data);
      TouchedHead(Newest, threshold, s.lru, idx);
    case SeekCall(_, _) =>
    case SetSizeCall(size) =>
      SetSizeOpens(l, s, threshold, size);
  }

  /** After SetSize only volumes that remain and have data are open. */
  lemma SetSizeOpens(l: Layout, s: StreamState, threshold: nat, size: nat)
    requires OpenHasData(l, s)
    ensures var w := SetSizeView(l, s.view, size).view;
            forall x :: x in SetSizeHandles(l, s.view, s.lru, threshold, size) ==>
              x < |w.records| && w.records[x].size > 0
  {
    hide Trimmed, Below, Touched, CeilDiv, OutName, Start, Resized, Filed;
    SetSizeKeepsFiled(l, s.view, size);
    var k := Trimmed(s.view.records, s.view.files, size);
    BelowMembers(s.lru, |k.records|);
    if k.records != [] {
      TouchedHead(Newest, threshold, Below(s.lru, |k.records|), |k.records| - 1);
    }
  }

  /** A stream whose open volumes have data answers and leaves what a stream without any open handle does. */
  lemma {:induction false} StreamIgnoresHandles(l: Layout, threshold: nat, s: StreamState, calls: seq<Call>)
    requires OpenHasData(l, s) && forall i :: 0 <= i < |calls| ==> TakesSomething(l, calls[i])
    ensures var r := StreamRun(l, threshold, s, calls);
            RunResult(r.state.view, r.replies) == ViewRun(l, s.view, calls, Closed(|calls|))
    decreases |calls|
  {
    hide ViewCall, OnData, HandleOpen, HandlesAfter, OpenHasData, TakesSomething;
    DataIsFiled(l, s);
    if calls != [] {
      CallKeepsData(l, threshold, s, calls[0]);
      OpenOrNot(l, s.view, calls[0], HandleOpen(l, s));
      StreamIgnoresHandles(l, threshold, StreamCall(l, threshold, s, calls[0]), calls[1..]);
      assert Closed(|calls|)[1..] == Closed(|calls| - 1);
    }
  }

  lemma DataIsFiled(l: Layout, s: StreamState)
    requires OpenHasData(l, s)
    ensures Filed(l, s.view) && l.Valid()
  {
  }

  // ----- where eviction shows -----

  /** Writes data to the starts of volumes 0, 1 and 2, goes back to volume 1 and writes the data again. */
  function ReturningCalls(l: Layout, data: seq<Byte>): seq<Call> {
    var volume: int := l.max;
    var w, on, back := WriteCall(data), SeekCall(volume, SEEK_CUR), SeekCall(-volume, SEEK_CUR);
    [w] + ([on] + ([w] + ([on] + ([w] + ([back] + [w])))))
  }

  lemma RunFirst(l: Layout, threshold: nat, s: StreamState, c: Call, rest: seq<Call>)
    requires l.Valid()
    ensures var r := StreamRun(l, threshold, StreamCall(l, threshold, s, c), rest);
            StreamRun(l, threshold, s, [c] + rest) == StreamResult(r.state, [Answered(l, s, c).reply] + r.replies)
  {
    hide ViewCall, HandleOpen, HandlesAfter;
    assert ([c] + rest)[1..] == rest;
  }

  /** The start of volume `k`. */
  lemma AtStart(l: Layout, k: nat)
    requires l.Valid()
    ensures VolumeOf(l, Start(l.max, k)) == k && OffsetOf(l, Start(l.max, k)) == 0
  {
    StartStep(l.max, k);
    QuotientIs(Start(l.max, k), l.max, k);
  }

  /** Writing something insubstantial at the start of a new volume leaves an empty file and an open handle. */
  lemma LeavesEmptyFile(l: Layout, threshold: nat, s: StreamState, data: seq<Byte>, k: nat)
    requires l.Valid() && !Substantial(l, data) && k < l.maxSize
    requires |s.view.records| == k && s.view.position == Start(l.max, k) < TWO_64
    requires OutName(l.prefix, k) !in s.view.files
    ensures var t := StreamCall(l, threshold, s, WriteCall(data));
            && t.view.records == s.view.records + [FreshRecord(l, k)]
            && t.view.files == s.view.files[OutName(l.prefix, k) := []]
            && t.view.position == s.view.position
            && (k !in s.lru ==> t.lru == Touched(Newest, threshold, s.lru, k))
  {
    hide OutName, Start, VolumeOf, OffsetOf, Touched, Overwritten;
    AtStart(l, k);
    var v := s.view;
    assert Extended(l, v.records, k + 1) == v.records + [FreshRecord(l, k)];
    assert Accepted(l, v.position, |data|) == 0;
    assert data[..0] == [];
    NothingWritten([], 0);
  }

  /** Coming back to such a volume works only while its handle is open. */
  lemma ReturnNeedsHandle(l: Layout, s: StreamState, data: seq<Byte>, k: nat)
    requires l.Valid() && k < |s.view.records| && s.view.position == Start(l.max, k)
    requires s.view.records[k] == FreshRecord(l, k) && OutName(l.prefix, k) in s.view.files
    ensures Answered(l, s, WriteCall(data)).reply.status == if k in s.lru then Ok else Fail
  {
    hide OutName, Start, VolumeOf, OffsetOf, Overwritten;
    AtStart(l, k);
    assert Extended(l, s.view.records, k + 1) == s.view.records;
  }

  lemma MovesTo(l: Layout, threshold: nat, s: StreamState, offset: int, target: nat)
    requires l.Valid() && target < TWO_64 && offset != -TWO_63 && target == s.view.position + offset
    ensures StreamCall(l, threshold, s, SeekCall(offset, SEEK_CUR)) == s.(view := s.view.(position := target))
  {
  }

  lemma ThreeOpened(threshold: nat)
    requires threshold >= 3
    ensures Touched(Newest, threshold, [], 0) == [0] && Touched(Newest, threshold, [0], 1) == [1, 0]
    ensures Touched(Newest, threshold, [1, 0], 2) == if threshold == 3 then [2, 0] else [2, 1, 0]
  {
  }

  /**
    * Whenever a write can accept nothing at the start of a volume, eviction shows: these calls end in a
    * failure when at most two volumes can be open, and succeed when three can.
    */
  lemma EvictionShows(l: Layout, data: seq<Byte>, threshold: nat)
    requires l.Valid() && l.maxSize >= 3 && !Substantial(l, data) && threshold >= 3
    ensures var replies := StreamRun(l, threshold, NewStream(map[]), ReturningCalls(l, data)).replies;
            |replies| == 7 && replies[6].status == if threshold == 3 then Fail else Ok
  {
    hide StreamCall, Answered, Touched, OutName, Start, Substantial;
    StartStep(l.max, 0);
    StartStep(l.max, 1);
    ThreeOpened(threshold);
    DistinctNames(l);
    var volume: int := l.max;
    var w, on, back := WriteCall(data), SeekCall(volume, SEEK_CUR), SeekCall(-volume, SEEK_CUR);
    var s0 := NewStream(map[]);
    var s1 := StreamCall(l, threshold, s0, w);
    var s2 := StreamCall(l, threshold, s1, on);
    var s3 := StreamCall(l, threshold, s2, w);
    var s4 := StreamCall(l, threshold, s3, on);
    var s5 := StreamCall(l, threshold, s4, w);
    var s6 := StreamCall(l, threshold, s5, back);
    LeavesEmptyFile(l, threshold, s0, data, 0);
    MovesTo(l, threshold, s1, l.max, Start(l.max, 1));
    LeavesEmptyFile(l, threshold, s2, data, 1);
    MovesTo(l, threshold, s3, l.max, Start(l.max, 2));
    LeavesEmptyFile(l, threshold, s4, data, 2);
    MovesTo(l, threshold, s5, -volume, Start(l.max, 1));
    ReturnNeedsHandle(l, s6, data, 1);
    RunFirst(l, threshold, s0, w, [on] + ([w] + ([on] + ([w] + ([back] + [w])))));
    RunFirst(l, threshold, s1, on, [w] + ([on] + ([w] + ([back] + [w]))));
    RunFirst(l, threshold, s2, w, [on] + ([w] + ([back] + [w])));
    RunFirst(l, threshold, s3, on, [w] + ([back] + [w]));
    RunFirst(l, threshold, s4, w, [back] + [w]);
    RunFirst(l, threshold, s5, back, [w]);
    RunFirst(l, threshold, s6, w, []);
    assert [w] + [] == [w];
  }

  lemma DistinctNames(l: Layout)
    ensures OutName(l.prefix, 0) != OutName(l.prefix, 1)
    ensures OutName(l.prefix, 0) != OutName(l.prefix, 2) && OutName(l.prefix, 1) != OutName(l.prefix, 2)
  {
    hide OutName;
    if OutName(l.prefix, 0) == OutName(l.prefix, 1) {
      OutNamesDistinct(l.prefix, 0, 1);
    }
    if OutName(l.prefix, 0) == OutName(l.prefix, 2) {
      OutNamesDistinct(l.prefix, 0, 2);
    }
    if OutName(l.prefix, 1) == OutName(l.prefix, 2) {
      OutNamesDistinct(l.prefix, 1, 2);
    }
  }

  // ----- the exact condition -----

  /** Any run of a stream on a new archive, over any files: whatever two bounds on open handles, the same outcome. */
  ghost predicate SameOutcome(l: Layout, files: Files, calls: seq<Call>, threshold: nat, other: nat)
    requires l.Valid()
  {
    var a := StreamRun(l, threshold, NewStream(files), calls);
    var b := StreamRun(l, other, NewStream(files), calls);
    a.state.view == b.state.view && a.replies == b.replies
  }

  ghost predicate DrawnFrom(calls: seq<Call>, allowed: iset<seq<Byte>>) {
    forall i :: 0 <= i < |calls| ==> Passable(calls[i]) && (calls[i].WriteCall? ==> calls[i].data in allowed)
  }

  ghost predicate Invisible(l: Layout, allowed: iset<seq<Byte>>)
    requires l.Valid()
  {
    forall files, calls, threshold: nat, other: nat ::
      threshold >= 3 && other >= 3 && DrawnFrom(calls, allowed) ==> SameOutcome(l, files, calls, threshold, other)
  }

  lemma SubstantialRunsAgree(l: Layout, files: Files, calls: seq<Call>, threshold: nat, other: nat)
    requires l.Valid() && forall i :: 0 <= i < |calls| ==> TakesSomething(l, calls[i])
    ensures SameOutcome(l, files, calls, threshold, other)
  {
    hide ViewRun, StreamRun, TakesSomething;
    StreamIgnoresHandles(l, threshold, NewStream(files), calls);
    StreamIgnoresHandles(l, other, NewStream(files), calls);
  }

  /** A stream whose vector holds at most two volumes. */
  ghost predicate FewVolumes(l: Layout, s: StreamState) {
    && l.Valid() && l.maxSize < 3 && |s.view.records| <= l.maxSize
    && NoDuplicates(s.lru) && forall x :: x in s.lru ==> x < l.maxSize
  }

  lemma NothingToEvict(l: Layout, lru: seq<nat>, index: nat, threshold: nat, other: nat)
    requires l.maxSize < 3 && threshold >= 3 && other >= 3
    requires NoDuplicates(lru) && index < l.maxSize && forall x :: x in lru ==> x < l.maxSize
    ensures Touched(Newest, threshold, lru, index) == Touched(Newest, other, lru, index)
    ensures var r := Touched(Newest, threshold, lru, index); NoDuplicates(r) && forall x :: x in r ==> x < l.maxSize
  {
    hide Without, Evicted;
    WithoutLength(lru, index);
    WithoutMembers(lru, index);
    if index !in lru {
      CardinalityOfDistinct(lru, {0, 1} - {index});
    }
  }

  lemma WriteKeepsCapacity(l: Layout, v: OutView, isOpen: bool, data: seq<Byte>)
    requires l.Valid() && |v.records| <= l.maxSize
    ensures var w := WriteView(l, v, isOpen, data);
            |w.view.records| <= l.maxSize && (w.status == Ok ==> VolumeOf(l, v.position) < l.maxSize)
  {
    hide VolumeOf, OffsetOf, Accepted, OutName, Overwritten, Start;
  }

  lemma SetSizeKeepsCapacity(l: Layout, v: OutView, size: nat)
    requires l.Valid()
    ensures |SetSizeView(l, v, size).view.records| <= |v.records|
  {
    hide Trimmed, CeilDiv, Resized;
  }

  /** With two volumes at most the bound on open handles is never reached. */
  lemma SetSizeClosesAlike(l: Layout, s: StreamState, size: nat, threshold: nat, other: nat)
    requires FewVolumes(l, s) && threshold >= 3 && other >= 3
    ensures var r := SetSizeHandles(l, s.view, s.lru, threshold, size);
            && r == SetSizeHandles(l, s.view, s.lru, other, size)
            && NoDuplicates(r) && forall x :: x in r ==> x < l.maxSize
  {
    hide Trimmed, Below, Touched, CeilDiv, NoDuplicates;
    var count := |Trimmed(s.view.records, s.view.files, size).records|;
    BelowMembers(s.lru, count);
    BelowDistinct(s.lru, count);
    if count > 0 {
      NothingToEvict(l, Below(s.lru, count), count - 1, threshold, other);
    }
  }

  lemma FewStayFew(l: Layout, threshold: nat, other: nat, s: StreamState, c: Call)
    requires FewVolumes(l, s) && threshold >= 3 && other >= 3
    ensures StreamCall(l, threshold, s, c) == StreamCall(l, other, s, c)
    ensures FewVolumes(l, StreamCall(l, threshold, s, c))
  {
    hide VolumeOf, Touched, NoDuplicates, WriteView, SetSizeView, SetSizeHandles;
    var idx := VolumeOf(l, s.view.position);
    match c
    case WriteCall(data) =>
      WriteKeepsCapacity(l, s.view, HandleOpen(l, s) && idx < |s.view.records|, data);
      if Answered(l, s, c).reply.status == Ok {
        NothingToEvict(l, s.lru, idx, threshold, other);
      }
    case SeekCall(_, _) =>
    case SetSizeCall(size) =>
      SetSizeKeepsCapacity(l, s.view, size);
      SetSizeClosesAlike(l, s, size, threshold, other);
  }

  lemma {:induction false} BelowDistinct(lru: seq<nat>, count: nat)
    requires NoDuplicates(lru)
    ensures NoDuplicates(Below(lru, count))
  {
    if lru != [] {
      HeadIsDistinct(lru);
      hide NoDuplicates;
      BelowMembers(lru[1..], count);
      BelowDistinct(lru[1..], count);
      ConsDistinct(lru[0], Below(lru[1..], count));
      assert [] + Below(lru[1..], count) == Below(lru[1..], count);
    }
  }

  lemma HeadIsDistinct(s: seq<nat>)
    requires s != [] && NoDuplicates(s)
    ensures NoDuplicates(s[1..]) && s[0] !in s[1..]
  {
  }

  lemma ConsDistinct(x: nat, s: seq<nat>)
    requires NoDuplicates(s)
    ensures x !in s ==> NoDuplicates([x] + s)
  {
  }

  lemma {:induction false} FewVolumesAgree(l: Layout, threshold: nat, other: nat, s: StreamState, calls: seq<Call>)
    requires FewVolumes(l, s) && threshold >= 3 && other >= 3
    ensures StreamRun(l, threshold, s, calls) == StreamRun(l, other, s, calls)
    decreases |calls|
  {
    hide StreamCall, Answered;
    if calls != [] {
      FewStayFew(l, threshold, other, s, calls[0]);
      FewVolumesAgree(l, threshold, other, StreamCall(l, threshold, s, calls[0]), calls[1..]);
    }
  }

  /**
    * Eviction is invisible in all runs whose writes are drawn from `allowed` exactly when there is no room
    * for three volumes, or every one of those writes accepts something at the start of a volume: it is not
    * empty, and the volume size is not a multiple of 2^32.
    */
  lemma InvisibleIff(l: Layout, allowed: iset<seq<Byte>>)
    requires l.Valid() && forall data :: data in allowed ==> |data| < TWO_32
    ensures Invisible(l, allowed) <==> l.maxSize < 3 || forall data :: data in allowed ==> Substantial(l, data)
  {
    hide StreamRun, Substantial;
    if l.maxSize >= 3 && exists data :: data in allowed && !Substantial(l, data) {
      var data :| data in allowed && !Substantial(l, data);
      EvictionShows(l, data, 3);
      EvictionShows(l, data, 4);
      var calls := ReturningCalls(l, data);
      assert DrawnFrom(calls, allowed);
      assert !SameOutcome(l, map[], calls, 3, 4);
    } else {
      forall files, calls, threshold: nat, other: nat
        | threshold >= 3 && other >= 3 && DrawnFrom(calls, allowed)
        ensures SameOutcome(l, files, calls, threshold, other)
      {
        if l.maxSize < 3 {
          FewVolumesAgree(l, threshold, other, NewStream(files), calls);
        } else {
          SubstantialRunsAgree(l, files, calls, threshold, other);
        }
      }
    }
  }

  // ----- the stream objects -----

  ghost function StateOf(out: MultiVolumeOutStream): StreamState
    reads out, out.disk, out.cache
  {
    StreamState(out.View(), out.cache.lru)
  }

  /** The stream object carries out and answers every run of calls as specified, down to its open volumes. */
  method MakeCalls(out: MultiVolumeOutStream, calls: seq<Call>) returns (replies: seq<Reply>)
    requires out.Valid() && AllPassable(calls)
    modifies out, out.cache, out.disk
    ensures out.Valid()
    ensures StreamResult(StateOf(out), replies) == StreamRun(out.layout, out.cache.threshold, old(StateOf(out)), calls)
    decreases |calls|
  {
    hide Touched, WriteView, SetSizeView, SetSizeHandles, VolumeOf;
    replies := [];
    if calls != [] {
      OpenVolumesExist(out);
      var reply;
      match calls[0] {
        case WriteCall(data) =>
          var status, n := out.Write(data);
          reply := Reply(status, n);
        case SeekCall(offset, origin) =>
          var status := out.Seek(offset, origin);
          reply := Reply(status, 0);
        case SetSizeCall(size) =>
          var status := out.SetSize(size);
          reply := Reply(status, 0);
      }
      var later := MakeCalls(out, calls[1..]);
      replies := [reply] + later;
    }
  }

  lemma OpenVolumesExist(out: MultiVolumeOutStream)
    requires out.Valid()
    ensures forall i :: i in out.cache.lru ==> i < |out.View().records|
  {
  }

  /** A new stream object with a bound on open handles makes the calls. */
  method MakeCallsOnNew(layout: Layout, files: Files, calls: seq<Call>, threshold: nat)
    returns (view: OutView, replies: seq<Reply>)
    requires layout.Valid() && threshold >= 3 && AllPassable(calls)
    ensures var r := StreamRun(layout, threshold, NewStream(files), calls);
            view == r.state.view && replies == r.replies
  {
    hide StreamRun;
    var disk := new Disk(files);
    var out := new MultiVolumeOutStream(layout, threshold, disk);
    assert StateOf(out) == NewStream(files);
    replies := MakeCalls(out, calls);
    view := OutView(Records(out.cache.volumes), disk.files, out.position, out.total);
  }

  /** The failure on stream objects: the same calls on two new archives, with two handles and with more. */
  method WatchEviction(layout: Layout, data: seq<Byte>, threshold: nat) returns (few: Reply, many: Reply)
    requires layout.Valid() && layout.maxSize >= 3 && |data| < TWO_32 && !Substantial(layout, data) && threshold > 3
    ensures few.status == Fail && many.status == Ok
  {
    hide StreamRun, Substantial;
    var calls := ReturningCalls(layout, data);
    EvictionShows(layout, data, 3);
    EvictionShows(layout, data, threshold);
    var view, replies := MakeCallsOnNew(layout, map[], calls, 3);
    few := replies[6];
    view, replies := MakeCallsOnNew(layout, map[], calls, threshold);
    many := replies[6];
  }
}
