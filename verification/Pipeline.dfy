/**
  * Whole runs of the two threads that share the bounded queue: the extractor, which writes the chunks
  * of the nested archive and then signals the end, and the reader. Every step is one pass through the
  * locked region, so the steps of the two threads interleave freely; sleepers may also wake for no reason.
  */
module Pipeline {
  import opened Common
  import opened BufferQueues

  datatype Producer = NotStarted | Running | InPush | Exited

  datatype Consumer = Idle | InRead(size: nat)

  /**
    * `todo` is what the extractor will still write. `accepted` and `delivered` record the bytes that
    * Write has taken and that Read has returned; `ended` that a Read of positive size returned nothing.
    */
  datatype Pipe = Pipe(
    limit: nat,
    monitor: Monitor,
    producer: Producer,
    todo: seq<Chunk>,
    aborted: bool,
    consumer: Consumer,
    rest: Chunk,
    accepted: seq<Byte>,
    delivered: seq<Byte>,
    ended: bool)

  datatype Event =
    | Read(size: nat)      // the reader calls Read
    | ReaderResumes        // the reader, awake again, re-checks the condition
    | ExtractorWrites      // the extractor calls Write with its next chunk
    | ExtractorResumes     // the extractor, awake again, re-checks the condition
    | ExtractorFinishes    // extraction is complete
    | ExtractorFails       // extraction throws; the end is signalled all the same
    | SpuriousReader       // a sleeping thread wakes without being notified
    | SpuriousExtractor

  function Initial(limit: nat, chunks: seq<Chunk>): Pipe {
    Pipe(limit, Monitor([], 0, false, false, false), NotStarted, chunks, false, Idle, [], [], [], false)
  }

  /** The reader's pass through Read. */
  function Reading(s: Pipe, size: nat): Pipe {
    var started := s.(producer := if size > 0 && s.producer.NotStarted? then Running else s.producer);
    var p := ReadOnce(s.monitor, s.rest, size);
    match p.data
    case None => started.(monitor := p.monitor, rest := p.rest, consumer := InRead(size))
    case Some(data) =>
      started.(monitor := p.monitor, rest := p.rest, consumer := Idle, delivered := s.delivered + data,
               ended := s.ended || (size > 0 && data == []))
  }

  /** The extractor's pass through Write with the next chunk; a refused chunk never enters the queue. */
  function Writing(s: Pipe): Pipe
    requires s.todo != []
  {
    var item := s.todo[0];
    if item == [] then s.(producer := Running, todo := s.todo[1..])
    else
      var p := PushOnce(s.monitor, s.limit, item);
      if p.done then s.(monitor := p.monitor, producer := Running, todo := s.todo[1..], accepted := s.accepted + item)
      else s.(monitor := p.monitor, producer := InPush)
  }

  function Step(s: Pipe, e: Event): Option<Pipe> {
    match e
    case Read(size) => if s.consumer.Idle? then Some(Reading(s, size)) else None
    case ReaderResumes =>
      if s.consumer.InRead? && !s.monitor.consumerSleeps then Some(Reading(s, s.consumer.size)) else None
    case ExtractorWrites => if s.producer.Running? && s.todo != [] then Some(Writing(s)) else None
    case ExtractorResumes =>
      if s.producer.InPush? && !s.monitor.producerSleeps && s.todo != [] then Some(Writing(s)) else None
    case ExtractorFinishes =>
      if s.producer.Running? && s.todo == [] then Some(s.(monitor := FinishOnce(s.monitor), producer := Exited))
      else None
    case ExtractorFails =>
      if s.producer.Running? then Some(s.(monitor := FinishOnce(s.monitor), producer := Exited, aborted := true))
      else None
    case SpuriousReader =>
      if s.monitor.consumerSleeps then Some(s.(monitor := s.monitor.(consumerSleeps := false))) else None
    case SpuriousExtractor =>
      if s.monitor.producerSleeps then Some(s.(monitor := s.monitor.(producerSleeps := false))) else None
  }

  /** When a step can be made: where its thread stands, and who sleeps. */
  lemma StepPossibleIff(s: Pipe, e: Event)
    ensures Step(s, e).Some? <==>
            match e
            case Read(_) => s.consumer == Idle
            case ReaderResumes => s.consumer != Idle && !s.monitor.consumerSleeps
            case ExtractorWrites => s.producer == Running && |s.todo| > 0
            case ExtractorResumes => s.producer == InPush && |s.todo| > 0 && !s.monitor.producerSleeps
            case ExtractorFinishes => s.producer == Running && |s.todo| == 0
            case ExtractorFails => s.producer == Running
            case SpuriousReader => s.monitor.consumerSleeps
            case SpuriousExtractor => s.monitor.producerSleeps
  {
  }

  function Run(s: Pipe, es: seq<Event>): Option<Pipe>
    decreases |es|
  {
    if es == [] then Some(s)
    else match Step(s, es[0])
      case None => None
      case Some(t) => Run(t, es[1..])
  }

  // ----- what every step keeps -----

  /** Bytes are conserved: nothing is lost, duplicated or reordered between Write and Read. */
  ghost predicate Conserved(s: Pipe) {
    s.accepted == s.delivered + s.rest + Flatten(s.monitor.queue)
  }

  /** A thread sleeps only while its condition is false: there are no lost wakeups. */
  ghost predicate SleepersMustWait(s: Pipe) {
    && (s.monitor.consumerSleeps ==> s.consumer.InRead? && s.monitor.queue == [] && !s.monitor.finished)
    && (s.monitor.producerSleeps ==>
          s.producer.InPush? && s.todo != [] && s.monitor.usage + |s.todo[0]| >= s.limit)
  }

  ghost predicate Consistent(s: Pipe) {
    && Sound(s.monitor, s.limit)
    && Conserved(s)
    && SleepersMustWait(s)
    && (s.consumer.InRead? ==> s.rest == [] && s.consumer.size > 0 && !s.producer.NotStarted?)
    && (s.producer.InPush? ==> s.todo != [] && s.todo[0] != [])
    && (s.monitor.finished <==> s.producer.Exited?)
    && (s.producer.Exited? && !s.aborted ==> s.todo == [])
    && (s.aborted ==> s.producer.Exited?)
    && (s.ended ==> s.monitor.finished && s.monitor.queue == [] && s.rest == [])
  }

  lemma FlattenHead(q: seq<Chunk>)
    requires q != []
    ensures Flatten(q) == q[0] + Flatten(q[1..])
  {
  }

  lemma ReadConserves(s: Pipe, size: nat)
    requires Consistent(s)
    ensures Conserved(Reading(s, size))
  {
    hide Flatten;
    var q := s.monitor.queue;
    if size > 0 {
      if s.rest != [] {
        CopyKeeps(s.delivered, s.rest, Min(|s.rest|, size), Flatten(q));
      } else if q != [] {
        FlattenHead(q);
        assert s.delivered + [] + Flatten(q) == s.delivered + q[0] + Flatten(q[1..]);
        CopyKeeps(s.delivered, q[0], Min(|q[0]|, size), Flatten(q[1..]));
      } else {
        assert s.delivered + [] == s.delivered;
      }
    } else {
      assert s.delivered + [] == s.delivered;
    }
  }

  lemma CopyKeeps(done: seq<Byte>, chunk: seq<Byte>, n: nat, later: seq<Byte>)
    requires n <= |chunk|
    ensures done + chunk + later == (done + chunk[..n]) + chunk[n..] + later
  {
    assert chunk == chunk[..n] + chunk[n..];
  }

  lemma ReadKeeps(s: Pipe, size: nat)
    requires Consistent(s)
    requires s.consumer.Idle? || (s.consumer.InRead? && !s.monitor.consumerSleeps && size == s.consumer.size)
    ensures Consistent(Reading(s, size))
  {
    ReadConserves(s, size);
    PassesKeepSound(s.monitor, s.limit, []);
    hide Conserved, Flatten, Total, Sound;
  }

  lemma WriteKeeps(s: Pipe)
    requires Consistent(s) && s.todo != [] && (s.producer.Running? || s.producer.InPush?) && !s.monitor.producerSleeps
    ensures Consistent(Writing(s))
  {
    PassesKeepSound(s.monitor, s.limit, s.todo[0]);
    WriteConserves(s);
    hide Flatten, Total, Conserved, Sound;
    SoundQueue(s.monitor, s.limit);
  }

  lemma WriteConserves(s: Pipe)
    requires Conserved(s) && s.todo != []
    ensures Conserved(Writing(s))
  {
    hide Flatten;
    var item := s.todo[0];
    if item != [] {
      AppendChunk(s.monitor.queue, item);
      assert s.delivered + s.rest + Flatten(s.monitor.queue) + item ==
             s.delivered + s.rest + (Flatten(s.monitor.queue) + item);
    }
  }

  lemma SoundQueue(m: Monitor, limit: nat)
    requires Sound(m, limit)
    ensures m.usage == Total(m.queue)
  {
  }

  lemma StepKeeps(s: Pipe, e: Event)
    requires Consistent(s) && Step(s, e).Some?
    ensures Consistent(Step(s, e).value)
  {
    hide Conserved, Reading, Writing;
    match e
    case Read(size) => ReadKeeps(s, size);
    case ReaderResumes => ReadKeeps(s, s.consumer.size);
    case ExtractorWrites => WriteKeeps(s);
    case ExtractorResumes => WriteKeeps(s);
    case _ =>
      PassesKeepSound(s.monitor, s.limit, []);
      KeepsConserved(s, Step(s, e).value);
  }

  lemma KeepsConserved(s: Pipe, t: Pipe)
    requires Conserved(s) && t.accepted == s.accepted && t.delivered == s.delivered && t.rest == s.rest
    requires t.monitor.queue == s.monitor.queue
    ensures Conserved(t)
  {
  }

  lemma {:induction false} RunKeeps(s: Pipe, es: seq<Event>)
    requires Consistent(s) && Run(s, es).Some?
    ensures Consistent(Run(s, es).value)
    decreases |es|
  {
    if es != [] {
      StepKeeps(s, es[0]);
      RunKeeps(Step(s, es[0]).value, es[1..]);
    }
  }

  /** In every reachable state. */
  lemma ReachableIsConsistent(limit: nat, chunks: seq<Chunk>, es: seq<Event>)
    requires Run(Initial(limit, chunks), es).Some?
    ensures Consistent(Run(Initial(limit, chunks), es).value)
  {
    RunKeeps(Initial(limit, chunks), es);
  }

  /** A Read of positive size comes back empty only after the end was signalled and every byte was delivered. */
  lemma EmptyReadMeansEnd(s: Pipe, size: nat)
    requires Consistent(s) && size > 0
    requires s.consumer.Idle? || (s.consumer.InRead? && !s.monitor.consumerSleeps && size == s.consumer.size)
    requires Reading(s, size).consumer.Idle? && Reading(s, size).delivered == s.delivered
    ensures s.monitor.finished && s.delivered == s.accepted && Reading(s, size).ended
  {
    var p := ReadOnce(s.monitor, s.rest, size);
    assert |s.delivered + p.data.value| == |s.delivered|;
    assert s.delivered + [] + [] == s.delivered;
  }

  /** Both threads asleep means the chunk being written can never fit; smaller chunks never deadlock. */
  lemma DeadlockNeedsOversizedChunk(s: Pipe)
    requires Consistent(s) && s.monitor.consumerSleeps && s.monitor.producerSleeps
    ensures s.todo != [] && |s.todo[0]| >= s.limit
  {
  }

  /** An extractor that is writing a chunk as large as the limit never gets past it, whatever happens. */
  lemma {:induction false} OversizedChunkBlocksForever(s: Pipe, es: seq<Event>)
    requires Consistent(s) && s.producer.InPush? && |s.todo[0]| >= s.limit && Run(s, es).Some?
    ensures var t := Run(s, es).value;
            t.producer.InPush? && t.todo == s.todo && t.accepted == s.accepted && !t.monitor.finished && !t.ended
    decreases |es|
  {
    if es != [] {
      var t := Step(s, es[0]).value;
      StepKeeps(s, es[0]);
      OversizedStep(s, es[0]);
      OversizedChunkBlocksForever(t, es[1..]);
    }
  }

  lemma OversizedStep(s: Pipe, e: Event)
    requires Consistent(s) && s.producer.InPush? && |s.todo[0]| >= s.limit && Step(s, e).Some?
    ensures var t := Step(s, e).value;
            t.producer.InPush? && t.todo == s.todo && t.limit == s.limit && t.accepted == s.accepted
  {
    hide Conserved, Flatten, Total;
  }

  /** What a step hands to the reader: at most what the call asked for, and less only where a chunk ends. */
  lemma StepHandsOut(s: Pipe, e: Event)
    requires Consistent(s) && Step(s, e).Some?
    ensures var t := Step(s, e).value;
            var wanted := if e.Read? then e.size else if e.ReaderResumes? then s.consumer.size else 0;
            && s.delivered <= t.delivered
            && |t.delivered| <= |s.delivered| + wanted
            && (|s.delivered| < |t.delivered| < |s.delivered| + wanted ==> t.rest == [])
  {
    hide Consistent, Writing;
    if e.Read? || e.ReaderResumes? {
      ReadHandsOut(s.monitor, s.rest, if e.Read? then e.size else s.consumer.size);
    } else {
      WritingHandsOutNothing(s);
    }
  }

  lemma WritingHandsOutNothing(s: Pipe)
    ensures s.todo != [] ==> Writing(s).delivered == s.delivered
  {
  }

  // ----- draining -----

  /**
    * The steps of any run in which the reader keeps reading until the end: wakeups may be spurious, extraction
    * may fail.
    */
  predicate ReadsOn(s: Pipe, e: Event) {
    !s.ended && (e.Read? ==> e.size > 0) && Step(s, e).Some?
  }

  predicate AllReadOn(s: Pipe, es: seq<Event>)
    decreases |es|
  {
    es != [] ==> ReadsOn(s, es[0]) && AllReadOn(Step(s, es[0]).value, es[1..])
  }

  predicate IsSpurious(e: Event) {
    e.SpuriousReader? || e.SpuriousExtractor?
  }

  function SpuriousWakeups(es: seq<Event>): nat {
    if es == [] then 0 else (if IsSpurious(es[0]) then 1 else 0) + SpuriousWakeups(es[1..])
  }

  /** What a thread can do by itself, without a spurious wakeup and without failing. */
  predicate Active(s: Pipe, e: Event) {
    ReadsOn(s, e) && !IsSpurious(e) && !e.ExtractorFails?
  }

  ghost predicate Stuck(s: Pipe) {
    forall e :: !Active(s, e)
  }

  /** Write refuses an empty chunk at once, and any other chunk must stay below the limit. */
  predicate Fits(limit: nat, chunk: Chunk) {
    chunk == [] || |chunk| < limit
  }

  ghost predicate AllFit(limit: nat, chunks: seq<Chunk>) {
    forall i :: 0 <= i < |chunks| ==> Fits(limit, chunks[i])
  }

  function Weight(q: seq<Chunk>, perChunk: nat): nat {
    if q == [] then 0 else |q[0]| + perChunk + Weight(q[1..], perChunk)
  }

  lemma {:induction false} AppendWeight(q: seq<Chunk>, c: Chunk, perChunk: nat)
    ensures Weight(q + [c], perChunk) == Weight(q, perChunk) + |c| + perChunk
  {
    if q == [] {
      assert q + [c] == [c];
      assert [c][1..] == [];
    } else {
      assert (q + [c])[1..] == q[1..] + [c];
      AppendWeight(q[1..], c, perChunk);
    }
  }

  lemma WeightHead(q: seq<Chunk>, perChunk: nat)
    requires q != []
    ensures Weight(q, perChunk) == |q[0]| + perChunk + Weight(q[1..], perChunk)
  {
  }

  /** What is left to do, counting who is awake. */
  function Measure(s: Pipe): nat {
    Weight(s.todo, 4) + Weight(s.monitor.queue, 2) + |s.rest|
    + (if s.ended then 0 else 1)
    + (if s.monitor.finished then 0 else 2)
    + (if s.monitor.consumerSleeps then 0 else 1)
    + (if s.monitor.producerSleeps || s.producer.Exited? then 0 else 1)
  }

  lemma ReadingProgresses(s: Pipe, size: nat)
    requires Consistent(s) && !s.ended && size > 0
    requires s.consumer.Idle? || (s.consumer.InRead? && !s.monitor.consumerSleeps && size == s.consumer.size)
    ensures Measure(Reading(s, size)) < Measure(s)
  {
    if s.rest == [] && s.monitor.queue != [] {
      WeightHead(s.monitor.queue, 2);
      assert s.monitor.queue[0] != [];
    }
    hide Weight, Conserved, Flatten, Total;
  }

  lemma WritingProgresses(s: Pipe)
    requires Consistent(s) && s.todo != [] && (s.producer.Running? || s.producer.InPush?) && !s.monitor.producerSleeps
    ensures Measure(Writing(s)) < Measure(s)
  {
    WeightHead(s.todo, 4);
    AppendWeight(s.monitor.queue, s.todo[0], 2);
    hide Weight, Conserved, Flatten, Total;
  }

  /** Every step gets closer to the end, except that a spurious wakeup leads one step away. */
  lemma StepProgresses(s: Pipe, e: Event)
    requires Consistent(s) && ReadsOn(s, e)
    ensures if IsSpurious(e) then Measure(Step(s, e).value) == Measure(s) + 1
            else Measure(Step(s, e).value) < Measure(s)
  {
    hide Weight, Conserved, Reading, Writing, Flatten, Total;
    match e
    case Read(size) => ReadingProgresses(s, size);
    case ReaderResumes => ReadingProgresses(s, s.consumer.size);
    case ExtractorWrites => WritingProgresses(s);
    case ExtractorResumes => WritingProgresses(s);
    case _ =>
  }

  /** Until the end is read, some thread can take a step exactly when not both of them sleep. */
  lemma StuckIff(s: Pipe)
    requires Consistent(s) && !s.ended
    ensures Stuck(s) <==> s.monitor.consumerSleeps && s.monitor.producerSleeps
  {
    hide Conserved, Reading, Writing, Flatten;
    if s.consumer.Idle? {
      assert Active(s, Read(1));
    } else if !s.monitor.consumerSleeps {
      assert Active(s, ReaderResumes);
    } else if s.producer.Running? {
      assert Active(s, if s.todo == [] then ExtractorFinishes else ExtractorWrites);
    } else {
      assert s.producer.InPush?;
      if !s.monitor.producerSleeps {
        assert Active(s, ExtractorResumes);
      }
    }
  }

  lemma WritingKeepsSource(s: Pipe)
    requires s.todo != []
    ensures var t := Writing(s);
            && t.limit == s.limit && t.aborted == s.aborted
            && t.accepted + Flatten(t.todo) == s.accepted + Flatten(s.todo)
            && (t.todo == s.todo || t.todo == s.todo[1..])
  {
    FlattenHead(s.todo);
    var item := s.todo[0];
    assert s.accepted + item + Flatten(s.todo[1..]) == s.accepted + (item + Flatten(s.todo[1..]));
    assert [] + Flatten(s.todo[1..]) == Flatten(s.todo[1..]);
    hide Flatten;
  }

  /** What the extractor has written and will write is what it was given. */
  lemma SourceKept(s: Pipe, e: Event)
    requires Step(s, e).Some? && Consistent(s)
    ensures var t := Step(s, e).value;
            && t.limit == s.limit
            && t.accepted + Flatten(t.todo) == s.accepted + Flatten(s.todo)
            && (!e.ExtractorFails? ==> t.aborted == s.aborted)
  {
    hide Flatten, Conserved, Writing, Total;
    if e.ExtractorWrites? || e.ExtractorResumes? {
      WritingKeepsSource(s);
    }
  }

  lemma {:induction false} RunKeepsSource(s: Pipe, es: seq<Event>)
    requires Consistent(s) && Run(s, es).Some?
    ensures var t := Run(s, es).value; t.accepted + Flatten(t.todo) == s.accepted + Flatten(s.todo)
    decreases |es|
  {
    hide Flatten, Conserved;
    if es != [] {
      StepKeeps(s, es[0]);
      SourceKept(s, es[0]);
      RunKeepsSource(Step(s, es[0]).value, es[1..]);
    }
  }

  /** In every reachable state, failing extraction included, what has been read is a prefix of the nested archive. */
  lemma DeliveredIsPrefix(limit: nat, chunks: seq<Chunk>, es: seq<Event>)
    requires Run(Initial(limit, chunks), es).Some?
    ensures Run(Initial(limit, chunks), es).value.delivered <= Flatten(chunks)
  {
    var s := Initial(limit, chunks);
    ReachableIsConsistent(limit, chunks, es);
    RunKeepsSource(s, es);
    var t := Run(s, es).value;
    assert [] + Flatten(chunks) == Flatten(chunks);
    assert t.accepted <= t.accepted + Flatten(t.todo);
    assert t.delivered <= t.delivered + t.rest <= t.accepted;
  }

  /** Only chunks that fit get past the extractor. */
  lemma StepTakesFitting(s: Pipe, e: Event)
    requires Consistent(s) && Step(s, e).Some?
    ensures var t := Step(s, e).value;
            && t.limit == s.limit
            && (t.todo == s.todo || (s.todo != [] && t.todo == s.todo[1..] && Fits(s.limit, s.todo[0])))
  {
    hide Conserved, Flatten, Total;
  }

  lemma NoChunksFit(limit: nat)
    ensures AllFit(limit, [])
  {
  }

  lemma OneMoreFits(limit: nat, chunk: Chunk, chunks: seq<Chunk>)
    requires Fits(limit, chunk) && AllFit(limit, chunks)
    ensures AllFit(limit, [chunk] + chunks)
  {
    hide Fits;
  }

  lemma {:induction false} RunTakesFitting(s: Pipe, es: seq<Event>) returns (taken: nat)
    requires Consistent(s) && Run(s, es).Some?
    ensures var t := Run(s, es).value;
            && t.limit == s.limit
            && taken <= |s.todo| && t.todo == s.todo[taken..]
            && AllFit(s.limit, s.todo[..taken])
    decreases |es|
  {
    hide Consistent, Step, Fits, AllFit;
    if es == [] {
      NoChunksFit(s.limit);
      assert s.todo[..0] == [];
      taken := 0;
    } else {
      var next := Step(s, es[0]).value;
      StepKeeps(s, es[0]);
      StepTakesFitting(s, es[0]);
      taken := RunTakesFitting(next, es[1..]);
      if next.todo != s.todo {
        assert s.todo[1..][taken..] == s.todo[taken + 1..];
        assert s.todo[..taken + 1] == [s.todo[0]] + next.todo[..taken];
        OneMoreFits(s.limit, s.todo[0], next.todo[..taken]);
        taken := taken + 1;
      }
    }
  }

  /** Whatever the run, without a failure the end is read only if every chunk fits. */
  lemma EndNeedsFitting(limit: nat, chunks: seq<Chunk>, es: seq<Event>)
    requires Run(Initial(limit, chunks), es).Some?
    ensures var t := Run(Initial(limit, chunks), es).value; t.ended && !t.aborted ==> AllFit(limit, chunks)
  {
    ReachableIsConsistent(limit, chunks, es);
    var taken := RunTakesFitting(Initial(limit, chunks), es);
    assert chunks[..|chunks|] == chunks;
  }

  lemma {:induction false} ReadingRun(s: Pipe, es: seq<Event>)
    requires Consistent(s) && AllReadOn(s, es)
    ensures Run(s, es).Some?
    ensures var t := Run(s, es).value;
            Consistent(t) && |es| + Measure(t) <= Measure(s) + 2 * SpuriousWakeups(es)
    decreases |es|
  {
    hide Measure, Consistent, Step, IsSpurious;
    if es != [] {
      StepKeeps(s, es[0]);
      StepProgresses(s, es[0]);
      ReadingRun(Step(s, es[0]).value, es[1..]);
    }
  }

  lemma EndDeliversAll(s: Pipe)
    requires Consistent(s) && s.ended
    ensures s.delivered == s.accepted && (!s.aborted ==> s.todo == [])
  {
    assert s.delivered + [] + [] == s.delivered;
  }

  lemma EmptyRemainder(accepted: seq<Byte>, all: seq<Byte>)
    ensures accepted + Flatten([]) == accepted && [] + all == all
  {
  }

  /** Whoever has read the end has read all that was accepted: without a failure, everything in order. */
  lemma EndMeansAll(limit: nat, chunks: seq<Chunk>, es: seq<Event>)
    requires Run(Initial(limit, chunks), es).Some? && Run(Initial(limit, chunks), es).value.ended
    ensures var t := Run(Initial(limit, chunks), es).value;
            t.delivered == t.accepted && (!t.aborted ==> t.delivered == Flatten(chunks) && AllFit(limit, chunks))
  {
    hide Flatten, Conserved;
    var s := Initial(limit, chunks);
    var t := Run(s, es).value;
    InitialIsConsistent(limit, chunks);
    ReachableIsConsistent(limit, chunks, es);
    EndNeedsFitting(limit, chunks, es);
    EndDeliversAll(t);
    RunKeepsSource(s, es);
    EmptyRemainder(t.accepted, Flatten(chunks));
  }

  lemma InitialIsConsistent(limit: nat, chunks: seq<Chunk>)
    ensures Consistent(Initial(limit, chunks))
  {
  }

  /**
    * With a reader that keeps reading, every run is bounded, each spurious wakeup paying for itself and one
    * more step. A run in which no thread can go on has read the end exactly when extraction failed or every
    * chunk fits, and otherwise both threads sleep for good on a chunk that does not. Having read the end, it
    * has delivered all that was accepted, which is everything, in order, unless extraction failed.
    */
  lemma EveryRunDrains(limit: nat, chunks: seq<Chunk>, es: seq<Event>)
    requires AllReadOn(Initial(limit, chunks), es)
    ensures |es| <= Measure(Initial(limit, chunks)) + 2 * SpuriousWakeups(es)
    ensures Run(Initial(limit, chunks), es).Some?
    ensures var t := Run(Initial(limit, chunks), es).value;
            && (Stuck(t) ==> (t.ended <==> t.aborted || AllFit(limit, chunks)))
            && (Stuck(t) && !t.ended ==> t.monitor.consumerSleeps && t.monitor.producerSleeps
                                         && t.todo != [] && !Fits(limit, t.todo[0]))
            && (t.ended ==> t.delivered == t.accepted && (!t.aborted ==> t.delivered == Flatten(chunks)))
  {
    hide Measure, Stuck, Flatten, AllReadOn, Conserved;
    var s := Initial(limit, chunks);
    InitialIsConsistent(limit, chunks);
    ReadingRun(s, es);
    var t := Run(s, es).value;
    if t.ended {
      EndMeansAll(limit, chunks, es);
    } else if Stuck(t) {
      StuckIff(t);
      DeadlockNeedsOversizedChunk(t);
      var taken := RunTakesFitting(s, es);
      assert t.todo[0] == chunks[taken];
    }
  }

  /** Every state can be run on, without failures and spurious wakeups, until no thread can go on. */
  lemma {:induction false} RunOn(s: Pipe) returns (es: seq<Event>)
    requires Consistent(s)
    ensures AllReadOn(s, es) && Run(s, es).Some?
    ensures var t := Run(s, es).value; Stuck(t) && t.aborted == s.aborted
    decreases Measure(s)
  {
    hide Measure, Consistent, Step;
    if Stuck(s) {
      es := [];
    } else {
      var e :| Active(s, e);
      StepKeeps(s, e);
      StepProgresses(s, e);
      SourceKept(s, e);
      var rest := RunOn(Step(s, e).value);
      es := [e] + rest;
      assert es[1..] == rest;
    }
  }

  /** Given limit and chunks, extraction can block for good without failing exactly when some chunk does not fit. */
  lemma BlocksIff(limit: nat, chunks: seq<Chunk>)
    ensures (exists es :: CanBlock(limit, chunks, es)) <==> !AllFit(limit, chunks)
  {
    hide Stuck, AllFit, AllReadOn;
    InitialIsConsistent(limit, chunks);
    if es :| CanBlock(limit, chunks, es) {
      EveryRunDrains(limit, chunks, es);
    }
    var es := RunOn(Initial(limit, chunks));
    EveryRunDrains(limit, chunks, es);
    if !AllFit(limit, chunks) {
      assert CanBlock(limit, chunks, es);
    }
  }

  /** A run with a reader that keeps reading in which extraction has not failed and no thread can ever go on. */
  ghost predicate CanBlock(limit: nat, chunks: seq<Chunk>, es: seq<Event>) {
    && AllReadOn(Initial(limit, chunks), es)
    && Run(Initial(limit, chunks), es).Some?
    && var t := Run(Initial(limit, chunks), es).value; Stuck(t) && !t.ended && !t.aborted
  }

  /** The shortest such run: the first chunk is one that does not fit. */
  lemma OversizedFirstChunk(limit: nat, chunk: Chunk)
    requires !Fits(limit, chunk)
    ensures var t := Run(Initial(limit, [chunk]), [Read(1), ExtractorWrites]);
            && t.Some? && t.value.producer.InPush? && t.value.todo == [chunk]
            && t.value.monitor.consumerSleeps && t.value.monitor.producerSleeps
  {
    var s := Initial(limit, [chunk]);
    var a := Step(s, Read(1)).value;
    assert [Read(1), ExtractorWrites][1..] == [ExtractorWrites];
    assert [ExtractorWrites][1..] == [];
    assert Run(a, [ExtractorWrites]) == Step(a, ExtractorWrites);
  }
}
