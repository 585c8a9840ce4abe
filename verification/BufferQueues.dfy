/**
  * The bounded queue between the thread that extracts the parent archive and the reader of the
  * nested one. A blocking call is a sequence of passes through the locked region: each pass checks
  * the condition and either completes or goes to sleep on the condition variable.
  */
module BufferQueues {
  import opened Common

  type Chunk = seq<Byte>

  function Total(q: seq<Chunk>): nat {
    if q == [] then 0 else |q[0]| + Total(q[1..])
  }

  function Flatten(q: seq<Chunk>): seq<Byte> {
    if q == [] then [] else q[0] + Flatten(q[1..])
  }

  lemma {:induction false} AppendChunk(q: seq<Chunk>, c: Chunk)
    ensures Total(q + [c]) == Total(q) + |c| && Flatten(q + [c]) == Flatten(q) + c
  {
    if q == [] {
      assert q + [c] == [c];
      assert [c][1..] == [];
    } else {
      assert (q + [c])[1..] == q[1..] + [c];
      AppendChunk(q[1..], c);
    }
  }

  /** The state guarded by the mutex, and who sleeps on which condition variable. */
  datatype Monitor = Monitor(queue: seq<Chunk>, usage: nat, finished: bool, producerSleeps: bool, consumerSleeps: bool)

  datatype PushPass = PushPass(monitor: Monitor, done: bool)

  /** One pass of push: the chunk is queued if it keeps the usage below the limit, else the producer sleeps. */
  function PushOnce(m: Monitor, limit: nat, item: Chunk): PushPass {
    if m.usage + |item| < limit then
      PushPass(
        m.(queue := m.queue + [item], usage := m.usage + |item|, producerSleeps := false, consumerSleeps := false),
        true)
    else
      PushPass(m.(producerSleeps := true), false)
  }

  datatype PopPass = PopPass(monitor: Monitor, value: Option<Chunk>)

  /** One pass of pop: the oldest chunk, or an empty one after the end, or sleep. */
  function PopOnce(m: Monitor): PopPass {
    if m.queue == [] && !m.finished then PopPass(m.(consumerSleeps := true), None)
    else if m.queue == [] then PopPass(m.(consumerSleeps := false), Some([]))
    else
      var used := if |m.queue[0]| <= m.usage then m.usage - |m.queue[0]| else 0;
      PopPass(m.(queue := m.queue[1..], usage := used, producerSleeps := false, consumerSleeps := false),
              Some(m.queue[0]))
  }

  function FinishOnce(m: Monitor): Monitor {
    m.(finished := true, consumerSleeps := false)
  }

  /** Usage is what is queued, it never reaches the limit, and no queued chunk is empty. */
  ghost predicate Sound(m: Monitor, limit: nat) {
    && m.usage == Total(m.queue)
    && (m.queue == [] || m.usage < limit)
    && (forall i :: 0 <= i < |m.queue| ==> m.queue[i] != [])
  }

  lemma PushKeepsSound(m: Monitor, limit: nat, item: Chunk)
    requires Sound(m, limit) && item != []
    ensures Sound(PushOnce(m, limit, item).monitor, limit)
  {
    AppendChunk(m.queue, item);
    hide Total;
  }

  lemma PopKeepsSound(m: Monitor, limit: nat)
    requires Sound(m, limit)
    ensures Sound(PopOnce(m).monitor, limit)
    ensures m.queue != [] ==> |m.queue[0]| <= m.usage
  {
    TotalUnfold(m.queue);
    hide Total;
  }

  lemma TotalUnfold(q: seq<Chunk>)
    ensures Total(q) == if q == [] then 0 else |q[0]| + Total(q[1..])
  {
  }

  lemma PassesKeepSound(m: Monitor, limit: nat, item: Chunk)
    requires Sound(m, limit)
    ensures item != [] ==> Sound(PushOnce(m, limit, item).monitor, limit)
    ensures Sound(PopOnce(m).monitor, limit) && Sound(FinishOnce(m), limit)
    ensures m.queue != [] ==> |m.queue[0]| <= m.usage
  {
    if item != [] {
      PushKeepsSound(m, limit, item);
    }
    PopKeepsSound(m, limit);
    hide Total, PushOnce, PopOnce;
  }

  class BufferQueue {
    var queue: seq<Chunk>
    var memoryUsage: nat
    var finished: bool
    var producerSleeps: bool
    var consumerSleeps: bool
    const maxMemoryUsage: nat

    function State(): Monitor
      reads this
    {
      Monitor(queue, memoryUsage, finished, producerSleeps, consumerSleeps)
    }

    ghost predicate Valid()
      reads this
    {
      Sound(State(), maxMemoryUsage)
    }

    constructor (maxMemoryUsage: nat)
      ensures Valid() && State() == Monitor([], 0, false, false, false) && this.maxMemoryUsage == maxMemoryUsage
    {
      this.maxMemoryUsage := maxMemoryUsage;
      queue, memoryUsage, finished, producerSleeps, consumerSleeps := [], 0, false, false, false;
    }

    /** One pass of pop under the lock; None when the caller has gone to sleep. */
    method Pop() returns (value: Option<Chunk>)
      requires Valid()
      modifies this
      ensures Valid()
      ensures State() == PopOnce(old(State())).monitor && value == PopOnce(old(State())).value
    {
      PassesKeepSound(State(), maxMemoryUsage, []);
      if !(queue != [] || finished) {
        consumerSleeps := true;
        return None;
      }
      consumerSleeps := false;
      if queue == [] && finished {
        return Some([]);
      }
      var front := queue[0];
      queue := queue[1..];
      memoryUsage := memoryUsage - |front|;
      producerSleeps := false;
      return Some(front);
    }

    /** One pass of push under the lock; false when the caller has gone to sleep. */
    method Push(item: Chunk) returns (done: bool)
      requires Valid() && item != []
      modifies this
      ensures Valid()
      ensures State() == PushOnce(old(State()), maxMemoryUsage, item).monitor
      ensures done == PushOnce(old(State()), maxMemoryUsage, item).done
    {
      PassesKeepSound(State(), maxMemoryUsage, item);
      if !(memoryUsage + |item| < maxMemoryUsage) {
        producerSleeps := true;
        return false;
      }
      producerSleeps := false;
      memoryUsage := memoryUsage + |item|;
      queue := queue + [item];
      consumerSleeps := false;
      return true;
    }

    method NotifyFinished()
      requires Valid()
      modifies this
      ensures Valid() && State() == FinishOnce(old(State()))
    {
      finished := true;
      consumerSleeps := false;
    }

    /** A sleeping thread may wake without being notified. */
    method WakeConsumer()
      requires Valid()
      modifies this`consumerSleeps
      ensures Valid() && State() == old(State()).(consumerSleeps := false)
    {
      consumerSleeps := false;
    }

    method WakeProducer()
      requires Valid()
      modifies this`producerSleeps
      ensures Valid() && State() == old(State()).(producerSleeps := false)
    {
      producerSleeps := false;
    }
  }

  // ----- the two ends -----

  datatype WritePass = Rejected | Queued | Blocked

  class SynchronizedOutStream {
    const bufferQueue: BufferQueue

    constructor (queue: BufferQueue)
      ensures bufferQueue == queue
    {
      bufferQueue := queue;
    }

    /** One pass of Write: an empty chunk is refused without touching the queue. */
    method Write(data: Chunk) returns (pass: WritePass)
      requires bufferQueue.Valid()
      modifies bufferQueue
      ensures bufferQueue.Valid()
      ensures pass == Rejected <==> data == []
      ensures data == [] ==> bufferQueue.State() == old(bufferQueue.State())
      ensures data != [] ==>
                var p := PushOnce(old(bufferQueue.State()), bufferQueue.maxMemoryUsage, data);
                bufferQueue.State() == p.monitor && (pass == Queued <==> p.done)
    {
      if data == [] {
        return Rejected;
      }
      var done := bufferQueue.Push(data);
      return if done then Queued else Blocked;
    }
  }

  datatype ReadPass = ReadPass(monitor: Monitor, rest: Chunk, data: Option<Chunk>)

  /** One pass of Read: copies from the unread rest of the last chunk, fetching a new chunk when there is none. */
  function ReadOnce(m: Monitor, rest: Chunk, size: nat): ReadPass {
    if size == 0 then ReadPass(m, rest, Some([]))
    else if rest != [] then
      var n := Min(|rest|, size);
      ReadPass(m, rest[n..], Some(rest[..n]))
    else
      var p := PopOnce(m);
      match p.value
      case None => ReadPass(p.monitor, [], None)
      case Some(chunk) =>
        var n := Min(|chunk|, size);
        ReadPass(p.monitor, chunk[n..], Some(chunk[..n]))
  }

  /** `data` is what a chunk gives to a reader that wants `size` bytes, and `rest` what it keeps. */
  predicate HandsOut(chunk: Chunk, size: nat, data: Chunk, rest: Chunk) {
    data + rest == chunk && |data| <= size && (|data| < size ==> rest == [])
  }

  /**
    * What a reader is given: from the unread rest if there is one, else from the oldest chunk; nothing at the end;
    * and no answer yet while the queue is empty.
    */
  predicate IsGiven(m: Monitor, rest: Chunk, size: nat, data: Option<Chunk>, left: Chunk) {
    if size == 0 then data == Some([]) && left == rest
    else if rest != [] then data.Some? && HandsOut(rest, size, data.value, left)
    else if m.queue != [] then data.Some? && HandsOut(m.queue[0], size, data.value, left)
    else left == [] && data == if m.finished then Some([]) else None
  }

  /** A pass never gives more than was asked for, and less only where a chunk ends. */
  lemma ReadHandsOut(m: Monitor, rest: Chunk, size: nat)
    ensures var p := ReadOnce(m, rest, size);
            && IsGiven(m, rest, size, p.data, p.rest)
            && (p.data.Some? ==> |p.data.value| <= size)
            && p.monitor.queue == if size > 0 && rest == [] && m.queue != [] then m.queue[1..] else m.queue
  {
    if rest != [] {
      var n := Min(|rest|, size);
      assert rest[..n] + rest[n..] == rest;
    } else if m.queue != [] {
      var n := Min(|m.queue[0]|, size);
      assert m.queue[0][..n] + m.queue[0][n..] == m.queue[0];
    }
  }

  class SynchronizedInStream {
    const bufferQueue: BufferQueue
    var readBuffer: Chunk
    var currentReadPosition: nat
    var extractionStarted: bool

    ghost predicate Valid()
      reads this, bufferQueue
    {
      bufferQueue.Valid() && currentReadPosition <= |readBuffer|
    }

    function Rest(): Chunk
      requires currentReadPosition <= |readBuffer|
      reads this
    {
      readBuffer[currentReadPosition..]
    }

    constructor (maxMemoryUsage: nat)
      ensures Valid() && fresh(bufferQueue) && Rest() == [] && !extractionStarted
      ensures bufferQueue.State() == Monitor([], 0, false, false, false) && bufferQueue.maxMemoryUsage == maxMemoryUsage
    {
      bufferQueue := new BufferQueue(maxMemoryUsage);
      readBuffer, currentReadPosition, extractionStarted := [], 0, false;
    }

    /** One pass of Read; None when the reader has gone to sleep. The first one starts the extraction. */
    method Read(size: nat) returns (data: Option<Chunk>)
      requires Valid()
      modifies this, bufferQueue
      ensures Valid()
      ensures extractionStarted == (old(extractionStarted) || size > 0)
      ensures var p := ReadOnce(old(bufferQueue.State()), old(Rest()), size);
              bufferQueue.State() == p.monitor && Rest() == p.rest && data == p.data
      ensures data.Some? ==> |data.value| <= size
      ensures IsGiven(old(bufferQueue.State()), old(Rest()), size, data, Rest())
    {
      ReadHandsOut(bufferQueue.State(), Rest(), size);
      if size == 0 {
        return Some([]);
      }
      extractionStarted := true;
      if currentReadPosition == |readBuffer| {
        assert Rest() == [];
        var value := bufferQueue.Pop();
        if value.None? {
          return None;
        }
        readBuffer, currentReadPosition := value.value, 0;
        if readBuffer == [] {
          return Some([]);
        }
      }
      var copyableSize := Min(|readBuffer| - currentReadPosition, size);
      assert Rest()[..copyableSize] == readBuffer[currentReadPosition..currentReadPosition + copyableSize];
      data := Some(readBuffer[currentReadPosition..currentReadPosition + copyableSize]);
      currentReadPosition := currentReadPosition + copyableSize;
    }
  }
}
