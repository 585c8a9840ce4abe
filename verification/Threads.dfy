/**
  * The runs of Pipeline on the objects themselves: the two synchronized streams and the queue they share
  * are driven through any series of steps of the two threads.
  */
module Threads {
  import opened Common
  import opened BufferQueues
  import opened Pipeline

  /** The reader's end, the extractor's end, and where each thread is in its work. */
  class Extraction {
    const input: SynchronizedInStream
    const output: SynchronizedOutStream
    var producer: Producer
    var consumer: Consumer
    var todo: seq<Chunk>
    var aborted: bool
    var delivered: seq<Byte>
    var ended: bool
    ghost var accepted: seq<Byte>

    ghost predicate Valid()
      reads this, input, input.bufferQueue
    {
      && input.Valid()
      && output.bufferQueue == input.bufferQueue
      && (input.extractionStarted <==> !producer.NotStarted?)
    }

    ghost function State(): Pipe
      requires Valid()
      reads this, input, input.bufferQueue
    {
      Pipe(input.bufferQueue.maxMemoryUsage, input.bufferQueue.State(), producer, todo, aborted,
           consumer, input.Rest(), accepted, delivered, ended)
    }

    constructor (maxMemoryUsage: nat, chunks: seq<Chunk>)
      ensures Valid() && fresh(input) && fresh(input.bufferQueue)
      ensures State() == Initial(maxMemoryUsage, chunks)
    {
      var reader := new SynchronizedInStream(maxMemoryUsage);
      var writer := new SynchronizedOutStream(reader.bufferQueue);
      input, output := reader, writer;
      producer, consumer, todo, aborted := NotStarted, Idle, chunks, false;
      delivered, ended, accepted := [], false, [];
    }

    /** A pass of Read; the first one that wants data starts the extractor. */
    method ReadPass(size: nat)
      requires Valid()
      modifies this`producer, this`consumer, this`delivered, this`ended, input, input.bufferQueue
      ensures Valid() && State() == Reading(old(State()), size)
    {
      hide Sound, ReadOnce, IsGiven;
      var data := input.Read(size);
      if input.extractionStarted && producer.NotStarted? {
        producer := Running;
      }
      match data
      case None =>
        consumer := InRead(size);
      case Some(bytes) =>
        consumer := Idle;
        delivered := delivered + bytes;
        ended := ended || (size > 0 && bytes == []);
    }

    /** A pass of Write with the next chunk. */
    method WritePass()
      requires Valid() && todo != [] && !producer.NotStarted?
      modifies this`producer, this`todo, this`accepted, input.bufferQueue
      ensures Valid() && State() == Writing(old(State()))
    {
      hide Sound;
      var pass := output.Write(todo[0]);
      if pass == Blocked {
        producer := InPush;
        return;
      }
      if pass == Queued {
        accepted := accepted + todo[0];
      }
      producer, todo := Running, todo[1..];
    }

    /** The extractor signals the end and is gone. */
    method Finish()
      requires Valid() && producer.Running?
      modifies this`producer, input.bufferQueue
      ensures Valid()
      ensures State() == old(State()).(monitor := FinishOnce(old(State()).monitor), producer := Exited)
    {
      input.bufferQueue.NotifyFinished();
      producer := Exited;
    }

    /** One step of either thread, provided that the thread is where the step starts. */
    method Perform(e: Event) returns (done: bool)
      requires Valid()
      modifies this, input, input.bufferQueue
      ensures Valid()
      ensures done <==> Step(old(State()), e).Some?
      ensures State() == if done then Step(old(State()), e).value else old(State())
    {
      var queue := input.bufferQueue;
      done := true;
      match e {
        case Read(size) =>
          if consumer.Idle? {
            ReadPass(size);
            return;
          }
        case ReaderResumes =>
          if consumer.InRead? && !queue.consumerSleeps {
            ReadPass(consumer.size);
            return;
          }
        case ExtractorWrites =>
          if producer.Running? && todo != [] {
            WritePass();
            return;
          }
        case ExtractorResumes =>
          if producer.InPush? && !queue.producerSleeps && todo != [] {
            WritePass();
            return;
          }
        case ExtractorFinishes =>
          if producer.Running? && todo == [] {
            Finish();
            return;
          }
        case ExtractorFails =>
          if producer.Running? {
            Finish();
            aborted := true;
            return;
          }
        case SpuriousReader =>
          if queue.consumerSleeps {
            queue.WakeConsumer();
            return;
          }
        case SpuriousExtractor =>
          if queue.producerSleeps {
            queue.WakeProducer();
            return;
          }
      }
      done := false;
    }

    /** Any series of steps, up to the first one that is not possible. */
    method PerformAll(es: seq<Event>) returns (done: bool)
      requires Valid()
      modifies this, input, input.bufferQueue
      ensures Valid()
      ensures done <==> Run(old(State()), es).Some?
      ensures done ==> State() == Run(old(State()), es).value
    {
      hide Step, Sound;
      for i := 0 to |es|
        invariant Valid() && Run(old(State()), es) == Run(State(), es[i..])
      {
        assert es[i..][0] == es[i] && es[i..][1..] == es[i + 1..];
        done := Perform(es[i]);
        if !done {
          return;
        }
      }
      done := true;
    }
  }

  /**
    * The objects, driven through any series of steps from the start, do what the run says. So what the reader
    * has been handed is a prefix of the nested archive, and all that was accepted once it has read the end.
    */
  method Extract(maxMemoryUsage: nat, chunks: seq<Chunk>, es: seq<Event>)
    returns (done: bool, data: seq<Byte>, ended: bool, aborted: bool)
    ensures var run := Run(Initial(maxMemoryUsage, chunks), es);
            && (done <==> run.Some?)
            && (done ==> data == run.value.delivered && ended == run.value.ended && aborted == run.value.aborted)
    ensures done ==> data <= Flatten(chunks)
    ensures done && ended && !aborted ==> data == Flatten(chunks) && AllFit(maxMemoryUsage, chunks)
  {
    hide Run, Flatten, AllFit;
    var extraction := new Extraction(maxMemoryUsage, chunks);
    done := extraction.PerformAll(es);
    data, ended, aborted := extraction.delivered, extraction.ended, extraction.aborted;
    if done {
      DeliveredIsPrefix(maxMemoryUsage, chunks, es);
      if ended {
        EndMeansAll(maxMemoryUsage, chunks, es);
      }
    }
  }
}
