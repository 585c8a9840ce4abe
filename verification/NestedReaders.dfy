/**
  * Reading items of a nested archive that can only be read forwards: going back to an earlier item
  * means opening the archive again.
  */
module NestedReaders {
  import opened Common

  /** The number of maximal non-decreasing runs. */
  function Runs(accesses: seq<nat>): nat {
    if accesses == [] then 0
    else if |accesses| == 1 then 1
    else Runs(accesses[..|accesses| - 1])
         + (if accesses[|accesses| - 1] < accesses[|accesses| - 2] then 1 else 0)
  }

  lemma NoRuns(accesses: seq<nat>)
    ensures accesses == [] ==> Runs(accesses) == 0
  {
  }

  /** A way to serve the accesses in order with forward-only sessions, numbered upwards. */
  ghost predicate Serves(sessions: seq<nat>, accesses: seq<nat>) {
    && |sessions| == |accesses|
    && (forall i, j :: 0 <= i < j < |sessions| && j == i + 1 ==> sessions[i] <= sessions[j])
    && (forall i, j :: 0 <= i < j < |sessions| && j == i + 1 && sessions[i] == sessions[j] ==>
          accesses[i] <= accesses[j])
  }

  /** No forward-only reader gets by with fewer openings than there are runs. */
  lemma {:induction false} RunsAreNeeded(sessions: seq<nat>, accesses: seq<nat>)
    requires Serves(sessions, accesses) && accesses != []
    ensures sessions[|sessions| - 1] - sessions[0] + 1 >= Runs(accesses)
    decreases |accesses|
  {
    if |accesses| > 1 {
      var n := |accesses|;
      RunsAreNeeded(sessions[..n - 1], accesses[..n - 1]);
      assert sessions[n - 2] <= sessions[n - 1];
    }
  }

  /** The index that stands for "past every item". */
  const PAST_END: nat := TWO_32 - 1

  /**
    * What a caller can ask for: a property of one item; or a pass over the items from the first one on
    * (listing, counting, extracting, testing), which leaves the archive at item `last` or past the end.
    */
  datatype Request = Property(index: nat) | Pass(last: nat) {
    predicate Valid() {
      match this
      case Property(index) => index < PAST_END
      case Pass(last) => last <= PAST_END
    }

    /** The places in the archive the request touches, in order. */
    function Touches(): seq<nat> {
      match this
      case Property(index) => [index]
      case Pass(last) => [0, last]
    }
  }

  function AllTouches(requests: seq<Request>): seq<nat> {
    if requests == [] then [] else AllTouches(requests[..|requests| - 1]) + requests[|requests| - 1].Touches()
  }

  class BitNestedArchiveReader {
    var lastReadItem: nat
    var openCount: nat
    /** The places touched so far, and which opening served each of them. */
    ghost var accesses: seq<nat>
    ghost var sessions: seq<nat>

    ghost predicate Valid()
      reads this
    {
      && lastReadItem == (if accesses == [] then PAST_END else accesses[|accesses| - 1])
      && openCount == Runs(accesses)
      && Serves(sessions, accesses)
      && (accesses != [] ==> sessions[0] == 1 && sessions[|sessions| - 1] == openCount)
    }

    constructor ()
      ensures Valid() && accesses == []
    {
      lastReadItem, openCount, accesses, sessions := PAST_END, 0, [], [];
    }

    predicate NeedReopen(index: nat)
      reads this
    {
      index < lastReadItem
    }

    method OpenSequentially()
      modifies this`lastReadItem, this`openCount
      ensures lastReadItem == 0 && openCount == old(openCount) + 1
    {
      lastReadItem := 0;
      openCount := openCount + 1;
    }

    /** Reads a property of an item, opening the archive again if the item has been passed. */
    method ItemProperty(index: nat)
      requires Valid() && index < PAST_END
      modifies this
      ensures Valid() && accesses == old(accesses) + [index]
      ensures openCount == old(openCount) + (if index < old(lastReadItem) then 1 else 0) && lastReadItem == index
    {
      hide Runs, Serves;
      NoRuns(accesses);
      if NeedReopen(index) {
        OpenSequentially();
      }
      lastReadItem := index;
      Record(index);
    }

    /** Goes over the items from the first one on, opening the archive again unless it still stands there. */
    method PassOver(last: nat)
      requires Valid() && last <= PAST_END
      modifies this
      ensures Valid() && accesses == old(accesses) + [0, last]
      ensures openCount == old(openCount) + (if old(lastReadItem) == 0 then 0 else 1) && lastReadItem == last
    {
      hide Runs, Serves;
      NoRuns(accesses);
      ghost var before := accesses;
      if NeedReopen(0) {
        OpenSequentially();
      }
      Record(0);
      lastReadItem := last;
      Record(last);
      assert before + [0] + [last] == before + [0, last];
    }

    /** Notes one more place touched by the opening that is current. */
    ghost method Record(place: nat)
      requires Serves(sessions, accesses) && (accesses == [] ==> openCount == 1)
      requires accesses != [] ==>
                 && sessions[0] == 1
                 && sessions[|sessions| - 1] == Runs(accesses)
                 && openCount == Runs(accesses) + (if place < accesses[|accesses| - 1] then 1 else 0)
      modifies this`accesses, this`sessions
      ensures accesses == old(accesses) + [place] && openCount == Runs(accesses)
      ensures Serves(sessions, accesses) && sessions[0] == 1 && sessions[|sessions| - 1] == openCount
    {
      assert (accesses + [place])[..|accesses|] == accesses;
      accesses, sessions := accesses + [place], sessions + [openCount];
    }
  }

  /**
    * Any series of requests to a fresh reader opens the archive exactly once per maximal non-decreasing
    * run of the places touched, and no forward-only reader needs fewer openings.
    */
  method ReadAll(requests: seq<Request>) returns (opens: nat)
    requires forall i :: 0 <= i < |requests| ==> requests[i].Valid()
    ensures opens == Runs(AllTouches(requests))
    ensures forall sessions :: Serves(sessions, AllTouches(requests)) && requests != [] ==>
              sessions[|sessions| - 1] - sessions[0] + 1 >= opens
    ensures exists sessions :: Serves(sessions, AllTouches(requests)) &&
              (requests != [] ==> sessions[|sessions| - 1] - sessions[0] + 1 == opens)
  {
    hide Runs;
    var reader := new BitNestedArchiveReader();
    var i := 0;
    while i < |requests|
      invariant 0 <= i <= |requests|
      invariant reader.Valid() && fresh(reader) && reader.accesses == AllTouches(requests[..i])
    {
      assert requests[..i + 1][..i] == requests[..i];
      match requests[i] {
        case Property(index) => reader.ItemProperty(index);
        case Pass(last) => reader.PassOver(last);
      }
      i := i + 1;
    }
    assert requests[..i] == requests;
    NoRuns(reader.accesses);
    opens := reader.openCount;
    SomethingTouched(requests);
    forall sessions | Serves(sessions, AllTouches(requests)) && requests != []
      ensures sessions[|sessions| - 1] - sessions[0] + 1 >= opens
    {
      RunsAreNeeded(sessions, AllTouches(requests));
    }
    assert Serves(reader.sessions, AllTouches(requests));
  }

  lemma SomethingTouched(requests: seq<Request>)
    ensures requests != [] ==> AllTouches(requests) != []
  {
  }
}
