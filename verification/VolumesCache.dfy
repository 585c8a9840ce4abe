/**
  * The list of volumes of a multi-volume archive together with the bounded set of volumes
  * whose file is currently open. The open ones form a doubly linked list threaded through
  * array indices: the newest end is the head, the oldest end the tail.
  */
module VolumesCaches {
  import opened Common

  /** The index that stands for "no volume": the largest value of the index type. */
  const NO_VOLUME: nat := TWO_64 - 1

  datatype EvictionPolicy = Oldest | Newest

  /** An open file: the name it was opened under and the position the operating system keeps for it. */
  datatype FileStream = FileStream(path: string, position: nat)

  datatype CachedVolume = CachedVolume(
    path: string,
    size: nat,
    offset: nat,
    seek: nat,
    stream: Option<FileStream>,
    newer: nat,
    older: nat)

  /** What a volume is apart from its handle and its place in the list. */
  datatype VolumeRecord = VolumeRecord(path: string, size: nat, offset: nat, seek: nat)

  function Record(v: CachedVolume): VolumeRecord {
    VolumeRecord(v.path, v.size, v.offset, v.seek)
  }

  function Records(vs: seq<CachedVolume>): (rs: seq<VolumeRecord>)
    ensures |rs| == |vs| && forall i :: 0 <= i < |vs| ==> rs[i] == Record(vs[i])
  {
    if vs == [] then [] else Records(vs[..|vs| - 1]) + [Record(vs[|vs| - 1])]
  }

  /** The volumes differ in nothing but their links: what list operations may change. */
  ghost predicate Alike(a: seq<CachedVolume>, b: seq<CachedVolume>) {
    |a| == |b| && forall i :: 0 <= i < |a| ==> a[i].(newer := b[i].newer, older := b[i].older) == b[i]
  }

  lemma AlikeTransitive(a: seq<CachedVolume>, b: seq<CachedVolume>, c: seq<CachedVolume>)
    requires Alike(a, b) && Alike(b, c)
    ensures Alike(a, c)
  {
    forall i | 0 <= i < |a| ensures a[i].(newer := c[i].newer, older := c[i].older) == c[i] {
      assert a[i].(newer := b[i].newer, older := b[i].older) == b[i];
    }
  }

  // ----- the list of open volumes, newest first -----

  function At(lru: seq<nat>, k: int): nat {
    if 0 <= k < |lru| then lru[k] else NO_VOLUME
  }

  /** Every listed volume is linked to its neighbours in `lru`, and no other volume has a link. */
  ghost predicate Chained(vs: seq<CachedVolume>, lru: seq<nat>) {
    && (forall k :: 0 <= k < |lru| ==> lru[k] < |vs|)
    && (forall k {:trigger vs[lru[k]]} :: 0 <= k < |lru| ==>
          vs[lru[k]].newer == At(lru, k - 1) && vs[lru[k]].older == At(lru, k + 1))
    && (forall i :: 0 <= i < |vs| && i !in lru ==> vs[i].newer == NO_VOLUME && vs[i].older == NO_VOLUME)
  }

  /** The links, read from both ends, spell out exactly `lru`. */
  ghost predicate Linked(vs: seq<CachedVolume>, newest: nat, oldest: nat, lru: seq<nat>) {
    && |vs| <= NO_VOLUME
    && NoDuplicates(lru)
    && newest == At(lru, 0)
    && oldest == At(lru, |lru| - 1)
    && Chained(vs, lru)
  }

  /** Following `older` links from a volume, for at most `steps` links. */
  ghost function Walk(vs: seq<CachedVolume>, from: nat, steps: nat): seq<nat>
    decreases steps
  {
    if steps == 0 || from >= |vs| then [] else [from] + Walk(vs, vs[from].older, steps - 1)
  }

  /** The open list is an acyclic chain: walking from the newest volume visits `lru` and stops. */
  lemma {:induction false} WalkFollowsList(vs: seq<CachedVolume>, newest: nat, oldest: nat, lru: seq<nat>,
                                           k: nat, steps: nat)
    requires Linked(vs, newest, oldest, lru)
    requires k <= |lru| && steps >= |lru| - k
    ensures Walk(vs, At(lru, k), steps) == lru[k..]
    decreases |lru| - k
  {
    if k < |lru| {
      assert vs[lru[k]].older == At(lru, k + 1);
      WalkFollowsList(vs, newest, oldest, lru, k + 1, steps - 1);
    }
  }

  /** The links determine the list: one cache state never has two different open lists. */
  lemma ListIsUnique(vs: seq<CachedVolume>, newest: nat, oldest: nat, a: seq<nat>, b: seq<nat>)
    requires Linked(vs, newest, oldest, a) && Linked(vs, newest, oldest, b)
    ensures a == b
  {
    WalkFollowsList(vs, newest, oldest, a, 0, |a| + |b|);
    WalkFollowsList(vs, newest, oldest, b, 0, |a| + |b|);
    assert a == a[0..] && b == b[0..];
  }

  function Without(lru: seq<nat>, index: nat): seq<nat> {
    if lru == [] then []
    else if lru[0] == index then Without(lru[1..], index)
    else [lru[0]] + Without(lru[1..], index)
  }

  lemma {:induction false} WithoutMembers(lru: seq<nat>, index: nat)
    ensures forall x :: x in Without(lru, index) <==> x in lru && x != index
    ensures index !in lru ==> Without(lru, index) == lru
  {
    if lru != [] {
      WithoutMembers(lru[1..], index);
      assert lru == [lru[0]] + lru[1..];
    }
  }

  lemma {:induction false} WithoutAt(lru: seq<nat>, k: nat)
    requires NoDuplicates(lru) && k < |lru|
    ensures Without(lru, lru[k]) == lru[..k] + lru[k + 1..]
  {
    var rest := lru[1..];
    assert Without(lru, lru[k]) == if k == 0 then Without(rest, lru[0]) else [lru[0]] + Without(rest, lru[k]);
    hide Without;
    if k == 0 {
      WithoutMembers(rest, lru[0]);
      assert [] + rest == rest;
    } else {
      WithoutAt(rest, k - 1);
      HeadOfDropped(lru, k);
    }
  }

  lemma HeadOfDropped(lru: seq<nat>, k: nat)
    requires 0 < k < |lru|
    ensures [lru[0]] + (lru[1..][..k - 1] + lru[1..][k..]) == lru[..k] + lru[k + 1..]
  {
    assert lru[1..][..k - 1] == lru[1..k] && lru[1..][k..] == lru[k + 1..];
    assert [lru[0]] + lru[1..k] == lru[..k];
  }

  function Victim(policy: EvictionPolicy, lru: seq<nat>): nat
    requires lru != []
  {
    if policy.Oldest? then lru[|lru| - 1] else lru[0]
  }

  /** Dropping the victim of the policy. */
  function Evicted(policy: EvictionPolicy, lru: seq<nat>): seq<nat>
    requires lru != []
  {
    if policy.Oldest? then lru[..|lru| - 1] else lru[1..]
  }

  /** The open list after opening or revisiting a volume. */
  function Touched(policy: EvictionPolicy, threshold: nat, lru: seq<nat>, index: nat): seq<nat> {
    if index in lru then [index] + Without(lru, index)
    else if |lru| + 1 >= threshold && lru != [] then [index] + Evicted(policy, lru)
    else [index] + lru
  }

  /** Any sequence of visits keeps the open list duplicate-free, below the threshold, and headed by the last visit. */
  ghost function VisitAll(policy: EvictionPolicy, threshold: nat, lru: seq<nat>, visits: seq<nat>): seq<nat> {
    if visits == [] then lru
    else Touched(policy, threshold, VisitAll(policy, threshold, lru, visits[..|visits| - 1]), visits[|visits| - 1])
  }

  lemma WithoutLength(lru: seq<nat>, index: nat)
    requires NoDuplicates(lru)
    ensures NoDuplicates(Without(lru, index))
    ensures |Without(lru, index)| == if index in lru then |lru| - 1 else |lru|
  {
    hide Without;
    WithoutMembers(lru, index);
    if index in lru {
      var k :| 0 <= k < |lru| && lru[k] == index;
      WithoutAt(lru, k);
    }
  }

  lemma VisitKeepsHandlesBounded(policy: EvictionPolicy, threshold: nat, lru: seq<nat>, index: nat)
    requires threshold >= 3 && NoDuplicates(lru) && |lru| < threshold
    ensures var r := Touched(policy, threshold, lru, index);
            && NoDuplicates(r) && 0 < |r| < threshold && r[0] == index
            && (forall x :: x in r ==> x in lru || x == index)
  {
    hide Without;
    WithoutLength(lru, index);
    WithoutMembers(lru, index);
  }

  lemma {:induction false} VisitsKeepHandlesBounded(policy: EvictionPolicy, threshold: nat,
                                                    lru: seq<nat>, visits: seq<nat>)
    requires threshold >= 3
    requires NoDuplicates(lru) && |lru| < threshold
    ensures var r := VisitAll(policy, threshold, lru, visits);
            && NoDuplicates(r) && |r| < threshold
            && (visits != [] ==> r != [] && r[0] == visits[|visits| - 1])
            && (forall x :: x in r ==> x in lru || x in visits)
  {
    hide Touched, NoDuplicates;
    if visits != [] {
      var before := visits[..|visits| - 1];
      VisitsKeepHandlesBounded(policy, threshold, lru, before);
      VisitKeepsHandlesBounded(policy, threshold, VisitAll(policy, threshold, lru, before), visits[|visits| - 1]);
      assert forall y :: y in before ==> y in visits;
    }
  }

  /** The volumes visited, each once, in order of their latest visits, the last one first. */
  ghost function Recency(visits: seq<nat>): seq<nat> {
    if visits == [] then []
    else [visits[|visits| - 1]] + Without(Recency(visits[..|visits| - 1]), visits[|visits| - 1])
  }

  lemma {:induction false} RecencyIsDistinct(visits: seq<nat>)
    ensures NoDuplicates(Recency(visits))
  {
    if visits != [] {
      var before, x := visits[..|visits| - 1], visits[|visits| - 1];
      RecencyIsDistinct(before);
      WithoutLength(Recency(before), x);
      WithoutMembers(Recency(before), x);
    }
  }

  /** Closing the oldest is least recently used: exactly the last visited volumes are open, as many as may be. */
  lemma {:induction false} OldestKeepsRecent(threshold: nat, visits: seq<nat>)
    requires threshold >= 3
    ensures VisitAll(Oldest, threshold, [], visits) == Recency(visits)[..Min(threshold - 1, |Recency(visits)|)]
  {
    hide Without, NoDuplicates, Touched;
    if visits != [] {
      var before, x := visits[..|visits| - 1], visits[|visits| - 1];
      OldestKeepsRecent(threshold, before);
      RecencyIsDistinct(before);
      TouchedPrefix(threshold, Recency(before), x);
    }
  }

  lemma TouchedPrefix(threshold: nat, recent: seq<nat>, x: nat)
    requires threshold >= 3 && NoDuplicates(recent)
    ensures var r := [x] + Without(recent, x);
            Touched(Oldest, threshold, recent[..Min(threshold - 1, |recent|)], x) == r[..Min(threshold - 1, |r|)]
  {
    hide Without;
    var n := Min(threshold - 1, |recent|);
    var open := recent[..n];
    WithoutMembers(recent, x);
    if x in recent {
      var k :| 0 <= k < |recent| && recent[k] == x;
      WithoutAt(recent, k);
      WithoutOfPrefix(recent, n, k);
    }
  }

  lemma WithoutOfPrefix(s: seq<nat>, n: nat, k: nat)
    requires NoDuplicates(s) && n <= |s| && k < |s|
    ensures k < n ==> Without(s[..n], s[k]) == s[..k] + s[k + 1..n]
    ensures s[k] in s[..n] <==> k < n
  {
    hide Without;
    if k < n {
      assert s[..n][k] == s[k];
      WithoutAt(s[..n], k);
      assert s[..n][..k] == s[..k] && s[..n][k + 1..] == s[k + 1..n];
    }
  }

  /** Closing the newest closes, when a volume has to be opened, the one visited just before. */
  lemma NewestClosesPrevious(threshold: nat, visits: seq<nat>, x: nat)
    requires threshold >= 3 && visits != []
    ensures var open := VisitAll(Newest, threshold, [], visits);
            var r := Touched(Newest, threshold, open, x);
            var previous := visits[|visits| - 1];
            && previous in open
            && (x !in open && |open| == threshold - 1 ==>
                  previous !in r && forall y :: y in open && y != previous ==> y in r)
            && (x in open || |open| < threshold - 1 ==> forall y :: y in open ==> y in r)
  {
    hide Without;
    VisitsKeepHandlesBounded(Newest, threshold, [], visits);
    var open := VisitAll(Newest, threshold, [], visits);
    WithoutMembers(open, x);
    assert open == [open[0]] + open[1..];
  }

  /** The list without its element k. */
  function Dropped(lru: seq<nat>, k: nat): seq<nat>
    requires k < |lru|
  {
    lru[..k] + lru[k + 1..]
  }

  lemma DroppedAt(lru: seq<nat>, k: nat, m: int)
    requires k < |lru|
    ensures At(Dropped(lru, k), m) == if m < k then At(lru, m) else At(lru, m + 1)
  {
  }

  lemma DroppedMembers(lru: seq<nat>, k: nat)
    requires k < |lru| && NoDuplicates(lru)
    ensures NoDuplicates(Dropped(lru, k))
    ensures forall x :: x in Dropped(lru, k) <==> x in lru && x != lru[k]
  {
    WithoutAt(lru, k);
  }

  /** Where the victim of the policy stands in the list. */
  lemma VictimAt(policy: EvictionPolicy, lru: seq<nat>)
    requires lru != []
    ensures var k := if policy.Oldest? then |lru| - 1 else 0;
            Victim(policy, lru) == lru[k] && Evicted(policy, lru) == Dropped(lru, k)
  {
    assert lru[..|lru| - 1] + [] == lru[..|lru| - 1] && [] + lru[1..] == lru[1..];
  }

  /** A volume being opened is not open yet, so it is never the one that gets closed to make room. */
  lemma VictimIsAnotherVolume(policy: EvictionPolicy, threshold: nat, lru: seq<nat>, index: nat)
    requires threshold >= 3 && NoDuplicates(lru) && |lru| < threshold
    requires index !in lru && |lru| + 1 >= threshold
    ensures lru != [] && Victim(policy, lru) != index
    ensures index in Touched(policy, threshold, lru, index)
    ensures Victim(policy, lru) !in Touched(policy, threshold, lru, index)
    ensures forall x :: x in lru && x != Victim(policy, lru) ==> x in Touched(policy, threshold, lru, index)
  {
    hide Victim, Evicted, Dropped, Without, NoDuplicates;
    VictimAt(policy, lru);
    DroppedMembers(lru, if policy.Oldest? then |lru| - 1 else 0);
    assert Victim(policy, lru) in lru;
  }

  /** The volumes after bridging the neighbours of volume `index` and clearing its links. */
  function Bridged(vs: seq<CachedVolume>, index: nat): (r: seq<CachedVolume>)
    requires index < |vs|
    ensures |r| == |vs|
  {
    var v := vs[index];
    var a := if v.older < |vs| then vs[v.older := vs[v.older].(newer := v.newer)] else vs;
    var b := if v.newer < |vs| then a[v.newer := a[v.newer].(older := v.older)] else a;
    b[index := b[index].(older := NO_VOLUME, newer := NO_VOLUME)]
  }

  lemma BridgedAlike(vs: seq<CachedVolume>, index: nat)
    requires index < |vs|
    ensures Alike(vs, Bridged(vs, index))
  {
  }

  lemma IndexOfNeighbour(lru: seq<nat>, n: nat, m: int, size: nat)
    requires n < |lru| && NoDuplicates(lru) && size <= NO_VOLUME
    requires forall i :: 0 <= i < |lru| ==> lru[i] < size
    ensures lru[n] == At(lru, m) <==> n == m
  {
  }

  /** What bridging the neighbours of element k leaves in the links of element n. */
  lemma BridgedLinks(vs: seq<CachedVolume>, newest: nat, oldest: nat, lru: seq<nat>, k: nat, n: nat)
    requires Linked(vs, newest, oldest, lru) && k < |lru| && n < |lru| && n != k
    ensures var r := Bridged(vs, lru[k])[lru[n]];
            && r.newer == At(lru, if n == k + 1 then k - 1 else n - 1)
            && r.older == At(lru, if n == k - 1 then k + 1 else n + 1)
  {
    LinksOf(vs, newest, oldest, lru, k);
    LinksOf(vs, newest, oldest, lru, n);
    ListIsDuplicateFree(vs, newest, oldest, lru);
    hide Linked, Alike, At;
    IndexOfNeighbour(lru, n, k - 1, |vs|);
    IndexOfNeighbour(lru, n, k + 1, |vs|);
  }

  lemma LinksOf(vs: seq<CachedVolume>, newest: nat, oldest: nat, lru: seq<nat>, k: nat)
    requires Linked(vs, newest, oldest, lru) && k < |lru|
    ensures lru[k] < |vs| && vs[lru[k]].newer == At(lru, k - 1) && vs[lru[k]].older == At(lru, k + 1)
  {
  }

  lemma LinksInRange(vs: seq<CachedVolume>, newest: nat, oldest: nat, lru: seq<nat>, k: nat)
    requires Linked(vs, newest, oldest, lru) && k < |lru|
    ensures var v := vs[lru[k]];
            && (v.newer < |vs| || v.newer == NO_VOLUME) && (v.older < |vs| || v.older == NO_VOLUME)
            && v.newer != lru[k] && v.older != lru[k] && lru[k] < |vs| <= NO_VOLUME
  {
    assert vs[lru[k]].newer == At(lru, k - 1) && vs[lru[k]].older == At(lru, k + 1);
  }

  lemma ListIsDuplicateFree(vs: seq<CachedVolume>, newest: nat, oldest: nat, lru: seq<nat>)
    requires Linked(vs, newest, oldest, lru)
    ensures NoDuplicates(lru) && |vs| <= NO_VOLUME && forall k :: 0 <= k < |lru| ==> lru[k] < |vs|
  {
  }

  lemma BridgedUnlisted(vs: seq<CachedVolume>, newest: nat, oldest: nat, lru: seq<nat>, k: nat, i: nat)
    requires Linked(vs, newest, oldest, lru) && k < |lru| && i < |vs| && (i == lru[k] || i !in lru)
    ensures var r := Bridged(vs, lru[k])[i]; r.newer == NO_VOLUME && r.older == NO_VOLUME
  {
    assert vs[lru[k]].newer == At(lru, k - 1) && vs[lru[k]].older == At(lru, k + 1);
  }

  lemma BridgedChain(vs: seq<CachedVolume>, newest: nat, oldest: nat, lru: seq<nat>, k: nat)
    requires Linked(vs, newest, oldest, lru) && k < |lru|
    ensures Chained(Bridged(vs, lru[k]), Dropped(lru, k))
  {
    hide Linked;
    ListIsDuplicateFree(vs, newest, oldest, lru);
    var r, after := Bridged(vs, lru[k]), Dropped(lru, k);
    DroppedMembers(lru, k);
    forall m {:trigger r[after[m]]} | 0 <= m < |after|
      ensures r[after[m]].newer == At(after, m - 1) && r[after[m]].older == At(after, m + 1)
    {
      hide Bridged;
      var n := if m < k then m else m + 1;
      assert after[m] == lru[n];
      BridgedLinks(vs, newest, oldest, lru, k, n);
      DroppedAt(lru, k, m - 1);
      DroppedAt(lru, k, m + 1);
    }
    forall i | 0 <= i < |r| && i !in after
      ensures r[i].newer == NO_VOLUME && r[i].older == NO_VOLUME
    {
      BridgedUnlisted(vs, newest, oldest, lru, k, i);
    }
  }

  lemma BridgingDrops(vs: seq<CachedVolume>, newest: nat, oldest: nat, lru: seq<nat>, k: nat)
    requires Linked(vs, newest, oldest, lru) && k < |lru|
    ensures var v := vs[lru[k]];
            Linked(Bridged(vs, lru[k]),
                   if v.newer == NO_VOLUME then v.older else newest,
                   if v.older == NO_VOLUME then v.newer else oldest,
                   Dropped(lru, k))
  {
    hide Linked, NoDuplicates, At, Dropped, Bridged, Chained;
    LinksOf(vs, newest, oldest, lru, k);
    ListIsDuplicateFree(vs, newest, oldest, lru);
    EndsAre(vs, newest, oldest, lru);
    DroppedMembers(lru, k);
    DroppedEnds(lru, k, |vs|);
    BridgedChain(vs, newest, oldest, lru, k);
    var v := vs[lru[k]];
    LinkedIntro(Bridged(vs, lru[k]),
                if v.newer == NO_VOLUME then v.older else newest,
                if v.older == NO_VOLUME then v.newer else oldest,
                Dropped(lru, k));
  }

  lemma EndsAre(vs: seq<CachedVolume>, newest: nat, oldest: nat, lru: seq<nat>)
    requires Linked(vs, newest, oldest, lru)
    ensures newest == At(lru, 0) && oldest == At(lru, |lru| - 1)
  {
  }

  /** The ends of the list without element k, in terms of the links of that element. */
  lemma DroppedEnds(lru: seq<nat>, k: nat, size: nat)
    requires k < |lru| && size <= NO_VOLUME && forall i :: 0 <= i < |lru| ==> lru[i] < size
    ensures var after := Dropped(lru, k);
            && At(after, 0) == (if At(lru, k - 1) == NO_VOLUME then At(lru, k + 1) else At(lru, 0))
            && At(after, |after| - 1) == (if At(lru, k + 1) == NO_VOLUME then At(lru, k - 1) else At(lru, |lru| - 1))
  {
    DroppedAt(lru, k, 0);
    DroppedAt(lru, k, |lru| - 2);
  }

  /** The volumes with an open handle are exactly the listed ones, and each handle stands at the recorded position. */
  ghost predicate HandlesInStep(vs: seq<CachedVolume>, lru: seq<nat>) {
    forall i :: 0 <= i < |vs| ==>
      && (vs[i].stream.Some? <==> i in lru)
      && (vs[i].stream.Some? ==> vs[i].stream.value == FileStream(vs[i].path, vs[i].seek))
  }

  /** The volumes after putting `index` in front of the list. */
  function Headed(vs: seq<CachedVolume>, newest: nat, index: nat): (r: seq<CachedVolume>)
    requires index < |vs|
  {
    var a := if newest < |vs| then vs[newest := vs[newest].(newer := index)] else vs;
    a[index := a[index].(older := newest, newer := NO_VOLUME)]
  }

  lemma HeadedAlike(vs: seq<CachedVolume>, newest: nat, index: nat)
    requires index < |vs|
    ensures Alike(vs, Headed(vs, newest, index))
  {
  }

  lemma HeadingLinks(vs: seq<CachedVolume>, newest: nat, oldest: nat, lru: seq<nat>, index: nat)
    requires Linked(vs, newest, oldest, lru) && index < |vs| && index !in lru
    ensures Linked(Headed(vs, newest, index), index, if oldest == NO_VOLUME then index else oldest, [index] + lru)
    ensures |vs| <= NO_VOLUME && (newest < |vs| || newest == NO_VOLUME) && newest != index
  {
    hide Linked;
    ListIsDuplicateFree(vs, newest, oldest, lru);
    EndsOfList(vs, newest, oldest, lru);
    var r, after := Headed(vs, newest, index), [index] + lru;
    assert forall m :: 0 < m < |after| ==> after[m] == lru[m - 1];
    forall m {:trigger r[after[m]]} | 0 <= m < |after|
      ensures r[after[m]].newer == At(after, m - 1) && r[after[m]].older == At(after, m + 1)
    {
      if m > 0 {
        HeadedAt(vs, newest, oldest, lru, index, m - 1);
      }
    }
    forall i | 0 <= i < |r| && i !in after
      ensures r[i].newer == NO_VOLUME && r[i].older == NO_VOLUME
    {
      UnlistedHasNoLinks(vs, newest, oldest, lru, i);
    }
    LinkedIntro(r, index, if oldest == NO_VOLUME then index else oldest, after);
  }

  lemma HeadedAt(vs: seq<CachedVolume>, newest: nat, oldest: nat, lru: seq<nat>, index: nat, n: nat)
    requires Linked(vs, newest, oldest, lru) && index < |vs| && index !in lru && n < |lru|
    ensures var r := Headed(vs, newest, index)[lru[n]];
            && r.newer == (if n == 0 then index else At(lru, n - 1))
            && r.older == At(lru, n + 1)
  {
    assert vs[lru[n]].newer == At(lru, n - 1) && vs[lru[n]].older == At(lru, n + 1);
  }

  lemma UnlistedHasNoLinks(vs: seq<CachedVolume>, newest: nat, oldest: nat, lru: seq<nat>, i: nat)
    requires Linked(vs, newest, oldest, lru) && i < |vs| && i !in lru
    ensures vs[i].newer == NO_VOLUME && vs[i].older == NO_VOLUME && i != newest && i != oldest
  {
  }

  lemma LinkedIntro(vs: seq<CachedVolume>, newest: nat, oldest: nat, lru: seq<nat>)
    requires |vs| <= NO_VOLUME && NoDuplicates(lru)
    requires newest == At(lru, 0) && oldest == At(lru, |lru| - 1)
    requires Chained(vs, lru)
    ensures Linked(vs, newest, oldest, lru)
  {
  }

  // ----- what single updates keep -----

  lemma EndsOfList(vs: seq<CachedVolume>, newest: nat, oldest: nat, lru: seq<nat>)
    requires Linked(vs, newest, oldest, lru)
    ensures newest == At(lru, 0) && oldest == At(lru, |lru| - 1)
    ensures lru != [] ==> vs[newest].newer == NO_VOLUME && vs[oldest].older == NO_VOLUME
    ensures |lru| == 1 ==> newest == oldest
    ensures |lru| > 1 ==> newest != oldest
  {
    if lru != [] {
      assert vs[lru[0]].newer == At(lru, -1) && vs[lru[|lru| - 1]].older == At(lru, |lru|);
    }
  }

  lemma InRange(vs: seq<CachedVolume>, newest: nat, oldest: nat, lru: seq<nat>, index: nat)
    requires Linked(vs, newest, oldest, lru) && index in lru
    ensures index < |vs|
  {
  }

  /** Fields other than the links are free to change. */
  lemma UpdateKeepsLinks(vs: seq<CachedVolume>, newest: nat, oldest: nat, lru: seq<nat>,
                                            index: nat, v: CachedVolume)
    requires Linked(vs, newest, oldest, lru) && index < |vs|
    requires v.newer == vs[index].newer && v.older == vs[index].older
    ensures Linked(vs[index := v], newest, oldest, lru)
  {
    var r := vs[index := v];
    forall k {:trigger r[lru[k]]} | 0 <= k < |lru|
      ensures r[lru[k]].newer == At(lru, k - 1) && r[lru[k]].older == At(lru, k + 1)
    {
      assert vs[lru[k]].newer == At(lru, k - 1) && vs[lru[k]].older == At(lru, k + 1);
    }
  }

  lemma ReleaseKeepsLinks(vs: seq<CachedVolume>, newest: nat, oldest: nat, lru: seq<nat>, index: nat)
    requires Linked(vs, newest, oldest, lru) && index < |vs|
    ensures Linked(vs[index := vs[index].(stream := None)], newest, oldest, lru)
  {
    UpdateKeepsLinks(vs, newest, oldest, lru, index, vs[index].(stream := None));
  }

  lemma RestoreKeepsLinks(vs: seq<CachedVolume>, newest: nat, oldest: nat, lru: seq<nat>, index: nat)
    requires Linked(vs, newest, oldest, lru) && index < |vs| && vs[index].stream.Some?
    ensures var s := vs[index].stream.value.(position := vs[index].seek);
            Linked(vs[index := vs[index].(stream := Some(s))], newest, oldest, lru)
  {
    UpdateKeepsLinks(vs, newest, oldest, lru, index,
                     vs[index].(stream := Some(vs[index].stream.value.(position := vs[index].seek))));
  }

  lemma SameHandles(a: seq<CachedVolume>, b: seq<CachedVolume>, la: seq<nat>, lb: seq<nat>)
    requires Alike(a, b) && HandlesInStep(a, la)
    requires forall x :: x in la <==> x in lb
    ensures HandlesInStep(b, lb)
  {
    forall i | 0 <= i < |b| ensures b[i].stream == a[i].stream && b[i].path == a[i].path && b[i].seek == a[i].seek {
      assert a[i].(newer := b[i].newer, older := b[i].older) == b[i];
    }
  }

  /** Volume `index` has just been opened at the start of its file; all the others are in step with the list. */
  ghost predicate Opening(vs: seq<CachedVolume>, lru: seq<nat>, index: nat) {
    && index < |vs| && index !in lru
    && vs[index].stream == Some(FileStream(vs[index].path, 0))
    && HandlesInStep(vs[index := vs[index].(stream := None)], lru)
  }

  /** Where trackReopen leaves the handle: at the recorded position. */
  lemma RestoreCompletes(vs: seq<CachedVolume>, lru: seq<nat>, index: nat)
    requires Opening(vs, lru, index)
    ensures index < |vs| && vs[index].stream.Some? && index !in lru
    ensures var r := vs[index := vs[index].(stream := Some(vs[index].stream.value.(position := vs[index].seek)))];
            HandlesInStep(r, [index] + lru) && Records(r) == Records(vs) && (vs[index].seek == 0 ==> r == vs)
  {
    var none := vs[index := vs[index].(stream := None)];
    var r := vs[index := vs[index].(stream := Some(vs[index].stream.value.(position := vs[index].seek)))];
    forall i | 0 <= i < |r|
      ensures r[i].stream.Some? <==> i in [index] + lru
      ensures r[i].stream.Some? ==> r[i].stream.value == FileStream(r[i].path, r[i].seek)
    {
      if i != index {
        assert r[i] == none[i];
      }
    }
  }

  lemma EvictionCloses(policy: EvictionPolicy, lru: seq<nat>, vs: seq<CachedVolume>,
                                          index: nat, after: seq<CachedVolume>)
    requires NoDuplicates(lru) && lru != [] && Opening(vs, lru, index)
    requires var e := Victim(policy, lru); e < |vs| && Alike(vs[e := vs[e].(stream := None)], after)
    ensures Opening(after, Evicted(policy, lru), index) && Records(after) == Records(vs)
  {
    hide Records, Evicted, Dropped, Victim, NoDuplicates;
    var e, k := Victim(policy, lru), if policy.Oldest? then |lru| - 1 else 0;
    var left := Evicted(policy, lru);
    VictimAt(policy, lru);
    DroppedMembers(lru, k);
    var closed := vs[e := vs[e].(stream := None)];
    assert e in lru && index !in lru;
    var none := vs[index := vs[index].(stream := None)];
    var others := after[index := after[index].(stream := None)];
    forall i | 0 <= i < |vs|
      ensures Record(after[i]) == Record(vs[i]) && after[i].stream == closed[i].stream
      ensures others[i].stream.Some? <==> i in left
      ensures others[i].stream.Some? ==> others[i].stream.value == FileStream(others[i].path, others[i].seek)
    {
      assert closed[i].(newer := after[i].newer, older := after[i].older) == after[i];
      assert none[i].stream.Some? <==> i in lru;
    }
  }

  /** Closing one handle of a list from which its volume has been taken. */
  lemma ClosingKeepsStep(vs: seq<CachedVolume>, after: seq<CachedVolume>, lru: seq<nat>, index: nat)
    requires HandlesInStep(vs, lru) && Alike(vs, after) && index < |vs|
    ensures HandlesInStep(after[index := after[index].(stream := None)], Without(lru, index))
    ensures Records(after[index := after[index].(stream := None)]) == Records(vs)
  {
    WithoutMembers(lru, index);
    var r := after[index := after[index].(stream := None)];
    forall i | 0 <= i < |r|
      ensures Record(r[i]) == Record(vs[i])
      ensures r[i].stream.Some? <==> i in Without(lru, index)
      ensures r[i].stream.Some? ==> r[i].stream.value == FileStream(r[i].path, r[i].seek)
    {
      assert vs[i].(newer := after[i].newer, older := after[i].older) == after[i];
    }
  }

  lemma SameRecords(a: seq<CachedVolume>, b: seq<CachedVolume>)
    requires Alike(a, b)
    ensures Records(a) == Records(b)
  {
    forall i | 0 <= i < |b| ensures Record(a[i]) == Record(b[i]) {
      assert a[i].(newer := b[i].newer, older := b[i].older) == b[i];
    }
  }

  /** Closing a handle looks the same whatever the links are. */
  lemma ReleasedAlike(a: seq<CachedVolume>, b: seq<CachedVolume>, e: nat)
    requires e < |a| == |b| && Alike(a, b)
    ensures Alike(a[e := a[e].(stream := None)], b[e := b[e].(stream := None)])
  {
  }

  class VolumesCache {
    var volumes: seq<CachedVolume>
    var openCount: nat
    var newest: nat
    var oldest: nat
    const policy: EvictionPolicy
    const threshold: nat
    const maxSize: nat
    ghost var lru: seq<nat>

    ghost predicate Valid()
      reads this
    {
      && 3 <= threshold && maxSize < NO_VOLUME && |volumes| <= maxSize
      && Linked(volumes, newest, oldest, lru)
      && HandlesInStep(volumes, lru)
      && openCount == |lru| < threshold
    }

    /** A handle was just put on volume `index`, which is not in the list yet. */
    ghost predicate ValidButOpening(index: nat)
      reads this
    {
      && 3 <= threshold && maxSize < NO_VOLUME && |volumes| <= maxSize
      && Linked(volumes, newest, oldest, lru)
      && Opening(volumes, lru, index)
      && openCount == |lru| < threshold
    }

    constructor (policy: EvictionPolicy, threshold: nat, maxSize: nat)
      requires 3 <= threshold && maxSize < NO_VOLUME
      ensures Valid() && fresh(this)
      ensures volumes == [] && lru == []
      ensures this.policy == policy && this.threshold == threshold && this.maxSize == maxSize
    {
      volumes, openCount, newest, oldest, lru := [], 0, NO_VOLUME, NO_VOLUME, [];
      this.policy, this.threshold, this.maxSize := policy, threshold, maxSize;
    }

    /** Appending fails, as the underlying vector does, once its maximum size is reached. */
    method PushBack(path: string, size: nat, offset: nat) returns (ok: bool)
      requires Valid()
      modifies this
      ensures Valid() && lru == old(lru)
      ensures ok <==> old(|volumes|) < maxSize
      ensures newest == old(newest)
      ensures volumes == if ok then old(volumes) + [CachedVolume(path, size, offset, 0, None, NO_VOLUME, NO_VOLUME)]
                         else old(volumes)
    {
      ok := |volumes| < maxSize;
      if ok {
        volumes := volumes + [CachedVolume(path, size, offset, 0, None, NO_VOLUME, NO_VOLUME)];
      }
    }

    /** Removes the last volume, whose handle must have been given up before. */
    method PopBack()
      requires Valid() && volumes != [] && volumes[|volumes| - 1].stream.None?
      modifies this
      ensures Valid() && lru == old(lru)
      ensures volumes == old(volumes)[..|old(volumes)| - 1]
    {
      volumes := volumes[..|volumes| - 1];
    }

    /** Takes a volume out of the list; its handle is untouched. */
    method Unlink(index: nat)
      requires Linked(volumes, newest, oldest, lru) && index in lru
      modifies this
      ensures Linked(volumes, newest, oldest, lru) && lru == Without(old(lru), index)
      ensures openCount == old(openCount)
      ensures |volumes| == |old(volumes)| && Alike(old(volumes), volumes)
    {
      hide Linked, Records, Alike;
      ghost var k :| 0 <= k < |lru| && lru[k] == index;
      ListIsDuplicateFree(volumes, newest, oldest, lru);
      WithoutAt(lru, k);
      BridgingDrops(volumes, newest, oldest, lru, k);
      LinksInRange(volumes, newest, oldest, lru, k);
      BridgedAlike(volumes, index);
      ghost var before := volumes;
      var v := volumes[index];
      if v.older != NO_VOLUME {
        volumes := volumes[v.older := volumes[v.older].(newer := v.newer)];
      } else {
        oldest := v.newer;
      }
      if v.newer != NO_VOLUME {
        volumes := volumes[v.newer := volumes[v.newer].(older := v.older)];
      } else {
        newest := v.older;
      }
      volumes := volumes[index := volumes[index].(older := NO_VOLUME, newer := NO_VOLUME)];
      lru := Dropped(lru, k);
    }

    /** Makes a volume that is not in the list its newest element. */
    method LinkAsNewest(index: nat)
      requires Linked(volumes, newest, oldest, lru) && index < |volumes| && index !in lru
      modifies this
      ensures Linked(volumes, newest, oldest, lru) && lru == [index] + old(lru)
      ensures openCount == old(openCount)
      ensures |volumes| == |old(volumes)| && Alike(old(volumes), volumes)
    {
      hide Linked, Records, Alike;
      HeadingLinks(volumes, newest, oldest, lru, index);
      HeadedAlike(volumes, newest, index);
      if newest != NO_VOLUME {
        volumes := volumes[newest := volumes[newest].(newer := index)];
      }
      if oldest == NO_VOLUME {
        oldest := index;
      }
      volumes := volumes[index := volumes[index].(older := newest, newer := NO_VOLUME)];
      newest := index;
      lru := [index] + lru;
    }

    /** Closes the volume the policy picks. */
    method Evict()
      requires Linked(volumes, newest, oldest, lru) && lru != [] && openCount > 0
      modifies this
      ensures Linked(volumes, newest, oldest, lru) && lru == Evicted(policy, old(lru))
      ensures openCount == old(openCount) - 1
      ensures var e := Victim(policy, old(lru));
              e < |old(volumes)| &&
              Alike(old(volumes)[e := old(volumes)[e].(stream := None)], volumes)
    {
      hide Linked, Records, Alike;
      ghost var k := if policy.Oldest? then |lru| - 1 else 0;
      BridgingDrops(volumes, newest, oldest, lru, k);
      LinksInRange(volumes, newest, oldest, lru, k);
      EndsOfList(volumes, newest, oldest, lru);
      ghost var before := volumes;
      var e;
      if policy.Oldest? {
        e := oldest;
        oldest := volumes[e].newer;
        if oldest != NO_VOLUME {
          volumes := volumes[oldest := volumes[oldest].(older := NO_VOLUME)];
        } else {
          newest := NO_VOLUME;
        }
      } else {
        e := newest;
        newest := volumes[e].older;
        if newest != NO_VOLUME {
          volumes := volumes[newest := volumes[newest].(newer := NO_VOLUME)];
        } else {
          oldest := NO_VOLUME;
        }
      }
      volumes := volumes[e := volumes[e].(newer := NO_VOLUME, older := NO_VOLUME)];
      assert volumes == Bridged(before, lru[k]);
      BridgedAlike(before, e);
      ReleasedAlike(before, volumes, e);
      ReleaseKeepsLinks(volumes, newest, oldest, Dropped(lru, k), e);
      volumes := volumes[e := volumes[e].(stream := None)];
      openCount := openCount - 1;
      lru := Dropped(lru, k);
    }

    /** Gives volume `index`, which is already open, the newest place. */
    method Promote(index: nat)
      requires Valid() && index in lru
      modifies this
      ensures Valid() && lru == Touched(policy, threshold, old(lru), index)
      ensures Alike(old(volumes), volumes)
    {
      hide Linked, HandlesInStep, Records, Alike;
      ListIsDuplicateFree(volumes, newest, oldest, lru);
      WithoutLength(lru, index);
      WithoutMembers(lru, index);
      InRange(volumes, newest, oldest, lru, index);
      Unlink(index);
      ghost var unlinked := volumes;
      LinkAsNewest(index);
      AlikeTransitive(old(volumes), unlinked, volumes);
      SameHandles(old(volumes), volumes, old(lru), lru);
    }

    /**
      * Accounts for the handle just put on volume `index`: closes another volume when the
      * threshold is reached, restores the position of the handle, and makes the volume the newest.
      */
    method TrackReopen(index: nat)
      requires ValidButOpening(index)
      modifies this
      ensures Valid() && lru == Touched(policy, threshold, old(lru), index)
      ensures Records(volumes) == old(Records(volumes))
    {
      hide Linked, HandlesInStep, Records, Alike;
      ListIsDuplicateFree(volumes, newest, oldest, lru);
      openCount := openCount + 1;
      if openCount >= threshold {
        Evict();
        EvictionCloses(policy, old(lru), old(volumes), index, volumes);
      }
      ghost var mid := lru;
      assert Opening(volumes, mid, index) && Records(volumes) == old(Records(volumes));
      RestoreCompletes(volumes, mid, index);
      RestoreKeepsLinks(volumes, newest, oldest, mid, index);
      if volumes[index].seek != 0 {
        var stream := volumes[index].stream.value.(position := volumes[index].seek);
        volumes := volumes[index := volumes[index].(stream := Some(stream))];
      }
      ghost var restored := volumes;
      LinkAsNewest(index);
      SameHandles(restored, volumes, lru, lru);
      SameRecords(restored, volumes);
    }

    /** Puts a freshly opened handle on a volume that has none. */
    method Attach(index: nat)
      requires Valid() && index < |volumes| && volumes[index].stream.None?
      modifies this
      ensures ValidButOpening(index) && lru == old(lru)
      ensures Records(volumes) == old(Records(volumes))
    {
      hide Linked, Records, Alike;
      var v := volumes[index].(stream := Some(FileStream(volumes[index].path, 0)));
      UpdateKeepsLinks(volumes, newest, oldest, lru, index, v);
      ghost var before := volumes;
      volumes := volumes[index := v];
      assert volumes[index := v.(stream := None)] == before;
    }

    /** Gives up the handle of an open volume: the list first, then the count, then the handle. */
    method Close(index: nat)
      requires Valid() && index in lru
      modifies this
      ensures Valid() && lru == Without(old(lru), index)
      ensures Records(volumes) == old(Records(volumes))
      ensures |volumes| == |old(volumes)| && index < |volumes| && volumes[index].stream.None?
    {
      hide Linked, HandlesInStep, Records, Alike;
      ListIsDuplicateFree(volumes, newest, oldest, lru);
      WithoutLength(lru, index);
      InRange(volumes, newest, oldest, lru, index);
      Unlink(index);
      TrackClosed();
      ReleaseKeepsLinks(volumes, newest, oldest, lru, index);
      ClosingKeepsStep(old(volumes), volumes, old(lru), index);
      volumes := volumes[index := volumes[index].(stream := None)];
    }

    /** One handle less to count. */
    method TrackClosed()
      requires openCount > 0
      modifies this`openCount
      ensures openCount == old(openCount) - 1
    {
      openCount := openCount - 1;
    }

    /** Moves the handle of an open volume and records where it now stands. */
    method SeekTo(index: nat, position: nat)
      requires Valid() && index in lru
      modifies this
      ensures Valid() && lru == old(lru)
      ensures index < |volumes| == |old(volumes)|
      ensures Records(volumes) == old(Records(volumes))[index := Records(old(volumes))[index].(seek := position)]
    {
      hide Linked, Records, Alike;
      InRange(volumes, newest, oldest, lru, index);
      var v := volumes[index];
      var moved := v.(seek := position, stream := Some(FileStream(v.path, position)));
      UpdateKeepsLinks(volumes, newest, oldest, lru, index, moved);
      volumes := volumes[index := moved];
    }

    /**
      * After `n` bytes were read or written through the handle of a volume: the operating system has moved
      * the handle, and the stream moves the recorded position along.
      */
    method Advance(index: nat, n: nat)
      requires Valid() && index in lru
      modifies this
      ensures Valid() && lru == old(lru)
      ensures index < |volumes| == |old(volumes)|
      ensures var r := Records(old(volumes))[index];
              Records(volumes) == old(Records(volumes))[index := r.(seek := r.seek + n)]
    {
      hide Linked, Records, Alike;
      InRange(volumes, newest, oldest, lru, index);
      var v := volumes[index];
      var handle := v.stream.value.(position := v.stream.value.position + n);
      var moved := v.(stream := Some(handle), seek := v.seek + n);
      UpdateKeepsLinks(volumes, newest, oldest, lru, index, moved);
      volumes := volumes[index := moved];
    }

    /** The seek both streams do first: skipped when the handle already stands at `position`. */
    method SeekWhenElsewhere(index: nat, position: nat)
      requires Valid() && index in lru
      modifies this
      ensures Valid() && lru == old(lru)
      ensures index < |volumes| == |old(volumes)|
      ensures Records(volumes) == old(Records(volumes))[index := Records(old(volumes))[index].(seek := position)]
      ensures volumes[index].stream == Some(FileStream(volumes[index].path, position))
    {
      hide Linked, Records, Alike;
      InRange(volumes, newest, oldest, lru, index);
      if position != volumes[index].seek {
        SeekTo(index, position);
      }
    }

    /** Records a new size for a volume. */
    method Resize(index: nat, size: nat)
      requires Valid() && index < |volumes|
      modifies this
      ensures Valid() && lru == old(lru) && |volumes| == |old(volumes)|
      ensures Records(volumes) == old(Records(volumes))[index := Records(old(volumes))[index].(size := size)]
    {
      hide Linked, Records, Alike;
      UpdateKeepsLinks(volumes, newest, oldest, lru, index, volumes[index].(size := size));
      volumes := volumes[index := volumes[index].(size := size)];
    }
  }
}
