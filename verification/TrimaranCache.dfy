/** Trimaran's cache of recently bound pods: per node a list ordered by time, cleaned up periodically. */
module TrimaranCache {
  import opened Subsequences

  /** Reporting interval of the metrics agent, in nanoseconds. */
  const INTERVAL: int := 60 * 1_000_000_000

  datatype Entry = Entry(timestamp: int, uid: string)

  type Lists = map<string, seq<Entry>>

  /** The entry is younger than the interval. */
  predicate Young(e: Entry, now: int) {
    e.timestamp + INTERVAL > now
  }

  ghost predicate Sorted(es: seq<Entry>) {
    forall i, j :: 0 <= i <= j < |es| ==> es[i].timestamp <= es[j].timestamp
  }

  function YoungOnly(es: seq<Entry>, now: int): seq<Entry> {
    if es == [] then [] else
      YoungOnly(es[..|es| - 1], now) + if Young(es[|es| - 1], now) then [es[|es| - 1]] else []
  }

  /** What a clean-up is for: exactly the young entries stay if there are any, otherwise everything does. */
  function Kept(es: seq<Entry>, now: int): seq<Entry> {
    if YoungOnly(es, now) == [] then es else YoungOnly(es, now)
  }

  function Middle(i: nat, j: nat): (h: nat)
    requires i < j
    ensures i <= h < j
  {
    (i + j) / 2
  }

  /** Where the binary search between `i` and `j` ends, on any list. */
  function Probe(es: seq<Entry>, now: int, i: nat, j: nat): (idx: nat)
    requires i <= j <= |es|
    ensures i <= idx <= j
    decreases j - i
  {
    if i == j then i else
      var h := Middle(i, j);
      if Young(es[h], now) then Probe(es, now, i, h) else Probe(es, now, h + 1, j)
  }

  /** What a clean-up leaves of any list: the entries from the end of the search on, or all if it found none. */
  function Cleaned(es: seq<Entry>, now: int): seq<Entry> {
    var idx := Probe(es, now, 0, |es|);
    if idx == |es| then es else es[idx..]
  }

  function RemoveFirst(es: seq<Entry>, uid: string): seq<Entry> {
    if es == [] then [] else if es[0].uid == uid then es[1..] else [es[0]] + RemoveFirst(es[1..], uid)
  }

  function Listed(lists: Lists, node: string): seq<Entry> {
    if node in lists then lists[node] else []
  }

  // ----- The handler -----

  /** Binary search for the first young entry; without an order it still ends between an old and a young one. */
  method Search(es: seq<Entry>, now: int) returns (idx: nat)
    ensures idx == Probe(es, now, 0, |es|)
    ensures idx <= |es|
    ensures (idx < |es| ==> Young(es[idx], now)) && (idx > 0 ==> !Young(es[idx - 1], now))
    ensures Sorted(es) ==> forall k :: 0 <= k < |es| ==> (Young(es[k], now) <==> idx <= k)
  {
    hide Young, Sorted, Middle;
    var i, j := 0, |es|;
    while i < j
      invariant 0 <= i <= j <= |es|
      invariant Probe(es, now, 0, |es|) == Probe(es, now, i, j)
      invariant (i > 0 ==> !Young(es[i - 1], now)) && (j < |es| ==> Young(es[j], now))
    {
      var h := Middle(i, j);
      if Young(es[h], now) {
        j := h;
      } else {
        i := h + 1;
      }
    }
    idx := i;
    if Sorted(es) {
      SortedBorder(es, now, idx);
    }
  }

  /** In a sorted list a border between old and young entries is the only one. */
  lemma SortedBorder(es: seq<Entry>, now: int, idx: nat)
    requires Sorted(es) && idx <= |es|
    requires (idx < |es| ==> Young(es[idx], now)) && (idx > 0 ==> !Young(es[idx - 1], now))
    ensures forall k :: 0 <= k < |es| ==> (Young(es[k], now) <==> idx <= k)
  {
  }

  /** The same border as a fact about the function. */
  lemma {:induction false} ProbeIsBorder(es: seq<Entry>, now: int, i: nat, j: nat)
    requires i <= j <= |es| && (i > 0 ==> !Young(es[i - 1], now)) && (j < |es| ==> Young(es[j], now))
    ensures var idx := Probe(es, now, i, j);
            (idx < |es| ==> Young(es[idx], now)) && (idx > 0 ==> !Young(es[idx - 1], now))
    decreases j - i
  {
    hide Young, Middle;
    if i < j {
      var h := Middle(i, j);
      if Young(es[h], now) {
        ProbeIsBorder(es, now, i, h);
      } else {
        ProbeIsBorder(es, now, h + 1, j);
      }
    }
  }

  class PodAssignEventHandler {
    var scheduledPodsCache: Lists

    constructor ()
      ensures scheduledPodsCache == map[]
    {
      scheduledPodsCache := map[];
    }

    method UpdateCache(uid: string, node: string, now: int)
      modifies this
      ensures scheduledPodsCache == Step(old(scheduledPodsCache), Assign(uid, node, now))
    {
      if node == "" {
        return;
      }
      scheduledPodsCache := scheduledPodsCache[node := Listed(scheduledPodsCache, node) + [Entry(now, uid)]];
    }

    method OnUpdate(oldNode: string, newNode: string, uid: string, now: int)
      modifies this
      ensures scheduledPodsCache == if oldNode != newNode then Step(old(scheduledPodsCache), Assign(uid, newNode, now))
                                    else old(scheduledPodsCache)
    {
      if oldNode != newNode {
        UpdateCache(uid, newNode, now);
      }
    }

    /** Shifts the entries behind the first match one place forward. */
    method OnDelete(uid: string, node: string)
      modifies this
      ensures scheduledPodsCache == Step(old(scheduledPodsCache), Delete(uid, node))
    {
      if node !in scheduledPodsCache {
        return;
      }
      var es := scheduledPodsCache[node];
      for i := 0 to |es|
        invariant scheduledPodsCache == old(scheduledPodsCache)
        invariant forall k :: 0 <= k < i ==> es[k].uid != uid
      {
        if es[i].uid == uid {
          RemoveFirstAt(es, uid, i);
          scheduledPodsCache := scheduledPodsCache[node := es[..i] + es[i + 1..]];
          return;
        }
      }
      RemoveFirstNone(es, uid);
      assert scheduledPodsCache == scheduledPodsCache[node := es];
    }

    /** Visits the nodes in any order; `clock` is the time read for each of them. */
    method CleanupCache(clock: string -> int)
      modifies this
      ensures scheduledPodsCache == Step(old(scheduledPodsCache), Cleanup(clock))
    {
      ghost var before := scheduledPodsCache;
      var todo := scheduledPodsCache.Keys;
      assert PartlyCleaned(before, scheduledPodsCache, clock, todo);
      hide *;
      while todo != {}
        invariant PartlyCleaned(before, scheduledPodsCache, clock, todo)
      {
        var n :| n in todo;
        StillThere(before, scheduledPodsCache, clock, todo, n);
        var cache := scheduledPodsCache[n];
        var idx := Search(cache, clock(n));
        CleanedIs(cache, clock(n), idx);
        CleanOne(before, scheduledPodsCache, clock, todo, n);
        todo := todo - {n};
        if idx != |cache| {
          cache := cache[idx..];
          if |cache| == 0 {
            assert false; // a list that is cut is never empty, so no node is dropped
          } else {
            scheduledPodsCache := scheduledPodsCache[n := cache];
          }
        } else {
          assert scheduledPodsCache[n := cache] == scheduledPodsCache;
        }
      }
      AllCleaned(before, scheduledPodsCache, clock);
    }
  }

  /** Part way through a clean-up: the nodes in `todo` are still to be visited. */
  ghost predicate PartlyCleaned(before: Lists, now: Lists, clock: string -> int, todo: set<string>) {
    && todo <= before.Keys && now.Keys == before.Keys
    && forall n :: n in before ==> now[n] == if n in todo then before[n] else Cleaned(before[n], clock(n))
  }

  lemma CleanedIs(es: seq<Entry>, now: int, idx: nat)
    requires idx == Probe(es, now, 0, |es|)
    ensures idx <= |es| && Cleaned(es, now) == if idx == |es| then es else es[idx..]
  {
  }

  lemma StillThere(before: Lists, now: Lists, clock: string -> int, todo: set<string>, n: string)
    requires PartlyCleaned(before, now, clock, todo) && n in todo
    ensures n in before && n in now && now[n] == before[n]
  {
  }

  lemma CleanOne(before: Lists, now: Lists, clock: string -> int, todo: set<string>, n: string)
    requires PartlyCleaned(before, now, clock, todo) && n in todo && n in now
    ensures PartlyCleaned(before, now[n := Cleaned(now[n], clock(n))], clock, todo - {n})
  {
    hide Cleaned;
  }

  lemma AllCleaned(before: Lists, now: Lists, clock: string -> int)
    requires PartlyCleaned(before, now, clock, {})
    ensures now == Step(before, Cleanup(clock))
  {
    hide Cleaned;
  }

  lemma {:induction false} RemoveFirstAt(es: seq<Entry>, uid: string, i: nat)
    requires i < |es| && es[i].uid == uid && forall k :: 0 <= k < i ==> es[k].uid != uid
    ensures RemoveFirst(es, uid) == es[..i] + es[i + 1..]
  {
    if i > 0 {
      RemoveFirstAt(es[1..], uid, i - 1);
    }
  }

  lemma {:induction false} RemoveFirstNone(es: seq<Entry>, uid: string)
    requires forall k :: 0 <= k < |es| ==> es[k].uid != uid
    ensures RemoveFirst(es, uid) == es
  {
    if es != [] {
      RemoveFirstNone(es[1..], uid);
    }
  }

  /** In a list split into old entries before `idx` and young ones from there on. */
  lemma {:induction false} YoungIsSuffix(es: seq<Entry>, now: int, idx: nat)
    requires idx <= |es| && forall k :: 0 <= k < |es| ==> (Young(es[k], now) <==> idx <= k)
    ensures YoungOnly(es, now) == es[idx..]
  {
    if es != [] {
      var before, last := es[..|es| - 1], es[|es| - 1];
      assert Young(last, now) <==> idx <= |es| - 1;
      YoungIsSuffix(before, now, if idx == |es| then idx - 1 else idx);
      hide Young;
      if idx == |es| {
        assert YoungOnly(es, now) == YoungOnly(before, now) + [];
      } else {
        assert YoungOnly(es, now) == before[idx..] + [last] == es[idx..];
      }
    }
  }

  /** On a sorted list the binary search does what the clean-up is for. */
  lemma CleanedWhenSorted(es: seq<Entry>, now: int)
    requires Sorted(es)
    ensures Cleaned(es, now) == Kept(es, now)
  {
    var idx := Probe(es, now, 0, |es|);
    ProbeIsBorder(es, now, 0, |es|);
    SortedBorder(es, now, idx);
    hide Young, Sorted, Probe;
    YoungIsSuffix(es, now, idx);
    assert es[|es|..] == [];
  }

  // ----- Runs -----

  datatype Event =
    | Assign(uid: string, node: string, now: int)
    | Delete(uid: string, node: string)
    | Cleanup(clock: string -> int)

  function Step(lists: Lists, e: Event): Lists {
    match e
    case Assign(uid, node, now) =>
      if node == "" then lists else lists[node := Listed(lists, node) + [Entry(now, uid)]]
    case Delete(uid, node) => if node !in lists then lists else lists[node := RemoveFirst(lists[node], uid)]
    case Cleanup(clock) => map n | n in lists :: Cleaned(lists[n], clock(n))
  }

  ghost function Run(es: seq<Event>): Lists {
    if es == [] then map[] else Step(Run(es[..|es| - 1]), es[|es| - 1])
  }

  /** The clock never goes back between two assignments. */
  ghost predicate ClockRises(es: seq<Event>) {
    forall i, j :: 0 <= i <= j < |es| && es[i].Assign? && es[j].Assign? ==> es[i].now <= es[j].now
  }

  /** No listed time is later than `limit`, and all lists are in order. */
  ghost predicate InOrder(lists: Lists, limit: int) {
    forall n :: n in lists ==> OrderedUpTo(lists[n], limit)
  }

  ghost predicate OrderedUpTo(es: seq<Entry>, limit: int) {
    Sorted(es) && forall k :: 0 <= k < |es| ==> es[k].timestamp <= limit
  }

  lemma OrderedPlus(es: seq<Entry>, limit: int, e: Entry)
    requires OrderedUpTo(es, limit) && limit <= e.timestamp
    ensures OrderedUpTo(es + [e], e.timestamp) && OrderedUpTo(es, e.timestamp)
  {
  }

  lemma OrderedCleaned(es: seq<Entry>, limit: int, now: int)
    requires OrderedUpTo(es, limit)
    ensures OrderedUpTo(Cleaned(es, now), limit)
  {
    hide Probe;
  }

  lemma OrderedWithout(es: seq<Entry>, limit: int, uid: string)
    requires OrderedUpTo(es, limit)
    ensures OrderedUpTo(RemoveFirst(es, uid), limit)
  {
    RemoveFirstSubsequence(es, uid);
    SubsequenceSorted(RemoveFirst(es, uid), es, limit);
  }

  lemma {:induction false} SubsequenceSorted(a: seq<Entry>, b: seq<Entry>, limit: int)
    requires Subsequence(a, b) && Sorted(b) && forall k :: 0 <= k < |b| ==> b[k].timestamp <= limit
    ensures Sorted(a) && forall k :: 0 <= k < |a| ==> a[k].timestamp <= limit
    decreases b
  {
    if a != [] {
      var last := b[|b| - 1].timestamp;
      if a[|a| - 1] == b[|b| - 1] && Subsequence(a[..|a| - 1], b[..|b| - 1]) {
        SubsequenceSorted(a[..|a| - 1], b[..|b| - 1], last);
        assert a[|a| - 1].timestamp == last <= limit;
      } else {
        SubsequenceSorted(a, b[..|b| - 1], limit);
      }
    }
  }

  /** Deleting keeps a subsequence: one entry goes, everything else stays in order. */
  lemma {:induction false} RemoveFirstSubsequence(es: seq<Entry>, uid: string)
    ensures Subsequence(RemoveFirst(es, uid), es)
  {
    var i := 0;
    while i < |es| && es[i].uid != uid
      invariant i <= |es| && forall k :: 0 <= k < i ==> es[k].uid != uid
    {
      i := i + 1;
    }
    if i == |es| {
      RemoveFirstNone(es, uid);
      SubsequenceOfItself(es);
    } else {
      RemoveFirstAt(es, uid, i);
      DropOne(es, i);
    }
  }

  lemma StepKeepsOrder(lists: Lists, e: Event, limit: int)
    requires InOrder(lists, limit) && (e.Assign? ==> limit <= e.now)
    ensures InOrder(Step(lists, e), if e.Assign? then e.now else limit)
  {
    hide OrderedUpTo, Cleaned, RemoveFirst;
    match e
    case Assign(uid, node, now) =>
      assert OrderedUpTo(Listed(lists, node), limit) by {
        assert OrderedUpTo([], limit) by { OrderedNothing(limit); }
      }
      forall n | n in lists ensures OrderedUpTo(lists[n], now) {
        OrderedPlus(lists[n], limit, Entry(now, uid));
      }
      OrderedPlus(Listed(lists, node), limit, Entry(now, uid));
    case Delete(uid, node) =>
      if node in lists {
        OrderedWithout(lists[node], limit, uid);
      }
    case Cleanup(clock) =>
      forall n | n in lists ensures OrderedUpTo(Cleaned(lists[n], clock(n)), limit) {
        OrderedCleaned(lists[n], limit, clock(n));
      }
  }

  lemma OrderedNothing(limit: int)
    ensures OrderedUpTo([], limit)
  {
  }

  /** The latest assignment time of a run. */
  ghost function Latest(es: seq<Event>, start: int): int {
    if es == [] then start
    else if es[|es| - 1].Assign? then es[|es| - 1].now
    else Latest(es[..|es| - 1], start)
  }

  lemma {:induction false} LatestBound(es: seq<Event>, start: int, e: Event)
    requires ClockRises(es + [e]) && e.Assign? && start <= e.now
    ensures Latest(es, start) <= e.now
  {
    if es != [] {
      var last, all := es[|es| - 1], es + [e];
      assert all[|es| - 1] == last && all[|es|] == e;
      if !last.Assign? {
        var before := es[..|es| - 1];
        forall i, j | 0 <= i <= j < |before + [e]| && (before + [e])[i].Assign? && (before + [e])[j].Assign?
          ensures (before + [e])[i].now <= (before + [e])[j].now
        {
          var a, b := if i < |before| then i else |es|, if j < |before| then j else |es|;
          assert (before + [e])[i] == all[a] && (before + [e])[j] == all[b];
        }
        LatestBound(before, start, e);
      }
    }
  }

  /** Under a clock that does not go back, every list stays ordered by time over every run, so the binary search
      of the clean-up is always on sorted data. */
  lemma {:induction false} ListsStayInOrder(es: seq<Event>, start: int)
    requires ClockRises(es) && forall i :: 0 <= i < |es| && es[i].Assign? ==> start <= es[i].now
    ensures InOrder(Run(es), Latest(es, start))
    decreases |es|
  {
    if es != [] {
      var before, e := es[..|es| - 1], es[|es| - 1];
      assert es == before + [e];
      assert ClockRises(before) by {
        assert forall i :: 0 <= i < |before| ==> before[i] == es[i];
      }
      ListsStayInOrder(before, start);
      if e.Assign? {
        LatestBound(before, start, e);
      }
      StepKeepsOrder(Run(before), e, Latest(before, start));
    }
  }

  /** What a clean-up does over every run under a clock that does not go back: it never drops a young entry; only
      young ones stay exactly when there was one (or there was nothing); and otherwise the list stays as it is. */
  lemma CleanupIsExact(run: seq<Event>, start: int, node: string, now: int)
    requires ClockRises(run) && forall i :: 0 <= i < |run| && run[i].Assign? ==> start <= run[i].now
    ensures var es := Listed(Run(run), node);
            && (forall e :: e in es && now - e.timestamp < 60_000_000_000 ==> e in Cleaned(es, now))
            && ((forall e :: e in Cleaned(es, now) ==> now - e.timestamp < 60_000_000_000) <==>
                es == [] || exists e :: e in es && now - e.timestamp < 60_000_000_000)
            && ((forall e :: e in es ==> now - e.timestamp >= 60_000_000_000) ==> Cleaned(es, now) == es)
  {
    ListsStayInOrder(run, start);
    OrderedNothing(start);
    var es := Listed(Run(run), node);
    assert Sorted(es);
    assert forall e :: Young(e, now) <==> now - e.timestamp < 60_000_000_000;
    hide *;
    CleanedWhenSorted(es, now);
    KeptIsExact(es, now);
  }

  lemma KeptIsExact(es: seq<Entry>, now: int)
    ensures forall e :: e in es && Young(e, now) ==> e in Kept(es, now)
    ensures (forall e :: e in Kept(es, now) ==> Young(e, now)) <==> es == [] || exists e :: e in es && Young(e, now)
    ensures (forall e :: e in es ==> !Young(e, now)) ==> Kept(es, now) == es
  {
    YoungOnlyExact(es, now);
    hide Young;
    if es != [] && forall e :: e in es ==> !Young(e, now) {
      assert YoungOnly(es, now) == [] by {
        if YoungOnly(es, now) != [] {
          assert YoungOnly(es, now)[0] in YoungOnly(es, now);
        }
      }
      assert es[0] in es;
    }
  }

  /** On any list, in order or not, a clean-up keeps a non-empty end of it, which begins with a young entry if
      anything was cut off. */
  lemma CleanupKeepsEnd(es: seq<Entry>, now: int)
    ensures var idx := |es| - |Cleaned(es, now)|;
            && 0 <= idx && Cleaned(es, now) == es[idx..] && (es != [] ==> Cleaned(es, now) != [])
            && (idx > 0 ==> Young(Cleaned(es, now)[0], now))
  {
    ProbeIsBorder(es, now, 0, |es|);
  }

  /** A list that is never cleaned: its only entry is older than the interval and stays. */
  lemma OldListExample()
    ensures var es := [Entry(0, "a")]; !Young(es[0], 2 * INTERVAL) && Cleaned(es, 2 * INTERVAL) == es
  {
  }

  /** After the clock went back a clean-up can drop a young entry. */
  lemma ClockBackExample()
    ensures var es := [Entry(INTERVAL + 1, "a"), Entry(0, "b"), Entry(INTERVAL + 2, "c")];
            Young(es[0], INTERVAL) && Cleaned(es, INTERVAL) == [es[2]]
  {
    var es := [Entry(INTERVAL + 1, "a"), Entry(0, "b"), Entry(INTERVAL + 2, "c")];
    assert Middle(0, 3) == 1 && Middle(2, 3) == 2;
    assert Probe(es, INTERVAL, 2, 3) == 2;
    assert Probe(es, INTERVAL, 0, 3) == 2;
  }

  lemma {:induction false} YoungOnlyExact(es: seq<Entry>, now: int)
    ensures forall e :: e in YoungOnly(es, now) <==> e in es && Young(e, now)
  {
    if es != [] {
      YoungOnlyExact(es[..|es| - 1], now);
      assert es == es[..|es| - 1] + [es[|es| - 1]];
    }
  }

  // ----- What the events do to the lists -----

  ghost function CountOf(es: seq<Entry>, uid: string): nat {
    if es == [] then 0 else CountOf(es[..|es| - 1], uid) + if es[|es| - 1].uid == uid then 1 else 0
  }

  lemma {:induction false} CountOfBoth(a: seq<Entry>, b: seq<Entry>, uid: string)
    ensures CountOf(a + b, uid) == CountOf(a, uid) + CountOf(b, uid)
  {
    if b == [] {
      assert a + b == a;
    } else {
      CountOfBoth(a, b[..|b| - 1], uid);
      assert (a + b)[..|a + b| - 1] == a + b[..|b| - 1];
    }
  }

  lemma {:induction false} CountOfNone(es: seq<Entry>, uid: string)
    ensures CountOf(es, uid) == 0 <==> forall k :: 0 <= k < |es| ==> es[k].uid != uid
  {
    if es != [] {
      CountOfNone(es[..|es| - 1], uid);
    }
  }

  lemma {:induction false} RemoveFirstCounts(es: seq<Entry>, uid: string, other: string)
    ensures CountOf(RemoveFirst(es, uid), other)
         == CountOf(es, other) - if other == uid && CountOf(es, uid) > 0 then 1 else 0
  {
    if es != [] {
      var head, tail := [es[0]], es[1..];
      assert es == head + tail && head[..0] == [];
      CountOfBoth(head, tail, other);
      CountOfBoth(head, tail, uid);
      RemoveFirstCounts(tail, uid, other);
      if es[0].uid != uid {
        CountOfBoth(head, RemoveFirst(tail, uid), other);
      }
    }
  }

  /** What an event does to a node's list: an assignment keeps every entry and puts one with the present time last; a
      deletion takes out one entry of the pod if there is any, keeping the others in order; lists of other nodes and
      entries of other pods are not touched. */
  lemma StepExactly(lists: Lists, e: Event, node: string, uid: string)
    requires !e.Cleanup?
    ensures var before, after := Listed(lists, node), Listed(Step(lists, e), node);
            && (e.node != node ==> after == before)
            && (e.Assign? && e.node == node && node != "" ==>
                  Subsequence(before, after) && |after| == |before| + 1 && after[|before|] == Entry(e.now, e.uid))
            && (e.Assign? && node == "" ==> after == before)
            && (e.Delete? ==> Subsequence(after, before))
            && (e.Delete? && e.node == node ==>
                  CountOf(after, uid)
                  == CountOf(before, uid) - if uid == e.uid && CountOf(before, uid) > 0 then 1 else 0)
  {
    var before, after := Listed(lists, node), Listed(Step(lists, e), node);
    SubsequenceOfItself(before);
    if e.Assign? && e.node == node && node != "" {
      assert after[..|before|] == before;
      SubsequencePlus(before, after);
    }
    if e.Delete? {
      RemoveFirstSubsequence(before, e.uid);
      RemoveFirstCounts(before, e.uid, uid);
    }
  }
}
