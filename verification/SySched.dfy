/** The system-call index of SySched: per node the listed pods and the union of their system calls. */
module SySched {

  datatype Pod = Pod(namespace: string, name: string, nodeName: string)

  /** The system calls of a pod's seccomp profiles. */
  type Profiles = Pod -> set<string>

  const MAX_INT64: int := 0x7FFF_FFFF_FFFF_FFFF

  datatype Index = Index(pods: map<string, seq<Pod>>, calls: map<string, set<string>>)

  /** All system calls of the listed pods. */
  ghost function Union(get: Profiles, pods: seq<Pod>): set<string> {
    set p, c | p in pods && c in get(p) :: c
  }

  function IndexOfName(pods: seq<Pod>, name: string): (i: nat)
    ensures i <= |pods| && (i < |pods| ==> pods[i].name == name)
    ensures forall k :: 0 <= k < i ==> pods[k].name != name
  {
    if pods == [] || pods[0].name == name then 0 else 1 + IndexOfName(pods[1..], name)
  }

  function SwapDelete(pods: seq<Pod>, i: nat): seq<Pod>
    requires i < |pods|
  {
    pods[i := pods[|pods| - 1]][..|pods| - 1]
  }

  ghost predicate UniqueNames(pods: seq<Pod>) {
    forall i, j :: 0 <= i < j < |pods| ==> pods[i].name != pods[j].name
  }

  /** The set kept for a node is the union over its listed pods, whose names are all different. */
  ghost predicate Consistent(get: Profiles, ix: Index) {
    && ix.pods.Keys == ix.calls.Keys
    && forall n :: n in ix.pods ==> UniqueNames(ix.pods[n]) && ix.calls[n] == Union(get, ix.pods[n])
  }

  ghost function Added(get: Profiles, ix: Index, pod: Pod): Index {
    var n := pod.nodeName;
    if n !in ix.pods then Index(ix.pods[n := [pod]], ix.calls[n := get(pod)])
    else if IndexOfName(ix.pods[n], pod.name) < |ix.pods[n]| then ix
    else Index(ix.pods[n := ix.pods[n] + [pod]],
               ix.calls[n := (if n in ix.calls then ix.calls[n] else {}) + get(pod)])
  }

  ghost function Removed(get: Profiles, ix: Index, pod: Pod): Index {
    var n := pod.nodeName;
    if n !in ix.pods then ix else
      var i := IndexOfName(ix.pods[n], pod.name);
      if i == |ix.pods[n]| then ix else
        var rest := SwapDelete(ix.pods[n], i);
        Index(ix.pods[n := rest], ix.calls[n := Union(get, rest)])
  }

  lemma UnionPlus(get: Profiles, pods: seq<Pod>, pod: Pod)
    ensures Union(get, pods + [pod]) == Union(get, pods) + get(pod)
  {
  }

  lemma SwapDeleteKeepsOthers(pods: seq<Pod>, i: nat)
    requires i < |pods| && UniqueNames(pods)
    ensures UniqueNames(SwapDelete(pods, i))
    ensures forall p :: p in SwapDelete(pods, i) <==> p in pods && p != pods[i]
  {
    var rest := SwapDelete(pods, i);
    forall p | p in pods && p != pods[i] ensures p in rest {
      var k :| 0 <= k < |pods| && pods[k] == p;
      if k == |pods| - 1 {
        assert rest[i] == p;
      } else {
        assert rest[k] == p;
      }
    }
    forall p | p in rest ensures p in pods && p != pods[i] {
      var k :| 0 <= k < |rest| && rest[k] == p;
      assert p == if k == i then pods[|pods| - 1] else pods[k];
    }
  }

  lemma AddedConsistent(get: Profiles, ix: Index, pod: Pod)
    requires Consistent(get, ix)
    ensures Consistent(get, Added(get, ix, pod))
  {
    var n := pod.nodeName;
    UnionPlus(get, [], pod);
    assert [] + [pod] == [pod];
    if n in ix.pods {
      UnionPlus(get, ix.pods[n], pod);
    }
  }

  lemma RemovedConsistent(get: Profiles, ix: Index, pod: Pod)
    requires Consistent(get, ix)
    ensures Consistent(get, Removed(get, ix, pod))
  {
    var n := pod.nodeName;
    if n in ix.pods {
      var i := IndexOfName(ix.pods[n], pod.name);
      if i < |ix.pods[n]| {
        SwapDeleteKeepsOthers(ix.pods[n], i);
      }
    }
  }

  // ----- Runs -----

  datatype Event = PodAdded(pod: Pod) | PodDeleted(pod: Pod)

  ghost function Step(get: Profiles, ix: Index, e: Event): Index {
    match e
    case PodAdded(p) => Added(get, ix, p)
    case PodDeleted(p) => Removed(get, ix, p)
  }

  ghost function Run(get: Profiles, es: seq<Event>): Index {
    if es == [] then Index(map[], map[]) else Step(get, Run(get, es[..|es| - 1]), es[|es| - 1])
  }

  /** Over every run of pod events the index is consistent. */
  lemma {:induction false} IndexStaysConsistent(get: Profiles, es: seq<Event>)
    ensures Consistent(get, Run(get, es))
  {
    if es != [] {
      IndexStaysConsistent(get, es[..|es| - 1]);
      match es[|es| - 1]
      case PodAdded(p) => AddedConsistent(get, Run(get, es[..|es| - 1]), p);
      case PodDeleted(p) => RemovedConsistent(get, Run(get, es[..|es| - 1]), p);
    }
  }

  ghost function ListedOn(ix: Index, n: string): seq<Pod> {
    if n in ix.pods then ix.pods[n] else []
  }

  /** The index identifies pods by name alone: a running pod's calls are covered after it was added exactly when
      no pod of that name was listed before, or the node makes all its calls anyway. */
  lemma CoveredExactly(get: Profiles, ix: Index, pod: Pod)
    requires Consistent(get, ix)
    ensures var after := Added(get, ix, pod);
            && pod.nodeName in after.calls
            && (get(pod) <= after.calls[pod.nodeName] <==>
                  || (forall p :: p in ListedOn(ix, pod.nodeName) ==> p.name != pod.name)
                  || (pod.nodeName in ix.calls && get(pod) <= ix.calls[pod.nodeName]))
  {
    var n := pod.nodeName;
    if n in ix.pods {
      var i := IndexOfName(ix.pods[n], pod.name);
      if i < |ix.pods[n]| {
        assert ix.pods[n][i] in ix.pods[n];
      } else {
        forall p | p in ix.pods[n] ensures p.name != pod.name {
          var k :| 0 <= k < |ix.pods[n]| && ix.pods[n][k] == p;
        }
      }
    }
  }

  /** A clash that really happens: two pods of one name in different namespaces run on a node, and the calls of the
      second are not in its index. */
  lemma NameClashExample(get: Profiles)
    requires forall p :: get(p) == if p.namespace == "a" then {"read"} else {"write"}
    ensures var ix := Run(get, [PodAdded(Pod("a", "web", "n")), PodAdded(Pod("b", "web", "n"))]);
            "n" in ix.calls && "write" in get(Pod("b", "web", "n")) && "write" !in ix.calls["n"]
  {
    var first, second := Pod("a", "web", "n"), Pod("b", "web", "n");
    var es := [PodAdded(first), PodAdded(second)];
    assert es[..1] == [es[0]] && [es[0]][..0] == [];
    assert Run(get, []) == Index(map[], map[]);
    var ix := Run(get, es[..1]);
    assert ix == Added(get, Index(map[], map[]), first);
    assert ix.pods["n"] == [first] && ix.calls["n"] == {"read"};
    assert IndexOfName([first], "web") == 0;
    assert Run(get, es) == Added(get, ix, second) == ix;
  }

  // ----- Scores -----

  /** How many calls each of the pods sees beyond its own, if `all` is what the node makes. */
  ghost function Extraneous(get: Profiles, all: set<string>, pods: seq<Pod>): int {
    if pods == [] then 0 else
      Extraneous(get, all, pods[..|pods| - 1]) + |all - get(pods[|pods| - 1])|
  }

  /** The total over all pods once `pod` has joined them. */
  ghost function TotalAfterPlacing(get: Profiles, pods: seq<Pod>, pod: Pod): int {
    Extraneous(get, Union(get, pods + [pod]), pods + [pod])
  }

  ghost function SumOf(xs: seq<int>): int {
    if xs == [] then 0 else SumOf(xs[..|xs| - 1]) + xs[|xs| - 1]
  }

  class Scheduler {
    const getSyscalls: Profiles
    var hostToPods: map<string, seq<Pod>>
    var hostSyscalls: map<string, set<string>>
    var exSAvg: real
    var exSAvgCount: nat
    /** The scores averaged so far. */
    ghost var averaged: seq<int>

    ghost function View(): Index
      reads this
    {
      Index(hostToPods, hostSyscalls)
    }

    /** The index is consistent and the running average is the mean of the scores so far. */
    ghost predicate Valid()
      reads this
    {
      && Consistent(getSyscalls, View())
      && exSAvgCount == |averaged| + 1
      && exSAvg * |averaged| as real == SumOf(averaged) as real
    }

    constructor (getSyscalls: Profiles)
      ensures Valid() && View() == Index(map[], map[]) && this.getSyscalls == getSyscalls && averaged == []
    {
      this.getSyscalls := getSyscalls;
      hostToPods, hostSyscalls := map[], map[];
      exSAvg, exSAvgCount, averaged := 0.0, 1, [];
    }

    method AddPod(pod: Pod)
      requires Valid()
      modifies this
      ensures Valid() && View() == Added(getSyscalls, old(View()), pod) && averaged == old(averaged)
    {
      AddedConsistent(getSyscalls, View(), pod);
      var n := pod.nodeName;
      if n !in hostToPods {
        hostToPods := hostToPods[n := [pod]];
        hostSyscalls := hostSyscalls[n := {}];
        hostSyscalls := hostSyscalls[n := hostSyscalls[n] + getSyscalls(pod)];
        assert {} + getSyscalls(pod) == getSyscalls(pod);
        assert hostSyscalls == old(hostSyscalls)[n := getSyscalls(pod)];
        return;
      }
      for i := 0 to |hostToPods[n]|
        invariant forall k :: 0 <= k < i ==> hostToPods[n][k].name != pod.name
      {
        if hostToPods[n][i].name == pod.name {
          return;
        }
      }
      hostToPods := hostToPods[n := hostToPods[n] + [pod]];
      hostSyscalls := hostSyscalls[n := hostSyscalls[n] + getSyscalls(pod)];
    }

    method RecomputeHostSyscalls(pods: seq<Pod>) returns (calls: set<string>)
      ensures calls == Union(getSyscalls, pods)
    {
      calls := {};
      for i := 0 to |pods|
        invariant calls == Union(getSyscalls, pods[..i])
      {
        assert pods[..i + 1] == pods[..i] + [pods[i]];
        UnionPlus(getSyscalls, pods[..i], pods[i]);
        calls := calls + getSyscalls(pods[i]);
      }
      assert pods[..|pods|] == pods;
    }

    method RemovePod(pod: Pod)
      requires Valid()
      modifies this
      ensures Valid() && View() == Removed(getSyscalls, old(View()), pod) && averaged == old(averaged)
    {
      RemovedConsistent(getSyscalls, View(), pod);
      var n := pod.nodeName;
      if n !in hostToPods {
        return;
      }
      for i := 0 to |hostToPods[n]|
        invariant View() == old(View()) && averaged == old(averaged) && Valid()
        invariant forall k :: 0 <= k < i ==> hostToPods[n][k].name != pod.name
      {
        if hostToPods[n][i].name == pod.name {
          hostToPods := hostToPods[n := SwapDelete(hostToPods[n], i)];
          var calls := RecomputeHostSyscalls(hostToPods[n]);
          hostSyscalls := hostSyscalls[n := calls];
          return;
        }
      }
    }

    /** Adds up what the listed pods see beyond their own calls. */
    method SumDifferences(pods: seq<Pod>, all: set<string>) returns (total: int)
      ensures total == Extraneous(getSyscalls, all, pods)
    {
      total := 0;
      for i := 0 to |pods|
        invariant total == Extraneous(getSyscalls, all, pods[..i])
      {
        assert pods[..i + 1][..i] == pods[..i];
        total := total + |all - getSyscalls(pods[i])|;
      }
      assert pods[..|pods|] == pods;
    }

    /** Takes one more score into the running average. */
    method Average(total: int)
      requires Valid()
      modifies this`exSAvg, this`exSAvgCount, this`averaged
      ensures Valid() && averaged == old(averaged) + [total]
    {
      hide Consistent, SumOf;
      RunningMean(exSAvg, averaged, total);
      exSAvg := exSAvg + (total as real - exSAvg) / exSAvgCount as real;
      exSAvgCount := exSAvgCount + 1;
      averaged := averaged + [total];
    }

    /** The score of a node for a pod: nothing if the node cannot be fetched, the largest number without a profile,
        otherwise exactly the extraneous calls that all pods of the node would see once the pod has joined them. */
    method Score(pod: Pod, node: string, fetched: bool) returns (score: int)
      requires Valid()
      modifies this`exSAvg, this`exSAvgCount, this`averaged
      ensures Valid()
      ensures score == if !fetched then 0 else if getSyscalls(pod) == {} then MAX_INT64
                       else TotalAfterPlacing(getSyscalls, ListedOn(View(), node), pod)
      ensures averaged == if !fetched || getSyscalls(pod) == {} || node !in hostSyscalls then old(averaged)
                          else old(averaged) + [score]
    {
      hide Extraneous, TotalAfterPlacing, SumOf, UniqueNames;
      if !fetched {
        return 0;
      }
      var podSyscalls := getSyscalls(pod);
      if podSyscalls == {} {
        return MAX_INT64;
      }
      if node !in hostSyscalls {
        AloneScoresZero(getSyscalls, pod);
        return 0;
      }
      var own := |hostSyscalls[node] - podSyscalls|;
      var others := SumDifferences(hostToPods[node], hostSyscalls[node] + podSyscalls);
      PlacingTotal(getSyscalls, hostToPods[node], pod);
      score := own + others;
      hide Union, Valid;
      Average(score);
    }
  }

  lemma AloneScoresZero(get: Profiles, pod: Pod)
    ensures TotalAfterPlacing(get, [], pod) == 0
  {
    UnionPlus(get, [], pod);
    assert Union(get, []) == {} && [] + [pod] == [pod] && {} + get(pod) == get(pod);
    assert Union(get, [pod]) == get(pod);
    assert [pod][..0] == [] && get(pod) - get(pod) == {};
    assert Extraneous(get, get(pod), [pod]) == 0;
  }

  lemma PlacingTotal(get: Profiles, pods: seq<Pod>, pod: Pod)
    ensures TotalAfterPlacing(get, pods, pod)
         == |Union(get, pods) - get(pod)| + Extraneous(get, Union(get, pods) + get(pod), pods)
  {
    UnionPlus(get, pods, pod);
    assert (pods + [pod])[..|pods|] == pods;
    assert Union(get, pods) + get(pod) - get(pod) == Union(get, pods) - get(pod);
  }

  lemma RunningMean(avg: real, xs: seq<int>, x: int)
    requires avg * |xs| as real == SumOf(xs) as real
    ensures var next := avg + (x as real - avg) / (|xs| + 1) as real;
            next * |xs + [x]| as real == SumOf(xs + [x]) as real
  {
    assert (xs + [x])[..|xs|] == xs;
    var n := (|xs| + 1) as real;
    var step := (x as real - avg) / n;
    assert step * n == x as real - avg;
    assert (avg + step) * n == avg * n + step * n;
    assert avg * n == avg * |xs| as real + avg;
  }

  // ----- What the events do to the lists -----

  /** Adding lists the pod on its node, unless its name is listed there, and changes nothing else. */
  lemma AddedExactly(get: Profiles, ix: Index, pod: Pod, n: string, p: Pod)
    ensures p in ListedOn(Added(get, ix, pod), n) <==>
              || p in ListedOn(ix, n)
              || (p == pod && n == pod.nodeName && forall q :: q in ListedOn(ix, n) ==> q.name != pod.name)
  {
    var m := pod.nodeName;
    if m in ix.pods {
      var i := IndexOfName(ix.pods[m], pod.name);
      if i < |ix.pods[m]| {
        assert ix.pods[m][i] in ix.pods[m];
      } else {
        forall q | q in ix.pods[m] ensures q.name != pod.name {
          var k :| 0 <= k < |ix.pods[m]| && ix.pods[m][k] == q;
        }
      }
    }
  }

  /** Removing takes the pod of that name off the node, and changes nothing else. */
  lemma RemovedExactly(get: Profiles, ix: Index, pod: Pod, n: string, p: Pod)
    requires Consistent(get, ix)
    ensures p in ListedOn(Removed(get, ix, pod), n) <==>
              p in ListedOn(ix, n) && !(n == pod.nodeName && p.name == pod.name)
  {
    var m := pod.nodeName;
    if m in ix.pods && n == m {
      var pods := ix.pods[m];
      var i := IndexOfName(pods, pod.name);
      if i < |pods| {
        SwapDeleteKeepsOthers(pods, i);
        if p in pods && p.name == pod.name {
          var k :| 0 <= k < |pods| && pods[k] == p;
          assert k == i;
        }
      } else if p in pods {
        var k :| 0 <= k < |pods| && pods[k] == p;
      }
    }
  }

  /** A pod of this name was added on the node, and none was removed since. */
  ghost predicate AddedSince(es: seq<Event>, n: string, name: string) {
    exists i :: 0 <= i < |es| && es[i].PodAdded? && es[i].pod.nodeName == n && es[i].pod.name == name &&
                forall j :: i < j < |es| ==> !Drops(es[j], n, name)
  }

  predicate Drops(e: Event, n: string, name: string) {
    e.PodDeleted? && e.pod.nodeName == n && e.pod.name == name
  }

  lemma AddedSinceStep(es: seq<Event>, e: Event, n: string, name: string)
    ensures AddedSince(es + [e], n, name) <==>
              || (e.PodAdded? && e.pod.nodeName == n && e.pod.name == name)
              || (AddedSince(es, n, name) && !Drops(e, n, name))
  {
    var all := es + [e];
    assert all[|es|] == e && forall i :: 0 <= i < |es| ==> all[i] == es[i];
    if AddedSince(es, n, name) && !Drops(e, n, name) {
      var i :| 0 <= i < |es| && es[i].PodAdded? && es[i].pod.nodeName == n && es[i].pod.name == name &&
               forall j :: i < j < |es| ==> !Drops(es[j], n, name);
      assert all[i] == es[i];
    }
    if AddedSince(all, n, name) && !(e.PodAdded? && e.pod.nodeName == n && e.pod.name == name) {
      var i :| 0 <= i < |all| && all[i].PodAdded? && all[i].pod.nodeName == n && all[i].pod.name == name &&
               forall j :: i < j < |all| ==> !Drops(all[j], n, name);
      assert i < |es| && es[i] == all[i] && forall j :: i < j < |es| ==> es[j] == all[j];
    }
  }

  ghost predicate NameListed(ix: Index, n: string, name: string) {
    exists p :: p in ListedOn(ix, n) && p.name == name
  }

  lemma NameListedStep(get: Profiles, ix: Index, e: Event, n: string, name: string)
    requires Consistent(get, ix)
    ensures NameListed(Step(get, ix, e), n, name) <==>
              || (e.PodAdded? && e.pod.nodeName == n && e.pod.name == name)
              || (NameListed(ix, n, name) && !Drops(e, n, name))
  {
    var after := Step(get, ix, e);
    forall p
      ensures e.PodAdded? ==> (p in ListedOn(after, n) <==>
                p in ListedOn(ix, n) || (p == e.pod && n == e.pod.nodeName &&
                                         forall q :: q in ListedOn(ix, n) ==> q.name != e.pod.name))
      ensures e.PodDeleted? ==> (p in ListedOn(after, n) <==>
                p in ListedOn(ix, n) && !(n == e.pod.nodeName && p.name == e.pod.name))
    {
      if e.PodAdded? {
        AddedExactly(get, ix, e.pod, n, p);
      } else {
        RemovedExactly(get, ix, e.pod, n, p);
      }
    }
    hide ListedOn, Step, Consistent;
    if NameListed(ix, n, name) && !Drops(e, n, name) {
      var p :| p in ListedOn(ix, n) && p.name == name;
      assert p in ListedOn(after, n);
    }
    if e.PodAdded? && e.pod.nodeName == n && e.pod.name == name {
      assert e.pod in ListedOn(after, n) || NameListed(ix, n, name);
    }
  }

  /** Over every run a name is listed on a node exactly when a pod of it was added there and none was removed
      since. */
  lemma {:induction false} ListsFollowHistory(get: Profiles, es: seq<Event>, n: string, name: string)
    ensures NameListed(Run(get, es), n, name) <==> AddedSince(es, n, name)
  {
    if es != [] {
      var before, e := es[..|es| - 1], es[|es| - 1];
      assert es == before + [e];
      ListsFollowHistory(get, before, n, name);
      IndexStaysConsistent(get, before);
      NameListedStep(get, Run(get, before), e, n, name);
      AddedSinceStep(before, e, n, name);
      hide NameListed, AddedSince, Step, Consistent;
    }
  }

  ghost function OwnCalls(get: Profiles, pods: seq<Pod>): int {
    if pods == [] then 0 else OwnCalls(get, pods[..|pods| - 1]) + |get(pods[|pods| - 1])|
  }

  /** Counting the other way: the extraneous calls and the own calls of all pods make the node's calls once per pod. */
  lemma {:induction false} ExtraneousAndOwn(get: Profiles, all: set<string>, pods: seq<Pod>)
    requires forall p :: p in pods ==> get(p) <= all
    ensures Extraneous(get, all, pods) + OwnCalls(get, pods) == |pods| * |all|
  {
    if pods != [] {
      var last := pods[|pods| - 1];
      ExtraneousAndOwn(get, all, pods[..|pods| - 1]);
      assert last in pods;
      DifferenceSize(all, get(last));
    }
  }

  lemma DifferenceSize(all: set<string>, some: set<string>)
    requires some <= all
    ensures |all - some| == |all| - |some|
  {
    assert all == (all - some) + some;
  }
}
