/** The node copy and the quota snapshot of one dry run, as the removePod and addPod closures change them. */
module DryRuns {
  import opened Resources
  import opened ElasticQuota
  import opened DisruptionBudgets
  import opened Reprieve

  /** Pods of a list, and pods equal to `p` in identity are `p`. */
  ghost predicate DistinctUids(pods: seq<Pod>) {
    && (forall i, j :: 0 <= i < j < |pods| ==> pods[i].uid != pods[j].uid)
    && (forall i :: 0 <= i < |pods| ==> pods[i].uid != "")
  }

  class DryRun {
    /** The slice of the node's pods: an array of which the first `live` elements count. */
    var slots: array<Pod>
    var live: nat
    const infos: Infos
    /** The value of the dry run: the pods on the node and the quotas of the snapshot. */
    ghost var now: View

    ghost predicate Valid()
      reads this, slots, infos.Values
    {
      && NodeValid()
      && Separate(infos)
      && now == View(Node(), Views(infos))
    }

    ghost predicate NodeValid()
      reads this, slots
    {
      live <= slots.Length && DistinctUids(slots[..live])
    }

    function Node(): set<Pod>
      requires live <= slots.Length
      reads this, slots
    {
      set p | p in slots[..live]
    }

    constructor (pods: seq<Pod>, infos: Infos)
      requires DistinctUids(pods) && Separate(infos)
      ensures Valid() && fresh(slots) && slots[..live] == pods && this.infos == infos
    {
      this.infos := infos;
      slots := new Pod[|pods|](i requires 0 <= i < |pods| => pods[i]);
      live := |pods|;
      new;
      assert slots[..live] == pods;
      now := View(Node(), Views(infos));
    }

    /** Swap-deletes the pod from the slice. Every other array position keeps its contents, also past the
        new length. */
    method RemoveFromNode(pod: Pod) returns (ok: bool)
      requires NodeValid()
      requires forall p :: p in Node() && p.uid == pod.uid ==> p == pod
      modifies this`slots, this`live, slots
      ensures NodeValid() && (slots == old(slots) || fresh(slots))
      ensures ok <==> pod in old(Node())
      ensures Node() == old(Node()) - {pod}
      ensures forall k :: 0 <= k < old(slots).Length && (old(live) <= k || old(slots[k]) != pod) ==>
                old(slots)[k] == old(slots[k])
    {
      ghost var before := slots[..live];
      var i := 0;
      while i < live && slots[i].uid != pod.uid
        invariant i <= live
        invariant forall k :: 0 <= k < i ==> slots[k].uid != pod.uid
      {
        i := i + 1;
      }
      if i == live {
        assert forall p :: p in before ==> p.uid != pod.uid;
        return false;
      }
      assert before[i] in before && before[i] == pod;
      slots[i] := slots[live - 1];
      live := live - 1;
      SwapDelete(before, i, slots[..live]);
      if live == 0 {
        slots := new Pod[0];
      }
      return true;
    }

    /** The closure removePod: off the node and off the snapshot; fails if the pod is not on the node. */
    method RemovePod(pod: Pod) returns (ok: bool)
      requires Valid()
      requires forall p :: p in now.node && p.uid == pod.uid ==> p == pod
      modifies this, slots, infos.Values
      ensures Valid() && (slots == old(slots) || fresh(slots))
      ensures ok <==> pod in old(now).node
      ensures now == if ok then old(now).Without(pod) else old(now)
      ensures forall k :: 0 <= k < old(slots).Length && (old(live) <= k || old(slots[k]) != pod) ==>
                old(slots)[k] == old(slots[k])
    {
      ok := RemoveFromNode(pod);
      if ok {
        DischargePod(infos, pod);
        now := now.Without(pod);
      }
    }

    /** Appends the pod to the slice, in place if there is room. */
    method AppendToNode(pod: Pod)
      requires NodeValid() && pod.uid != ""
      requires forall p :: p in Node() ==> p.uid != pod.uid
      modifies this`slots, this`live, slots
      ensures NodeValid() && (slots == old(slots) || fresh(slots))
      ensures Node() == old(Node()) + {pod}
    {
      ghost var before := slots[..live];
      assert forall i :: 0 <= i < |before| ==> before[i] in Node();
      if live < slots.Length {
        slots[live] := pod;
      } else {
        var all := slots[..live] + [pod];
        slots := new Pod[|all|](i requires 0 <= i < |all| => all[i]);
      }
      live := live + 1;
      assert slots[..live] == before + [pod];
    }

    /** The closure addPod: onto the node and onto the snapshot. */
    method AddPod(pod: Pod)
      requires Valid() && pod.uid != ""
      requires forall p :: p in now.node ==> p.uid != pod.uid
      modifies this, slots, infos.Values
      ensures Valid() && (slots == old(slots) || fresh(slots))
      ensures now == old(now).With(pod)
    {
      AppendToNode(pod);
      ChargePod(infos, pod);
      now := now.With(pod);
    }
  }

  /** Moving the last element over a removed one keeps exactly the other elements. */
  lemma SwapDelete(before: seq<Pod>, i: nat, after: seq<Pod>)
    requires DistinctUids(before) && i < |before|
    requires after == before[i := before[|before| - 1]][..|before| - 1]
    ensures DistinctUids(after)
    ensures (set p | p in after) == (set p | p in before) - {before[i]}
  {
    forall p | p in before && p != before[i] ensures p in after {
      var k :| 0 <= k < |before| && before[k] == p;
      if k == |before| - 1 {
        assert after[i] == p;
      } else {
        assert after[k] == p;
      }
    }
    forall p | p in after ensures p in before && p != before[i] {
      var k :| 0 <= k < |after| && after[k] == p;
      assert p == if k == i then before[|before| - 1] else before[k];
    }
  }

  ghost function Misfits(g: Progress): nat {
    if g.Going? then g.misfits else 0
  }

  lemma MinsStay(v: View, p: Pod)
    requires MinsNonNegative(v.quotas)
    ensures MinsNonNegative(v.With(p).quotas) && MinsNonNegative(v.Without(p).quotas)
    ensures MinsNonNegative(v.With(p).Without(p).quotas)
  {
  }

  /** No pod of the list shares its identity with another one or with a pod on the node. */
  ghost predicate Apart(node: set<Pod>, todo: seq<Pod>) {
    DistinctUids(todo) && forall q, p :: q in node && p in todo ==> q.uid != p.uid
  }

  /** Turns bring back only pods of the list, and leave the minima alone. */
  lemma {:induction false} TurnsBringBack(v: View, filter: set<Pod> -> bool, check: Quotas -> bool, todo: seq<Pod>)
    requires MinsNonNegative(v.quotas) && Turns(v, filter, check, todo).Going?
    ensures var g := Turns(v, filter, check, todo);
            MinsNonNegative(g.view.quotas) && forall q :: q in g.view.node ==> q in v.node || q in todo
  {
    hide AddPod, DeletePod, MinsNonNegative;
    if todo != [] {
      var before := todo[..|todo| - 1];
      TurnsBringBack(v, filter, check, before);
      MinsStay(Turns(v, filter, check, before).view, todo[|todo| - 1]);
      assert todo == before + [todo[|todo| - 1]];
    }
  }

  /** What one more turn starts from: the pod is not on the node, and the minima are what they were. */
  lemma NextTurn(v: View, filter: set<Pod> -> bool, check: Quotas -> bool, todo: seq<Pod>, i: nat)
    requires i < |todo| && Apart(v.node, todo) && MinsNonNegative(v.quotas)
    requires Turns(v, filter, check, todo[..i]).Going?
    ensures var g := Turns(v, filter, check, todo[..i]);
            && Turns(v, filter, check, todo[..i + 1]) == Turn(g, filter, check, todo[i])
            && MinsNonNegative(g.view.quotas) && todo[i].uid != ""
            && (forall q :: q in g.view.node ==> q.uid != todo[i].uid)
  {
    hide Turn, MinsNonNegative;
    assert todo[..i + 1][..i] == todo[..i];
    TurnsBringBack(v, filter, check, todo[..i]);
    forall q | q in Turns(v, filter, check, todo[..i]).view.node ensures q.uid != todo[i].uid {
      if q !in v.node {
        var k :| 0 <= k < i && todo[..i][k] == q;
        assert todo[k].uid != todo[i].uid;
      }
    }
  }

  lemma {:induction false} BrokenStays(v: View, filter: set<Pod> -> bool, check: Quotas -> bool,
                                       todo: seq<Pod>, i: nat)
    requires i <= |todo| && Turns(v, filter, check, todo[..i]).Broken?
    ensures Turns(v, filter, check, todo).Broken?
    decreases |todo|
  {
    if i == |todo| {
      assert todo[..i] == todo;
    } else {
      assert todo[..|todo| - 1][..i] == todo[..i];
      BrokenStays(v, filter, check, todo[..|todo| - 1], i);
    }
  }

  lemma BrokenTurn(v: View, filter: set<Pod> -> bool, check: Quotas -> bool, todo: seq<Pod>, i: nat, stop: nat)
    requires i < stop <= |todo|
    requires Turn(Turns(v, filter, check, todo[..i]), filter, check, todo[i]).Broken?
    ensures Turns(v, filter, check, todo[..stop]).Broken?
  {
    assert todo[..i + 1][..i] == todo[..i];
    assert todo[..stop][..i + 1] == todo[..i + 1];
    BrokenStays(v, filter, check, todo[..stop], i + 1);
  }

  /** What holds after looking at the pods in `seen`. */
  ghost predicate Looked(o: View, v: View, chosen: seq<Pod>, seen: seq<Pod>) {
    && MinsNonNegative(v.quotas) && v.node == o.node - AsSet(chosen)
    && DistinctUids(chosen) && AsSet(chosen) <= AsSet(seen)
  }

  lemma LookedStep(o: View, v: View, chosen: seq<Pod>, listed: seq<Pod>, i: nat)
    requires i < |listed| && DistinctUids(listed) && Looked(o, v, chosen, listed[..i])
    ensures listed[i] !in chosen
    ensures Looked(o, v, chosen, listed[..i + 1])
    ensures Looked(o, v.Without(listed[i]), chosen + [listed[i]], listed[..i + 1])
  {
    hide MinsNonNegative;
    var p := listed[i];
    MinsStay(v, p);
    assert AsSet(listed[..i + 1]) == AsSet(listed[..i]) + {p};
    assert AsSet(chosen + [p]) == AsSet(chosen) + {p};
    forall q | q in chosen ensures q.uid != p.uid {
      assert q in AsSet(listed[..i]);
    }
  }

  lemma CollectStep(o: View, choose: (View, Pod) -> bool, listed: seq<Pod>, i: nat)
    requires i < |listed|
    ensures var (v, chosen) := Collect(o, choose, listed[..i]);
            Collect(o, choose, listed[..i + 1])
            == if choose(v, listed[i]) then (v.Without(listed[i]), chosen + [listed[i]]) else (v, chosen)
  {
    assert listed[..i + 1][..i] == listed[..i];
  }

  /** What the next look at a listed pod starts from: it is still on the node. */
  lemma {:induction false} NextLook(o: View, choose: (View, Pod) -> bool, listed: seq<Pod>, i: nat)
    requires i <= |listed| && DistinctUids(listed) && o.node == AsSet(listed) && MinsNonNegative(o.quotas)
    ensures var (v, chosen) := Collect(o, choose, listed[..i]);
            && MinsNonNegative(v.quotas) && v.node == o.node - AsSet(chosen)
            && DistinctUids(chosen) && AsSet(chosen) <= AsSet(listed[..i])
            && (i < |listed| ==>
                  && listed[i] in v.node
                  && (forall q :: q in v.node && q.uid == listed[i].uid ==> q == listed[i])
                  && Collect(o, choose, listed[..i + 1])
                     == if choose(v, listed[i]) then (v.Without(listed[i]), chosen + [listed[i]]) else (v, chosen))
  {
    if i == 0 {
      CollectNone(o, choose);
    } else {
      NextLook(o, choose, listed, i - 1);
      var (w, before) := Collect(o, choose, listed[..i - 1]);
      LookedStep(o, w, before, listed, i - 1);
      CollectStep(o, choose, listed, i - 1);
    }
    if i < |listed| {
      var (v, chosen) := Collect(o, choose, listed[..i]);
      assert Looked(o, v, chosen, listed[..i]) by { hide Collect, MinsNonNegative, View.Without; }
      LookedStep(o, v, chosen, listed, i);
      CollectStep(o, choose, listed, i);
    }
  }

  lemma RangeFacts(dry: DryRun)
    requires dry.Valid()
    ensures dry.live <= dry.slots.Length && DistinctUids(dry.slots[..dry.live])
    ensures dry.now.node == AsSet(dry.slots[..dry.live])
    ensures forall j, k :: 0 <= j < k < dry.live ==> dry.slots[j] != dry.slots[k]
  {
    var listed := dry.slots[..dry.live];
    assert forall j :: 0 <= j < dry.live ==> listed[j] == dry.slots[j];
  }

  lemma CollectNone(o: View, choose: (View, Pod) -> bool)
    ensures Collect(o, choose, []).0 == o && Collect(o, choose, []).1 == []
  {
  }

  /** The order in which sorted candidates are put back. */
  function Order(sorted: seq<Pod>, pdbs: seq<Budget>): seq<Pod> {
    Violating(sorted, pdbs) + NonViolating(sorted, pdbs)
  }

  /** The put-back order is a rearrangement of the candidates. */
  lemma OrderIsPermutation(potential: seq<Pod>, sorted: seq<Pod>, pdbs: seq<Budget>)
    requires IsSort(potential, sorted)
    ensures multiset(Order(sorted, pdbs)) == multiset(potential)
    ensures AsSet(Order(sorted, pdbs)) == AsSet(potential)
  {
    SplitIsPartition(sorted, pdbs);
    var order := Order(sorted, pdbs);
    assert multiset(order) == multiset(Violating(sorted, pdbs)) + multiset(NonViolating(sorted, pdbs));
    forall p ensures p in order <==> p in potential {
      assert p in order <==> p in multiset(order);
      assert p in potential <==> p in multiset(potential);
    }
  }

  lemma {:induction false} OnceEach(a: seq<Pod>, p: Pod)
    requires DistinctUids(a)
    ensures multiset(a)[p] <= 1
  {
    if a != [] {
      OnceEach(a[1..], p);
      assert a == [a[0]] + a[1..];
      if p == a[0] {
        assert p !in a[1..];
        assert p !in multiset(a[1..]);
      }
    }
  }

  lemma PermutationKeepsUids(a: seq<Pod>, b: seq<Pod>)
    requires DistinctUids(a) && multiset(a) == multiset(b)
    ensures DistinctUids(b)
  {
    forall i, j | 0 <= i < j < |b| ensures b[i].uid != b[j].uid {
      assert b[i] in multiset(a) && b[j] in multiset(a);
      if b[i] == b[j] {
        assert b == b[..j] + b[j..];
        assert b[i] in multiset(b[..j]) && b[j] in multiset(b[j..]);
        assert multiset(a)[b[i]] >= 2;
        OnceEach(a, b[i]);
      }
    }
    forall i | 0 <= i < |b| ensures b[i].uid != "" {
      assert b[i] in multiset(a);
    }
  }

  lemma OrderApart(o: View, choose: (View, Pod) -> bool, listed: seq<Pod>, sorted: seq<Pod>,
                   pdbs: seq<Budget>)
    requires DistinctUids(listed) && o.node == AsSet(listed) && MinsNonNegative(o.quotas)
    requires IsSort(Collect(o, choose, listed).1, sorted)
    ensures var (v, potential) := Collect(o, choose, listed);
            Apart(v.node, Order(sorted, pdbs)) && MinsNonNegative(v.quotas)
  {
    var (v, potential) := Collect(o, choose, listed);
    assert listed[..|listed|] == listed;
    NextLook(o, choose, listed, |listed|);
    var order := Order(sorted, pdbs);
    OrderIsPermutation(potential, sorted, pdbs);
    PermutationKeepsUids(potential, order);
    forall q, p | q in v.node && p in order ensures q.uid != p.uid {
      assert p in AsSet(order) && p in listed && q in listed;
      var i, j :| 0 <= i < |listed| && 0 <= j < |listed| && listed[i] == q && listed[j] == p;
    }
  }

  /** The reduced view and the put-back list are in order. */
  lemma CollectedFacts(o: View, choose: (View, Pod) -> bool, listed: seq<Pod>, sorted: seq<Pod>,
                       pdbs: seq<Budget>)
    requires Counted(o) && Distinct(listed) && AsSet(listed) == o.node
    requires IsSort(Collect(o, choose, listed).1, sorted)
    ensures var (v, potential) := Collect(o, choose, listed);
            && Consistent(o, v) && v.node == o.node - AsSet(potential)
            && Awaiting(o, v, Order(sorted, pdbs))
            && AsSet(Order(sorted, pdbs)) == AsSet(potential)
  {
    CollectSplits(o, choose, listed);
    var (v, potential) := Collect(o, choose, listed);
    OrderIsPermutation(potential, sorted, pdbs);
    forall i | 0 <= i < |potential| ensures potential[i] in o.node {
      assert potential[i] in AsSet(potential);
    }
    forall i, j | 0 <= i < j < |potential| ensures potential[i].uid != potential[j].uid {
      assert potential[i] != potential[j];
    }
    PermutationKeepsUids(potential, Order(sorted, pdbs));
  }
}
