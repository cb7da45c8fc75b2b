/** The dry run that both preemption plugins share: take all candidates off the node, then put them back one
    by one and keep those that still leave room for the preemptor. */
module Reprieve {
  import opened Sums
  import opened Resources
  import opened ElasticQuota

  /** What the dry run changes: the pods on the copied node and the quota snapshot. */
  datatype View = View(node: set<Pod>, quotas: Quotas) {
    function Without(p: Pod): View { View(node - {p}, DeletePod(quotas, p)) }

    function With(p: Pod): View { View(node + {p}, AddPod(quotas, p)) }
  }

  /** Takes the chosen pods of a list off the node, each choice seeing the earlier removals. */
  function Collect(v: View, choose: (View, Pod) -> bool, listed: seq<Pod>): (View, seq<Pod>) {
    if listed == [] then (v, []) else
      var (before, chosen) := Collect(v, choose, listed[..|listed| - 1]);
      var p := listed[|listed| - 1];
      if choose(before, p) then (before.Without(p), chosen + [p]) else (before, chosen)
  }

  /** Where the reprieve loop stands; `misfits` counts the pods whose return the filters refused. */
  datatype Progress = Broken | Going(view: View, victims: seq<Pod>, misfits: nat)

  /** One turn: put the pod back, run the filters, take it off again if they fail; then check the quotas and
      take it off if they fail. Taking a pod off that is not there is an error. */
  ghost function Turn(g: Progress, filter: set<Pod> -> bool, exceeded: Quotas -> bool, p: Pod): Progress {
    if g.Broken? then Broken else
      var added := g.view.With(p);
      var fits := filter(added.node);
      var after := if fits then added else added.Without(p);
      if exceeded(after.quotas) then
        if fits then Going(after.Without(p), g.victims + [p], g.misfits) else Broken
      else
        Going(after, if fits then g.victims else g.victims + [p], g.misfits + if fits then 0 else 1)
  }

  ghost function Turns(v: View, filter: set<Pod> -> bool, exceeded: Quotas -> bool, todo: seq<Pod>): Progress {
    if todo == [] then Going(v, [], 0) else
      Turn(Turns(v, filter, exceeded, todo[..|todo| - 1]), filter, exceeded, todo[|todo| - 1])
  }

  ghost function RequestsAt(pods: set<Pod>, ns: string, d: Dim): map<Pod, int> {
    map p | p in pods && p.namespace == ns :: p.request.At(d)
  }

  /** `q` is `q0` without the pods of `removed` that belong to namespace `ns`. */
  ghost predicate Reduced(q0: Quota, q: Quota, removed: set<Pod>, ns: string) {
    && q.min == q0.min && q.max == q0.max
    && q.pods == q0.pods - (set p | p in removed && p.namespace == ns :: p.uid)
    && forall d: Dim :: q.used.At(d) == q0.used.At(d) - Sum(RequestsAt(removed, ns, d))
  }

  /** The snapshot in `v` is determined by the pods that `v` lacks compared with the original `o`. */
  ghost predicate Consistent(o: View, v: View) {
    && v.node <= o.node
    && v.quotas.Keys == o.quotas.Keys
    && forall ns :: ns in o.quotas ==> Reduced(o.quotas[ns], v.quotas[ns], o.node - v.node, ns)
  }

  /** Every quota-managed pod on the node is already charged to its quota. */
  ghost predicate Counted(o: View) {
    && WellFormed(o.node)
    && forall p :: p in o.node && p.namespace in o.quotas ==> p.uid in o.quotas[p.namespace].pods
  }

  lemma OriginConsistent(o: View)
    ensures Consistent(o, o)
  {
    forall ns | ns in o.quotas ensures Reduced(o.quotas[ns], o.quotas[ns], o.node - o.node, ns) {
      assert forall d: Dim :: RequestsAt(o.node - o.node, ns, d) == map[];
      assert (set p | p in o.node - o.node && p.namespace == ns :: p.uid) == {};
    }
  }

  lemma RequestsGrow(pods: set<Pod>, p: Pod, ns: string, d: Dim)
    requires p !in pods
    ensures Sum(RequestsAt(pods + {p}, ns, d))
         == Sum(RequestsAt(pods, ns, d)) + if p.namespace == ns then p.request.At(d) else 0
  {
    if p.namespace == ns {
      assert RequestsAt(pods + {p}, ns, d) == RequestsAt(pods, ns, d)[p := p.request.At(d)];
      SumPut(RequestsAt(pods, ns, d), p, p.request.At(d));
    } else {
      assert RequestsAt(pods + {p}, ns, d) == RequestsAt(pods, ns, d);
    }
  }

  lemma ReducedWithout(q0: Quota, q: Quota, removed: set<Pod>, p: Pod, ns: string)
    requires Reduced(q0, q, removed, ns) && p !in removed && WellFormed(removed + {p})
    requires p.namespace == ns ==> p.uid in q0.pods
    ensures Reduced(q0, if p.namespace == ns then q.DeletePod(p) else q, removed + {p}, ns)
  {
    forall d: Dim
      ensures Sum(RequestsAt(removed + {p}, ns, d))
           == Sum(RequestsAt(removed, ns, d)) + if p.namespace == ns then p.request.At(d) else 0
    {
      RequestsGrow(removed, p, ns, d);
    }
    var old_ := set r | r in removed && r.namespace == ns :: r.uid;
    var new_ := set r | r in removed + {p} && r.namespace == ns :: r.uid;
    assert p in removed + {p};
    assert forall r :: r in removed ==> r in removed + {p};
    if p.namespace == ns {
      assert new_ == old_ + {p.uid};
      assert p.uid !in old_;
    } else {
      assert new_ == old_;
    }
  }

  lemma ReducedWith(q0: Quota, q: Quota, removed: set<Pod>, p: Pod, ns: string)
    requires Reduced(q0, q, removed, ns) && p in removed && WellFormed(removed)
    requires p.namespace == ns ==> p.uid in q0.pods
    ensures Reduced(q0, if p.namespace == ns then q.AddPod(p) else q, removed - {p}, ns)
  {
    var rest := removed - {p};
    assert removed == rest + {p};
    forall d: Dim
      ensures Sum(RequestsAt(removed, ns, d))
           == Sum(RequestsAt(rest, ns, d)) + if p.namespace == ns then p.request.At(d) else 0
    {
      RequestsGrow(rest, p, ns, d);
    }
    var old_ := set r | r in removed && r.namespace == ns :: r.uid;
    var new_ := set r | r in rest && r.namespace == ns :: r.uid;
    assert forall r :: r in rest ==> r in removed && (r.uid == p.uid ==> false);
    if p.namespace == ns {
      assert old_ == new_ + {p.uid};
      assert p.uid !in new_;
    } else {
      assert new_ == old_;
    }
  }

  lemma WithoutConsistent(o: View, v: View, p: Pod)
    requires Counted(o) && Consistent(o, v) && p in v.node
    ensures Consistent(o, v.Without(p))
  {
    var w := v.Without(p);
    assert o.node - w.node == (o.node - v.node) + {p};
    forall ns | ns in o.quotas ensures Reduced(o.quotas[ns], w.quotas[ns], o.node - w.node, ns) {
      ReducedWithout(o.quotas[ns], v.quotas[ns], o.node - v.node, p, ns);
    }
  }

  lemma WithConsistent(o: View, v: View, p: Pod)
    requires Counted(o) && Consistent(o, v) && p in o.node && p !in v.node
    ensures Consistent(o, v.With(p))
    ensures Consistent(o, v.With(p).Without(p)) && v.With(p).Without(p).node == v.node
  {
    var w := v.With(p);
    assert o.node - w.node == (o.node - v.node) - {p};
    forall ns | ns in o.quotas ensures Reduced(o.quotas[ns], w.quotas[ns], o.node - w.node, ns) {
      ReducedWith(o.quotas[ns], v.quotas[ns], o.node - v.node, p, ns);
    }
    WithoutConsistent(o, w, p);
  }

  /** More pods on the node, more usage in every quota and every dimension. */
  lemma UsageMonotone(o: View, small: View, large: View, ns: string, d: Dim)
    requires Counted(o) && Consistent(o, small) && Consistent(o, large) && small.node <= large.node
    requires ns in o.quotas
    ensures small.quotas[ns].used.At(d) <= large.quotas[ns].used.At(d)
    ensures small.quotas[ns].min == large.quotas[ns].min && small.quotas[ns].max == large.quotas[ns].max
  {
    assert Reduced(o.quotas[ns], small.quotas[ns], o.node - small.node, ns);
    assert Reduced(o.quotas[ns], large.quotas[ns], o.node - large.node, ns);
    var more, less := RequestsAt(o.node - small.node, ns, d), RequestsAt(o.node - large.node, ns, d);
    forall p | p in more ensures 0 <= more[p] {
      assert p.request.NonNegative();
    }
    SumMonotone(less, more);
  }

  lemma TotalsMonotone(o: View, small: View, large: View, d: Dim)
    requires Counted(o) && Consistent(o, small) && Consistent(o, large) && small.node <= large.node
    ensures Sum(UsedAt(small.quotas, d)) <= Sum(UsedAt(large.quotas, d))
    ensures MinAt(small.quotas, d) == MinAt(large.quotas, d)
  {
    assert small.quotas.Keys == large.quotas.Keys == o.quotas.Keys;
    hide *;
    forall ns | ns in o.quotas
      ensures small.quotas[ns].used.At(d) <= large.quotas[ns].used.At(d)
      ensures small.quotas[ns].min == large.quotas[ns].min
    {
      UsageMonotone(o, small, large, ns, d);
    }
    QuotasMonotone(small.quotas, large.quotas, d);
  }

  lemma QuotasMonotone(a: Quotas, b: Quotas, d: Dim)
    requires a.Keys == b.Keys
    requires forall ns :: ns in a ==> a[ns].used.At(d) <= b[ns].used.At(d) && a[ns].min == b[ns].min
    ensures Sum(UsedAt(a, d)) <= Sum(UsedAt(b, d)) && MinAt(a, d) == MinAt(b, d)
  {
    hide Resource.At;
    SumMonotone(UsedAt(a, d), UsedAt(b, d));
  }

  /** A check on the snapshot that never turns from exceeded to passed when pods return to the node. */
  ghost predicate MonotoneCheck(o: View, exceeded: Quotas -> bool) {
    forall a, b :: Consistent(o, a) && Consistent(o, b) && a.node <= b.node && exceeded(a.quotas)
                   ==> exceeded(b.quotas)
  }

  /** A Filter that never turns from fail to pass when pods are added. */
  ghost predicate AntitoneFilter(filter: set<Pod> -> bool) {
    forall a: set<Pod>, b: set<Pod> :: a <= b && filter(b) ==> filter(a)
  }

  ghost function AsSet(s: seq<Pod>): set<Pod> {
    set p | p in s
  }

  ghost predicate Distinct(s: seq<Pod>) {
    forall i, j :: 0 <= i < j < |s| ==> s[i] != s[j]
  }

  /** The pods waiting to be put back: distinct, from the original node, not on the node now. */
  ghost predicate Awaiting(o: View, v: View, todo: seq<Pod>) {
    Distinct(todo) && AsSet(todo) <= o.node - v.node
  }

  lemma AwaitingPrefix(o: View, v: View, todo: seq<Pod>)
    requires todo != [] && Awaiting(o, v, todo)
    ensures Awaiting(o, v, todo[..|todo| - 1])
    ensures todo[|todo| - 1] in o.node - v.node && todo[|todo| - 1] !in todo[..|todo| - 1]
    ensures AsSet(todo) == AsSet(todo[..|todo| - 1]) + {todo[|todo| - 1]}
  {
    var before := todo[..|todo| - 1];
    assert todo[|todo| - 1] in AsSet(todo);
    assert forall p :: p in before ==> p in AsSet(todo);
    assert todo == before + [todo[|todo| - 1]];
  }

  /** Victims and reprieved pods split the list: what is on the node at the end is what was there at the start
      plus every listed pod that is not a victim, and the snapshot agrees with the node. */
  lemma {:induction false} TurnsPartition(o: View, v: View, filter: set<Pod> -> bool, exceeded: Quotas -> bool,
                                          todo: seq<Pod>)
    requires Counted(o) && Consistent(o, v) && Awaiting(o, v, todo)
    ensures var g := Turns(v, filter, exceeded, todo);
            g.Going? ==>
              && Consistent(o, g.view)
              && Distinct(g.victims) && AsSet(g.victims) <= AsSet(todo)
              && g.view.node == v.node + (AsSet(todo) - AsSet(g.victims))
  {
    if todo != [] {
      var before, p := todo[..|todo| - 1], todo[|todo| - 1];
      AwaitingPrefix(o, v, todo);
      TurnsPartition(o, v, filter, exceeded, before);
      var h := Turns(v, filter, exceeded, before);
      var g := Turns(v, filter, exceeded, todo);
      hide AddPod, DeletePod, Reduced;
      if g.Going? {
        WithConsistent(o, h.view, p);
        assert g.victims == h.victims || g.victims == h.victims + [p];
        assert AsSet(h.victims + [p]) == AsSet(h.victims) + {p};
      }
    }
  }

  /** The preemptor fits at the end if it fitted when all candidates were gone. */
  lemma {:induction false} TurnsKeepFit(o: View, v: View, filter: set<Pod> -> bool, exceeded: Quotas -> bool,
                                        todo: seq<Pod>)
    requires Counted(o) && Consistent(o, v) && Awaiting(o, v, todo) && filter(v.node)
    ensures var g := Turns(v, filter, exceeded, todo); g.Going? ==> filter(g.view.node)
  {
    if todo != [] {
      var before, p := todo[..|todo| - 1], todo[|todo| - 1];
      AwaitingPrefix(o, v, todo);
      TurnsKeepFit(o, v, filter, exceeded, before);
      TurnsPartition(o, v, filter, exceeded, before);
      var h := Turns(v, filter, exceeded, before);
      if h.Going? {
        WithConsistent(o, h.view, p);
      }
    }
  }

  /** If the check passes with all candidates gone, the loop never fails and the check passes at the end. */
  lemma {:induction false} TurnsWithinQuota(o: View, v: View, filter: set<Pod> -> bool, exceeded: Quotas -> bool,
                                            todo: seq<Pod>)
    requires Counted(o) && Consistent(o, v) && Awaiting(o, v, todo)
    requires MonotoneCheck(o, exceeded) && !exceeded(v.quotas)
    ensures var g := Turns(v, filter, exceeded, todo); g.Going? && !exceeded(g.view.quotas)
  {
    if todo != [] {
      var before, p := todo[..|todo| - 1], todo[|todo| - 1];
      AwaitingPrefix(o, v, todo);
      TurnsWithinQuota(o, v, filter, exceeded, before);
      TurnsPartition(o, v, filter, exceeded, before);
      var h := Turns(v, filter, exceeded, before);
      WithConsistent(o, h.view, p);
    }
  }

  /** If the check already fails with all candidates gone, nothing is ever reprieved, and the loop fails
      exactly when the filters refuse some candidate on its own. */
  lemma {:induction false} TurnsOverQuota(o: View, v: View, filter: set<Pod> -> bool, exceeded: Quotas -> bool,
                                          todo: seq<Pod>)
    requires Counted(o) && Consistent(o, v) && Awaiting(o, v, todo)
    requires MonotoneCheck(o, exceeded) && exceeded(v.quotas)
    ensures var g := Turns(v, filter, exceeded, todo);
            && (g.Going? <==> forall p :: p in todo ==> filter(v.node + {p}))
            && (g.Going? ==> g.victims == todo && g.misfits == 0 && g.view.node == v.node)
  {
    if todo != [] {
      var before, p := todo[..|todo| - 1], todo[|todo| - 1];
      AwaitingPrefix(o, v, todo);
      TurnsOverQuota(o, v, filter, exceeded, before);
      TurnsPartition(o, v, filter, exceeded, before);
      assert forall q :: q in todo <==> q in before || q == p;
      var h := Turns(v, filter, exceeded, before);
      if h.Going? {
        WithConsistent(o, h.view, p);
      }
    }
  }

  /** Putting `p` back into `v` is refused by the filters or by the quota check. */
  ghost predicate Refused(v: View, filter: set<Pod> -> bool, exceeded: Quotas -> bool, p: Pod) {
    !filter(v.With(p).node) || exceeded(v.With(p).quotas)
  }

  lemma RefusedStays(o: View, small: View, large: View, filter: set<Pod> -> bool, exceeded: Quotas -> bool, p: Pod)
    requires Counted(o) && Consistent(o, small) && Consistent(o, large) && small.node <= large.node
    requires AntitoneFilter(filter) && MonotoneCheck(o, exceeded)
    requires p in o.node && p !in large.node
    requires Refused(small, filter, exceeded, p)
    ensures Refused(large, filter, exceeded, p)
  {
    WithConsistent(o, small, p);
    WithConsistent(o, large, p);
    assert small.With(p).node <= large.With(p).node;
  }

  /** Irreducible: no single victim can be put back into the final state. */
  lemma {:induction false} TurnsIrreducible(o: View, v: View, filter: set<Pod> -> bool, exceeded: Quotas -> bool,
                                            todo: seq<Pod>)
    requires Counted(o) && Consistent(o, v) && Awaiting(o, v, todo)
    requires AntitoneFilter(filter) && MonotoneCheck(o, exceeded)
    ensures var g := Turns(v, filter, exceeded, todo);
            g.Going? ==> forall p :: p in g.victims ==> Refused(g.view, filter, exceeded, p)
  {
    if todo != [] {
      var before, p := todo[..|todo| - 1], todo[|todo| - 1];
      AwaitingPrefix(o, v, todo);
      TurnsIrreducible(o, v, filter, exceeded, before);
      TurnsPartition(o, v, filter, exceeded, before);
      TurnsPartition(o, v, filter, exceeded, todo);
      var h := Turns(v, filter, exceeded, before);
      var g := Turns(v, filter, exceeded, todo);
      if g.Going? {
        assert Refused(h.view, filter, exceeded, p) || g.victims == h.victims;
        forall q | q in g.victims ensures Refused(g.view, filter, exceeded, q) {
          assert q in AsSet(g.victims);
          assert q in AsSet(todo);
          assert Refused(h.view, filter, exceeded, q);
          RefusedStays(o, h.view, g.view, filter, exceeded, q);
        }
      }
    }
  }

  /** Greedy: a pod is a victim exactly when the node as it stands at its turn (the start, plus the pods
      reprieved before it) refuses it. */
  lemma {:induction false} VictimsAreRefusedInTurn(o: View, v: View, filter: set<Pod> -> bool,
                                                   exceeded: Quotas -> bool, todo: seq<Pod>, k: nat)
    requires Counted(o) && Consistent(o, v) && Awaiting(o, v, todo) && k < |todo|
    requires Turns(v, filter, exceeded, todo).Going?
    ensures Turns(v, filter, exceeded, todo[..k]).Going?
    ensures todo[k] in Turns(v, filter, exceeded, todo).victims
       <==> Refused(Turns(v, filter, exceeded, todo[..k]).view, filter, exceeded, todo[k])
  {
    var before, p := todo[..|todo| - 1], todo[|todo| - 1];
    AwaitingPrefix(o, v, todo);
    TurnsPartition(o, v, filter, exceeded, before);
    var h := Turns(v, filter, exceeded, before);
    if k == |todo| - 1 {
      assert p !in AsSet(h.victims);
    } else {
      VictimsAreRefusedInTurn(o, v, filter, exceeded, before, k);
      assert before[..k] == todo[..k] && before[k] == todo[k];
    }
  }

  /** At turn `k` the filters accept the pod and only the quota check refuses it. */
  ghost predicate QuotaRefuses(v: View, filter: set<Pod> -> bool, exceeded: Quotas -> bool, todo: seq<Pod>, k: nat)
    requires k < |todo|
  {
    var g := Turns(v, filter, exceeded, todo[..k]);
    g.Going? && filter(g.view.With(todo[k]).node) && exceeded(g.view.With(todo[k]).quotas)
  }

  /** The misfit counter counts every victim exactly when no victim was refused by the quota check alone. */
  lemma {:induction false} MisfitsCountVictims(v: View, filter: set<Pod> -> bool, exceeded: Quotas -> bool,
                                               todo: seq<Pod>)
    requires Turns(v, filter, exceeded, todo).Going?
    ensures var g := Turns(v, filter, exceeded, todo);
            && g.misfits <= |g.victims|
            && (g.misfits == |g.victims| <==>
                forall k :: 0 <= k < |todo| ==> !QuotaRefuses(v, filter, exceeded, todo, k))
  {
    if todo != [] {
      var before := todo[..|todo| - 1];
      var last := |todo| - 1;
      MisfitsCountVictims(v, filter, exceeded, before);
      assert forall k :: 0 <= k < last ==> before[..k] == todo[..k];
      assert forall k :: 0 <= k < last ==>
        QuotaRefuses(v, filter, exceeded, todo, k) == QuotaRefuses(v, filter, exceeded, before, k);
      assert todo[..last] == before;
      var g, h := Turns(v, filter, exceeded, todo), Turns(v, filter, exceeded, before);
      assert |g.victims| - g.misfits - (|h.victims| - h.misfits)
          == if QuotaRefuses(v, filter, exceeded, todo, last) then 1 else 0;
    }
  }

  /** A chosen pod was chosen in the view as it stood when it was looked at. */
  lemma {:induction false} ChosenInTurn(o: View, choose: (View, Pod) -> bool, listed: seq<Pod>, p: Pod) returns (k: nat)
    requires p in Collect(o, choose, listed).1
    ensures k < |listed| && listed[k] == p && choose(Collect(o, choose, listed[..k]).0, p)
  {
    var before, last := listed[..|listed| - 1], listed[|listed| - 1];
    if p in Collect(o, choose, before).1 {
      k := ChosenInTurn(o, choose, before, p);
      assert before[..k] == listed[..k];
    } else {
      k := |listed| - 1;
    }
  }

  /** A pod that stays was refused in the view as it stood when it was looked at. */
  lemma {:induction false} NotChosenInTurn(o: View, choose: (View, Pod) -> bool, listed: seq<Pod>, p: Pod)
    returns (k: nat)
    requires p in listed && p !in Collect(o, choose, listed).1
    ensures k < |listed| && listed[k] == p && !choose(Collect(o, choose, listed[..k]).0, p)
  {
    var before, last := listed[..|listed| - 1], listed[|listed| - 1];
    if last == p {
      k := |listed| - 1;
      assert [p][0] == p;
    } else {
      assert listed == before + [last];
      k := NotChosenInTurn(o, choose, before, p);
      assert before[..k] == listed[..k];
    }
  }

  lemma {:induction false} CollectShrinks(o: View, choose: (View, Pod) -> bool, listed: seq<Pod>, k: nat)
    requires k <= |listed|
    ensures Collect(o, choose, listed).0.node <= Collect(o, choose, listed[..k]).0.node
    decreases |listed|
  {
    if k == |listed| {
      assert listed[..k] == listed;
    } else {
      assert listed[..|listed| - 1][..k] == listed[..k];
      CollectShrinks(o, choose, listed[..|listed| - 1], k);
    }
  }

  /** Collecting leaves exactly the pods that were not chosen, and a snapshot that agrees with the node. */
  lemma {:induction false} CollectSplits(o: View, choose: (View, Pod) -> bool, listed: seq<Pod>)
    requires Counted(o) && Distinct(listed) && AsSet(listed) <= o.node
    ensures var (v, chosen) := Collect(o, choose, listed);
            && Consistent(o, v) && Awaiting(o, v, chosen)
            && AsSet(chosen) <= AsSet(listed) && v.node == o.node - AsSet(chosen)
  {
    if listed == [] {
      OriginConsistent(o);
    } else {
      var before, p := listed[..|listed| - 1], listed[|listed| - 1];
      assert listed == before + [p] && AsSet(listed) == AsSet(before) + {p};
      CollectSplits(o, choose, before);
      var (v, chosen) := Collect(o, choose, before);
      assert p !in chosen by {
        assert p !in before;
        assert p in chosen ==> p in AsSet(chosen);
      }
      assert AsSet(chosen + [p]) == AsSet(chosen) + {p};
      if choose(v, p) {
        WithoutConsistent(o, v, p);
      }
    }
  }
}
