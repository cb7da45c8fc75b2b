/** Gang scheduling: the pods of a group wait at Permit until enough of them have a node. */
module GangScheduling {
  import opened Options

  /** A pod; `group` is its pod-group label, empty if it has none, and `nodeName` the node it is assigned to. */
  datatype Pod = Pod(uid: string, namespace: string, group: string, nodeName: string)

  /** The pod groups, by namespace and name, with their MinMember. */
  type Groups = map<(string, string), int>

  datatype Verdict = NotSpecified | NotFound | Success | Wait

  function GroupOf(p: Pod): (string, string) { (p.namespace, p.group) }

  function FullName(p: Pod): string {
    if p.group == "" then "" else p.namespace + "/" + p.group
  }

  /** Names of namespaces contain no slash, so the full name identifies the group. */
  lemma FullNameIdentifiesGroup(p: Pod, q: Pod)
    requires '/' !in p.namespace && '/' !in q.namespace && p.group != ""
    ensures FullName(p) == FullName(q) <==> p.namespace == q.namespace && p.group == q.group
  {
    if FullName(p) == FullName(q) {
      var f := FullName(p);
      assert q.group != "" by {
        assert |f| > 0;
      }
      var m, n := |p.namespace|, |q.namespace|;
      assert f[m] == '/' && f[n] == '/';
      assert m == n;
      assert p.namespace == f[..m] && q.namespace == f[..n];
      assert p.group == f[m + 1..] && q.group == f[n + 1..];
    }
  }

  ghost function Members(pods: set<Pod>, g: (string, string)): set<Pod> {
    set p | p in pods && GroupOf(p) == g
  }

  // ----- Counting assigned pods -----

  /** The listed pods that have a node. */
  ghost function Assigned(pods: seq<Pod>): set<Pod> {
    set p | p in pods && p.nodeName != ""
  }

  ghost function OnNodes(nodes: seq<seq<Pod>>): set<Pod> {
    if nodes == [] then {} else OnNodes(nodes[..|nodes| - 1]) + Assigned(nodes[|nodes| - 1])
  }

  /** A list without repetitions. */
  ghost predicate ProperList(pods: seq<Pod>) {
    forall i, j :: 0 <= i < j < |pods| ==> pods[i] != pods[j]
  }

  /** Every pod is listed once, on one node. */
  ghost predicate ListedOnce(nodes: seq<seq<Pod>>) {
    nodes != [] ==>
      var before, last := nodes[..|nodes| - 1], nodes[|nodes| - 1];
      ListedOnce(before) && ProperList(last) && Assigned(last) !! OnNodes(before)
  }

  lemma {:induction false} ListedOncePrefix(nodes: seq<seq<Pod>>, i: nat)
    requires i <= |nodes| && ListedOnce(nodes)
    ensures ListedOnce(nodes[..i])
    decreases |nodes|
  {
    if i == |nodes| {
      assert nodes[..i] == nodes;
    } else {
      assert nodes[..|nodes| - 1][..i] == nodes[..i];
      ListedOncePrefix(nodes[..|nodes| - 1], i);
    }
  }

  lemma OneMoreNode(nodes: seq<seq<Pod>>, i: nat)
    requires i < |nodes| && ListedOnce(nodes)
    ensures OnNodes(nodes[..i + 1]) == OnNodes(nodes[..i]) + Assigned(nodes[i])
    ensures ProperList(nodes[i]) && OnNodes(nodes[..i]) !! Assigned(nodes[i])
  {
    ListedOncePrefix(nodes, i + 1);
    assert nodes[..i + 1][..i] == nodes[..i];
  }

  lemma MembersOfBoth(a: set<Pod>, b: set<Pod>, g: (string, string))
    requires a !! b
    ensures |Members(a + b, g)| == |Members(a, g)| + |Members(b, g)|
  {
    assert Members(a + b, g) == Members(a, g) + Members(b, g);
  }

  lemma OneMorePod(pods: seq<Pod>, j: nat, g: (string, string))
    requires ProperList(pods) && j < |pods|
    ensures |Members(Assigned(pods[..j + 1]), g)|
         == |Members(Assigned(pods[..j]), g)| + if GroupOf(pods[j]) == g && pods[j].nodeName != "" then 1 else 0
  {
    var pod, before, after := pods[j], Assigned(pods[..j]), Assigned(pods[..j + 1]);
    assert pods[..j + 1] == pods[..j] + [pod];
    if pod.nodeName == "" {
      assert after == before;
    } else {
      assert after == before + {pod} && pod !in before;
      hide Assigned, ProperList;
      CountPlus(before, pod, Pod("", g.0, g.1, ""));
    }
  }

  /** Counts the group's assigned pods on one node. */
  method CountOnNode(pods: seq<Pod>, group: string, namespace: string) returns (count: nat)
    requires ProperList(pods)
    ensures count == |Members(Assigned(pods), (namespace, group))|
  {
    count := 0;
    assert Members(Assigned(pods[..0]), (namespace, group)) == {};
    hide Members, Assigned, ProperList;
    for j := 0 to |pods|
      invariant count == |Members(Assigned(pods[..j]), (namespace, group))|
    {
      var pod := pods[j];
      OneMorePod(pods, j, (namespace, group));
      if pod.group == group && pod.namespace == namespace && pod.nodeName != "" {
        count := count + 1;
      }
    }
    assert pods[..|pods|] == pods;
  }

  /** How many pods of the group Permit and PostFilter see: nobody if the nodes cannot be listed. */
  ghost function Counted(listed: Option<seq<seq<Pod>>>, g: (string, string)): nat {
    if listed.None? then 0 else |Members(OnNodes(listed.value), g)|
  }

  /** Counts the group's assigned pods over all nodes of the snapshot. */
  method CalculateAssignedPods(listed: Option<seq<seq<Pod>>>, group: string, namespace: string)
    returns (count: nat)
    requires listed.Some? ==> ListedOnce(listed.value)
    ensures count == Counted(listed, (namespace, group))
  {
    count := 0;
    if listed.None? {
      return;
    }
    var nodes := listed.value;
    assert Members(OnNodes([]), (namespace, group)) == {};
    assert nodes[..0] == [];
    hide Members, OnNodes, ListedOnce, Assigned, ProperList;
    for i := 0 to |nodes|
      invariant count == |Members(OnNodes(nodes[..i]), (namespace, group))|
    {
      OneMoreNode(nodes, i);
      MembersOfBoth(OnNodes(nodes[..i]), Assigned(nodes[i]), (namespace, group));
      var more := CountOnNode(nodes[i], group, namespace);
      count := count + more;
    }
    assert nodes[..|nodes|] == nodes;
  }

  // ----- One step of the plugin -----

  /** The verdict of Permit when the snapshot shows `placed` members. */
  function PermitVerdict(groups: Groups, p: Pod, placed: int): Verdict {
    if p.group == "" then NotSpecified
    else if GroupOf(p) !in groups then NotFound
    else if placed + 1 >= groups[GroupOf(p)] then Success
    else Wait
  }

  /** PostFilter gives the group up unless enough members are assigned or at most a tenth of them is missing. */
  predicate GivesUp(groups: Groups, p: Pod, placed: int) {
    p.group != "" && GroupOf(p) in groups &&
    placed < groups[GroupOf(p)] && 10 * (groups[GroupOf(p)] - placed) > groups[GroupOf(p)]
  }

  class Coscheduling {
    const groups: Groups
    /** The pods waiting at Permit. */
    var waiting: set<Pod>
    var permittedPG: set<string>
    var backedOffPG: set<string>

    constructor (groups: Groups)
      ensures this.groups == groups && waiting == {} && permittedPG == {} && backedOffPG == {}
    {
      this.groups := groups;
      waiting, permittedPG, backedOffPG := {}, {}, {};
    }

    ghost predicate Valid()
      reads this
    {
      forall p :: p in waiting ==> '/' !in p.namespace && p.group != ""
    }

    /** `listed` is the snapshot's list of nodes with their pods, if it can be had. The waiting pods are those of
        the protocol's step. */
    method Permit(pod: Pod, listed: Option<seq<seq<Pod>>>) returns (verdict: Verdict)
      requires Valid() && (listed.Some? ==> ListedOnce(listed.value)) && '/' !in pod.namespace
      modifies this
      ensures Valid() && permittedPG == old(permittedPG) && backedOffPG == old(backedOffPG)
      ensures verdict == PermitVerdict(groups, pod, Counted(listed, GroupOf(pod)))
      ensures forall s: State :: s.waiting == old(waiting) ==>
                waiting == PermitStep(groups, s, pod, Counted(listed, GroupOf(pod))).waiting
      ensures waiting == match verdict
                         case Wait => old(waiting) + {pod}
                         case Success => old(waiting) - Members(old(waiting), GroupOf(pod))
                         case _ => old(waiting)
    {
      hide OnNodes, ListedOnce;
      if pod.group == "" {
        return NotSpecified;
      }
      if GroupOf(pod) !in groups {
        return NotFound;
      }
      var placed := CalculateAssignedPods(listed, pod.group, pod.namespace);
      if placed + 1 >= groups[GroupOf(pod)] {
        // allow every waiting pod of the group
        var todo := waiting;
        while todo != {}
          modifies this`waiting
          invariant todo <= old(waiting)
          invariant waiting == old(waiting) - Members(old(waiting) - todo, GroupOf(pod))
        {
          var w :| w in todo;
          FullNameIdentifiesGroup(pod, w);
          if FullName(w) == FullName(pod) {
            waiting := waiting - {w};
          }
          todo := todo - {w};
        }
        return Success;
      }
      waiting := waiting + {pod};
      return Wait;
    }

    /** Rejects every waiting pod of the group. */
    method RejectGroup(namespace: string, group: string)
      modifies this`waiting
      ensures waiting == old(waiting) - Members(old(waiting), (namespace, group))
    {
      var todo := waiting;
      while todo != {}
        invariant todo <= old(waiting)
        invariant waiting == old(waiting) - Members(old(waiting) - todo, (namespace, group))
      {
        var w :| w in todo;
        if w.namespace == namespace && w.group == group {
          waiting := waiting - {w};
        }
        todo := todo - {w};
      }
    }

    method Unreserve(pod: Pod)
      requires Valid()
      modifies this
      ensures Valid() && backedOffPG == old(backedOffPG)
      ensures forall s: State :: s.waiting == old(waiting) ==> waiting == Step(groups, s, Event.Unreserve(pod)).waiting
      ensures if pod.group != "" && GroupOf(pod) in groups
              then waiting == old(waiting) - Members(old(waiting), GroupOf(pod))
                   && permittedPG == old(permittedPG) - {FullName(pod)}
              else waiting == old(waiting) && permittedPG == old(permittedPG)
    {
      if pod.group == "" || GroupOf(pod) !in groups {
        return;
      }
      RejectGroup(pod.namespace, pod.group);
      permittedPG := permittedPG - {FullName(pod)};
    }

    /** `siblings` is the number of pods of the group the lister shows, `backoff` whether a back-off is set. */
    method PostFilter(pod: Pod, listed: Option<seq<seq<Pod>>>, siblings: nat, backoff: bool)
      requires Valid() && (listed.Some? ==> ListedOnce(listed.value))
      modifies this
      ensures Valid()
      ensures forall s: State ::
                s.waiting == old(waiting) && Count(s.snapshot, pod) == Counted(listed, GroupOf(pod)) ==>
                  waiting == Step(groups, s, Event.PostFilter(pod)).waiting
      ensures if GivesUp(groups, pod, Counted(listed, GroupOf(pod)))
              then && waiting == old(waiting) - Members(old(waiting), GroupOf(pod))
                   && permittedPG == old(permittedPG) - {FullName(pod)}
                   && backedOffPG == old(backedOffPG)
                                     + if backoff && siblings >= groups[GroupOf(pod)] then {FullName(pod)} else {}
              else waiting == old(waiting) && permittedPG == old(permittedPG) && backedOffPG == old(backedOffPG)
    {
      hide Members, OnNodes, ListedOnce, FullName, Counted;
      if pod.group == "" || GroupOf(pod) !in groups {
        return;
      }
      var minMember := groups[GroupOf(pod)];
      var placed := CalculateAssignedPods(listed, pod.group, pod.namespace);
      if placed >= minMember {
        return;
      }
      var small := SmallGap(minMember, placed);
      if small {
        return;
      }
      RejectGroup(pod.namespace, pod.group);
      if backoff && siblings >= minMember {
        backedOffPG := backedOffPG + {FullName(pod)};
      }
      permittedPG := permittedPG - {FullName(pod)};
    }
  }

  /** At most a tenth of the members is missing. */
  method SmallGap(minMember: int, placed: int) returns (small: bool)
    requires minMember > 0
    ensures small <==> 10 * (minMember - placed) <= minMember
  {
    var missing := (minMember - placed) as real / minMember as real;
    TenthIsTenth(minMember - placed, minMember);
    small := missing <= 0.1;
  }

  lemma TenthIsTenth(x: int, y: int)
    requires y > 0
    ensures x as real / y as real <= 0.1 <==> 10 * x <= y
  {
    var q := x as real / y as real;
    assert q * y as real == x as real;
    if q <= 0.1 {
      assert q * y as real <= 0.1 * y as real;
    } else {
      assert q * y as real > 0.1 * y as real;
    }
  }

  // ----- Runs -----

  /** `placed` are the pods that have a node (assumed or bound), `snapshot` what the current scheduling cycle
      sees of them, `inCycle` whether a cycle is under way. */
  datatype State = State(placed: set<Pod>, snapshot: set<Pod>, inCycle: bool, waiting: set<Pod>)

  datatype Event =
    | StartCycle
    | Permit(pod: Pod)
    | PostFilter(pod: Pod)
    | Unreserve(pod: Pod)
    | Remove(pod: Pod)

  ghost function Count(pods: set<Pod>, p: Pod): nat { |Members(pods, GroupOf(p))| }

  ghost function Dismiss(s: State, p: Pod): State {
    s.(waiting := s.waiting - Members(s.waiting, GroupOf(p)))
  }

  /** A pod reaching Permit was given a node in the current cycle; it is assumed, and forgotten again if Permit
      turns it down. */
  ghost function PermitStep(groups: Groups, s: State, p: Pod, counted: int): State {
    var t := s.(placed := s.placed + {p}, inCycle := false);
    match PermitVerdict(groups, p, counted)
    case NotSpecified => t
    case NotFound => s.(inCycle := false)
    case Wait => t.(waiting := s.waiting + {p})
    case Success => Dismiss(t, p)
  }

  ghost function Step(groups: Groups, s: State, e: Event): State {
    match e
    case StartCycle => s.(snapshot := s.placed, inCycle := true)
    case Permit(p) => PermitStep(groups, s, p, Count(s.snapshot, p))
    case PostFilter(p) =>
      if GivesUp(groups, p, Count(s.snapshot, p)) then Dismiss(s.(inCycle := false), p) else s.(inCycle := false)
    case Unreserve(p) => if p.group != "" && GroupOf(p) in groups then Dismiss(s, p) else s
    case Remove(p) => s.(placed := s.placed - {p}, waiting := s.waiting - {p})
  }

  /** Permit and PostFilter end a cycle; the pod of a cycle has no node yet. Removals happen at any time. */
  ghost predicate Enabled(s: State, e: Event) {
    match e
    case Permit(p) => s.inCycle && p !in s.placed
    case PostFilter(p) => s.inCycle
    case _ => true
  }

  /** No lost wake-up: a group with a waiting pod has fewer than MinMember assigned pods. */
  ghost predicate NoLostWakeUp(groups: Groups, s: State) {
    forall w :: w in s.waiting ==> GroupOf(w) in groups && Count(s.placed, w) < groups[GroupOf(w)]
  }

  ghost predicate Inv(groups: Groups, s: State) {
    && s.waiting <= s.placed
    && (s.inCycle ==> s.placed <= s.snapshot)
    && (forall w :: w in s.waiting ==> w.group != "")
    && NoLostWakeUp(groups, s)
  }

  lemma CountMonotone(a: set<Pod>, b: set<Pod>, p: Pod)
    requires a <= b
    ensures Count(a, p) <= Count(b, p)
  {
    SubsetSize(Members(a, GroupOf(p)), Members(b, GroupOf(p)));
  }

  lemma {:induction false} SubsetSize(a: set<Pod>, b: set<Pod>)
    requires a <= b
    ensures |a| <= |b|
    decreases a
  {
    if a != {} {
      var x :| x in a;
      SubsetSize(a - {x}, b - {x});
    }
  }

  lemma CountPlus(a: set<Pod>, p: Pod, w: Pod)
    requires p !in a
    ensures Count(a + {p}, w) == Count(a, w) + if GroupOf(p) == GroupOf(w) then 1 else 0
  {
    var g := GroupOf(w);
    if GroupOf(p) == g {
      assert Members(a + {p}, g) == Members(a, g) + {p};
    } else {
      assert Members(a + {p}, g) == Members(a, g);
    }
  }

  /** Permit keeps the invariant whenever it counted at least the members that are really assigned. */
  lemma PermitKeepsInv(groups: Groups, s: State, p: Pod, counted: int)
    requires Inv(groups, s) && p !in s.placed
    requires counted >= Count(s.placed, p)
    ensures Inv(groups, PermitStep(groups, s, p, counted))
  {
    var t := PermitStep(groups, s, p, counted);
    hide Members;
    forall w | w in t.waiting ensures GroupOf(w) in groups && Count(t.placed, w) < groups[GroupOf(w)] {
      CountPlus(s.placed, p, w);
      WaitsOn(groups, s, p, counted, w);
    }
  }

  /** Who waits after a Permit: the new pod, or a pod of another group, or a member of a group that Permit did
      not complete. */
  lemma WaitsOn(groups: Groups, s: State, p: Pod, counted: int, w: Pod)
    requires w in PermitStep(groups, s, p, counted).waiting
    ensures w in s.waiting || w == p
    ensures GroupOf(w) == GroupOf(p) && (p.group != "" && GroupOf(p) in groups)
            ==> counted + 1 < groups[GroupOf(p)]
    ensures w == p && w !in s.waiting ==> p.group != "" && GroupOf(p) in groups
  {
  }

  lemma StepKeepsInv(groups: Groups, s: State, e: Event)
    requires Inv(groups, s) && Enabled(s, e)
    ensures Inv(groups, Step(groups, s, e))
  {
    match e
    case StartCycle =>
    case Permit(p) =>
      CountMonotone(s.placed, s.snapshot, p);
      PermitKeepsInv(groups, s, p, Count(s.snapshot, p));
    case PostFilter(p) =>
    case Unreserve(p) =>
    case Remove(p) =>
      forall w | w in s.waiting ensures Count(s.placed - {p}, w) <= Count(s.placed, w) {
        CountMonotone(s.placed - {p}, s.placed, w);
      }
  }

  ghost function Run(groups: Groups, s: State, es: seq<Event>): State {
    if es == [] then s else Step(groups, Run(groups, s, es[..|es| - 1]), es[|es| - 1])
  }

  ghost predicate IsRun(groups: Groups, s: State, es: seq<Event>) {
    forall i :: 0 <= i < |es| ==> Enabled(Run(groups, s, es[..i]), es[i])
  }

  /** Over every run from a state with nobody waiting, a group with a waiting pod has fewer than MinMember
      assigned pods: nobody waits for a group that is complete. */
  lemma {:induction false} NeverLosesWakeUp(groups: Groups, s: State, es: seq<Event>)
    requires s.waiting == {} && !s.inCycle && IsRun(groups, s, es)
    ensures Inv(groups, Run(groups, s, es))
    decreases |es|
  {
    if es != [] {
      var before := es[..|es| - 1];
      assert forall i :: 0 <= i < |before| ==> before[..i] == es[..i];
      NeverLosesWakeUp(groups, s, before);
      StepKeepsInv(groups, Run(groups, s, before), es[|es| - 1]);
    }
  }

  /** Pods are let through only by a Permit whose snapshot shows MinMember - 1 other members, and then all of
      them are; giving a pod up or unreserving one leaves no member waiting. */
  lemma WhoLeavesTheWait(groups: Groups, s: State, e: Event, w: Pod)
    requires Inv(groups, s) && Enabled(s, e) && w in s.waiting && w !in Step(groups, s, e).waiting
    ensures match e
            case StartCycle => false
            case Permit(p) =>
              p.namespace == w.namespace && p.group == w.group && Count(s.snapshot, p) >= groups[GroupOf(w)] - 1
            case PostFilter(p) =>
              p.namespace == w.namespace && p.group == w.group && GivesUp(groups, p, Count(s.snapshot, p))
            case Unreserve(p) => p.namespace == w.namespace && p.group == w.group
            case Remove(p) => p == w
    ensures !e.Remove? ==> Members(Step(groups, s, e).waiting, GroupOf(w)) == {}
  {
  }

  /** When the snapshot cannot be listed, Permit counts nobody. Such a Permit loses a wake-up exactly when the
      group would have been complete and needs more than one member. */
  lemma FailedListLosesWakeUpExactly(groups: Groups, s: State, p: Pod)
    requires Inv(groups, s) && p !in s.placed && p.group != "" && GroupOf(p) in groups
    ensures !NoLostWakeUp(groups, PermitStep(groups, s, p, 0)) <==>
              groups[GroupOf(p)] > 1 && Count(s.placed, p) + 1 >= groups[GroupOf(p)]
  {
    var t := PermitStep(groups, s, p, 0);
    CountPlus(s.placed, p, p);
    if groups[GroupOf(p)] > 1 {
      assert p in t.waiting;
      if Count(s.placed, p) + 1 < groups[GroupOf(p)] {
        forall w | w in t.waiting ensures GroupOf(w) in groups && Count(t.placed, w) < groups[GroupOf(w)] {
          CountPlus(s.placed, p, w);
        }
      }
    } else {
      forall w | w in t.waiting ensures GroupOf(w) in groups && Count(t.placed, w) < groups[GroupOf(w)] {
        CountPlus(s.placed, p, w);
      }
    }
  }

  /** A lost wake-up that really happens: the second of two members arrives while the nodes cannot be listed, and
      both wait although their group is complete. */
  lemma FailedListExample()
    ensures var groups: Groups := map[("ns", "g") := 2];
            var first, second := Pod("1", "ns", "g", "n"), Pod("2", "ns", "g", "n");
            var s := State({first}, {first}, true, {first});
            && Inv(groups, s) && Enabled(s, Event.Permit(second))
            && PermitStep(groups, s, second, Counted(None, GroupOf(second))).waiting == {first, second}
            && !NoLostWakeUp(groups, PermitStep(groups, s, second, Counted(None, GroupOf(second))))
  {
    var groups: Groups := map[("ns", "g") := 2];
    var first, second := Pod("1", "ns", "g", "n"), Pod("2", "ns", "g", "n");
    var s := State({first}, {first}, true, {first});
    assert Members({first}, ("ns", "g")) == {first};
    assert Count({first}, first) == 1 && Count({first}, second) == 1;
    assert {first} + {second} == {first, second};
    FailedListLosesWakeUpExactly(groups, s, second);
  }

  // ----- What the parts of the protocol mean -----

  /** A group is given up exactly when more than a tenth of its members is missing; one of fewer than ten members as
      soon as any is. */
  lemma GivesUpExactly(groups: Groups, p: Pod, placed: nat)
    requires p.group != "" && (p.namespace, p.group) in groups && groups[(p.namespace, p.group)] > 0
    ensures var min := groups[(p.namespace, p.group)];
            && (GivesUp(groups, p, placed) <==> placed < min && (min - placed) as real / min as real > 0.1)
            && (min < 10 ==> (GivesUp(groups, p, placed) <==> placed < min))
  {
    TenthIsTenth(groups[GroupOf(p)] - placed, groups[GroupOf(p)]);
  }

  /** What Permit makes of a pod: it gets its node exactly when it belongs to no group or to a known one, and waits
      exactly when it and the members that the snapshot shows are fewer than MinMember. */
  lemma PermitOutcome(groups: Groups, s: State, p: Pod)
    requires Inv(groups, s) && p !in s.placed
    ensures var t := Step(groups, s, Event.Permit(p));
            var known := p.group != "" && (p.namespace, p.group) in groups;
            var others := set q | q in s.snapshot && q.namespace == p.namespace && q.group == p.group;
            && (p in t.placed <==> p.group == "" || known)
            && (p in t.waiting <==> known && |others| + 1 < groups[(p.namespace, p.group)])
            && (forall q :: q != p ==> (q in t.placed <==> q in s.placed))
            && (forall q :: q != p && (q.namespace != p.namespace || q.group != p.group) ==>
                              (q in t.waiting <==> q in s.waiting))
  {
    var others := set q | q in s.snapshot && q.namespace == p.namespace && q.group == p.group;
    assert others == Members(s.snapshot, GroupOf(p));
    assert p !in s.waiting;
  }

  /** Giving a group up or unreserving one of its pods leaves none of its members waiting. */
  lemma NobodyLeftWaiting(groups: Groups, s: State, p: Pod, w: Pod)
    requires p.group != "" && (p.namespace, p.group) in groups && w.namespace == p.namespace && w.group == p.group
    ensures w !in Step(groups, s, Event.Unreserve(p)).waiting
    ensures GivesUp(groups, p, Count(s.snapshot, p)) ==> w !in Step(groups, s, Event.PostFilter(p)).waiting
    ensures Count(s.snapshot, p) + 1 >= groups[(p.namespace, p.group)] ==>
              w !in Step(groups, s, Event.Permit(p)).waiting
  {
  }

  /** The pods that are counted: those on any node of the list that have been given a node. */
  lemma {:induction false} OnNodesExactly(nodes: seq<seq<Pod>>, p: Pod)
    ensures p in OnNodes(nodes) <==> p.nodeName != "" && exists i :: 0 <= i < |nodes| && p in nodes[i]
  {
    if nodes != [] {
      var n := |nodes| - 1;
      OnNodesExactly(nodes[..n], p);
      if i :| 0 <= i < |nodes| && p in nodes[i] {
        if i < n {
          assert p in nodes[..n][i];
        }
      }
    }
  }
}
