/** Victim selection of the preemption toleration plugin: like the default preemption, except that a pod's
    priority class can exempt it from preemption for a while. */
module PreemptionToleration {
  import opened Options
  import opened Resources
  import opened ElasticQuota
  import opened DisruptionBudgets
  import opened Reprieve
  import opened DryRuns

  /** A priority class annotation: missing, not a number, or a number. */
  datatype Annotation = Absent | Malformed | Number(n: int)

  datatype PriorityClass = PriorityClass(value: int, minimumPreemptable: Annotation, tolerationSeconds: Annotation)

  datatype Policy = Policy(minimumPreemptablePriority: int, tolerationSeconds: int)

  function ParsePolicy(c: PriorityClass): Option<Policy> {
    if c.minimumPreemptable.Malformed? || c.tolerationSeconds.Malformed? then None
    else Some(Policy(if c.minimumPreemptable.Number? then c.minimumPreemptable.n else c.value + 1,
                     if c.tolerationSeconds.Number? then c.tolerationSeconds.n else 0))
  }

  /** Whether the candidate tolerates preemption by `preemptor` at time `now` (in seconds); no answer when its
      priority class cannot be found. */
  function ExemptedFromPreemption(candidate: Pod, preemptor: Pod, classes: map<string, PriorityClass>, now: int)
    : Option<bool>
  {
    if candidate.priorityClass == "" then Some(false)
    else if candidate.priorityClass !in classes then None
    else if preemptor.preemptNever then Some(true)
    else
      var policy := ParsePolicy(classes[candidate.priorityClass]);
      if policy.None? then Some(false)
      else if preemptor.priority >= policy.value.minimumPreemptablePriority then Some(false)
      else if policy.value.tolerationSeconds < 0 then Some(true)
      else if candidate.scheduledAt.None? then Some(true)
      else Some(candidate.scheduledAt.value + policy.value.tolerationSeconds > now)
  }

  /** Toleration only fades: a pod that tolerates preemption now tolerated it at any earlier time and tolerates
      it from any preemptor of lower priority. Without a class, or against a priority at or above the policy's
      minimum, it never does. */
  lemma TolerationFades(c: Pod, p: Pod, q: Pod, classes: map<string, PriorityClass>, now: int, earlier: int)
    requires earlier <= now && q.priority <= p.priority && !p.preemptNever
    requires ExemptedFromPreemption(c, p, classes, now) == Some(true)
    ensures ExemptedFromPreemption(c, q, classes, earlier) == Some(true)
    ensures c.priorityClass in classes && ParsePolicy(classes[c.priorityClass]).Some?
    ensures p.priority < ParsePolicy(classes[c.priorityClass]).value.minimumPreemptablePriority
  {
  }

  /** How toleration ends: between two times it is lost exactly when the pod's deadline (the policy's seconds after
      it was scheduled) falls between them, and once lost it never comes back. */
  lemma TolerationEndsExactly(c: Pod, p: Pod, classes: map<string, PriorityClass>, earlier: int, later: int)
    requires earlier <= later
    ensures (ExemptedFromPreemption(c, p, classes, earlier) == Some(true) &&
             ExemptedFromPreemption(c, p, classes, later) == Some(false)) <==>
            (Threatens(c, p, classes) && c.scheduledAt.Some? &&
             var seconds := ParsePolicy(classes[c.priorityClass]).value.tolerationSeconds;
             0 <= seconds && earlier < c.scheduledAt.value + seconds <= later)
    ensures ExemptedFromPreemption(c, p, classes, earlier) == Some(false) ==>
              ExemptedFromPreemption(c, p, classes, later) == Some(false)
  {
  }

  /** The preemptor may preempt in general but is below the minimum of the candidate's policy. */
  predicate Threatens(c: Pod, p: Pod, classes: map<string, PriorityClass>) {
    && c.priorityClass != "" && c.priorityClass in classes && !p.preemptNever
    && var policy := ParsePolicy(classes[c.priorityClass]);
       policy.Some? && p.priority < policy.value.minimumPreemptablePriority
  }

  /** Without annotations a scheduled pod tolerates nobody who may preempt at all, so that the plugin preempts
      like the default one. */
  lemma DefaultPolicyTolerates(c: Pod, p: Pod, classes: map<string, PriorityClass>, now: int)
    requires c.priorityClass in classes && classes[c.priorityClass].minimumPreemptable.Absent?
    requires classes[c.priorityClass].tolerationSeconds.Absent?
    requires c.scheduledAt.Some? && c.scheduledAt.value <= now
    ensures ExemptedFromPreemption(c, p, classes, now) == Some(p.preemptNever && c.priorityClass != "")
  {
  }

  datatype Search = Search(pod: Pod, classes: map<string, PriorityClass>, now: int, filter: set<Pod> -> bool)

  datatype Selection =
    | ClassError
    | NoVictims
    | DoesNotFit
    | Selected(victims: seq<Pod>, numViolating: nat)

  function Exempted(s: Search, p: Pod): Option<bool> {
    ExemptedFromPreemption(p, s.pod, s.classes, s.now)
  }

  predicate Preemptable(s: Search, p: Pod) {
    p.priority < s.pod.priority && Exempted(s, p) == Some(false)
  }

  /** Some less important pod has a priority class that cannot be found. */
  predicate LookupFails(s: Search, listed: seq<Pod>) {
    exists p :: p in listed && p.priority < s.pod.priority && Exempted(s, p).None?
  }

  function Candidates(s: Search): (View, Pod) -> bool {
    (v: View, p: Pod) => Preemptable(s, p)
  }

  /** This plugin checks no quota. */
  ghost function NoCheck(): Quotas -> bool {
    q => false
  }

  ghost function Select(s: Search, o: View, listed: seq<Pod>, sorted: seq<Pod>, pdbs: seq<Budget>): Selection {
    if LookupFails(s, listed) then ClassError else
      var (v, potential) := Collect(o, Candidates(s), listed);
      if potential == [] then NoVictims
      else if !s.filter(v.node) then DoesNotFit
      else Selected(Victims(Turns(v, s.filter, NoCheck(), Order(sorted, pdbs))),
                    |Victims(Turns(v, s.filter, NoCheck(), Violating(sorted, pdbs)))|)
  }

  ghost function Victims(g: Progress): seq<Pod> {
    if g.Going? then g.victims else []
  }

  // ----- The imperative search -----

  method ReprievePod(dry: DryRun, s: Search, p: Pod, victims: seq<Pod>, ghost g: Progress)
    returns (fits: bool, newVictims: seq<Pod>)
    requires dry.Valid() && p.uid != "" && forall q :: q in dry.now.node ==> q.uid != p.uid
    requires g.Going? && g.view == dry.now && g.victims == victims
    modifies dry, dry.slots, dry.infos.Values
    ensures dry.Valid() && (dry.slots == old(dry.slots) || fresh(dry.slots))
    ensures var t := Turn(g, s.filter, NoCheck(), p);
            && t.Going? && t.view == dry.now && t.victims == newVictims
            && t.misfits == g.misfits + if fits then 0 else 1
  {
    newVictims := victims;
    dry.AddPod(p);
    fits := s.filter(dry.Node());
    if !fits {
      var _ := dry.RemovePod(p);
      newVictims := newVictims + [p];
    }
  }

  /** One of the two reprieve loops: gives the pods `todo[start..stop]` their turn. */
  method ReprieveAll(dry: DryRun, s: Search, todo: seq<Pod>, start: nat, stop: nat, victims: seq<Pod>, ghost v: View)
    returns (newVictims: seq<Pod>, misfits: nat)
    requires dry.Valid() && start <= stop <= |todo| && Apart(v.node, todo) && MinsNonNegative(v.quotas)
    requires var g := Turns(v, s.filter, NoCheck(), todo[..start]);
             g.Going? && g.view == dry.now && g.victims == victims
    modifies dry, dry.slots, dry.infos.Values
    ensures dry.Valid() && (dry.slots == old(dry.slots) || fresh(dry.slots))
    ensures var g := Turns(v, s.filter, NoCheck(), todo[..stop]);
            && g.Going? && g.view == dry.now && g.victims == newVictims
            && g.misfits == Misfits(Turns(v, s.filter, NoCheck(), todo[..start])) + misfits
  {
    hide Turn, NoCheck, Apart, MinsNonNegative;
    ghost var check := NoCheck();
    newVictims, misfits := victims, 0;
    ghost var g := Turns(v, s.filter, check, todo[..start]);
    for i := start to stop
      invariant dry.Valid() && (dry.slots == old(dry.slots) || fresh(dry.slots))
      invariant g == Turns(v, s.filter, check, todo[..i])
      invariant g.Going? && g.view == dry.now && g.victims == newVictims
      invariant g.misfits == Misfits(Turns(v, s.filter, check, todo[..start])) + misfits
    {
      NextTurn(v, s.filter, check, todo, i);
      var fits;
      fits, newVictims := ReprievePod(dry, s, todo[i], newVictims, g);
      if !fits {
        misfits := misfits + 1;
      }
      g := Turn(g, s.filter, check, todo[i]);
    }
  }

  lemma CandidatesMean(s: Search, v: View, p: Pod)
    ensures Candidates(s)(v, p) == Preemptable(s, p)
  {
  }

  /** Removes the candidates while ranging over the slice they are removed from. */
  method RemoveCandidates(dry: DryRun, s: Search) returns (ok: bool, potential: seq<Pod>)
    requires dry.Valid() && MinsNonNegative(dry.now.quotas)
    modifies dry, dry.slots, dry.infos.Values
    ensures dry.Valid() && (dry.slots == old(dry.slots) || fresh(dry.slots))
    ensures ok == !LookupFails(s, old(dry.slots[..dry.live]))
    ensures ok ==> dry.now == Collect(old(dry.now), Candidates(s), old(dry.slots[..dry.live])).0
    ensures ok ==> potential == Collect(old(dry.now), Candidates(s), old(dry.slots[..dry.live])).1
  {
    hide Collect, Candidates, ExemptedFromPreemption, DryRun.Valid, DistinctUids, MinsNonNegative, AsSet;
    RangeFacts(dry);
    ghost var o, listed := dry.now, dry.slots[..dry.live];
    ghost var choose := Candidates(s);
    CollectNone(o, choose);
    var ranged, n := dry.slots, dry.live;
    potential := [];
    assert listed[..0] == [];
    for i := 0 to n
      invariant dry.Valid() && (dry.slots == ranged || fresh(dry.slots))
      invariant dry.now == Collect(o, choose, listed[..i]).0 && potential == Collect(o, choose, listed[..i]).1
      invariant forall k :: i <= k < n ==> ranged[k] == listed[k]
      invariant forall k :: 0 <= k < i ==> listed[k].priority >= s.pod.priority || Exempted(s, listed[k]).Some?
    {
      var p := ranged[i];
      NextLook(o, choose, listed, i);
      CandidatesMean(s, dry.now, p);
      if p.priority < s.pod.priority {
        var exempted := Exempted(s, p);
        if exempted.None? {
          assert p in listed;
          return false, potential;
        }
        if !exempted.value {
          potential := potential + [p];
          var _ := dry.RemovePod(p);
        }
      }
    }
    assert listed[..n] == listed;
    ok := true;
  }

  /** The search. `sorted` is the arrangement of the candidates that the sort happened to produce. */
  method SelectVictimsOnNode(dry: DryRun, s: Search, pdbs: seq<Budget>)
    returns (r: Selection, ghost sorted: seq<Pod>)
    requires dry.Valid() && MinsNonNegative(dry.now.quotas)
    modifies dry, dry.slots, dry.infos.Values
    ensures IsSort(Collect(old(dry.now), Candidates(s), old(dry.slots[..dry.live])).1, sorted)
    ensures r == Select(s, old(dry.now), old(dry.slots[..dry.live]), sorted, pdbs)
  {
    hide Turn, Collect, Candidates, Violating, NonViolating, Apart, MinsNonNegative, NoCheck, LookupFails, IsSort,
      SortByImportance;
    ghost var o, listed := dry.now, dry.slots[..dry.live];
    RangeFacts(dry);
    var ok, potential := RemoveCandidates(dry, s);
    if !ok {
      sorted := Collect(o, Candidates(s), listed).1;
      SortIsSort(sorted);
      return ClassError, SortByImportance(sorted);
    }
    ghost var v := dry.now;
    var ordered := SortPods(potential);
    sorted := ordered;
    OrderApart(o, Candidates(s), listed, sorted, pdbs);
    if |potential| == 0 {
      return NoVictims, sorted;
    }
    if !s.filter(dry.Node()) {
      return DoesNotFit, sorted;
    }
    var violating, nonViolating := FilterPodsWithPDBViolation(ordered, pdbs);
    var order := violating + nonViolating;
    assert order[..0] == [] && order[..|violating|] == violating && order[..|order|] == order;
    var victims, numViolating := ReprieveAll(dry, s, order, 0, |violating|, [], v);
    EveryVictimIsAMisfit(v, s.filter, violating);
    var others;
    victims, others := ReprieveAll(dry, s, order, |violating|, |order|, victims, v);
    r := Selected(victims, numViolating);
  }

  /** Without a quota check the loop never fails and the counter counts every victim. */
  lemma {:induction false} EveryVictimIsAMisfit(v: View, filter: set<Pod> -> bool, todo: seq<Pod>)
    ensures var g := Turns(v, filter, NoCheck(), todo); g.Going? && g.misfits == |g.victims|
  {
    if todo != [] {
      EveryVictimIsAMisfit(v, filter, todo[..|todo| - 1]);
    }
  }

  // ----- What a successful selection guarantees -----

  ghost predicate Ready(o: View, listed: seq<Pod>) {
    o.quotas == map[] && WellFormed(o.node) && Distinct(listed) && AsSet(listed) == o.node
  }

  /** Soundness and irreducibility: the victims are distinct, less important, not exempted pods of the node; the
      preemptor passes the filters once they are gone; and, for filters that never turn from fail to pass when
      pods are added, it does not pass if any single one of them stays. */
  lemma SelectionIsSoundAndIrreducible(s: Search, o: View, listed: seq<Pod>, sorted: seq<Pod>, pdbs: seq<Budget>)
    requires Ready(o, listed) && IsSort(Collect(o, Candidates(s), listed).1, sorted)
    requires Select(s, o, listed, sorted, pdbs).Selected?
    ensures var victims := Select(s, o, listed, sorted, pdbs).victims;
            && Distinct(victims)
            && (forall p :: p in victims ==>
                  && p in o.node && p.priority < s.pod.priority
                  && ExemptedFromPreemption(p, s.pod, s.classes, s.now) == Some(false))
            && s.filter(o.node - AsSet(victims))
            && (AntitoneFilter(s.filter) ==>
                  forall p :: p in victims ==> !s.filter((o.node - AsSet(victims)) + {p}))
  {
    var (v, potential) := Collect(o, Candidates(s), listed);
    var order, check := Order(sorted, pdbs), NoCheck();
    CollectedFacts(o, Candidates(s), listed, sorted, pdbs);
    TurnsPartition(o, v, s.filter, check, order);
    TurnsKeepFit(o, v, s.filter, check, order);
    EveryVictimIsAMisfit(v, s.filter, order);
    var g := Turns(v, s.filter, check, order);
    if AntitoneFilter(s.filter) {
      TurnsIrreducible(o, v, s.filter, check, order);
    }
    hide Turns, Collect, Consistent, Order, LookupFails, ExemptedFromPreemption, AntitoneFilter;
    assert g.view.node == o.node - AsSet(g.victims);
    forall p | p in g.victims
      ensures p in o.node && Preemptable(s, p)
      ensures AntitoneFilter(s.filter) ==> !s.filter((o.node - AsSet(g.victims)) + {p})
    {
      assert p in AsSet(g.victims) && p in AsSet(order) && p in AsSet(potential);
      var k := ChosenInTurn(o, Candidates(s), listed, p);
    }
  }

  /** The pods that a search may evict: less important and not exempted. */
  ghost function Evictable(s: Search, node: set<Pod>): set<Pod> {
    set p | p in node && p.priority < s.pod.priority &&
            ExemptedFromPreemption(p, s.pod, s.classes, s.now) == Some(false)
  }

  /** The candidates are exactly the evictable pods. */
  lemma CandidatesAreEvictable(s: Search, o: View, listed: seq<Pod>)
    requires Ready(o, listed)
    ensures var (v, potential) := Collect(o, Candidates(s), listed);
            AsSet(potential) == Evictable(s, o.node) && v.node == o.node - Evictable(s, o.node)
  {
    CollectSplits(o, Candidates(s), listed);
    var (v, potential) := Collect(o, Candidates(s), listed);
    hide Collect, Consistent, ExemptedFromPreemption, WellFormed;
    forall p ensures p in AsSet(potential) <==> p in Evictable(s, o.node) {
      if p in AsSet(potential) {
        var k := ChosenInTurn(o, Candidates(s), listed, p);
        assert p in AsSet(listed);
      } else if p in o.node {
        assert p in AsSet(listed);
        var k := NotChosenInTurn(o, Candidates(s), listed, p);
      }
    }
  }

  /** The outcome of every search: an error exactly when the class of some less important pod is not found;
      otherwise no victims exactly when nothing is evictable, and success exactly when the preemptor fits without
      the evictable pods. */
  lemma SelectionSucceedsExactly(s: Search, o: View, listed: seq<Pod>, sorted: seq<Pod>, pdbs: seq<Budget>)
    requires Ready(o, listed) && IsSort(Collect(o, Candidates(s), listed).1, sorted)
    ensures var r, evictable := Select(s, o, listed, sorted, pdbs), Evictable(s, o.node);
            && (r.ClassError? <==> exists p :: p in o.node && p.priority < s.pod.priority &&
                                               p.priorityClass != "" && p.priorityClass !in s.classes)
            && (!r.ClassError? ==> (r.NoVictims? <==> evictable == {}))
            && (!r.ClassError? ==> (r.Selected? <==> evictable != {} && s.filter(o.node - evictable)))
  {
    CandidatesAreEvictable(s, o, listed);
    var (v, potential) := Collect(o, Candidates(s), listed);
    assert potential == [] <==> AsSet(potential) == {} by {
      if potential != [] {
        assert potential[0] in AsSet(potential);
      }
    }
    assert LookupFails(s, listed) <==>
           exists p :: p in o.node && p.priority < s.pod.priority &&
                       p.priorityClass != "" && p.priorityClass !in s.classes by {
      ClassesMissing(s, o, listed);
    }
    hide Collect, Turns, LookupFails, Evictable, WellFormed, Violating, NonViolating;
  }

  lemma ClassesMissing(s: Search, o: View, listed: seq<Pod>)
    requires AsSet(listed) == o.node
    ensures LookupFails(s, listed) <==>
            exists p :: p in o.node && p.priority < s.pod.priority &&
                        p.priorityClass != "" && p.priorityClass !in s.classes
  {
    assert forall p :: p in listed <==> p in o.node by {
      forall p ensures p in listed <==> p in o.node {
        assert p in AsSet(listed) <==> p in listed;
      }
    }
  }

  /** Forever: a pod tolerates a preemptor at all times exactly when its class is known and the preemptor never
      preempts, or is below the minimum of a policy that says a negative number or whose clock has not started
      because the pod is not scheduled. */
  lemma TolerationLastsForeverExactly(c: Pod, p: Pod, classes: map<string, PriorityClass>)
    ensures (forall now: int :: ExemptedFromPreemption(c, p, classes, now) == Some(true)) <==>
            c.priorityClass != "" && c.priorityClass in classes &&
            (p.preemptNever ||
             (Threatens(c, p, classes) &&
              (c.scheduledAt.None? || ParsePolicy(classes[c.priorityClass]).value.tolerationSeconds < 0)))
  {
    if forall now: int :: ExemptedFromPreemption(c, p, classes, now) == Some(true) {
      assert ExemptedFromPreemption(c, p, classes, 0) == Some(true);
      if Threatens(c, p, classes) && c.scheduledAt.Some? {
        var end := c.scheduledAt.value + ParsePolicy(classes[c.priorityClass]).value.tolerationSeconds;
        assert ExemptedFromPreemption(c, p, classes, end) == Some(true);
      }
    }
  }

  /** A class that says nothing about a minimum tolerates up to its own value, and one whose annotations are not
      numbers tolerates nobody who preempts at all. */
  lemma MissingMinimumExactly(c: Pod, p: Pod, classes: map<string, PriorityClass>, now: int)
    requires c.priorityClass != "" && c.priorityClass in classes && !p.preemptNever
    ensures var pc := classes[c.priorityClass];
            && (pc.minimumPreemptable.Malformed? || pc.tolerationSeconds.Malformed? ==>
                  ExemptedFromPreemption(c, p, classes, now) == Some(false))
            && (pc.minimumPreemptable.Absent? && pc.tolerationSeconds.Number? && pc.tolerationSeconds.n < 0 ==>
                  (ExemptedFromPreemption(c, p, classes, now) == Some(true) <==> p.priority <= pc.value))
  {
  }
}
