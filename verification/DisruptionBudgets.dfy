/** The split of potential victims by pod disruption budget, shared word for word by both preemption plugins. */
module DisruptionBudgets {
  import opened Options
  import opened Resources
  import opened Subsequences

  /** A parsed label selector. */
  datatype Selector = Selector(empty: bool, matches: map<string, string> -> bool)

  /** A budget; `selector` is absent when the selector does not parse. */
  datatype Budget = Budget(namespace: string, selector: Option<Selector>,
                           disruptionsAllowed: int, disruptedPods: set<string>)

  predicate Covers(b: Budget, pod: Pod) {
    && pod.labels != map[]
    && b.namespace == pod.namespace
    && b.selector.Some? && !b.selector.value.empty && b.selector.value.matches(pod.labels)
    && pod.name !in b.disruptedPods
  }

  /** How many of `pods` the budget covers. */
  function Covered(b: Budget, pods: seq<Pod>): nat {
    if pods == [] then 0 else
      Covered(b, pods[..|pods| - 1]) + if Covers(b, pods[|pods| - 1]) then 1 else 0
  }

  /** Some budget that covers the last pod is exceeded by the covered pods up to and including it. */
  predicate LastViolates(pods: seq<Pod>, pdbs: seq<Budget>)
    requires pods != []
  {
    exists i :: 0 <= i < |pdbs| && Covers(pdbs[i], pods[|pods| - 1])
                && Covered(pdbs[i], pods) > pdbs[i].disruptionsAllowed
  }

  /** The pods (in their order) whose eviction would, counted in list order, exceed a budget. */
  function Violating(pods: seq<Pod>, pdbs: seq<Budget>): seq<Pod> {
    if pods == [] then [] else
      Violating(pods[..|pods| - 1], pdbs) + if LastViolates(pods, pdbs) then [pods[|pods| - 1]] else []
  }

  function NonViolating(pods: seq<Pod>, pdbs: seq<Budget>): seq<Pod> {
    if pods == [] then [] else
      NonViolating(pods[..|pods| - 1], pdbs) + if LastViolates(pods, pdbs) then [] else [pods[|pods| - 1]]
  }

  /** The counters stand where the pods charged so far leave them. */
  ghost predicate Charged(pdbs: seq<Budget>, allowed: seq<int>, pods: seq<Pod>) {
    |allowed| == |pdbs| &&
    forall i :: 0 <= i < |pdbs| ==> allowed[i] == pdbs[i].disruptionsAllowed - Covered(pdbs[i], pods)
  }

  /** The inner loop: charges the pod to every budget that covers it. */
  method ChargeBudgets(pod: Pod, pdbs: seq<Budget>, allowed: array<int>, ghost before: seq<Pod>)
    returns (violated: bool)
    requires Charged(pdbs, allowed[..], before)
    modifies allowed
    ensures Charged(pdbs, allowed[..], before + [pod])
    ensures violated == LastViolates(before + [pod], pdbs)
  {
    ghost var upTo := before + [pod];
    assert upTo[..|upTo| - 1] == before;
    violated := false;
    if pod.labels == map[] {
      return;
    }
    for i := 0 to |pdbs|
      invariant forall k :: 0 <= k < i ==> allowed[k] == pdbs[k].disruptionsAllowed - Covered(pdbs[k], upTo)
      invariant forall k :: i <= k < |pdbs| ==>
        allowed[k] == pdbs[k].disruptionsAllowed - Covered(pdbs[k], before)
      invariant violated <==> exists k :: 0 <= k < i && Covers(pdbs[k], pod)
                                          && Covered(pdbs[k], upTo) > pdbs[k].disruptionsAllowed
    {
      if Covers(pdbs[i], pod) {
        allowed[i] := allowed[i] - 1;
        if allowed[i] < 0 {
          violated := true;
        }
      }
    }
  }

  method FilterPodsWithPDBViolation(pods: seq<Pod>, pdbs: seq<Budget>)
    returns (violating: seq<Pod>, nonViolating: seq<Pod>)
    ensures violating == Violating(pods, pdbs) && nonViolating == NonViolating(pods, pdbs)
  {
    var allowed := new int[|pdbs|](i requires 0 <= i < |pdbs| => pdbs[i].disruptionsAllowed);
    violating, nonViolating := [], [];
    assert Charged(pdbs, allowed[..], pods[..0]);
    hide Violating, NonViolating;
    SplitNone(pdbs);
    assert pods[..0] == [];
    hide *;
    for j := 0 to |pods|
      invariant violating == Violating(pods[..j], pdbs) && nonViolating == NonViolating(pods[..j], pdbs)
      invariant Charged(pdbs, allowed[..], pods[..j])
    {
      SplitStep(pods[..j + 1], pdbs);
      assert pods[..j + 1][..j] == pods[..j] && pods[..j + 1] == pods[..j] + [pods[j]];
      var violated := ChargeBudgets(pods[j], pdbs, allowed, pods[..j]);
      if violated {
        violating := violating + [pods[j]];
      } else {
        nonViolating := nonViolating + [pods[j]];
      }
    }
    assert pods[..|pods|] == pods;
  }

  lemma SplitNone(pdbs: seq<Budget>)
    ensures Violating([], pdbs) == [] && NonViolating([], pdbs) == []
  {
  }

  lemma SplitStep(pods: seq<Pod>, pdbs: seq<Budget>)
    requires pods != []
    ensures var before, last := pods[..|pods| - 1], pods[|pods| - 1];
            if LastViolates(pods, pdbs) then
              && Violating(pods, pdbs) == Violating(before, pdbs) + [last]
              && NonViolating(pods, pdbs) == NonViolating(before, pdbs)
            else
              && Violating(pods, pdbs) == Violating(before, pdbs)
              && NonViolating(pods, pdbs) == NonViolating(before, pdbs) + [last]
  {
    assert forall s: seq<Pod> :: s + [] == s;
  }

  lemma MultisetPlus<T>(s: seq<T>, x: T)
    ensures multiset(s + [x]) == multiset(s) + multiset{x}
    ensures multiset([x] + s) == multiset(s) + multiset{x}
  {
  }

  lemma Regroup<T>(x: multiset<T>, y: multiset<T>, z: multiset<T>)
    ensures (x + z) + y == (x + y) + z && x + (y + z) == (x + y) + z
  {
  }

  /** Nothing is lost, duplicated or invented. */
  lemma {:induction false} SplitIsPartition(pods: seq<Pod>, pdbs: seq<Budget>)
    ensures multiset(Violating(pods, pdbs)) + multiset(NonViolating(pods, pdbs)) == multiset(pods)
  {
    if pods != [] {
      var before, last := pods[..|pods| - 1], pods[|pods| - 1];
      SplitIsPartition(before, pdbs);
      SplitStep(pods, pdbs);
      hide *;
      assert pods == before + [last];
      MultisetPlus(before, last);
      Regroup(multiset(Violating(before, pdbs)), multiset(NonViolating(before, pdbs)), multiset{last});
      if LastViolates(pods, pdbs) {
        MultisetPlus(Violating(before, pdbs), last);
      } else {
        MultisetPlus(NonViolating(before, pdbs), last);
      }
    }
  }

  ghost predicate Sorted(pods: seq<Pod>) {
    forall i, j :: 0 <= i < j < |pods| ==> !MoreImportant(pods[j], pods[i])
  }

  lemma SplitFromList(pods: seq<Pod>, pdbs: seq<Budget>)
    ensures forall p :: p in Violating(pods, pdbs) ==> p in pods
    ensures forall p :: p in NonViolating(pods, pdbs) ==> p in pods
  {
    SplitIsPartition(pods, pdbs);
    forall p | p in Violating(pods, pdbs) || p in NonViolating(pods, pdbs) ensures p in pods {
      assert p in multiset(Violating(pods, pdbs)) + multiset(NonViolating(pods, pdbs));
    }
  }

  lemma SortedPlus(pods: seq<Pod>, last: Pod)
    requires Sorted(pods) && forall p :: p in pods ==> !MoreImportant(last, p)
    ensures Sorted(pods + [last])
  {
  }

  /** Stable: whatever the order of the list, both parts keep it. */
  lemma {:induction false} SplitIsStable(pods: seq<Pod>, pdbs: seq<Budget>)
    ensures Subsequence(Violating(pods, pdbs), pods) && Subsequence(NonViolating(pods, pdbs), pods)
  {
    if pods != [] {
      var before := pods[..|pods| - 1];
      SplitIsStable(before, pdbs);
      SplitStep(pods, pdbs);
      hide Violating, NonViolating, Subsequence;
      SubsequencePlus(Violating(before, pdbs), pods);
      SubsequencePlus(NonViolating(before, pdbs), pods);
    }
  }

  /** A list sorted by importance is split into two lists sorted by importance. */
  lemma {:induction false} SplitKeepsOrder(pods: seq<Pod>, pdbs: seq<Budget>)
    requires Sorted(pods)
    ensures Sorted(Violating(pods, pdbs)) && Sorted(NonViolating(pods, pdbs))
  {
    if pods != [] {
      var before := pods[..|pods| - 1];
      SplitKeepsOrder(before, pdbs);
      SplitFromList(before, pdbs);
      SplitStep(pods, pdbs);
      hide Violating, NonViolating, LastViolates;
      var last := pods[|pods| - 1];
      forall p | p in before ensures !MoreImportant(last, p) {
        var i :| 0 <= i < |before| && before[i] == p;
        assert pods[i] == p;
      }
      SortedPlus(if LastViolates(pods, pdbs) then Violating(before, pdbs) else NonViolating(before, pdbs), last);
    }
  }

  lemma {:induction false} CoveredPlus(b: Budget, pods: seq<Pod>, p: Pod)
    ensures Covered(b, pods + [p]) == Covered(b, pods) + if Covers(b, p) then 1 else 0
  {
    assert (pods + [p])[..|pods|] == pods;
  }

  /** Every budget is respected: its non-violating pods number at most the disruptions it allows. */
  lemma {:induction false} BudgetIsRespected(pods: seq<Pod>, pdbs: seq<Budget>, i: nat)
    requires i < |pdbs|
    ensures Covered(pdbs[i], NonViolating(pods, pdbs)) <= Covered(pdbs[i], pods)
    ensures Covered(pdbs[i], NonViolating(pods, pdbs))
            <= if pdbs[i].disruptionsAllowed < 0 then 0 else pdbs[i].disruptionsAllowed
  {
    if pods != [] {
      BudgetIsRespected(pods[..|pods| - 1], pdbs, i);
      SplitStep(pods, pdbs);
      hide Violating, NonViolating;
      if !LastViolates(pods, pdbs) {
        CoveredPlus(pdbs[i], NonViolating(pods[..|pods| - 1], pdbs), pods[|pods| - 1]);
      }
    }
  }

  /** Position by position: pod `j` is put among the violating pods exactly when a budget covering it is
      exceeded by the covered pods at positions `0..j`. */
  lemma {:induction false} ViolatingExactly(pods: seq<Pod>, pdbs: seq<Budget>, j: nat)
    requires j < |pods|
    requires forall a, b :: 0 <= a < b < |pods| ==> pods[a] != pods[b]
    ensures pods[j] in Violating(pods, pdbs) <==> LastViolates(pods[..j + 1], pdbs)
  {
    var before := pods[..|pods| - 1];
    SplitFromList(before, pdbs);
    SplitStep(pods, pdbs);
    if j == |pods| - 1 {
      assert pods[..j + 1] == pods;
      assert pods[j] !in before;
    } else {
      ViolatingExactly(before, pdbs, j);
      assert before[..j + 1] == pods[..j + 1];
    }
  }

  // ----- Sorting by importance -----

  function Insert(p: Pod, pods: seq<Pod>): seq<Pod> {
    if pods == [] || MoreImportant(p, pods[0]) then [p] + pods else [pods[0]] + Insert(p, pods[1..])
  }

  /** The list with the most important pod first. */
  function SortByImportance(pods: seq<Pod>): seq<Pod> {
    if pods == [] then [] else Insert(pods[0], SortByImportance(pods[1..]))
  }

  lemma SortedCons(p: Pod, pods: seq<Pod>)
    requires Sorted(pods) && forall q :: q in pods ==> !MoreImportant(q, p)
    ensures Sorted([p] + pods)
  {
  }

  lemma {:induction false} InsertAdds(p: Pod, pods: seq<Pod>)
    ensures multiset(Insert(p, pods)) == multiset(pods) + multiset{p}
  {
    MultisetPlus(pods, p);
    if pods != [] && !MoreImportant(p, pods[0]) {
      InsertAdds(p, pods[1..]);
      assert pods == [pods[0]] + pods[1..];
      MultisetPlus(pods[1..], pods[0]);
      MultisetPlus(Insert(p, pods[1..]), pods[0]);
    }
  }

  lemma {:induction false} InsertSorts(p: Pod, pods: seq<Pod>)
    requires Sorted(pods)
    ensures Sorted(Insert(p, pods))
  {
    if pods != [] && !MoreImportant(p, pods[0]) {
      var first, rest := pods[0], Insert(p, pods[1..]);
      InsertSorts(p, pods[1..]);
      InsertAdds(p, pods[1..]);
      forall q | q in rest ensures !MoreImportant(q, first) {
        assert q in multiset(rest);
      }
      SortedCons(first, rest);
    } else {
      forall q | q in pods ensures !MoreImportant(q, p) {
        var i :| 0 <= i < |pods| && pods[i] == q;
      }
      SortedCons(p, pods);
    }
  }

  lemma {:induction false} SortIsSorted(pods: seq<Pod>)
    ensures Sorted(SortByImportance(pods)) && multiset(SortByImportance(pods)) == multiset(pods)
  {
    if pods != [] {
      SortIsSorted(pods[1..]);
      InsertSorts(pods[0], SortByImportance(pods[1..]));
      InsertAdds(pods[0], SortByImportance(pods[1..]));
      MultisetPlus(pods[1..], pods[0]);
      assert pods == [pods[0]] + pods[1..];
    }
  }

  /** `sorted` is some list of the same pods with the most important first; pods of equal importance may come in
      any order. */
  ghost predicate IsSort(pods: seq<Pod>, sorted: seq<Pod>) {
    Sorted(sorted) && multiset(sorted) == multiset(pods)
  }

  lemma SortIsSort(pods: seq<Pod>)
    ensures IsSort(pods, SortByImportance(pods))
  {
    SortIsSorted(pods);
  }

  /** Sorts by importance. Callers know no more than that the result is some sorted arrangement. */
  method SortPods(pods: seq<Pod>) returns (sorted: seq<Pod>)
    ensures IsSort(pods, sorted)
  {
    SortIsSort(pods);
    sorted := SortByImportance(pods);
  }

  // ----- What the order and the budgets mean -----

  /** A list is sorted exactly when priorities fall, and among equal priorities start times rise. */
  lemma SortedExactly(pods: seq<Pod>)
    ensures Sorted(pods) <==>
              forall i, j :: 0 <= i < j < |pods| ==>
                pods[i].priority > pods[j].priority ||
                (pods[i].priority == pods[j].priority && pods[i].startTime <= pods[j].startTime)
  {
  }

  /** The pod falls under the budget: it carries labels, lives in the budget's namespace, its eviction is not already
      under way, and a selector that parses and is not empty matches its labels. */
  ghost predicate FallsUnder(b: Budget, p: Pod) {
    && p.labels != map[] && p.namespace == b.namespace && !(p.name in b.disruptedPods)
    && match b.selector
       case None => false
       case Some(s) => !s.empty && s.matches(p.labels)
  }

  lemma {:induction false} NobodyCovered(b: Budget, pods: seq<Pod>)
    requires forall p :: p in pods ==> !FallsUnder(b, p)
    ensures Covered(b, pods) == 0
  {
    if pods != [] {
      NobodyCovered(b, pods[..|pods| - 1]);
      assert pods[|pods| - 1] in pods;
    }
  }

  lemma {:induction false} EverybodyCovered(b: Budget, pods: seq<Pod>)
    requires forall p :: p in pods ==> FallsUnder(b, p)
    ensures Covered(b, pods) == |pods|
  {
    if pods != [] {
      EverybodyCovered(b, pods[..|pods| - 1]);
      assert pods[|pods| - 1] in pods;
    }
  }

  /** A budget under which none of the pods falls changes nothing. */
  lemma {:induction false} IdleBudgetChangesNothing(pods: seq<Pod>, pdbs: seq<Budget>, b: Budget)
    requires forall p :: p in pods ==> !FallsUnder(b, p)
    ensures Violating(pods, pdbs + [b]) == Violating(pods, pdbs)
    ensures NonViolating(pods, pdbs + [b]) == NonViolating(pods, pdbs)
  {
    if pods != [] {
      var before := pods[..|pods| - 1];
      IdleBudgetChangesNothing(before, pdbs, b);
      assert pods[|pods| - 1] in pods;
      var all := pdbs + [b];
      assert LastViolates(pods, all) <==> LastViolates(pods, pdbs) by {
        assert !Covers(b, pods[|pods| - 1]);
        assert all[|pdbs|] == b && forall i :: 0 <= i < |pdbs| ==> all[i] == pdbs[i];
      }
      SplitStep(pods, pdbs);
      SplitStep(pods, all);
      hide Violating, NonViolating, LastViolates;
    }
  }

  function Allowance(b: Budget, n: nat): nat {
    if b.disruptionsAllowed < 0 then 0 else if b.disruptionsAllowed < n then b.disruptionsAllowed else n
  }

  /** A single budget under which all of the pods fall cuts the list: the first pods up to the allowance do not violate
      it, all others do. */
  lemma {:induction false} FullBudgetCutsList(pods: seq<Pod>, b: Budget)
    requires forall p :: p in pods ==> FallsUnder(b, p)
    ensures NonViolating(pods, [b]) == pods[..Allowance(b, |pods|)]
    ensures Violating(pods, [b]) == pods[Allowance(b, |pods|)..]
  {
    if pods != [] {
      var before, last := pods[..|pods| - 1], pods[|pods| - 1];
      FullBudgetCutsList(before, b);
      LastOfFull(pods, b);
      SplitStep(pods, [b]);
      hide Violating, NonViolating, LastViolates, FallsUnder;
      CutPlus(pods, b);
    }
  }

  lemma LastOfFull(pods: seq<Pod>, b: Budget)
    requires pods != [] && forall p :: p in pods ==> FallsUnder(b, p)
    ensures LastViolates(pods, [b]) <==> |pods| > b.disruptionsAllowed
  {
    EverybodyCovered(b, pods);
    assert pods[|pods| - 1] in pods;
    assert Covers(b, pods[|pods| - 1]) && [b][0] == b;
  }

  lemma CutPlus(pods: seq<Pod>, b: Budget)
    requires pods != []
    ensures var n := |pods| - 1;
            var before, k := pods[..n], Allowance(b, n);
            if |pods| > b.disruptionsAllowed then
              pods[..Allowance(b, |pods|)] == before[..k] && pods[Allowance(b, |pods|)..] == before[k..] + [pods[n]]
            else
              pods[..Allowance(b, |pods|)] == before[..k] + [pods[n]] && pods[Allowance(b, |pods|)..] == before[k..]
  {
  }
}
