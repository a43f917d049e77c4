/** The eviction planner: candidates in order of merge distance and size, taken greedily until
    enough bytes are freed (src/storage/ChunkStore.cpp). */
module Eviction {
  import opened CheckpointTypes
  import opened Sequences
  import opened Widths
  import Sorting

  /** A resident chunk as the planner sees it. The id stands for the deterministic file name. */
  datatype Candidate = Candidate(id: BlockLocation, bytes: nat, distance: real)

  datatype EvictionPlan = EvictionPlan(candidates: seq<Candidate>, evictedBytes: nat, budgetSatisfied: bool)

  datatype Planned = Plan(plan: EvictionPlan) | InvalidArgument

  function Total(candidates: seq<Candidate>): nat {
    if candidates == [] then 0 else Total(candidates[..|candidates| - 1]) + candidates[|candidates| - 1].bytes
  }

  function SaturatingAdd(a: nat, b: nat): nat {
    if U64_MAX < a + b then U64_MAX else a + b
  }

  predicate Evictable(c: Candidate) {
    c.distance != 0.0 && c.bytes != 0
  }

  /** Furthest from its merge first, then largest first; the tie-break on the id is left open. */
  predicate Before(a: Candidate, b: Candidate) {
    if a.distance != b.distance then a.distance > b.distance else a.bytes >= b.bytes
  }

  ghost predicate Ordered(s: seq<Candidate>) {
    Sorting.Ordered(s, Before)
  }

  ghost predicate DistinctIds(s: seq<Candidate>) {
    forall i, j | 0 <= i < j < |s| :: s[i].id != s[j].id
  }

  function Filtered(resident: seq<Candidate>): (kept: seq<Candidate>)
    ensures forall c | c in kept :: c in resident && Evictable(c)
  {
    if resident == [] then [] else
    var front, last := resident[..|resident| - 1], resident[|resident| - 1];
    if Evictable(last) then Filtered(front) + [last] else Filtered(front)
  }

  method Sort(candidates: seq<Candidate>) returns (sorted: seq<Candidate>)
    ensures Ordered(sorted) && multiset(sorted) == multiset(candidates)
  {
    sorted := Sorting.Sort(candidates, Before);
  }

  /** `getEvictionCandidates` on the chunks the caller holds resident. */
  method GetEvictionCandidates(resident: seq<Candidate>, budget: nat) returns (ok: bool, sorted: seq<Candidate>)
    ensures ok <==> budget > 0 && DistinctIds(resident) && forall c | c in resident :: c.distance >= 0.0
    ensures ok ==> Ordered(sorted) && multiset(sorted) == multiset(Filtered(resident))
  {
    sorted := [];
    if budget == 0 {
      return false, [];
    }
    var kept: seq<Candidate> := [];
    var seen: set<BlockLocation> := {};
    for i := 0 to |resident|
      invariant seen == set c | c in resident[..i] :: c.id
      invariant DistinctIds(resident[..i])
      invariant forall c | c in resident[..i] :: c.distance >= 0.0
      invariant kept == Filtered(resident[..i])
    {
      var c := resident[i];
      assert resident[..i + 1] == resident[..i] + [c];
      if c.id in seen {
        assert exists j :: 0 <= j < i && resident[j].id == c.id;
        return false, [];
      }
      seen := seen + {c.id};
      if c.distance < 0.0 {
        assert c in resident;
        return false, [];
      }
      assert resident[..i + 1][..i] == resident[..i];
      if Evictable(c) {
        kept := kept + [c];
      }
    }
    assert resident[..|resident|] == resident;
    ok := true;
    sorted := Sort(kept);
  }

  /** `evictUntilBudgetSatisfied`: the shortest prefix that frees enough. */
  method EvictUntilBudgetSatisfied(candidates: seq<Candidate>, needed: nat) returns (selected: seq<Candidate>, evicted: nat)
    ensures selected <= candidates
    ensures Total(candidates) <= U64_MAX ==> evicted == Total(selected)
    ensures evicted >= needed || selected == candidates
    ensures Total(candidates) <= U64_MAX && selected != [] ==> Total(selected[..|selected| - 1]) < needed
  {
    selected, evicted := [], 0;
    for i := 0 to |candidates|
      invariant selected == candidates[..i]
      invariant Total(candidates) <= U64_MAX ==> evicted == Total(selected)
      invariant Total(candidates) <= U64_MAX && i > 0 ==> Total(candidates[..i - 1]) < needed
    {
      if evicted >= needed {
        assert selected != [] ==> selected[..|selected| - 1] == candidates[..i - 1];
        return;
      }
      PrefixTotal(candidates, i + 1);
      assert candidates[..i + 1][..i] == candidates[..i];
      selected := selected + [candidates[i]];
      assert selected == candidates[..i + 1];
      evicted := SaturatingAdd(evicted, candidates[i].bytes);
    }
    assert selected == candidates;
    assert selected != [] ==> selected[..|selected| - 1] == candidates[..|candidates| - 1];
  }

  lemma {:induction false} PrefixTotal(s: seq<Candidate>, n: nat)
    requires n <= |s|
    ensures Total(s[..n]) <= Total(s)
    decreases |s| - n
  {
    if n < |s| {
      PrefixTotal(s, n + 1);
      assert s[..n + 1][..n] == s[..n];
    } else {
      assert s[..n] == s;
    }
  }

  /** `planEvictions` */
  method PlanEvictions(resident: seq<Candidate>, budget: nat, needed: nat) returns (r: Planned)
    ensures r.Plan? <==> budget > 0 && DistinctIds(resident) && forall c | c in resident :: c.distance >= 0.0
    ensures r.Plan? ==> PlanOf(r.plan, resident, needed)
  {
    var ok, candidates := GetEvictionCandidates(resident, budget);
    if !ok {
      return InvalidArgument;
    }
    var selected, evicted := EvictUntilBudgetSatisfied(candidates, needed);
    r := Plan(EvictionPlan(selected, evicted, evicted >= needed));
  }

  /** What a plan is: a minimal prefix of some ordering of the evictable residents. */
  ghost predicate PlanOf(plan: EvictionPlan, resident: seq<Candidate>, needed: nat) {
    exists sorted: seq<Candidate> ::
      && Ordered(sorted) && multiset(sorted) == multiset(Filtered(resident))
      && GreedyPrefix(plan, sorted, needed)
  }

  ghost predicate GreedyPrefix(plan: EvictionPlan, sorted: seq<Candidate>, needed: nat) {
    && plan.candidates <= sorted
    && (Total(sorted) <= U64_MAX ==> plan.evictedBytes == Total(plan.candidates))
    && (plan.evictedBytes >= needed || plan.candidates == sorted)
    && (Total(sorted) <= U64_MAX && plan.candidates != [] ==>
          Total(plan.candidates[..|plan.candidates| - 1]) < needed)
    && plan.budgetSatisfied == (plan.evictedBytes >= needed)
  }

  // ---------- the plan frees enough, with as few chunks as possible ----------

  lemma {:induction false} FilteredCount(s: seq<Candidate>, c: Candidate)
    ensures multiset(Filtered(s))[c] == if Evictable(c) then multiset(s)[c] else 0
  {
    if s != [] {
      var front, last := s[..|s| - 1], s[|s| - 1];
      FilteredCount(front, c);
      assert s == front + [last];
    }
  }

  /** Skipping chunks of no bytes loses no bytes. */
  lemma {:induction false} FilteredTotal(s: seq<Candidate>)
    requires forall c | c in s :: c.distance != 0.0
    ensures Total(Filtered(s)) == Total(s) && |Filtered(s)| <= |s|
  {
    if s != [] {
      var front, last := s[..|s| - 1], s[|s| - 1];
      assert forall c | c in front :: c in s;
      FilteredTotal(front);
      if Evictable(last) {
        assert (Filtered(front) + [last])[..|Filtered(front)|] == Filtered(front);
      }
    }
  }

  function Bytes(c: Candidate): int {
    c.bytes
  }

  lemma {:induction false} TotalIsSum(s: seq<Candidate>)
    ensures Total(s) == Sum(s, Bytes)
  {
    if s != [] { TotalIsSum(s[..|s| - 1]); }
  }

  lemma RemoveOne(s: seq<Candidate>, c: Candidate) returns (rest: seq<Candidate>)
    requires c in multiset(s)
    ensures multiset(s) == multiset(rest) + multiset{c} && |s| == |rest| + 1
    ensures Total(s) == Total(rest) + c.bytes
  {
    assert c in s;
    var i :| 0 <= i < |s| && s[i] == c;
    rest := s[..i] + s[i + 1..];
    assert s == s[..i] + [c] + s[i + 1..];
    TotalIsSum(s);
    TotalIsSum(rest);
    SumWithout(s, Bytes, i);
  }

  lemma TotalOfMultiset(s: seq<Candidate>, t: seq<Candidate>)
    requires multiset(s) == multiset(t)
    ensures Total(s) == Total(t)
  {
    TotalIsSum(s);
    TotalIsSum(t);
    SumOfMultiset(s, t, Bytes);
  }

  ghost predicate LargestFirst(s: seq<Candidate>) {
    forall i, j | 0 <= i < j < |s| :: s[i].bytes >= s[j].bytes
  }

  /** A choice either avoids the last chunk, or loses one copy of it when the last chunk goes. */
  lemma ChooseWithoutLast(front: seq<Candidate>, last: Candidate, chosen: seq<Candidate>)
    returns (uses: bool, rest: seq<Candidate>)
    requires multiset(chosen) <= multiset(front) + multiset{last}
    ensures multiset(rest) <= multiset(front)
    ensures if uses then |chosen| == |rest| + 1 && Total(chosen) == Total(rest) + last.bytes else rest == chosen
  {
    if multiset(chosen)[last] <= multiset(front)[last] {
      uses, rest := false, chosen;
      forall c ensures multiset(chosen)[c] <= multiset(front)[c] {
      }
    } else {
      uses := true;
      rest := RemoveOne(chosen, last);
      forall c ensures multiset(rest)[c] <= multiset(front)[c] {
        assert multiset(chosen)[c] <= (multiset(front) + multiset{last})[c];
        assert multiset(chosen)[c] == (multiset(rest) + multiset{last})[c];
      }
    }
  }

  lemma TotalStep(s: seq<Candidate>, m: nat)
    requires 0 < m <= |s|
    ensures Total(s[..m]) == Total(s[..m - 1]) + s[m - 1].bytes
  {
    assert s[..m][..m - 1] == s[..m - 1];
  }

  lemma ExtendTop(sorted: seq<Candidate>, m: nat, total: nat)
    requires LargestFirst(sorted) && 0 < m <= |sorted|
    requires total <= Total(sorted[..m - 1])
    ensures total + sorted[|sorted| - 1].bytes <= Total(sorted[..m])
  {
    TotalStep(sorted, m);
  }

  lemma NothingToChoose(chosen: seq<Candidate>)
    requires multiset(chosen) <= multiset{}
    ensures chosen == []
  {
    assert multiset(chosen) == multiset{};
    assert |chosen| == |multiset(chosen)|;
  }

  /** No choice of m chunks is worth more than the m largest. */
  lemma {:induction false} LargestAreWorthMost(sorted: seq<Candidate>, chosen: seq<Candidate>)
    requires LargestFirst(sorted) && multiset(chosen) <= multiset(sorted)
    ensures |chosen| <= |sorted| && Total(chosen) <= Total(sorted[..|chosen|])
    decreases |sorted|
  {
    if sorted == [] {
      NothingToChoose(chosen);
    } else {
      var front, last := sorted[..|sorted| - 1], sorted[|sorted| - 1];
      assert sorted == front + [last];
      var uses, rest := ChooseWithoutLast(front, last, chosen);
      LargestAreWorthMost(front, rest);
      assert front[..|rest|] == sorted[..|rest|];
      if uses { ExtendTop(sorted, |chosen|, Total(rest)); }
    }
  }

  /** Every chunk has the same positive merge distance, and the bytes add up below 2^64: what the
      coordinator hands over on a freshly observed level. */
  ghost predicate Fresh(resident: seq<Candidate>, distance: real) {
    && distance > 0.0
    && (forall c | c in resident :: c.distance == distance)
    && Total(resident) <= U64_MAX
  }

  lemma SortedResident(resident: seq<Candidate>, sorted: seq<Candidate>, distance: real)
    requires Fresh(resident, distance)
    requires Ordered(sorted) && multiset(sorted) == multiset(Filtered(resident))
    ensures LargestFirst(sorted) && Total(sorted) == Total(resident)
  {
    TotalOfMultiset(sorted, Filtered(resident));
    FilteredTotal(resident);
    forall c | c in sorted ensures c in resident {
      assert c in multiset(Filtered(resident));
      assert c in Filtered(resident);
    }
    forall i, j | 0 <= i < j < |sorted| ensures sorted[i].bytes >= sorted[j].bytes {
      assert sorted[i] in resident && sorted[j] in resident;
      assert Before(sorted[i], sorted[j]);
    }
  }

  /** On a fresh level a plan always frees the needed bytes, and only with resident chunks. */
  lemma FreshPlanSucceeds(plan: EvictionPlan, resident: seq<Candidate>, needed: nat, distance: real)
    requires PlanOf(plan, resident, needed) && Fresh(resident, distance)
    requires needed <= Total(resident)
    ensures plan.budgetSatisfied && Total(plan.candidates) >= needed
    ensures multiset(plan.candidates) <= multiset(resident)
  {
    var sorted :| Ordered(sorted) && multiset(sorted) == multiset(Filtered(resident)) && GreedyPrefix(plan, sorted, needed);
    GreedySucceeds(plan, sorted, resident, needed, distance);
  }

  lemma GreedySucceeds(plan: EvictionPlan, sorted: seq<Candidate>, resident: seq<Candidate>, needed: nat, distance: real)
    requires Ordered(sorted) && multiset(sorted) == multiset(Filtered(resident)) && GreedyPrefix(plan, sorted, needed)
    requires Fresh(resident, distance) && needed <= Total(resident)
    ensures plan.budgetSatisfied && Total(plan.candidates) >= needed
    ensures multiset(plan.candidates) <= multiset(resident)
  {
    SortedResident(resident, sorted, distance);
    PrefixMultiset(plan.candidates, sorted);
    FilteredMultiset(resident);
  }

  lemma PrefixMultiset(prefix: seq<Candidate>, s: seq<Candidate>)
    requires prefix <= s
    ensures multiset(prefix) <= multiset(s)
  {
    assert s == prefix + s[|prefix|..];
  }

  lemma FilteredMultiset(s: seq<Candidate>)
    ensures multiset(Filtered(s)) <= multiset(s)
  {
    forall c ensures multiset(Filtered(s))[c] <= multiset(s)[c] {
      FilteredCount(s, c);
    }
  }

  /** No selection of fewer resident chunks frees the needed bytes. */
  lemma FreshPlanIsSmallest(plan: EvictionPlan, resident: seq<Candidate>, needed: nat, distance: real, chosen: seq<Candidate>)
    requires PlanOf(plan, resident, needed) && Fresh(resident, distance)
    requires multiset(chosen) <= multiset(resident) && Total(chosen) >= needed
    ensures |chosen| >= |plan.candidates|
  {
    var sorted :| Ordered(sorted) && multiset(sorted) == multiset(Filtered(resident)) && GreedyPrefix(plan, sorted, needed);
    GreedyIsSmallest(plan, sorted, resident, needed, distance, chosen);
  }

  lemma UsefulPart(resident: seq<Candidate>, sorted: seq<Candidate>, distance: real, chosen: seq<Candidate>)
    requires Fresh(resident, distance) && multiset(sorted) == multiset(Filtered(resident))
    requires multiset(chosen) <= multiset(resident)
    ensures multiset(Filtered(chosen)) <= multiset(sorted)
    ensures Total(Filtered(chosen)) == Total(chosen) && |Filtered(chosen)| <= |chosen|
  {
    forall c | c in chosen ensures c.distance != 0.0 {
      assert c in multiset(chosen);
      assert c in resident;
    }
    FilteredTotal(chosen);
    forall c ensures multiset(Filtered(chosen))[c] <= multiset(sorted)[c] {
      FilteredCount(chosen, c);
      FilteredCount(resident, c);
      assert multiset(chosen)[c] <= multiset(resident)[c];
    }
  }

  lemma GreedyIsSmallest(plan: EvictionPlan, sorted: seq<Candidate>, resident: seq<Candidate>, needed: nat,
                         distance: real, chosen: seq<Candidate>)
    requires Ordered(sorted) && multiset(sorted) == multiset(Filtered(resident)) && GreedyPrefix(plan, sorted, needed)
    requires Fresh(resident, distance)
    requires multiset(chosen) <= multiset(resident) && Total(chosen) >= needed
    ensures |chosen| >= |plan.candidates|
  {
    assert Total(resident) <= U64_MAX;
    hide Filtered, Ordered, LargestFirst, Fresh, Total, GreedyPrefix;
    SortedResident(resident, sorted, distance);
    UsefulPart(resident, sorted, distance, chosen);
    GreedyTakesFewest(plan, sorted, needed, Filtered(chosen));
  }

  lemma GreedyTakesFewest(plan: EvictionPlan, sorted: seq<Candidate>, needed: nat, useful: seq<Candidate>)
    requires GreedyPrefix(plan, sorted, needed) && Total(sorted) <= U64_MAX && LargestFirst(sorted)
    requires multiset(useful) <= multiset(sorted) && Total(useful) >= needed
    ensures |useful| >= |plan.candidates|
  {
    hide Total, LargestFirst;
    LargestAreWorthMost(sorted, useful);
    ShortPrefixTotal(sorted, |useful|, plan.candidates);
  }

  lemma ShortPrefixTotal(s: seq<Candidate>, m: nat, prefix: seq<Candidate>)
    requires prefix <= s
    ensures m < |prefix| ==> Total(s[..m]) <= Total(prefix[..|prefix| - 1])
  {
    if m < |prefix| {
      var shorter := prefix[..|prefix| - 1];
      PrefixTotal(shorter, m);
      assert shorter[..m] == s[..m];
    }
  }
}
