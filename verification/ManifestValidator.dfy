/** The manifest validator: canonical order, per-entry eligibility, the one-pass overlap sweep and
    the missing ranges (src/checkpoint/CheckpointManifestValidator.cpp). */
module ManifestValidator {
  import opened CheckpointTypes
  import opened ComputationIdentity
  import Sequences
  import Sorting

  datatype CheckpointManifest = CheckpointManifest(identity: Identity, entries: seq<ManifestEntry>)

  datatype Reason = IdentityMismatch | NonCanonicalOrder | InvalidRange | InvalidTreeLevel | IncompleteEntry
                  | DuplicateRange | OverlappingRange | MissingRangeReason

  datatype Validation = Validation(diagnostics: seq<Reason>, acceptedEntries: seq<ManifestEntry>,
                                   missingRanges: seq<MissingRange>)
  {
    predicate IsAccepted() { diagnostics == [] }
  }

  // ---------- what an entry has to satisfy on its own, and among the others ----------

  predicate Eligible(e: ManifestEntry, termCount: nat) {
    && e.location.Valid(termCount)
    && e.location.treeLevel <= MaximumTreeLevel(termCount)
    && e.completion == Complete
  }

  /** Eligible, listed once, and disjoint from every other eligible entry. */
  ghost predicate Isolated(e: ManifestEntry, entries: seq<ManifestEntry>, termCount: nat) {
    && multiset(entries)[e] == 1
    && Eligible(e, termCount)
    && forall f | f in entries && f != e && Eligible(f, termCount) :: !e.location.Overlaps(f.location)
  }

  ghost predicate StrictlyOrdered(entries: seq<ManifestEntry>) {
    forall i, j | 0 <= i < j < |entries| :: entries[i].location.Less(entries[j].location)
  }

  ghost predicate WeaklyOrdered(entries: seq<ManifestEntry>) {
    forall i, j | 0 <= i < j < |entries| :: !entries[j].location.Less(entries[i].location)
  }

  /** Ranges in order of start, none reaching into the next. */
  ghost predicate Disjoint(entries: seq<ManifestEntry>) {
    forall i, j | 0 <= i < j < |entries| :: entries[i].location.end <= entries[j].location.start
  }

  /** The accepted entries are determined by the listed ones: exactly the isolated ones, in order. */
  ghost predicate AcceptedOf(accepted: seq<ManifestEntry>, entries: seq<ManifestEntry>, termCount: nat) {
    && Disjoint(accepted)
    && forall e :: e in accepted <==> Isolated(e, entries, termCount)
  }

  /** Entry i starts where its predecessor ends. */
  predicate Follows(entries: seq<ManifestEntry>, i: nat)
    requires 0 < i < |entries|
  {
    entries[i].location.start == entries[i - 1].location.end
  }

  /** A manifest that covers [0, termCount) with eligible entries and nothing else. */
  ghost predicate ExactFrontier(entries: seq<ManifestEntry>, termCount: nat) {
    && entries != []
    && (forall e | e in entries :: Eligible(e, termCount))
    && entries[0].location.start == 0
    && (forall i | 0 < i < |entries| :: Follows(entries, i))
    && entries[|entries| - 1].location.end == termCount
  }

  // ---------- sorting ----------

  lemma LessTotal(a: BlockLocation, b: BlockLocation, c: BlockLocation)
    ensures a.Less(b) ==> !b.Less(a)
    ensures !b.Less(a) && !c.Less(b) ==> !c.Less(a)
  {
  }

  predicate NotAfter(a: ManifestEntry, b: ManifestEntry) {
    !b.location.Less(a.location)
  }

  /** std::sort by key: entries with equal keys may come in any order. */
  method SortByKey(entries: seq<ManifestEntry>) returns (sorted: seq<ManifestEntry>)
    ensures WeaklyOrdered(sorted) && multiset(sorted) == multiset(entries)
  {
    forall a: ManifestEntry, b: ManifestEntry, c: ManifestEntry
      ensures NotAfter(a, b) || NotAfter(b, a)
      ensures NotAfter(a, b) && NotAfter(b, c) ==> NotAfter(a, c)
    {
      LessTotal(a.location, b.location, c.location);
    }
    sorted := Sorting.Sort(entries, NotAfter);
    assert Sorting.Ordered(sorted, NotAfter);
    forall i, j | 0 <= i < j < |sorted| ensures !sorted[j].location.Less(sorted[i].location) {
      assert NotAfter(sorted[i], sorted[j]);
    }
  }

  /** A strictly ordered list is the only ordered arrangement of its entries. */
  lemma SortedUnique(s: seq<ManifestEntry>, t: seq<ManifestEntry>)
    requires WeaklyOrdered(s) && StrictlyOrdered(t) && multiset(s) == multiset(t)
    ensures s == t
  {
    assert Sorting.Ordered(s, NotAfter);
    forall i, j | 0 <= i < j < |t| ensures NotAfter(t[i], t[j]) && !NotAfter(t[j], t[i]) {
      LessTotal(t[i].location, t[j].location, t[j].location);
    }
    Sorting.SortedUnique(s, t, NotAfter);
  }

  // ---------- the sweep ----------

  /** Index j is hit by another unflagged index below the bound. */
  ghost predicate HitBefore(sorted: seq<ManifestEntry>, flagged: seq<bool>, j: nat, bound: nat)
    requires j < |sorted| == |flagged| && bound <= |sorted|
  {
    exists k | 0 <= k < bound :: k != j && !flagged[k] && sorted[j].location.Overlaps(sorted[k].location)
  }

  /** The index of the furthest end among the unflagged entries below the bound. */
  ghost predicate IsFurthest(sorted: seq<ManifestEntry>, flagged: seq<bool>, bound: nat, furthest: Option<nat>, end: nat)
    requires bound <= |sorted| == |flagged|
  {
    match furthest
    case None => forall k | 0 <= k < bound :: flagged[k]
    case Some(f) =>
      && f < bound && !flagged[f] && sorted[f].location.end == end
      && forall k | 0 <= k < bound && !flagged[k] :: sorted[k].location.end <= end
  }

  /** Entries in order, with a flag for those that are out from the start. */
  ghost predicate SweepInput(sorted: seq<ManifestEntry>, flagged: seq<bool>) {
    && |flagged| == |sorted|
    && WeaklyOrdered(sorted)
    && forall k | 0 <= k < |sorted| && !flagged[k] :: sorted[k].location.start < sorted[k].location.end
  }

  /** What the sweep has established for the indices below the bound. */
  ghost predicate SweptTo(sorted: seq<ManifestEntry>, flagged: seq<bool>, rejected: seq<bool>, bound: nat)
    requires |sorted| == |flagged| == |rejected| && bound <= |sorted|
  {
    && (forall j | bound <= j < |sorted| :: rejected[j] == flagged[j])
    && (forall j | 0 <= j < bound :: rejected[j] <==> flagged[j] || HitBefore(sorted, flagged, j, bound))
  }

  /** An entry that hits an earlier one starts before the furthest end and hits the furthest; and the
      earlier one, unless it is the furthest, overlaps the furthest too. */
  lemma SweepStep(sorted: seq<ManifestEntry>, flagged: seq<bool>, i: nat, furthest: nat, k: nat)
    requires SweepInput(sorted, flagged) && furthest < i < |sorted|
    requires IsFurthest(sorted, flagged, i, Some(furthest), sorted[furthest].location.end)
    requires !flagged[i] && k < i && !flagged[k]
    requires sorted[i].location.Overlaps(sorted[k].location)
    ensures sorted[i].location.start < sorted[furthest].location.end
    ensures sorted[i].location.Overlaps(sorted[furthest].location)
    ensures k != furthest ==> sorted[k].location.Overlaps(sorted[furthest].location)
  {
    assert sorted[k].location.start <= sorted[i].location.start;
    assert sorted[furthest].location.start <= sorted[i].location.start;
  }

  method Sweep(sorted: seq<ManifestEntry>, flagged: seq<bool>, diagnostics: seq<Reason>)
    returns (rejected: seq<bool>, found: seq<Reason>)
    requires SweepInput(sorted, flagged)
    ensures |rejected| == |sorted|
    ensures SweptTo(sorted, flagged, rejected, |sorted|)
    ensures found == [] <==> (diagnostics == [] && rejected == flagged)
  {
    rejected, found := flagged, diagnostics;
    var furthestIndex: Option<nat> := None;
    var furthestEnd := 0;
    for index := 0 to |sorted|
      invariant |rejected| == |sorted|
      invariant SweptTo(sorted, flagged, rejected, index)
      invariant IsFurthest(sorted, flagged, index, furthestIndex, furthestEnd)
      invariant found == [] <==> (diagnostics == [] && rejected == flagged)
    {
      ghost var before := rejected;
      if rejected[index] {
        SkipFlagged(sorted, flagged, before, index);
        continue;
      }
      if furthestIndex.Some? && sorted[index].location.start < furthestEnd {
        rejected := rejected[index := true][furthestIndex.value := true];
        var sameRange := sorted[index].location.start == sorted[furthestIndex.value].location.start
                      && sorted[index].location.end == sorted[furthestIndex.value].location.end;
        assert rejected[index] != flagged[index];
        found := found + [if sameRange then DuplicateRange else OverlappingRange];
      }
      AdvanceSweep(sorted, flagged, index, furthestIndex, furthestEnd, before, rejected);
      if furthestIndex.None? || sorted[index].location.end > furthestEnd {
        furthestEnd := sorted[index].location.end;
        furthestIndex := Some(index);
      }
    }
  }

  lemma SkipFlagged(sorted: seq<ManifestEntry>, flagged: seq<bool>, rejected: seq<bool>, i: nat)
    requires |sorted| == |flagged| == |rejected| && i < |sorted| && flagged[i]
    requires SweptTo(sorted, flagged, rejected, i)
    ensures SweptTo(sorted, flagged, rejected, i + 1)
  {
    forall j | 0 <= j <= i ensures rejected[j] <==> flagged[j] || HitBefore(sorted, flagged, j, i + 1) {
      if j < i && HitBefore(sorted, flagged, j, i + 1) {
        var k :| 0 <= k < i + 1 && k != j && !flagged[k] && sorted[j].location.Overlaps(sorted[k].location);
        assert k < i;
      }
    }
  }

  /** The two flags the sweep sets keep its invariant. */
  lemma AdvanceSweep(sorted: seq<ManifestEntry>, flagged: seq<bool>, i: nat, furthest: Option<nat>, end: nat,
                     before: seq<bool>, after: seq<bool>)
    requires SweepInput(sorted, flagged) && i < |sorted| == |before| && !flagged[i]
    requires SweptTo(sorted, flagged, before, i)
    requires IsFurthest(sorted, flagged, i, furthest, end)
    requires after == if furthest.Some? && sorted[i].location.start < end
                      then before[i := true][furthest.value := true] else before
    ensures SweptTo(sorted, flagged, after, i + 1)
  {
    forall j | 0 <= j <= i ensures after[j] <==> flagged[j] || HitBefore(sorted, flagged, j, i + 1) {
      AdvanceAt(sorted, flagged, i, furthest, end, before, after, j);
    }
  }

  lemma AdvanceAt(sorted: seq<ManifestEntry>, flagged: seq<bool>, i: nat, furthest: Option<nat>, end: nat,
                  before: seq<bool>, after: seq<bool>, j: nat)
    requires SweepInput(sorted, flagged) && j <= i < |sorted| == |before| && !flagged[i]
    requires SweptTo(sorted, flagged, before, i)
    requires IsFurthest(sorted, flagged, i, furthest, end)
    requires after == if furthest.Some? && sorted[i].location.start < end
                      then before[i := true][furthest.value := true] else before
    ensures after[j] <==> flagged[j] || HitBefore(sorted, flagged, j, i + 1)
  {
    if furthest.Some? {
      var f := furthest.value;
      assert sorted[f].location.start <= sorted[i].location.start;
      if j == i {
        if HitBefore(sorted, flagged, i, i + 1) {
          var k :| 0 <= k < i + 1 && k != i && !flagged[k] && sorted[i].location.Overlaps(sorted[k].location);
          SweepStep(sorted, flagged, i, f, k);
        }
      } else if !flagged[j] {
        if sorted[j].location.Overlaps(sorted[i].location) {
          SweepStep(sorted, flagged, i, f, j);
          assert HitBefore(sorted, flagged, j, i + 1);
        } else {
          assert HitBefore(sorted, flagged, j, i + 1) <==> HitBefore(sorted, flagged, j, i);
        }
      }
    }
  }

  // ---------- from indices to entries ----------

  lemma CountElsewhere(s: seq<ManifestEntry>, j: nat)
    requires j < |s|
    ensures multiset(s)[s[j]] >= 1
    ensures multiset(s)[s[j]] == 1 <==> forall k | 0 <= k < |s| && k != j :: s[k] != s[j]
  {
    var e, rest := s[j], s[..j] + s[j + 1..];
    assert s == s[..j] + [e] + s[j + 1..];
    assert multiset(s) == multiset(rest) + multiset{e};
    if k :| 0 <= k < |s| && k != j && s[k] == e {
      assert rest[if k < j then k else k - 1] == e;
      assert e in multiset(rest);
    } else {
      assert forall i | 0 <= i < |rest| :: rest[i] == s[if i < j then i else i + 1];
      assert e !in rest;
      assert e !in multiset(rest);
    }
  }

  /** Among ordered entries, those left after a complete sweep are exactly the isolated ones. */
  lemma SurvivorIsIsolated(entries: seq<ManifestEntry>, sorted: seq<ManifestEntry>, flagged: seq<bool>, j: nat, termCount: nat)
    requires multiset(sorted) == multiset(entries) && |flagged| == |sorted| && j < |sorted|
    requires forall k | 0 <= k < |sorted| :: flagged[k] == !Eligible(sorted[k], termCount)
    ensures Isolated(sorted[j], entries, termCount) <==> !flagged[j] && !HitBefore(sorted, flagged, j, |sorted|)
  {
    Sorting.SameElements(sorted, entries);
    CountElsewhere(sorted, j);
    var e := sorted[j];
    if Isolated(e, entries, termCount) {
      assert !HitBefore(sorted, flagged, j, |sorted|) by {
        if k :| 0 <= k < |sorted| && k != j && !flagged[k] && e.location.Overlaps(sorted[k].location) {
          assert false;
        }
      }
    } else if !flagged[j] {
      if multiset(sorted)[e] != 1 {
        var k :| 0 <= k < |sorted| && k != j && sorted[k] == e;
        assert e.location.Overlaps(sorted[k].location);
      } else {
        var f :| f in entries && f != e && Eligible(f, termCount) && e.location.Overlaps(f.location);
        var k :| 0 <= k < |sorted| && sorted[k] == f;
        assert !flagged[k];
      }
    }
  }

  lemma SurvivorsApart(sorted: seq<ManifestEntry>, flagged: seq<bool>, rejected: seq<bool>, j: nat, i: nat)
    requires SweepInput(sorted, flagged) && |rejected| == |sorted|
    requires SweptTo(sorted, flagged, rejected, |sorted|)
    requires j < i < |sorted| && !rejected[j] && !rejected[i]
    ensures sorted[j].location.end <= sorted[i].location.start
  {
    assert sorted[j].location.start <= sorted[i].location.start;
    assert !HitBefore(sorted, flagged, j, |sorted|);
    assert !sorted[j].location.Overlaps(sorted[i].location);
  }

  method CollectAccepted(sorted: seq<ManifestEntry>, flagged: seq<bool>, rejected: seq<bool>)
    returns (accepted: seq<ManifestEntry>)
    requires SweepInput(sorted, flagged) && |rejected| == |sorted|
    requires SweptTo(sorted, flagged, rejected, |sorted|)
    ensures Disjoint(accepted)
    ensures forall e :: e in accepted <==> exists j :: 0 <= j < |sorted| && !rejected[j] && sorted[j] == e
    ensures (forall j | 0 <= j < |sorted| :: !rejected[j]) ==> accepted == sorted
    ensures (forall j | 0 <= j < |sorted| :: rejected[j]) ==> accepted == []
  {
    accepted := [];
    for index := 0 to |sorted|
      invariant Disjoint(accepted)
      invariant forall e :: e in accepted <==> exists j :: 0 <= j < index && !rejected[j] && sorted[j] == e
      invariant (forall j | 0 <= j < |sorted| :: !rejected[j]) ==> accepted == sorted[..index]
      invariant (forall j | 0 <= j < |sorted| :: rejected[j]) ==> accepted == []
    {
      if !rejected[index] {
        forall e | e in accepted ensures e.location.end <= sorted[index].location.start {
          var j :| 0 <= j < index && !rejected[j] && sorted[j] == e;
          SurvivorsApart(sorted, flagged, rejected, j, index);
        }
        accepted := accepted + [sorted[index]];
      }
    }
  }

  // ---------- missing ranges ----------

  /** The gaps before, between and after the accepted ranges. */
  function Gaps(accepted: seq<ManifestEntry>, cursor: nat, termCount: nat): seq<MissingRange> {
    if accepted == [] then
      if cursor < termCount then [MissingRange(cursor, termCount)] else []
    else
      var next := accepted[0].location;
      (if cursor < next.start then [MissingRange(cursor, next.start)] else []) + Gaps(accepted[1..], next.end, termCount)
  }

  /** Accepted and missing ranges, each in its own order, tile [cursor, termCount) one after the other;
      a missing range is never followed by another. */
  ghost predicate Tiles(accepted: seq<ManifestEntry>, missing: seq<MissingRange>, cursor: nat, termCount: nat)
    decreases |accepted| + |missing|
  {
    if accepted != [] && accepted[0].location.start == cursor then
      && cursor < accepted[0].location.end
      && Tiles(accepted[1..], missing, accepted[0].location.end, termCount)
    else if missing != [] then
      && missing[0].start == cursor < missing[0].end
      && (if accepted == [] then missing[0].end == termCount else missing[0].end == accepted[0].location.start)
      && Tiles(accepted, missing[1..], missing[0].end, termCount)
    else
      accepted == [] && cursor == termCount
  }

  lemma {:induction false} GapsTile(accepted: seq<ManifestEntry>, cursor: nat, termCount: nat)
    requires Disjoint(accepted) && cursor <= termCount
    requires forall e | e in accepted :: cursor <= e.location.start < e.location.end <= termCount
    ensures Tiles(accepted, Gaps(accepted, cursor, termCount), cursor, termCount)
    decreases |accepted|
  {
    if accepted == [] {
    } else {
      var next, rest := accepted[0].location, accepted[1..];
      forall e | e in rest ensures next.end <= e.location.start {
        var j :| 0 <= j < |rest| && rest[j] == e;
        assert accepted[j + 1] == e;
      }
      GapsTile(rest, next.end, termCount);
      OneMoreTile(accepted, cursor, termCount, Gaps(rest, next.end, termCount));
    }
  }

  lemma OneMoreTile(accepted: seq<ManifestEntry>, cursor: nat, termCount: nat, gaps: seq<MissingRange>)
    requires accepted != [] && cursor <= accepted[0].location.start < accepted[0].location.end
    requires Tiles(accepted[1..], gaps, accepted[0].location.end, termCount)
    ensures Tiles(accepted, (if cursor < accepted[0].location.start then [MissingRange(cursor, accepted[0].location.start)]
                             else []) + gaps, cursor, termCount)
  {
    var start := accepted[0].location.start;
    assert Tiles(accepted, gaps, start, termCount);
    if cursor < start {
      assert ([MissingRange(cursor, start)] + gaps)[1..] == gaps;
    } else {
      assert [] + gaps == gaps;
    }
  }

  /** Tiles mean that every term is in exactly one accepted or missing range. */
  lemma {:induction false} TilesCoverOnce(accepted: seq<ManifestEntry>, missing: seq<MissingRange>,
                                          cursor: nat, termCount: nat, term: nat)
    requires Tiles(accepted, missing, cursor, termCount)
    ensures (exists e :: e in accepted && e.location.start <= term < e.location.end)
         || (exists m :: m in missing && m.start <= term < m.end)
         <==> cursor <= term < termCount
    ensures !((exists e :: e in accepted && e.location.start <= term < e.location.end)
           && (exists m :: m in missing && m.start <= term < m.end))
    decreases |accepted| + |missing|
  {
    if accepted != [] && accepted[0].location.start == cursor {
      TilesCoverOnce(accepted[1..], missing, accepted[0].location.end, termCount, term);
      TilesBound(accepted[1..], missing, accepted[0].location.end, termCount);
      assert accepted == [accepted[0]] + accepted[1..];
      assert forall e :: e in accepted <==> e == accepted[0] || e in accepted[1..];
    } else if missing != [] {
      TilesCoverOnce(accepted, missing[1..], missing[0].end, termCount, term);
      TilesBound(accepted, missing[1..], missing[0].end, termCount);
      assert missing == [missing[0]] + missing[1..];
      assert forall m :: m in missing <==> m == missing[0] || m in missing[1..];
    }
  }

  lemma {:induction false} TilesBound(accepted: seq<ManifestEntry>, missing: seq<MissingRange>, cursor: nat, termCount: nat)
    requires Tiles(accepted, missing, cursor, termCount)
    ensures cursor <= termCount
    decreases |accepted| + |missing|
  {
    if accepted != [] && accepted[0].location.start == cursor {
      TilesBound(accepted[1..], missing, accepted[0].location.end, termCount);
    } else if missing != [] {
      TilesBound(accepted, missing[1..], missing[0].end, termCount);
    }
  }

  /** The gap before an entry goes from what is still to be found to what has been. */
  lemma GapsStep(accepted: seq<ManifestEntry>, index: nat, cursor: nat, termCount: nat, missing: seq<MissingRange>)
    requires index < |accepted|
    ensures var l := accepted[index].location;
            (if cursor < l.start then missing + [MissingRange(cursor, l.start)] else missing)
              + Gaps(accepted[index + 1..], l.end, termCount)
            == missing + Gaps(accepted[index..], cursor, termCount)
  {
    var rest, l := accepted[index..], accepted[index].location;
    assert rest[1..] == accepted[index + 1..] && rest[0] == accepted[index];
    var gap := if cursor < l.start then [MissingRange(cursor, l.start)] else [];
    Sequences.Associative(missing, gap, Gaps(accepted[index + 1..], l.end, termCount));
  }

  method CollectMissing(accepted: seq<ManifestEntry>, termCount: nat) returns (missing: seq<MissingRange>)
    ensures missing == Gaps(accepted, 0, termCount)
  {
    missing := [];
    var cursor: nat := 0;
    for index := 0 to |accepted|
      invariant missing + Gaps(accepted[index..], cursor, termCount) == Gaps(accepted, 0, termCount)
    {
      var entry := accepted[index];
      GapsStep(accepted, index, cursor, termCount, missing);
      if cursor < entry.location.start {
        missing := missing + [MissingRange(cursor, entry.location.start)];
      }
      cursor := entry.location.end;
    }
    assert accepted[|accepted|..] == [];
    if cursor < termCount {
      missing := missing + [MissingRange(cursor, termCount)];
    }
  }

  // ---------- the whole validation ----------

  method CheckOrder(entries: seq<ManifestEntry>) returns (ordered: bool)
    ensures ordered <==> StrictlyOrdered(entries)
  {
    var index := 1;
    while index < |entries|
      invariant 1 <= index
      invariant forall i, j | 0 <= i < j < |entries| && j < index :: entries[i].location.Less(entries[j].location)
    {
      if !entries[index - 1].location.Less(entries[index].location) {
        return false;
      }
      forall i | 0 <= i < index ensures entries[i].location.Less(entries[index].location) {
        if i < index - 1 {
          assert entries[i].location.Less(entries[index - 1].location);
        }
      }
      index := index + 1;
    }
    return true;
  }

  method FlagIneligible(sorted: seq<ManifestEntry>, identityValid: bool, termCount: nat, diagnostics: seq<Reason>)
    returns (flagged: seq<bool>, found: seq<Reason>)
    ensures |flagged| == |sorted|
    ensures forall k | 0 <= k < |sorted| :: flagged[k] == (!identityValid || !Eligible(sorted[k], termCount))
    ensures found == [] <==> diagnostics == [] && forall k | 0 <= k < |sorted| :: Eligible(sorted[k], termCount)
  {
    flagged, found := seq(|sorted|, _ => !identityValid), diagnostics;
    for index := 0 to |sorted|
      invariant |flagged| == |sorted|
      invariant forall k | 0 <= k < index :: flagged[k] == (!identityValid || !Eligible(sorted[k], termCount))
      invariant forall k | index <= k < |sorted| :: flagged[k] == !identityValid
      invariant found == [] <==> diagnostics == [] && forall k | 0 <= k < index :: Eligible(sorted[k], termCount)
    {
      if !sorted[index].location.Valid(termCount) {
        flagged, found := flagged[index := true], found + [InvalidRange];
      }
      if sorted[index].location.treeLevel > MaximumTreeLevel(termCount) {
        flagged, found := flagged[index := true], found + [InvalidTreeLevel];
      }
      if sorted[index].completion != Complete {
        flagged, found := flagged[index := true], found + [IncompleteEntry];
      }
    }
  }

  predicate IdentityMatches(manifest: CheckpointManifest, expected: Identity) {
    expected.Valid() && manifest.identity.Valid() && manifest.identity == expected
  }

  /** `CheckpointManifestValidator::validate`. */
  method Validate(manifest: CheckpointManifest, expected: Identity) returns (v: Validation)
    ensures if IdentityMatches(manifest, expected)
            then AcceptedOf(v.acceptedEntries, manifest.entries, expected.termCount)
            else v.acceptedEntries == []
    ensures v.missingRanges == Gaps(v.acceptedEntries, 0, expected.termCount)
    ensures v.IsAccepted() <==> IdentityMatches(manifest, expected)
                                && ExactFrontier(manifest.entries, expected.termCount)
    ensures v.IsAccepted() ==> v.acceptedEntries == manifest.entries
  {
    hide Gaps, ExactFrontier;
    var entries, n := manifest.entries, expected.termCount;
    var diagnostics: seq<Reason> := [];
    var identityValid := expected.Valid() && manifest.identity.Valid();
    if !identityValid {
      diagnostics := diagnostics + [IdentityMismatch];
    }
    if identityValid && manifest.identity != expected {
      identityValid := false;
      diagnostics := diagnostics + [IdentityMismatch];
    }
    var ordered := CheckOrder(entries);
    if !ordered {
      diagnostics := diagnostics + [NonCanonicalOrder];
    }
    var sorted := SortByKey(entries);
    Sorting.SameElements(sorted, entries);
    var flagged, rejected;
    flagged, diagnostics := FlagIneligible(sorted, identityValid, n, diagnostics);
    OrderByStart(sorted, flagged);
    rejected, diagnostics := Sweep(sorted, flagged, diagnostics);
    var accepted := CollectAccepted(sorted, flagged, rejected);
    var missing := CollectMissing(accepted, n);
    ghost var beforeMissing := diagnostics;
    for index := 0 to |missing|
      invariant diagnostics == [] <==> beforeMissing == [] && index == 0
    {
      diagnostics := diagnostics + [MissingRangeReason];
    }
    v := Validation(diagnostics, accepted, missing);
    if identityValid {
      AcceptedAreIsolated(entries, sorted, flagged, rejected, accepted, n);
      CleanIsExact(entries, sorted, flagged, rejected, accepted, n, ordered);
    }
  }

  lemma OrderByStart(sorted: seq<ManifestEntry>, flagged: seq<bool>)
    requires WeaklyOrdered(sorted) && |flagged| == |sorted|
    requires forall k | 0 <= k < |sorted| && !flagged[k] :: sorted[k].location.start < sorted[k].location.end
    ensures SweepInput(sorted, flagged)
  {
  }

  lemma AcceptedAreIsolated(entries: seq<ManifestEntry>, sorted: seq<ManifestEntry>, flagged: seq<bool>,
                            rejected: seq<bool>, accepted: seq<ManifestEntry>, termCount: nat)
    requires multiset(sorted) == multiset(entries) && |flagged| == |rejected| == |sorted|
    requires forall k | 0 <= k < |sorted| :: flagged[k] == !Eligible(sorted[k], termCount)
    requires SweptTo(sorted, flagged, rejected, |sorted|)
    requires Disjoint(accepted)
    requires forall e :: e in accepted <==> exists j :: 0 <= j < |sorted| && !rejected[j] && sorted[j] == e
    ensures AcceptedOf(accepted, entries, termCount)
  {
    Sorting.SameElements(sorted, entries);
    forall e ensures e in accepted <==> Isolated(e, entries, termCount) {
      forall j | 0 <= j < |sorted| && sorted[j] == e
        ensures Isolated(e, entries, termCount) <==> !rejected[j]
      {
        SurvivorIsIsolated(entries, sorted, flagged, j, termCount);
      }
      if Isolated(e, entries, termCount) {
        assert e in multiset(entries);
        var j :| 0 <= j < |sorted| && sorted[j] == e;
      }
    }
  }

  /** No diagnostic at all means: the entries are exactly one tiling of [0, termCount). */
  lemma CleanIsExact(entries: seq<ManifestEntry>, sorted: seq<ManifestEntry>, flagged: seq<bool>,
                     rejected: seq<bool>, accepted: seq<ManifestEntry>, termCount: nat, ordered: bool)
    requires SweepInput(sorted, flagged) && multiset(sorted) == multiset(entries) && |rejected| == |sorted|
    requires forall k | 0 <= k < |sorted| :: flagged[k] == !Eligible(sorted[k], termCount)
    requires SweptTo(sorted, flagged, rejected, |sorted|)
    requires (forall j | 0 <= j < |sorted| :: !rejected[j]) ==> accepted == sorted
    requires ordered <==> StrictlyOrdered(entries)
    requires Disjoint(accepted) && termCount > 0
    ensures ordered && (forall k | 0 <= k < |sorted| :: Eligible(sorted[k], termCount)) && rejected == flagged
            && Gaps(accepted, 0, termCount) == []
            <==> ExactFrontier(entries, termCount)
    ensures ExactFrontier(entries, termCount) ==> accepted == entries
  {
    Sorting.SameElements(sorted, entries);
    if ordered { SortedUnique(sorted, entries); }
    if ExactFrontier(entries, termCount) {
      ExactIsDisjoint(entries, termCount);
      SortedUnique(sorted, entries);
      forall j | 0 <= j < |sorted| ensures !flagged[j] && !HitBefore(sorted, flagged, j, |sorted|) {
        assert sorted[j] in entries;
      }
      assert rejected == flagged;
      ContiguousHasNoGaps(entries, 0, termCount);
    } else if ordered && (forall k | 0 <= k < |sorted| :: Eligible(sorted[k], termCount)) && rejected == flagged {
      if Gaps(accepted, 0, termCount) == [] {
        NoGapsIsContiguous(entries, 0, termCount);
        assert false;
      }
    }
  }

  lemma {:induction false} ExactIsDisjoint(entries: seq<ManifestEntry>, termCount: nat)
    requires ExactFrontier(entries, termCount)
    ensures Disjoint(entries) && StrictlyOrdered(entries)
  {
    var k := 0;
    while k < |entries|
      invariant 0 <= k <= |entries|
      invariant forall i, j | 0 <= i < j < k :: entries[i].location.end <= entries[j].location.start
    {
      assert entries[k] in entries;
      if k > 0 { assert entries[k - 1] in entries && Follows(entries, k); }
      k := k + 1;
    }
    assert forall i | 0 <= i < |entries| :: Eligible(entries[i], termCount);
  }

  ghost predicate Contiguous(entries: seq<ManifestEntry>, cursor: nat, termCount: nat) {
    if entries == [] then cursor == termCount
    else entries[0].location.start == cursor && Contiguous(entries[1..], entries[0].location.end, termCount)
  }

  lemma {:induction false} ContiguousByIndex(entries: seq<ManifestEntry>, cursor: nat, termCount: nat)
    ensures Contiguous(entries, cursor, termCount) <==>
              if entries == [] then cursor == termCount else
              && entries[0].location.start == cursor
              && (forall i | 0 < i < |entries| :: Follows(entries, i))
              && entries[|entries| - 1].location.end == termCount
    decreases |entries|
  {
    if |entries| > 1 {
      var rest := entries[1..];
      ContiguousByIndex(rest, entries[0].location.end, termCount);
      assert Follows(entries, 1) <==> entries[1].location.start == entries[0].location.end;
      forall i | 0 < i < |rest| ensures Follows(rest, i) <==> Follows(entries, i + 1) {
      }
      if forall i | 0 < i < |rest| :: Follows(rest, i) {
        forall i | 1 < i < |entries| ensures Follows(entries, i) {
          assert Follows(rest, i - 1);
        }
      }
    }
  }

  lemma {:induction false} ContiguousHasNoGaps(entries: seq<ManifestEntry>, cursor: nat, termCount: nat)
    requires if entries == [] then cursor == termCount else
             && entries[0].location.start == cursor
             && (forall i | 0 < i < |entries| :: Follows(entries, i))
             && entries[|entries| - 1].location.end == termCount
    ensures Gaps(entries, cursor, termCount) == []
    decreases |entries|
  {
    ContiguousByIndex(entries, cursor, termCount);
    if entries != [] {
      ContiguousByIndex(entries[1..], entries[0].location.end, termCount);
      ContiguousHasNoGaps(entries[1..], entries[0].location.end, termCount);
    }
  }

  lemma {:induction false} NoGapsIsContiguous(entries: seq<ManifestEntry>, cursor: nat, termCount: nat)
    requires Gaps(entries, cursor, termCount) == [] && Disjoint(entries) && cursor <= termCount
    requires forall e | e in entries :: cursor <= e.location.start < e.location.end <= termCount
    ensures Contiguous(entries, cursor, termCount)
    ensures if entries == [] then cursor == termCount else
            && entries[0].location.start == cursor
            && (forall i | 0 < i < |entries| :: Follows(entries, i))
            && entries[|entries| - 1].location.end == termCount
    decreases |entries|
  {
    if entries != [] {
      var rest := entries[1..];
      forall e | e in rest ensures entries[0].location.end <= e.location.start {
        var j :| 0 <= j < |rest| && rest[j] == e;
        assert entries[j + 1] == e;
      }
      NoGapsIsContiguous(rest, entries[0].location.end, termCount);
    }
    ContiguousByIndex(entries, cursor, termCount);
  }

  /** Accepted ranges and missing ranges partition [0, termCount), in order. */
  lemma AcceptedAndMissingPartition(entries: seq<ManifestEntry>, accepted: seq<ManifestEntry>, termCount: nat)
    requires AcceptedOf(accepted, entries, termCount)
    ensures Tiles(accepted, Gaps(accepted, 0, termCount), 0, termCount)
  {
    assert forall e | e in accepted :: Isolated(e, entries, termCount);
    GapsTile(accepted, 0, termCount);
  }
}
