/** Values shared by the checkpoint modules: block locations, manifest entries, and the deepest
    tree level a computation can have (include/checkpoint/CheckpointTypes.hpp,
    include/checkpoint/CheckpointManifest.hpp). */
module CheckpointTypes {
  import opened Widths

  datatype Option<+T> = None | Some(value: T)

  datatype BlockLocation = BlockLocation(start: nat, end: nat, treeLevel: nat) {

    /** `BlockLocation::validate`: non-empty and inside the computation. */
    predicate Valid(termCount: nat) {
      start < end <= termCount
    }

    /** The canonical order: start, then end, then tree level. */
    predicate Less(other: BlockLocation) {
      if start != other.start then start < other.start
      else if end != other.end then end < other.end
      else treeLevel < other.treeLevel
    }

    predicate Overlaps(other: BlockLocation) {
      start < other.end && other.start < end
    }
  }

  /** Names in the checkpoint directory. Block names are a function of the location alone
      (BlockPath shows that the rendered strings are distinct); temporary names carry a sequence. */
  datatype FileName = BlockFile(location: BlockLocation) | ManifestFile | TempFile(sequence: nat) | OtherFile(tag: nat)

  datatype CompletionState = Incomplete | Complete

  datatype ManifestEntry = ManifestEntry(location: BlockLocation, filename: FileName, payloadSize: nat,
                                         checksum: nat, completion: CompletionState)

  datatype MissingRange = MissingRange(start: nat, end: nat)

  // ---------- the deepest tree level ----------

  function Pow2(n: nat): nat {
    if n == 0 then 1 else 2 * Pow2(n - 1)
  }

  lemma {:induction false} Pow2Monotone(m: nat, n: nat)
    requires m <= n
    ensures 1 <= Pow2(m) <= Pow2(n)
  {
    if m < n {
      Pow2Monotone(m, n - 1);
    } else if m > 0 {
      Pow2Monotone(m - 1, m - 1);
    }
  }

  /** The number of doublings that reach the term count. */
  function MaximumTreeLevel(termCount: nat): (level: nat)
    ensures termCount <= Pow2(level)
    ensures level > 0 ==> Pow2(level - 1) < termCount
  {
    if termCount <= 1 then 0 else 1 + MaximumTreeLevel((termCount + 1) / 2)
  }

  lemma MaximumTreeLevelUnique(termCount: nat, level: nat)
    requires termCount <= Pow2(level)
    requires level > 0 ==> Pow2(level - 1) < termCount
    ensures level == MaximumTreeLevel(termCount)
  {
    var exact := MaximumTreeLevel(termCount);
    if level < exact {
      Pow2Monotone(level, exact - 1);
    } else if exact < level {
      Pow2Monotone(exact, level - 1);
    }
  }

  /** The doubling loop, with the source's guard against 64-bit overflow. */
  method ComputeMaximumTreeLevel(termCount: nat) returns (level: nat)
    requires termCount <= U64_MAX
    ensures level == MaximumTreeLevel(termCount)
  {
    level := 0;
    var capacity := 1;
    while capacity < termCount
      invariant capacity == Pow2(level) <= U64_MAX
      invariant level > 0 ==> Pow2(level - 1) < termCount
      decreases U64_MAX - capacity
    {
      if capacity > U64_MAX / 2 {
        MaximumTreeLevelUnique(termCount, level + 1);
        return level + 1;
      }
      capacity := capacity * 2;
      level := level + 1;
    }
    MaximumTreeLevelUnique(termCount, level);
  }
}
