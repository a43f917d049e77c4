/** The identity of a computation and its validation against the precision policy
    (include/checkpoint/CheckpointTypes.hpp, src/checkpoint/CheckpointTypes.cpp). */
module ComputationIdentity {
  import opened Widths
  import P = PrecisionPolicy

  const CHUDNOVSKY_BINARY_SPLITTING: nat := 1
  const ARITHMETIC_FORMAT_VERSION: nat := 1
  const FORMULA_VERSION: nat := 1

  datatype Identity = Identity(algorithm: nat, arithmeticVersion: nat, formulaVersion: nat,
                               requestedDigits: nat, guardDigits: nat, workingDigits: nat, termCount: nat)
  {
    predicate Valid() {
      && algorithm == CHUDNOVSKY_BINARY_SPLITTING
      && arithmeticVersion == ARITHMETIC_FORMAT_VERSION
      && formulaVersion == FORMULA_VERSION
      && requestedDigits <= U64_MAX && guardDigits <= U32_MAX
      && var expected := P.Create(requestedDigits, guardDigits);
         expected.Ok? && workingDigits == expected.value.workingDigits && termCount == expected.value.termCount
    }
  }

  function FromPrecisionPlan(plan: P.PrecisionPlan): Identity {
    Identity(CHUDNOVSKY_BINARY_SPLITTING, ARITHMETIC_FORMAT_VERSION, FORMULA_VERSION,
             plan.requestedDigits, plan.guardDigits, plan.workingDigits, plan.termCount)
  }

  /** An identity is valid exactly when it is the identity of the plan of its own digits; it then
      has at least two terms, and the digits alone fix the rest. */
  lemma ValidIsPlanned(identity: Identity)
    requires identity.requestedDigits <= U64_MAX && identity.guardDigits <= U32_MAX
    ensures var plan := P.Create(identity.requestedDigits, identity.guardDigits);
            identity.Valid() <==> plan.Ok? && identity == FromPrecisionPlan(plan.value)
    ensures identity.Valid() ==> identity.termCount >= 2 && identity.termCount <= U64_MAX
  {
    P.CreateExact(identity.requestedDigits, identity.guardDigits);
    if identity.Valid() {
      P.PlanConverges(identity.requestedDigits, identity.guardDigits);
      P.TermsFit(identity.workingDigits);
    }
  }
}
