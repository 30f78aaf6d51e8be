/** The migration envelope and its flags. `O` is the op representation a client reads: JSON images or op trees. */
module Envelope {
  import opened Wrappers

  datatype OnlinePhase = Expand | Contract

  datatype MigrationFlags = MigrationFlags(
    transactional: bool,
    destructive: bool,
    online: bool,
    requiresApproval: bool,
    timeoutMs: Option<nat>,
    lockTimeoutMs: Option<nat>,
    phase: Option<OnlinePhase>,
    repeatable: bool,
    engineGoodieDdl: bool)

  const DEFAULT_FLAGS := MigrationFlags(true, false, false, false, None, None, None, false, false)

  /** Every flag may be left unset. */
  datatype IrFlagsOverride = IrFlagsOverride(
    transactional: Option<bool>,
    destructive: Option<bool>,
    online: Option<bool>,
    requiresApproval: Option<bool>,
    repeatable: Option<bool>,
    engineGoodieDdl: Option<bool>,
    timeoutMs: Option<nat>,
    lockTimeoutMs: Option<nat>,
    phase: Option<OnlinePhase>)

  const NO_OVERRIDE := IrFlagsOverride(None, None, None, None, None, None, None, None, None)

  /** Each precondition is carried as its serialized JSON text. */
  datatype MigrationIr<O> = MigrationIr(
    irVersion: nat,
    name: string,
    ownerApp: string,
    ops: seq<O>,
    inverseOps: Option<seq<O>>,
    irreversible: Option<string>,
    flags: IrFlagsOverride,
    dependsOn: seq<string>,
    supersedes: seq<string>,
    preconditions: seq<string>,
    checksum: Option<string>)

  datatype ReverseError = ReverseDeclaredBothWays(reason: string)

  /** `enforce_ir_single_reverse`: a recorded inverse and a reason there is none exclude each other. */
  function EnforceIrSingleReverse<O>(ir: MigrationIr<O>): Result<(), ReverseError> {
    if ir.inverseOps.Some? && ir.irreversible.Some? then Err(ReverseDeclaredBothWays(ir.irreversible.value))
    else Ok(())
  }
}
