/** Which envelope fields the drift anchor certifies, and when the advisory hint speaks for it. */
module IrChecksum {
  import opened Wrappers
  import opened Unicode
  import opened Json
  import opened Envelope
  import opened FlagsImage
  import opened Preimage
  import opened StreamReader
  import Checksum

  function OrElse<T>(o: Option<T>, default: T): T {
    match o case Some(v) => v case None => default
  }

  /** The flags an override yields over the defaults. */
  function EffectiveFlags(o: IrFlagsOverride): MigrationFlags {
    MigrationFlags(
      OrElse(o.transactional, DEFAULT_FLAGS.transactional),
      OrElse(o.destructive, DEFAULT_FLAGS.destructive),
      OrElse(o.online, DEFAULT_FLAGS.online),
      OrElse(o.requiresApproval, DEFAULT_FLAGS.requiresApproval),
      o.timeoutMs,
      o.lockTimeoutMs,
      o.phase,
      OrElse(o.repeatable, DEFAULT_FLAGS.repeatable),
      OrElse(o.engineGoodieDdl, DEFAULT_FLAGS.engineGoodieDdl))
  }

  /** A recorded inverse takes precedence over a reason there is none. */
  function DeclaredReverse(ir: MigrationIr<Json>): ReverseDomain {
    match (ir.inverseOps, ir.irreversible)
    case (Some(ops), _) => Inverse(ops)
    case (None, Some(reason)) => Irreversible(reason)
    case (None, None) => NoReverse
  }

  function CommonOf(ir: MigrationIr<Json>): Common {
    Common(EffectiveFlags(ir.flags), ir.ownerApp, ir.dependsOn, ir.supersedes, ir.preconditions)
  }

  ghost function AuthoritativePreimage(ir: MigrationIr<Json>): Bytes {
    IrPreimage(ir.ops, CommonOf(ir), DeclaredReverse(ir))
  }

  ghost predicate EnvelopeHeld(ir: MigrationIr<Json>) {
    IrHeld(ir.ops, CommonOf(ir), DeclaredReverse(ir))
  }

  /** The merge as the program performs it: each default kept unless overridden, the rest copied. */
  method MergeFlags(o: IrFlagsOverride) returns (flags: MigrationFlags)
    ensures flags == EffectiveFlags(o)
    ensures flags.transactional == if o.transactional.Some? then o.transactional.value else true
    ensures flags.destructive == if o.destructive.Some? then o.destructive.value else false
    ensures flags.online == if o.online.Some? then o.online.value else false
    ensures flags.requiresApproval == if o.requiresApproval.Some? then o.requiresApproval.value else false
    ensures flags.repeatable == if o.repeatable.Some? then o.repeatable.value else false
    ensures flags.engineGoodieDdl == if o.engineGoodieDdl.Some? then o.engineGoodieDdl.value else false
    ensures flags.timeoutMs == o.timeoutMs && flags.lockTimeoutMs == o.lockTimeoutMs && flags.phase == o.phase
  {
    var transactional, destructive, online := true, false, false;
    var requiresApproval, repeatable, engineGoodieDdl := false, false, false;
    if o.transactional.Some? { transactional := o.transactional.value; }
    if o.destructive.Some? { destructive := o.destructive.value; }
    if o.online.Some? { online := o.online.value; }
    if o.requiresApproval.Some? { requiresApproval := o.requiresApproval.value; }
    if o.repeatable.Some? { repeatable := o.repeatable.value; }
    if o.engineGoodieDdl.Some? { engineGoodieDdl := o.engineGoodieDdl.value; }
    flags := MigrationFlags(transactional, destructive, online, requiresApproval, o.timeoutMs, o.lockTimeoutMs,
                            o.phase, repeatable, engineGoodieDdl);
  }

  /** `authoritative_ir_checksum`. */
  method AuthoritativeIrChecksum(ir: MigrationIr<Json>, digest: Bytes -> string) returns (checksum: string)
    ensures checksum == digest(AuthoritativePreimage(ir))
    ensures EnvelopeHeld(ir) ==> ReadIrStream(AuthoritativePreimage(ir)) == Some(EnvelopeStream(ir))
  {
    var flags := MergeFlags(ir.flags);
    var common := Common(flags, ir.ownerApp, ir.dependsOn, ir.supersedes, ir.preconditions);
    checksum := Checksum.OfIrVersionStrings(ir.ops, common, DeclaredReverse(ir), digest);
    if EnvelopeHeld(ir) { AnchorReads(ir); }
  }

  // ---- what the anchor certifies --------------------------------------------------------

  /** The stream of an envelope, field by field. */
  ghost function EnvelopeStream(ir: MigrationIr<Json>): IrStream {
    IrStream(
      Utf8(IR_DOMAIN_TAG),
      OpRegion(ir.ops),
      Tail(Utf8(FlagsJson(EffectiveFlags(ir.flags))), Utf8(ir.ownerApp), Utf8s(ir.dependsOn), Utf8s(ir.supersedes),
           Utf8s(ir.preconditions)),
      EnvelopeReverse(ir))
  }

  ghost function EnvelopeReverse(ir: MigrationIr<Json>): ReverseRegion {
    if ir.inverseOps.Some? then Declared(Utf8(INVERSE_TAG), OpRegion(ir.inverseOps.value))
    else if ir.irreversible.Some? then
      Declared(Utf8(IRREVERSIBLE_TAG), Utf8(ir.irreversible.value))
    else Undeclared
  }

  /** What is digested reads back as the envelope's own fields, each in its place. */
  lemma AnchorReads(ir: MigrationIr<Json>)
    requires EnvelopeHeld(ir)
    ensures ReadIrStream(AuthoritativePreimage(ir)) == Some(EnvelopeStream(ir))
  {
    IrStreamReadsBack(ir.ops, CommonOf(ir), DeclaredReverse(ir));
    ReversesAgree(ir);
  }

  lemma ReversesAgree(ir: MigrationIr<Json>)
    ensures ReverseRegionOf(DeclaredReverse(ir)) == EnvelopeReverse(ir)
  {}

  /** Overrides with one effect: booleans agree after their defaults, budgets and phase agree outright. */
  predicate SameOverrides(a: IrFlagsOverride, b: IrFlagsOverride) {
    && OrElse(a.transactional, true) == OrElse(b.transactional, true)
    && OrElse(a.destructive, false) == OrElse(b.destructive, false)
    && OrElse(a.online, false) == OrElse(b.online, false)
    && OrElse(a.requiresApproval, false) == OrElse(b.requiresApproval, false)
    && OrElse(a.repeatable, false) == OrElse(b.repeatable, false)
    && OrElse(a.engineGoodieDdl, false) == OrElse(b.engineGoodieDdl, false)
    && a.timeoutMs == b.timeoutMs && a.lockTimeoutMs == b.lockTimeoutMs && a.phase == b.phase
  }

  lemma EffectiveFlagsExactly(a: IrFlagsOverride, b: IrFlagsOverride)
    ensures EffectiveFlags(a) == EffectiveFlags(b) <==> SameOverrides(a, b)
  {}

  /** Everything about an envelope that the anchor can see, its reverse declarations aside. */
  ghost predicate SameArtifact(a: MigrationIr<Json>, b: MigrationIr<Json>) {
    && a.ops == b.ops
    && SameOverrides(a.flags, b.flags)
    && a.ownerApp == b.ownerApp
    && a.dependsOn == b.dependsOn && a.supersedes == b.supersedes
    && a.preconditions == b.preconditions
  }

  /**
   The anchor moves exactly when the artifact or its declared reverse changes. Name, wire
   version and the carried hint are not in the stream.
   */
  lemma AnchorCertifies(a: MigrationIr<Json>, b: MigrationIr<Json>)
    requires EnvelopeHeld(a) && EnvelopeHeld(b)
    ensures AuthoritativePreimage(a) == AuthoritativePreimage(b) <==>
            SameArtifact(a, b) && DeclaredReverse(a) == DeclaredReverse(b)
  {
    EffectiveFlagsExactly(a.flags, b.flags);
    if AuthoritativePreimage(a) == AuthoritativePreimage(b) {
      IrPreimageInjective(a.ops, CommonOf(a), DeclaredReverse(a), b.ops, CommonOf(b), DeclaredReverse(b));
    }
  }

  /** Past the single-reverse gate, the two reverse fields themselves are certified. */
  lemma AnchorCertifiesReverseFields(a: MigrationIr<Json>, b: MigrationIr<Json>)
    requires EnvelopeHeld(a) && EnvelopeHeld(b)
    requires EnforceIrSingleReverse(a).Ok? && EnforceIrSingleReverse(b).Ok?
    ensures AuthoritativePreimage(a) == AuthoritativePreimage(b) <==>
            SameArtifact(a, b) && a.inverseOps == b.inverseOps && a.irreversible == b.irreversible
  {
    AnchorCertifies(a, b);
    ReverseFieldsDetermined(a, b);
  }

  lemma ReverseFieldsDetermined(a: MigrationIr<Json>, b: MigrationIr<Json>)
    requires EnforceIrSingleReverse(a).Ok? && EnforceIrSingleReverse(b).Ok?
    ensures DeclaredReverse(a) == DeclaredReverse(b) <==>
            a.inverseOps == b.inverseOps && a.irreversible == b.irreversible
  {}

  /** Without that gate the anchor is blind to a reason carried beside an inverse. */
  lemma BothReversesHideTheReason(ir: MigrationIr<Json>, ops: seq<Json>, p: string, q: string)
    requires p != q
    ensures var a, b := ir.(inverseOps := Some(ops), irreversible := Some(p)),
                        ir.(inverseOps := Some(ops), irreversible := Some(q));
            a != b && AuthoritativePreimage(a) == AuthoritativePreimage(b)
            && EnforceIrSingleReverse(a) == Err(ReverseDeclaredBothWays(p))
  {
    var a, b := ir.(inverseOps := Some(ops), irreversible := Some(p)),
                ir.(inverseOps := Some(ops), irreversible := Some(q));
    assert a.irreversible != b.irreversible;
  }

  // ---- the advisory hint ----------------------------------------------------------------

  datatype HintField = DependsOn | Supersedes | Flags | InverseOps | IrreversibleReason

  /** The first field the hint domain cannot fold, if any. */
  function HintDomainUncomputableField(ir: MigrationIr<Json>): Option<HintField> {
    if ir.dependsOn != [] then Some(DependsOn)
    else if ir.supersedes != [] then Some(Supersedes)
    else if ir.flags != NO_OVERRIDE then Some(Flags)
    else if ir.inverseOps.Some? then Some(InverseOps)
    else if ir.irreversible.Some? then Some(IrreversibleReason)
    else None
  }

  /** The gate passes only the plain envelope, and otherwise names the first field in the way. */
  lemma HintGateExactly(ir: MigrationIr<Json>)
    ensures HintDomainUncomputableField(ir) == None <==>
            && ir.dependsOn == [] && ir.supersedes == []
            && ir.flags == IrFlagsOverride(None, None, None, None, None, None, None, None, None)
            && ir.inverseOps == None && ir.irreversible == None
    ensures HintDomainUncomputableField(ir) == Some(DependsOn) <==> ir.dependsOn != []
    ensures HintDomainUncomputableField(ir) == Some(Supersedes) <==> ir.dependsOn == [] && ir.supersedes != []
    ensures HintDomainUncomputableField(ir) == Some(IrreversibleReason) ==> ir.inverseOps == None
  {}

  /** The subset the hint folds: default flags, no owner, no dependency lists. */
  function HintCommon(ir: MigrationIr<Json>): Common {
    Common(DEFAULT_FLAGS, "", [], [], ir.preconditions)
  }

  ghost function HintPreimage(ir: MigrationIr<Json>): Bytes {
    IrPreimage(ir.ops, HintCommon(ir), NoReverse)
  }

  /** The hint's stream: the ops and preconditions, the flags' defaults, and nothing else. */
  lemma HintReads(ir: MigrationIr<Json>)
    requires EnvelopeHeld(ir)
    ensures var flags := MigrationFlags(true, false, false, false, None, None, None, false, false);
            ReadIrStream(HintPreimage(ir)) ==
            Some(IrStream(Utf8(IR_DOMAIN_TAG), OpRegion(ir.ops),
                          Tail(Utf8(FlagsJson(flags)), [], [], [], Utf8s(ir.preconditions)), Undeclared))
  {
    BareHeld(ir);
    IrStreamReadsBack(ir.ops, HintCommon(ir), NoReverse);
    assert Utf8("") == [] && Utf8s([]) == [];
  }

  /** `recompute_hint_domain_checksum`. */
  method RecomputeHintDomainChecksum(ir: MigrationIr<Json>, digest: Bytes -> string) returns (checksum: string)
    requires HintDomainUncomputableField(ir).None?
    ensures checksum == digest(HintPreimage(ir))
    ensures checksum == digest(AuthoritativePreimage(ir.(ownerApp := "")))
  {
    checksum := Checksum.OfIrVersionStrings(ir.ops, HintCommon(ir), NoReverse, digest);
    HintAgrees(ir);
  }

  /** Where the gate passes, the hint is the anchor of the same envelope without its owner. */
  lemma HintAgrees(ir: MigrationIr<Json>)
    requires HintDomainUncomputableField(ir).None?
    ensures HintPreimage(ir) == AuthoritativePreimage(ir.(ownerApp := ""))
  {
    BareParts(ir, ir.(ownerApp := ""));
  }

  lemma BareParts(ir: MigrationIr<Json>, bare: MigrationIr<Json>)
    requires HintDomainUncomputableField(ir).None? && bare == ir.(ownerApp := "")
    ensures bare.ops == ir.ops && CommonOf(bare) == HintCommon(ir) && DeclaredReverse(bare) == NoReverse
  {
    NoOverrideIsDefault();
  }

  lemma NoOverrideIsDefault()
    ensures EffectiveFlags(NO_OVERRIDE) == DEFAULT_FLAGS
  {}

  /**
   Exactly when the hint speaks for the ownerless envelope. The gate implies it; the gate
   also refuses overrides that restate a default, which would be harmless.
   */
  lemma HintAgreesExactly(ir: MigrationIr<Json>)
    requires EnvelopeHeld(ir)
    ensures HintPreimage(ir) == AuthoritativePreimage(ir.(ownerApp := "")) <==>
            && ir.dependsOn == [] && ir.supersedes == []
            && SameOverrides(ir.flags, NO_OVERRIDE)
            && ir.inverseOps.None? && ir.irreversible.None?
    ensures HintDomainUncomputableField(ir).None? ==>
            HintPreimage(ir) == AuthoritativePreimage(ir.(ownerApp := ""))
  {
    var bare := ir.(ownerApp := "");
    var c := HintCommon(ir);
    BareHeld(ir);
    NoOverrideIsDefault();
    EffectiveFlagsExactly(ir.flags, NO_OVERRIDE);
    if HintPreimage(ir) == AuthoritativePreimage(bare) {
      IrPreimageInjective(ir.ops, c, NoReverse, ir.ops, CommonOf(bare), DeclaredReverse(bare));
    }
    if HintDomainUncomputableField(ir).None? { HintAgrees(ir); }
  }

  /** An override restating a default is refused, although the hint would speak for the envelope. */
  lemma RestatedDefaultIsRefused(base: MigrationIr<Json>)
    requires EnvelopeHeld(base) && HintDomainUncomputableField(base).None?
    ensures var ir := base.(flags := NO_OVERRIDE.(transactional := Some(true)));
            && HintDomainUncomputableField(ir) == Some(HintField.Flags)
            && HintPreimage(ir) == AuthoritativePreimage(ir.(ownerApp := ""))
  {
    var ir := base.(flags := NO_OVERRIDE.(transactional := Some(true)));
    RestatedDefaults();
    assert CommonOf(ir) == CommonOf(base) && DeclaredReverse(ir) == DeclaredReverse(base);
    HintAgreesExactly(ir);
  }

  lemma RestatedDefaults()
    ensures NO_OVERRIDE.(transactional := Some(true)) != NO_OVERRIDE
    ensures EffectiveFlags(NO_OVERRIDE.(transactional := Some(true))) == DEFAULT_FLAGS == EffectiveFlags(NO_OVERRIDE)
  {}

  lemma BareHeld(ir: MigrationIr<Json>)
    requires EnvelopeHeld(ir)
    ensures IrHeld(ir.ops, HintCommon(ir), NoReverse)
    ensures EnvelopeHeld(ir.(ownerApp := ""))
  {
    assert DeclaredReverse(ir.(ownerApp := "")) == DeclaredReverse(ir);
    assert Utf8("") == [];
  }
}
