# Verification of the migration IR

zero-migrate turns authored database migrations into a portable intermediate
representation (IR) and refuses, before anything runs, whatever it cannot vouch for. Four
mechanisms carry that promise, and this project models them in Dafny and proves what they
are for:

* **Canonical text and checksum streams.** An op list is written as canonical JSON
  (RFC 8785), length-prefixed, and folded with flags, owner, dependency lists,
  preconditions and a declared reverse into the one stream SHA-256 sees. Drift detection
  compares digests, so the stream must determine everything folded into it. The encoder
  is modelled as it runs, appending to a text buffer, and is proved against a strict
  decoder: the two undo each other in both directions. The streams have a strict reader of
  their own, which returns each field from its place.
* **Ids.** A migration id is a 128-bit number in 22 base62 symbols behind a prefix. Its
  string order is the apply order, so the proofs are about division loops, capacity,
  overflow and order.
* **Expressions.** The structural validator walks an expression under a target dialect,
  a depth bound and per-leg judgement of `dialect({...})` nodes. Acceptance is
  characterised without recursion (a condition on every path from the root), a refusal is
  traced to the node it blames, and an accepted expression is proved to resolve, for its
  target, to an accepted expression with no `dialect` node left and the same meaning.
* **Op gates.** Ownership, touched tables, destructiveness, approval and the DML/DDL
  phase rule read every leg of every nesting, while one leg per wrapper runs. The answers
  are proved to cover whatever any target selects.

Beside them stand the wire form of scalars, the type-reference scanner, the dialect set
and the backend registry.

A digest is a parameter: `digest` and `sha256` stand for SHA-256 with its hex rendering,
and every statement is about the bytes digested. No collision freedom is assumed anywhere.
Code that updates state in place (buffers, hash states, byte arrays, collected lists and
sets, flag records) is modelled by classes, arrays and loops, each proved against a
function or predicate about which the main lemmas speak. Texts are sequences of Unicode
scalar values with explicit UTF-8 and UTF-16 forms; ids are byte strings; the program's
machine integers appear as explicit bounds (`U64_MAX`, `TWO_128`, `VERSION_CEILING`,
`I64_MIN`/`I64_MAX`) and moduli.

## Modules

| file | contents |
|---|---|
| `Wrappers`, `Sequences`, `Numerals`, `Orders`, `Unicode` | results, concatenation steps, positional numerals, lexicographic order, UTF-8 and UTF-16 |
| `Json`, `JcsDecoder`, `JcsReadsBack`, `JcsCanonical`, `JcsWriter` | canonical text, its strict reader, their exact agreement, the appending writer |
| `Envelope`, `FlagsImage`, `Preimage`, `StreamReader`, `Checksum`, `IrChecksum` | the envelope, the serialized flags, the hashed streams, a strict reader of them, the folds, what the anchor and the hint certify |
| `Base62`, `MigrationIds` | base62 both ways, typed ids, version and derived ids |
| `IrScalars`, `Exprs`, `Validate`, `Resolve`, `Refusals`, `Volatility` | expressions, the walker, acceptance and leg resolution, what refusals blame, the immutable-context check |
| `Ops`, `OpGates`, `Ownership`, `Approval` | op trees and legs, touched tables and phases, ownership, approval |
| `ScalarWire`, `TypeRefs`, `Dialects`, `Registry` | scalar wire forms, type references, dialect sets, the backend registry |

## Findings

Where code and documentation part, the model follows the code. Each of these is stated by the lemmas named.

* The IR domain tag does not keep the two checksum front doors apart unconditionally, as
  `migration.rs:535-542` says. They meet exactly when rendered SQL imitates the IR layout:
  `up` is the tag and `down` spells the op region (`FrontDoorsMeet`); `FrontDoorsCollide`
  gives a concrete such input.
* Derived ids are documented never to collide with version ids. Nothing in the layout
  rules it out for a version whose low 48 bits are all ones, which has the marker as its
  time field; `VersionsPrecedeDerived` says exactly when order holds and when the two ids
  are one, which also takes a digest starting with ten zero bytes.
* Version ids are ordered by their low 48 bits only (`VersionIdOrder`), so every version
  from 2^48 on shares its id with one below (`CeilingWraps`). The bound is a debug-only
  assertion.
* The unknown-owner sentinel is an ordinary string: a deploying app of that name passes
  ownership on every unregistered table (`SentinelOwnsTheUnregistered`).
* Ownership pools the tables created in all legs, so a migration can pass the ownership
  and phase gates while one target's run makes a schema change to a table only another leg
  creates (`PooledCreationExample`); `SelectedRunOwnership` is the exact condition for a
  single run. Row writes are out of its reach: the phase gate leaves a migration that
  writes rows nothing to pool (`DataRunsAreOwned`).
* The `splitPart` envelope is described as SQLite-only but binds MySQL too, and its
  refusal names SQLite as the dialect either way (`SplitPartExactly`; a two-character
  delimiter is the witness, `EnvelopeBindsMysql`).
* The hint gate refuses some envelopes the hint would speak for: overrides that restate a
  default (`HintAgreesExactly`; `transactional` restated as true is the witness,
  `RestatedDefaultIsRefused`).
* An envelope carrying both reverse declarations hides its reason from the anchor; the
  single-reverse gate is what makes both fields certified (`BothReversesHideTheReason`).

## Model

| member | source | states |
|---|---|---|
| Unicode.Utf8Injective | crates/zero-migrate-ir/src/migration.rs:401-409 | Hashing a text's bytes loses nothing: equal UTF-8 means equal text |
| Unicode.Utf8CharShortest | crates/zero-migrate-ir/src/migration.rs:401-409 | Every character is hashed in its shortest UTF-8 form, lead byte and continuation bytes |
| Unicode.TextOrderIsScalarOrder | crates/zero-migrate-ir/src/ir.rs:4386-4390 | Texts order by their UTF-8 bytes exactly as by their scalar values |
| Unicode.Utf16Injective | crates/zero-migrate-ir/src/ir.rs:4790-4798 | Equal code-unit sequences mean equal texts |
| Unicode.Utf16CharDecodes | crates/zero-migrate-ir/src/ir.rs:4796-4798 | A supplementary character is a surrogate pair carrying its ten high and ten low bits |
| Unicode.KeyOrderIsStrictTotal | crates/zero-migrate-ir/src/ir.rs:4796-4798 | The key comparison is a strict total order whose equality is string equality |
| Unicode.BmpKeyOrderIsScalarOrder | crates/zero-migrate-ir/src/ir.rs:4790-4795 | Without supplementary characters the key order is scalar order |
| Unicode.SupplementaryKeysSortEarly | crates/zero-migrate-ir/src/ir.rs:4790-4795 | U+10000 sorts before U+FFFF, unlike in scalar order |
| Unicode.KeyOrderExactly | crates/zero-migrate-ir/src/ir.rs:4790-4798 | Keys order by the scalars that first differ, except that supplementary characters precede U+E000 to U+FFFF |
| Json.AscendingUnique | crates/zero-migrate-ir/src/ir.rs:4765-4776 | An ascending listing of a key set is the only one, so iteration order cannot show |
| JcsWriter.CollectKeys | crates/zero-migrate-ir/src/ir.rs:4774 | Any iteration order of a map yields each key exactly once |
| JcsWriter.SortKeys | crates/zero-migrate-ir/src/ir.rs:4774-4775 | Sorting any listing of the keys gives the one ascending listing |
| JcsWriter.JcsWriteString | crates/zero-migrate-ir/src/ir.rs:4803-4821 | Appends exactly the minimally escaped, quoted text and leaves what was there |
| JcsWriter.JcsWriteArray | crates/zero-migrate-ir/src/ir.rs:4755-4764 | Appends brackets, elements in order, commas between |
| JcsWriter.JcsWriteObject | crates/zero-migrate-ir/src/ir.rs:4765-4786 | Appends members in key order, whatever the iteration order |
| JcsWriter.JcsWrite | crates/zero-migrate-ir/src/ir.rs:4739-4788 | Appends exactly the canonical text of the value |
| JcsWriter.JcsEncode | crates/zero-migrate-ir/src/ir.rs:4733-4737 | Returns the canonical text of the value |
| JcsReadsBack.ReadsBack | crates/zero-migrate-ir/src/ir.rs:4739-4821 | A strict reader run on an encoding followed by any text not starting with a digit returns the value and that text |
| JcsCanonical.WritesBack | crates/zero-migrate-ir/src/ir.rs:4739-4821 | Whatever the reader accepts is the encoding of what it read, followed by the rest |
| JcsCanonical.DecodeExactlyCanonical | crates/zero-migrate-ir/src/ir.rs:4721-4737 | A text decodes to a value if and only if it is that value's canonical text |
| JcsCanonical.JcsInjective | crates/zero-migrate-ir/src/ir.rs:4721-4737 | Different values never share a canonical text |
| Checksum.CanonicalBytes | crates/zero-migrate-ir/src/ir.rs:4707-4718 | Builds the op count followed by each op's framed canonical bytes |
| Preimage.OpRegionInjective | crates/zero-migrate-ir/src/ir.rs:4697-4718 | The op region determines the op list, order included |
| Checksum.UpdateFramed | crates/zero-migrate-ir/src/migration.rs:401-402 | A length word and the bytes it announces are absorbed as one framed block |
| Checksum.FoldVersionList | crates/zero-migrate-ir/src/migration.rs:681-687 | Absorbs the count and each text behind its length, in the given order |
| Preimage.CountedTextsCancel | crates/zero-migrate-ir/src/migration.rs:655-662 | A folded list determines its texts and cannot run into what follows |
| FlagsImage.FlagsJsonInjective | crates/zero-migrate-ir/src/migration.rs:642-651 | Any flipped flag, budget or phase changes the serialized flags |
| FlagsImage.FlagsJsonReads | crates/zero-migrate-ir/src/migration.rs:642-651 | The serialized flags read as a JSON object with the nine declared members, each with its value, in declaration order |
| Checksum.FoldCommonStrings | crates/zero-migrate-ir/src/migration.rs:634-675 | Absorbs one common tail, which a strict reader takes apart into flags, owner, dependencies, supersessions and preconditions in that order |
| Preimage.CommonCancel | crates/zero-migrate-ir/src/migration.rs:634-675 | The common tail determines all five fields; a dependency never passes for a supersession |
| StreamReader.TailReadsBack | crates/zero-migrate-ir/src/migration.rs:634-675 | Whatever follows, the tail reads back as flags, owner, dependencies, supersessions and preconditions, in that order |
| Checksum.Of | crates/zero-migrate-ir/src/migration.rs:396-426 | Digests exactly the rendered-SQL preimage, which reads back as the input's own fields |
| Preimage.DownCancel | crates/zero-migrate-ir/src/migration.rs:403-413 | The all-ones sentinel keeps an absent reverse apart from every present one, the empty one included |
| Preimage.OfPreimageInjective | crates/zero-migrate-ir/src/migration.rs:396-426 | The rendered-SQL preimage determines up, down and the common fields |
| StreamReader.SqlStreamExactly | crates/zero-migrate-ir/src/migration.rs:396-426 | A stream reads as an input's up, down and common fields if and only if it is that input's preimage |
| Checksum.FoldReverse | crates/zero-migrate-ir/src/migration.rs:560-583 | Absorbs nothing for no reverse, else the tag and payload of the declared one |
| Preimage.ReverseImageInjective | crates/zero-migrate-ir/src/migration.rs:560-583 | The three reverse cases never share an image; an empty inverse is not an absent one |
| Checksum.OfIrVersionStrings | crates/zero-migrate-ir/src/migration.rs:525-585 | Digests exactly the IR preimage, which reads back as the tag, op region, common fields and reverse given |
| Preimage.IrPreimageInjective | crates/zero-migrate-ir/src/migration.rs:525-585 | The IR preimage determines op list, common fields and declared reverse |
| StreamReader.IrStreamExactly | crates/zero-migrate-ir/src/migration.rs:525-585 | A stream reads as a migration's tag, op region, common fields and reverse if and only if it is its preimage |
| StreamReader.OpRegionReadsBack | crates/zero-migrate-ir/src/ir.rs:4707-4718 | The op region reads back as the canonical texts of the ops, one each, in order |
| Preimage.FrontDoorsMeet | crates/zero-migrate-ir/src/migration.rs:535-546 | The two preimages are equal if and only if up is the tag, down spells the op region, the tails agree and no reverse is declared |
| Preimage.FrontDoorsCollide | crates/zero-migrate-ir/src/migration.rs:535-546 | A concrete rendered-SQL input with the preimage of an empty IR migration |
| IrChecksum.MergeFlags | crates/zero-migrate-ir/src/load.rs:542-563 | Field by field: each of six booleans is its override or its own literal default; both budgets and the phase are copied |
| IrChecksum.AuthoritativeIrChecksum | crates/zero-migrate-ir/src/load.rs:541-585 | Digests the preimage of the envelope, which reads back as the envelope's own fields |
| IrChecksum.AnchorReads | crates/zero-migrate-ir/src/load.rs:541-585 | The digested stream reads back as the envelope's own fields, each in its place |
| IrChecksum.EffectiveFlagsExactly | crates/zero-migrate-ir/src/load.rs:542-563 | Two overrides merge alike if and only if booleans agree after their defaults and budgets and phase agree |
| IrChecksum.AnchorCertifies | crates/zero-migrate-ir/src/load.rs:517-585 | Anchors' preimages agree if and only if ops, owner, lists, preconditions and declared reverse agree, budgets and phase overrides agree, and booleans agree after their defaults; name, version and hint never matter |
| IrChecksum.AnchorCertifiesReverseFields | crates/zero-migrate-ir/src/load.rs:541-643 | Past the single-reverse gate, the inverse and the reason themselves are certified |
| IrChecksum.BothReversesHideTheReason | crates/zero-migrate-ir/src/load.rs:569-574 | With both declared the reason is not folded, and the gate refuses naming it |
| IrChecksum.RecomputeHintDomainChecksum | crates/zero-migrate-ir/src/load.rs:501-515 | Behind the gate, the hint digest is the anchor of the envelope without its owner |
| IrChecksum.HintAgrees | crates/zero-migrate-ir/src/load.rs:587-620 | Where no field is uncomputable, hint and ownerless anchor preimages agree |
| IrChecksum.HintReads | crates/zero-migrate-ir/src/load.rs:501-515 | The hint's stream reads back as the ops, the default flags, no owner, no lists and the preconditions |
| IrChecksum.HintGateExactly | crates/zero-migrate-ir/src/load.rs:598-620 | The gate passes if and only if lists, overrides and reverse are all empty, and names the first field in the way |
| IrChecksum.HintAgreesExactly | crates/zero-migrate-ir/src/load.rs:482-620 | They agree if and only if lists are empty, effective flags are the defaults and no reverse is declared; the gate implies it |
| IrChecksum.RestatedDefaultIsRefused | crates/zero-migrate-ir/src/load.rs:598-607 | An envelope that only restates a default is refused by the gate although both preimages agree |
| Base62.BuildDecodeTable | crates/zero-migrate-ir/src/id.rs:22-35 | The table inverts the alphabet and marks every other byte invalid |
| Base62.UuidToBase62 | crates/zero-migrate-ir/src/id.rs:39-49 | Fills 22 places with the symbols of the big-endian number |
| Base62.IdCapacity | crates/zero-migrate-ir/src/id.rs:39-49 | 62^22 exceeds 2^128, so 22 symbols hold every id |
| Base62.DivideBy62 | crates/zero-migrate-ir/src/id.rs:70-80 | One pass leaves the quotient in the array and returns the remainder; every quotient byte fits, so the fallback is dead |
| Base62.NumeralStep | crates/zero-migrate-ir/src/id.rs:69-85 | Each pass moves one digit over and strictly lowers a nonzero value |
| Base62.Base62EncodeBytes | crates/zero-migrate-ir/src/id.rs:60-88 | Terminates with the shortest base-62 numeral of the big-endian value; empty for empty input |
| Base62.PaddedEncodingIsUuidText | crates/zero-migrate-ir/src/id.rs:39-88 | Left-padding the variable-width text of 16 bytes with '0' gives the fixed-width text |
| Base62.OverflowsAt | crates/zero-migrate-ir/src/id.rs:104-107 | A prefix that overflows 128 bits settles the outcome as overflow, whatever follows |
| Base62.Base62ToUuid | crates/zero-migrate-ir/src/id.rs:91-110 | Returns the specified outcome, with length, first bad byte and overflow errors in that precedence along the text |
| Base62.DecodeEncode | crates/zero-migrate-ir/src/id.rs:39-110 | Decoding an encoded id returns it |
| Base62.EncodeDecode | crates/zero-migrate-ir/src/id.rs:91-110 | Decoding succeeds if and only if the text is 22 symbols of value below 2^128, and re-encoding gives the text back |
| Base62.DecodeErrorsExactly | crates/zero-migrate-ir/src/id.rs:91-110 | Which error a text earns: its length, else whichever of overflow and foreign byte comes first |
| Base62.TextOrderIsIdOrder | crates/zero-migrate-ir/src/migration.rs:33-37 | Id texts sort as the 16 bytes and as the 128-bit numbers do |
| MigrationIds.ParseExactlyIdTexts | crates/zero-migrate-ir/src/migration.rs:96-107 | Parsing accepts exactly the texts of 16-byte images and recovers the image |
| MigrationIds.IdTextSpelled | crates/zero-migrate-ir/src/migration.rs:85-87 | An id is the four characters mig_ and the 22 symbols |
| MigrationIds.ForeignPrefixes | crates/zero-migrate-ir/src/migration.rs:101-107 | A foreign prefix is reported only if the rest decodes; otherwise the id is malformed |
| MigrationIds.MigrationIdForVersion | crates/zero-migrate-ir/src/migration.rs:133-143 | Places the low 48 bits over ten zero bytes; the text always parses |
| MigrationIds.Derive | crates/zero-migrate-ir/src/migration.rs:74-88 | The id parses back to six marker bytes and the first ten digest bytes in order |
| MigrationIds.TimestampMs | crates/zero-migrate-ir/src/migration.rs:119-127 | Accumulates exactly the number in the high 48 bits |
| MigrationIds.IdOrderIsNumeric | crates/zero-migrate-ir/src/migration.rs:33-37 | Id strings sort like their 128-bit images |
| MigrationIds.IdOrderRefinesTimestamps | crates/zero-migrate-ir/src/migration.rs:109-113 | An earlier time field always sorts earlier as a string |
| MigrationIds.TimestampOfVersion | crates/zero-migrate-ir/src/migration.rs:119-143 | The version is recovered from its id modulo 2^48, exactly below it |
| MigrationIds.VersionIdOrder | crates/zero-migrate-ir/src/migration.rs:130-143 | For all versions, ids sort exactly as the low 48 bits do |
| MigrationIds.VersionIdsCoincide | crates/zero-migrate-ir/src/migration.rs:130-143 | Two versions share an id if and only if their low 48 bits agree |
| MigrationIds.VersionIdsAscend | crates/zero-migrate-ir/src/migration.rs:130-143 | Ids sort as the versions do within any block of 2^48 versions, so always below the ceiling |
| MigrationIds.CeilingWraps | crates/zero-migrate-ir/src/migration.rs:133-143 | Every version from 2^48 on has the id of a smaller one and no longer sorts after the last version below the ceiling |
| MigrationIds.VersionsPrecedeDerived | crates/zero-migrate-ir/src/migration.rs:49-84 | A version id sorts before a derived one if and only if its field is below the marker or the kept digest bytes are not all zero; otherwise they are equal |
| MigrationIds.DerivedIdsSeparate | crates/zero-migrate-ir/src/migration.rs:49-55 | Derived ids coincide if and only if the ten kept digest bytes do |
| MigrationIds.DeriveInputsSeparate | crates/zero-migrate-ir/src/migration.rs:74-79 | For tags without a zero byte, the hashed input determines tag and seed |
| Validate.CheckInListElems | crates/zero-migrate-ir/src/validate.rs:1474-1530 | The loop accepts exactly homogeneous, renderable element lists without bytes |
| Validate.UniformListExactly | crates/zero-migrate-ir/src/validate.rs:1474-1530 | The list rule admits exactly all texts, all numbers of any carrier, all booleans or all nulls |
| Validate.SplitPartExactly | crates/zero-migrate-ir/src/validate.rs:1557-1642 | Accepts exactly the documented call shape with, off Postgres, one ASCII delimiter character and n at most 8; envelope refusals name SQLite even for MySQL |
| Validate.EnvelopeBindsMysql | crates/zero-migrate-ir/src/validate.rs:1615-1632 | A concrete call accepted for Postgres and refused for MySQL with SQLite named |
| Resolve.WalkStep | crates/zero-migrate-ir/src/validate.rs:875-1117 | A node is accepted if and only if the depth allows it, its own requirement holds and every judged child is accepted one level down |
| Resolve.WalkExactly | crates/zero-migrate-ir/src/validate.rs:834-1117 | Acceptance holds if and only if every path of judged nodes stays below the depth bound and meets each node's requirement |
| Resolve.AcceptedHigher | crates/zero-migrate-ir/src/validate.rs:875-885 | What is accepted at a depth is accepted at any smaller one |
| Refusals.FaultlessExactly | crates/zero-migrate-ir/src/validate.rs:875-1642 | A node earns no refusal of its own if and only if it is within the bound and meets its requirement |
| Refusals.RefusalBlamesANode | crates/zero-migrate-ir/src/validate.rs:875-1642 | The reported code, kind and dialect are those of the own fault of some node the walk judges, under the target it judges it for |
| Resolve.ResolveAccepted | crates/zero-migrate/src/render/dml.rs:1070-1093 | For an accepted expression no leg is missing, no dialect node remains, and the result is accepted in its place |
| Resolve.DialectNodeResolves | crates/zero-migrate/src/render/dml.rs:1075-1093 | On each target the own leg decides whatever the others hold; without one the default does; without both nothing |
| Resolve.PlainNodeResolves | crates/zero-migrate-ir/src/expr.rs:488-492 | Any other node keeps everything but its children, each resolved in its place |
| Resolve.LegFreeResolvesToItself | crates/zero-migrate-ir/src/expr.rs:488-492 | An expression without dialect nodes resolves to itself |
| Resolve.ResolutionPreservesMeaning | crates/zero-migrate-ir/src/expr.rs:488-492 | For any meaning of plain nodes, the resolved expression means on its target what the authored one does |
| Resolve.ValidatedResolves | crates/zero-migrate-ir/src/expr.rs:488-509 | Validation for a target guarantees an accepted, leg-free rendering for it |
| Volatility.AggregateStep | crates/zero-migrate-ir/src/validate.rs:663-721 | The search visits children in order and reports a node's own aggregate after those inside it |
| Volatility.VolatileStep | crates/zero-migrate-ir/src/validate.rs:723-784 | The search reports a node's own volatility first, then its children in order |
| Volatility.AggregateFoundExactly | crates/zero-migrate-ir/src/validate.rs:663-721 | A name is found if and only if some subexpression, through every leg, is an aggregate; the name is one of those |
| Volatility.VolatileFoundExactly | crates/zero-migrate-ir/src/validate.rs:723-784 | Likewise for uuid generators and now |
| Volatility.CulpritsAreNodes | crates/zero-migrate-ir/src/validate.rs:663-784 | A reported name belongs to a node of that very kind in the tree |
| Volatility.ImmutableExactly | crates/zero-migrate-ir/src/validate.rs:786-832 | An immutable context accepts if and only if no aggregate, uuid generator or now occurs; an aggregate is reported before volatility |
| Volatility.ResolutionStaysImmutable | crates/zero-migrate-ir/src/validate.rs:786-832 | Acceptance there survives resolving the legs for any target |
| Ops.SelectedOfAreLeaves | crates/zero-migrate-ir/src/ir.rs:3403-3418 | Whatever a target runs, through any nesting, is an authored leaf and no wrapper |
| Ops.WrapperRuns | crates/zero-migrate-ir/src/ir.rs:3403-3418 | A present own leg runs, empty or not, whatever the others hold; without one the default; without both nothing |
| Ops.WrapperLeaves | crates/zero-migrate-ir/src/load.rs:332-352 | A wrapper's leaves are those of its four legs in declaration order |
| Ops.RowWriters | crates/zero-migrate-ir/src/load.rs:651-656 | The row-writing verbs are insert, update, delete and backfill, and all but insert are destructive |
| Ops.SchemaVerbs | crates/zero-migrate-ir/src/ir.rs:3980-4089 | Which of the other verbs are destructive, both ways |
| Ops.TouchedExactly | crates/zero-migrate-ir/src/ir.rs:3906-3972 | An op touches exactly the table it names, a partition op the partition, a view none |
| OpGates.DestructiveExactly | crates/zero-migrate-ir/src/ir.rs:4001-4089 | An op is destructive if and only if some leaf of some leg is |
| OpGates.CollectTouchedTables | crates/zero-migrate-ir/src/ir.rs:4092-4119 | Adds exactly the tables touched by leaves of every leg |
| OpGates.TouchedTables | crates/zero-migrate-ir/src/ir.rs:4385-4391 | Lists exactly the tables some leaf of some leg touches, strictly ascending in text order |
| OpGates.ClassifyForwardOp | crates/zero-migrate-ir/src/load.rs:651-681 | Sets each mark exactly when some leaf of the op is of that kind, and clears none |
| OpGates.EnforceIrForwardDataProtocol | crates/zero-migrate-ir/src/load.rs:699-712 | Refuses mixed phases first, then data writes without a reverse, nothing else |
| OpGates.RowWritersNeedAReverse | crates/zero-migrate-ir/src/load.rs:651-711 | Alone and without a reverse, each of the four row writers is refused for that and every other table verb passes |
| OpGates.MixingIsReportedFirst | crates/zero-migrate-ir/src/load.rs:705-710 | Mixed phases are reported if and only if some leaf writes rows and some does not |
| OpGates.ReverseGatesExactly | crates/zero-migrate-ir/src/load.rs:636-712 | Both gates pass if and only if at most one reverse is declared and any data write means every leaf is one and a reverse is declared |
| OpGates.DataMigrationsAreSinglePhase | crates/zero-migrate-ir/src/load.rs:683-712 | Past both gates a data migration runs only data writes on every target and declares exactly one reverse |
| OpGates.EveryLegAnswersCover | crates/zero-migrate-ir/src/ir.rs:4092-4119 | Any target's run stays within the reported tables, destructiveness and phases |
| Ownership.CollectCreatedTables | crates/zero-migrate-ir/src/load.rs:204-228 | Appends the tables created by every leaf, in order |
| Ownership.CollectTargetTables | crates/zero-migrate-ir/src/load.rs:332-390 | Appends every leaf's targets in order: partition parent then child, view sources, else the one table |
| Ownership.RegisterCreated | crates/zero-migrate-ir/src/load.rs:426-436 | Enters every created table for the deploying app and overrides no registered owner |
| Ownership.EnforceIrOwnership | crates/zero-migrate-ir/src/load.rs:416-453 | Passes if and only if every op is allowed; otherwise names the first offending target of the least offending op and its owner |
| Ownership.OwnershipExactly | crates/zero-migrate-ir/src/load.rs:393-453 | For an app not named like the sentinel: passes if and only if every target in every leg is the app's, or unregistered and created here |
| Ownership.TargetsExactly | crates/zero-migrate-ir/src/load.rs:265-390 | The targets of an op are exactly the tables it names: its own, both partition names, every source of a structured view |
| Ownership.OwnershipByName | crates/zero-migrate-ir/src/load.rs:393-453 | The gate passes if and only if every table named by any op in any leg is the app's or is created here |
| Ownership.RefusalIsReal | crates/zero-migrate-ir/src/load.rs:438-450 | The refusal names a table the op names that is not the app's, with its registered owner or the sentinel |
| Ownership.ParentIsReportedFirst | crates/zero-migrate-ir/src/load.rs:353-382 | Of a partition op the foreign parent is reported before the partition, of a view the source it selects from first |
| Ownership.SentinelOwnsTheUnregistered | crates/zero-migrate-ir/src/load.rs:441-442 | An app named like the sentinel passes if and only if no target is registered to another app; a concrete drop of an unknown table passes |
| Ownership.OwnershipIgnoresOrder | crates/zero-migrate-ir/src/load.rs:403-412 | Permuting the ops never changes the verdict |
| Ownership.CreateDoesNotOverride | crates/zero-migrate-ir/src/load.rs:421-425 | Creating a table registered to another app is refused |
| Ownership.TouchedTablesAreOwned | crates/zero-migrate-ir/src/load.rs:393-453 | Past the gate every reported touched table is owned |
| Ownership.SelectedRunOwnership | crates/zero-migrate-ir/src/load.rs:204-453 | Past the gate, a target's run is owned by what it alone creates if and only if it creates every unregistered table it targets |
| Ownership.DataRunsAreOwned | crates/zero-migrate-ir/src/load.rs:416-712 | Past the ownership and reverse gates a migration that writes rows creates nothing, and any target's run of it is owned on its own |
| Ownership.PooledCreationExample | crates/zero-migrate-ir/src/load.rs:231-247 | A migration passing the ownership and phase gates whose SQLite run drops a table only the Postgres leg creates |
| Approval.RequireApprovalLevel | crates/zero-migrate-ir/src/policy_approval.rs:122-133 | The fold yields the loosest level any covering obligation asks for, whatever their order |
| Approval.OpRequiresApproval | crates/zero-migrate-ir/src/policy_approval.rs:166-188 | An op requires approval if and only if some leaf of some leg does at its own object |
| Approval.MigrationRequiresApproval | crates/zero-migrate-ir/src/policy_approval.rs:143-150 | A migration requires approval if and only if some leaf does |
| Approval.RequiresApprovalExactly | crates/zero-migrate-ir/src/policy_approval.rs:116-188 | Approval is required if and only if some obligation on some leaf's object asks for it always, or on destruction with a destructive leaf |
| Approval.ApprovalCoversEveryRun | crates/zero-migrate-ir/src/policy_approval.rs:152-188 | If a target's run alone would require approval, the migration does |
| Approval.ObligationsOnlyTighten | crates/zero-migrate-ir/src/policy_approval.rs:116-150 | Adding, repeating or reordering obligations never turns required approval off |
| Approval.DestructiveRunsAreApproved | crates/zero-migrate-ir/src/policy_approval.rs:135-188 | Under on_destructive everywhere, no target runs a destructive op in an unapproved migration |
| Approval.WrappingChangesNothing | crates/zero-migrate-ir/src/policy_approval.rs:152-164 | Wrapping ops in legs neither adds nor removes an approval requirement |
| Approval.ScopedAtTheTouchedTable | crates/zero-migrate-ir/src/policy_approval.rs:85-114 | An op in any leg answers for the table it touches, whatever the default schema |
| Approval.ObjectExactly | crates/zero-migrate-ir/src/policy_approval.rs:78-114 | Which object an op answers at, with its own schema or the default, with or without a table, and when names do not normalize |
| Approval.UnreadableObligationsGate | crates/zero-migrate-ir/src/policy_approval.rs:42-54 | An obligation variant that cannot be read requires approval of everything it covers |
| ScalarWire.IsDecimalString | crates/zero-migrate-ir/src/ir.rs:4462-4480 | One pass accepts exactly an optional sign, digits and at most one point, at least one digit |
| ScalarWire.DecimalsExactly | crates/zero-migrate-ir/src/ir.rs:4457-4480 | A decimal text is an optional sign, digits and at most one point with digits on one side at least |
| ScalarWire.Int64TextsExactly | crates/zero-migrate-ir/src/ir.rs:4526-4542 | Accepted texts are exactly the matches of the published pattern in range, each read as the number it prints |
| ScalarWire.WireTexts | crates/zero-migrate-ir/src/ir.rs:4436-4452 | The tagged carriers are one-field objects with the tags int64, decimal and bytes, integers in digits |
| ScalarWire.WireDomain | crates/zero-migrate-ir/src/ir.rs:4492-4542 | Numbers are accepted below magnitude 2^53, and tagged texts of integers exactly in the 64-bit range |
| ScalarWire.WireRoundTrip | crates/zero-migrate-ir/src/ir.rs:4426-4575 | Reading back a written legal scalar returns it |
| ScalarWire.WireInjective | crates/zero-migrate-ir/src/ir.rs:4426-4455 | Distinct legal scalars have distinct wire images |
| ScalarWire.AcceptedIsCanonical | crates/zero-migrate-ir/src/ir.rs:4483-4575 | Whatever is accepted is legal and, bytes apart, is the one spelling of its scalar |
| TypeRefs.ConsumeDigits | crates/zero-migrate-ir/src/ir.rs:2650-2656 | Advances over exactly the digits ahead, in bounds, and says whether there were any |
| TypeRefs.IsValidPgTypeRef | crates/zero-migrate-ir/src/ir.rs:2593-2648 | Accepts exactly the texts that render a type reference: identifier, one optional qualifier, one or two sizes, any dimensions |
| TypeRefs.ScansExactly | crates/zero-migrate-ir/src/ir.rs:2598-2647 | The scan accepts a text if and only if some well-formed reference renders to it |
| TypeRefs.ReferencesHaveNoWhitespace | crates/zero-migrate-ir/src/ir.rs:2594-2596 | The white-space check made first refuses nothing the scan would accept |
| Dialects.IsWellFormed | crates/zero-migrate-ir/src/dialect.rs:115-131 | The loop accepts exactly the published id rule |
| Dialects.FromIds | crates/zero-migrate-ir/src/dialect.rs:195-200 | Returns a strictly ascending list with exactly the given ids |
| Dialects.EqualityIsSetEquality | crates/zero-migrate-ir/src/dialect.rs:154-155 | Stored lists are equal if and only if the id sets are, whatever the insertion order |
| Dialects.ContainsId | crates/zero-migrate-ir/src/dialect.rs:210-212 | Binary search finds an id if and only if it is a member |
| Registry.Build | crates/zero-migrate-ir/src/backend.rs:419-448 | Succeeds if and only if all ids are well formed and distinct; else names the least malformed entry, or the least clashing entry and its earliest claimant |
| Registry.Get | crates/zero-migrate-ir/src/backend.rs:464-466 | Finds a descriptor if and only if the id is registered, and on distinct ids the only one |
| Registry.LookupAgreesWithIds | crates/zero-migrate-ir/src/backend.rs:419-472 | On a built registry, lookup succeeds if and only if the reported id set contains the id, and returns the registrant's own descriptor |

## Left out

* SHA-256, hex, base64 and UUID generation are opaque or absent; a base64 codec is a parameter of the scalar wire form, and only payloads it decodes back are called legal.
* Serialization derived for ops and preconditions: the encoder starts from JSON values, and each precondition is the JSON text it serializes to. The flags record's serialization is modelled field by field.
* Floating-point JSON numbers, which scalars exclude before the encoder runs; JSON numbers are unbounded integers.
* Deserialization's first step, turning wire text into a JSON value.
* Texts and op regions longer than the largest allocation (2^63 - 1 bytes): the injectivity results assume lengths a running program can hold (`Held`).
* The standard sort, deduplication and binary search are library code; sorts by insertion, a deduplicating loop and a halving search stand for them, and a set of names for an ordered set.
* Payloads the gates do not read; ops that carry one table, or none, and differ only in verb share a constructor with a verb field.
* The refusal of a dialect op inside a leg: the gates modelled here descend through any nesting, but the validator, the fold and the lowering accept one level only. Results about selected runs at depth two and more therefore concern the gates alone, because no such list is ever run.
* Debug-only assertions; the release behaviour beyond their bound is modelled instead.
* Error texts and suggested fixes; verdicts keep the code, the kind, the dialect, the offending index, table, owner or byte.
* The policy crate's scopes and composition: obligations at an object, name normalization and the fallback object are parameters.
* Clock and randomness (fresh ids), the executor, journal, SQL guard, rendering to SQL, the Node addon, capability presets and timeout limits.
