# Address algebra and state protocols, verified

This project models the self-contained logic of choudoufu in Dafny and proves properties of it.
Each module follows one part of the repository.

- `Addresses`, `MovePatterns`, `MoveDestinations`, `MoveParsing`: move statements as patterns over
  concrete addresses. One denotation says which objects an endpoint selects; selection, chaining,
  nesting and moving are proved exact against it.
- `Quoting`, `AddressText`, `AddressGrammar`: the text of addresses, and exactly which traversals read
  as which address. A reference lexer for the printed subset follows the "Template Literals" and
  identifier sections of the HCL Native Syntax Specification; the character classes are arbitrary
  predicates.
- `Ordering`, `Targets`: the sort order of instances, and target containment against the instances
  a target covers.
- `OverrideSpec`, `OverrideDiagnostics`, `OverrideTries`, `OverrideAddresses`: the override trie as a
  mutable object, the addresses written and looked up that it relates, exactly when recording or looking
  up fails, and concurrent lookups as interleavings of atomic steps.
- `CheckReports`, `CheckState`: the check-tracking object, and runs of reports.
- `ModuleSources`: relative module sources as compositions of normalised paths.
- `PageQueries`, `PageQueryUses`: the shell scanner behind the page-query guard, and what it makes of
  each line and query.
- `CloudState`: the cloud state manager against a server that may fail at every call.

A Go panic or failed type assertion is an explicit outcome where its absence is a result
(`MoveDestinations`, `CheckReports`, `Ordering`, `OverrideSpec`). Code that updates fields or
variables is modelled by classes and loops, each proved equal to a function; the results are lemmas
about those functions.

`dafny verify dfyconfig.toml` checks the whole project.

## What turned out false

Some promises hold only under a condition. Each is proved as an equivalence, and after the semicolon
stands a lemma with an input that fails it.

- Reversing a move restores the original unless the move produced the root module, which only an
  endpoint that names the root module does (`MoveDestinations.ModuleMoveInvertible`,
  `MoveDestinations.MovesToRootIff`; `MoveToRootIsOneWay`). Parsed endpoints never do
  (`MoveParsing.ParsedMovesInvert`).
- Printed addresses parse back unless a managed type is `module`, `data` or `ephemeral`, or a key or
  name is one the syntax cannot write (`AddressText.PrintParseRoundTrip`;
  `ReservedTypeDoesNotReadBack`).
- Reordering accepted check reports can make them rejected: an Unknown report before a known one is
  accepted, the other order is not (`CheckReports.EveryReorderingAcceptedIff`;
  `CheckState.UnknownAfterKnownIsRefused`).
- Containment of targets is transitive between the targets a parser can produce; with static or
  unkeyed ones in between a chain can break, and `Targets.TransitiveIff` says exactly when
  (`StaticModulesBreakTransitivity`).
- Address strings are injective only up to the kind of placeholder keys
  (`AddressText.InstanceTextInjective`; `TypedWildcardsPrintAlike`), and comparing two instances
  fails on placeholders for a known key type (`Ordering.LessIsStrictTotalOrder`;
  `PlaceholderCannotBeCompared`).
- An override trie takes addresses of different depths only as long as no key is left out beyond the
  table made for the first one that left out a key, and lookups can panic in the same way
  (`OverrideDiagnostics.AcceptedIffAllFit`, `LookupFailsIff`; `DeeperCallPanics`,
  `DeeperLookupPanics`).
- Resolving module sources is not associative when the middle source leads out of its package and
  the last one is absolute (`ModuleSources.ResolveAssociativeIff`; `GroupingMatters`). The comments
  promise that a sub-path has no `..`, but the parser of remote sources lets `..` and `.` through, so
  resolving can fail without climbing (`ModuleSources.ResolveFailsIff`; `FailsWithoutClimbing`).
- A persist after a successful upload can upload again when the state is nil or the lineage or
  serial is unset (`CloudState.PersistAgainChangesNothingIff`; `NilStateIsUploadedAgain`), and a
  rejected upload is not retried when the state is the one last read and the persist had refreshed
  first, or a migration write had put the serial just below the one read
  (`CloudState.FailedUploadRetriedIff`; `LostWriteIsNotRetried`, `LoweredSerialIsNotRetried`).
- A write before the first refresh survives the next persist exactly when the server has no other
  snapshot (`CloudState.WriteSurvivesPersistIff`; `LostWriteIsNotRetried`).
- Serials are sent as signed 64-bit numbers. The serial sent rises exactly unless the counter
  stands at the largest one (`CloudState.UploadRaisesSerialIff`, `CloudState.SerialsIncreaseIff`;
  `SerialsFallAtSignedMaximum`).

In each case the model follows the code.

## Model

| member | source | states |
|---|---|---|
| `MovePatterns.SynthModuleInstance` | internal/addrs/move_endpoint_module.go:224-246 | the loop builds the full path of an endpoint: wildcard steps for the declaring module, then the relative steps |
| `MovePatterns.DenotesIffScan` | internal/addrs/move_endpoint_module.go:149-181 | an object is produced by placing the endpoint in some instance of its declaring module exactly when the step-by-step scan of the synthetic path accepts it |
| `MovePatterns.SelectsModuleScan` | internal/addrs/move_endpoint_module.go:256-279 | the early-return loop decides the selection predicate |
| `MovePatterns.SelectsModuleSplit` | internal/addrs/move_endpoint_module.go:256-279 | an endpoint selects a path exactly when the path starts in an instance of the declaring module and goes on as the relative subject says |
| `MovePatterns.SelectsModuleExact` | internal/addrs/move_endpoint_module.go:256-279 | a module is selected exactly when some selected object is that module or lives directly in it |
| `MovePatterns.SelectsResourceExact` | internal/addrs/move_endpoint_module.go:283-310 | a resource is selected exactly when the endpoint selects it or one of its instances |
| `MovePatterns.ModuleInstanceCanMatch` | internal/addrs/move_endpoint_module.go:317-332 | the loop decides step-wise compatibility of two patterns |
| `MovePatterns.CanChainFromExact` | internal/addrs/move_endpoint_module.go:340-379 | two endpoints chain exactly when some concrete object is selected by both, for all subject kinds and all mixes of wildcard and exact steps |
| `MovePatterns.CanChainFromSymmetric` | internal/addrs/move_endpoint_module.go:340-379 | chaining is symmetric |
| `MovePatterns.NestedWithinExact` | internal/addrs/move_endpoint_module.go:384-435 | nesting holds exactly when some object of the inner endpoint is held by an object of the outer one and the inner (path length, kind) rank is strictly higher |
| `MovePatterns.NestingHasNoCycle` | internal/addrs/move_endpoint_module.go:384-435 | along nested endpoints of any number the rank falls strictly, so nesting has no cycle |
| `MoveDestinations.UnifyExact` | internal/addrs/move_endpoint.go:174-301 | unification succeeds exactly for two modules or two resources, never panics, does not depend on the declaring module, yields one subject type, and widens to a whole object exactly when neither side names an instance |
| `MoveDestinations.UnifyKeepsMeaning` | internal/addrs/move_endpoint.go:218-271 | both unified endpoints still denote the address that was written, or its resource, in every instance of the declaring module |
| `MoveDestinations.MatchModuleInstancePrefix` | internal/addrs/move_endpoint_module.go:452-464 | the loop splits an address at the declaring module exactly when the names agree |
| `MoveDestinations.MoveDestinationOfModule` | internal/addrs/move_endpoint_module.go:477-554 | the scans compute the module move function the results below are about |
| `MoveDestinations.MoveDestinationOfResource` | internal/addrs/move_endpoint_module.go:567-627 | the scans compute the resource move function the results below are about |
| `MoveDestinations.MoveDestinationOfInstance` | internal/addrs/move_endpoint_module.go:640-711 | the scans compute the instance move function the results below are about |
| `MoveDestinations.OneStatementNeverPanics` | internal/addrs/move_endpoint_module.go:477-711 | with two endpoints of one statement no type assertion fails and no panic is reached |
| `MoveDestinations.UnifiedMovesNeverPanic` | internal/addrs/move_endpoint.go:174-301 | from any two parsed endpoints through unification to any move, nothing panics |
| `MoveDestinations.ModuleMovesIffPrefixSelected` | internal/addrs/move_endpoint_module.go:477-554 | a module path moves exactly when it is not the root and the `from` endpoint selects one of its prefixes |
| `MoveDestinations.ResourceMovesIffSelected` | internal/addrs/move_endpoint_module.go:567-627 | a whole resource moves under a resource endpoint exactly when it is selected |
| `MoveDestinations.InstanceMovesIffSelected` | internal/addrs/move_endpoint_module.go:640-711 | an instance moves exactly when its resource is selected, or, for an instance endpoint, when the endpoint denotes it |
| `MoveDestinations.ModuleMoveKeepsContext` | internal/addrs/move_endpoint_module.go:520-553 | a module move keeps the prefix, the untouched suffix and the key of a moved call |
| `MoveDestinations.ModuleMoveCommutes` | internal/addrs/move_endpoint_module.go:149-181 | in every instance of the declaring module the `from` module moves to the `to` module; only the root never moves |
| `MoveDestinations.ResourceMoveCommutes` | internal/addrs/move_endpoint_module.go:149-181 | in every instance of the declaring module the `from` resource or instance moves to the `to` one, keys kept |
| `MoveDestinations.ContentsMoveWithModule` | internal/addrs/move_endpoint_module.go:573-650 | under a module endpoint a resource or instance moves exactly when a prefix of its module path is selected, to where its module moves, with mode, type, name and key unchanged |
| `MoveDestinations.NestedMoveCommutes` | internal/addrs/move_endpoint_module.go:477-711 | in every instance of the declaring module each module at or below the one `from` names moves, with all its resources and instances, to the same place below the one `to` names |
| `MoveDestinations.ModuleMoveInvertible` | internal/addrs/move_endpoint_module.go:477-554 | swapping the endpoints undoes a module move, except exactly when the result is the root module |
| `MoveDestinations.MovesToRootIff` | internal/addrs/move_endpoint_module.go:520-553 | a module moves to the root module exactly when it is the one `from` names and `to` names the root module |
| `MoveDestinations.MoveToRootIsOneWay` | internal/addrs/move_endpoint_module.go:477-554 | a module that moves to the root module and cannot move back |
| `MoveDestinations.ParsedModuleMoveInvertible` | internal/addrs/move_endpoint_module.go:477-554 | with a non-empty `to` path a module move always inverts |
| `MoveDestinations.ResourceMoveInvertible` | internal/addrs/move_endpoint_module.go:567-627 | swapping the endpoints undoes a resource move, except exactly when its module became the root |
| `MoveDestinations.InstanceMoveInvertible` | internal/addrs/move_endpoint_module.go:640-711 | swapping the endpoints undoes an instance move, with the same exception |
| `MoveDestinations.ModuleMoveInjective` | internal/addrs/move_endpoint_module.go:477-554 | no two modules move to the same place |
| `MoveDestinations.ResourceMoveInjective` | internal/addrs/move_endpoint_module.go:567-627 | no two resources move to the same place |
| `MoveDestinations.InstanceMoveInjective` | internal/addrs/move_endpoint_module.go:640-711 | no two resource instances move to the same place |
| `MoveDestinations.LandsAt` | internal/addrs/move_endpoint_module.go:477-711 | what `from` denotes in an instance of the declaring module moves to what `to` denotes there |
| `MoveDestinations.ChainsIffComposes` | internal/addrs/move_endpoint_module.go:334-379 | the `to` of one statement chains to the `from` of another exactly when some object named by the first statement's `from` moves to an object the second selects; only a statement about the root module itself never composes |
| `MoveDestinations.ReIndexIff` | internal/addrs/move_endpoint_module.go:716-746 | for any two endpoints of one declaring module, re-indexing holds exactly when both are for modules, not both for whole calls, and all modules they select have one static path |
| `MoveDestinations.ReIndexKeepsStaticPath` | internal/addrs/move_endpoint_module.go:716-746 | for instance endpoints of one statement, re-indexing holds exactly when the static module path of any moved module is kept; whole-call moves are never reported |
| `MoveParsing.ParsedEndpointShape` | internal/addrs/move_endpoint.go:130-155 | a parsed endpoint is a non-empty module path or a resource instance, with keys configuration can spell |
| `MoveParsing.ParsedMovesInvert` | internal/addrs/move_endpoint.go:130-216 | for every block that parses and unifies, moves of modules and instances never panic and invert without exception |
| `Addresses.HasSameModule` | internal/addrs/module_instance.go:526-536 | the scan decides equality of static module paths |
| `Addresses.IsForModule` | internal/addrs/module_instance.go:544-554 | the scan decides equality with a static module path |
| `Quoting.ToHCLQuotedString` | internal/addrs/instance_key.go:219-263 | the rune loop with one-character lookahead writes the quoted form the results below are about |
| `Quoting.QuoteRoundTrip` | internal/addrs/instance_key.go:219-263 | reading a quoted template up to its closing quote gives back the string, for every content and whatever follows |
| `Quoting.QuotedIsShortest` | internal/addrs/instance_key.go:219-263 | no printable text that reads as a string is shorter than the quoted one: only what must be escaped is, with the shorter escape |
| `Quoting.QuotedIsPlain` | internal/addrs/instance_key.go:244-257 | quoted text has no unprintable character and no raw tab, whatever is quoted |
| `Quoting.BraceMustPrint` | internal/addrs/instance_key.go:244-257 | if `{` were not printable the escape of `${` would not decode |
| `Quoting.HexRoundTrip` | internal/addrs/instance_key.go:251-255 | the fixed-width hexadecimal escapes decode to the number they encode |
| `Quoting.HexIsLowerCase` | internal/addrs/instance_key.go:251-255 | hexadecimal escapes are in lower case |
| `Quoting.DecimalRoundTrip` | internal/addrs/instance_key.go:66-68 | decimal text decodes to the number |
| `Quoting.IntTextReadsBack` | internal/addrs/instance_key.go:66-68 | the text of an index, negative ones included, reads as that index |
| `Quoting.DecimalIsShortest` | internal/addrs/instance_key.go:66-68 | of the digit texts of a number the decimal one is the shortest, and the only one without a leading zero |
| `Quoting.IntTextIsShortest` | internal/addrs/instance_key.go:66-68 | the text of an index is the shortest of those that read as it, and the only one without a leading zero or a sign before zero |
| `AddressText.ModuleInstanceString` | internal/addrs/module_instance.go:270-293 | the builder loop writes the dotted text of a module path |
| `AddressText.AddressStepsText` | internal/addrs/resource.go:366-371 | the printed instance is the text of its traversal without the leading dot |
| `AddressText.LexPrintedSteps` | internal/addrs/instance_key.go:81-86 | the reference lexer undoes the printer on every sequence of names, indexes and splats |
| `AddressText.ParseModuleInstancePrefix` | internal/addrs/module_instance.go:104-180 | the parsing loop, its error path and the root normalisation compute the prefix split |
| `AddressText.PrefixOfPathSteps` | internal/addrs/module_instance.go:104-180 | the prefix parser undoes the printing of a module path, up to a name other than `module` |
| `AddressText.ParseAddressSteps` | internal/addrs/parse_target.go:36-134 | parsing the steps of an address gives the address, or an error exactly for a managed type called data or ephemeral |
| `AddressText.ParseModuleTypedSteps` | internal/addrs/parse_target.go:398-431 | a managed type called module is read as a module path and rejected |
| `AddressText.PlaceholderNeedsRanges` | internal/addrs/parse_target.go:110-111 | without ranges allowed no parsed address is a placeholder |
| `AddressText.ParsedInSyntax` | internal/addrs/parse_target.go:74-134 | whatever instance a text is read as has identifiers for names, indexes that fit and untyped placeholders |
| `AddressText.PrintParseRoundTrip` | internal/addrs/parse_target.go:398-457 | for every address, printing then parsing gives back the address exactly when its names are identifiers, its indexes and placeholders can be written, no managed type is a reserved word and placeholders meet a parser that allows ranges |
| `AddressText.ReservedTypeDoesNotReadBack` | internal/addrs/parse_target.go:99-134 | an address that prints and does not read back |
| `AddressText.AddressStepsInjective` | internal/addrs/resource.go:366-371 | two addresses have one traversal exactly when they agree up to the kind of placeholder keys, even for types named module or data |
| `AddressText.InstanceTextInjective` | internal/addrs/unique_key.go:10-14 | instance strings are equal exactly when the addresses agree up to the kind of placeholder keys; without typed placeholders exactly when they are equal, so string keys are unique |
| `AddressText.AbsResourceTextInjective` | internal/addrs/resource.go:216-246 | resource strings are equal exactly when the addresses agree up to the kind of placeholder keys |
| `AddressText.ModuleTextInjective` | internal/addrs/module_instance.go:270-303 | module strings are equal exactly when the paths agree up to the kind of placeholder keys, so the string key of a module instance is unique |
| `AddressText.TypedWildcardsPrintAlike` | internal/addrs/instance_key.go:114-122 | two addresses that differ and print alike |
| `AddressText.ResourceTextIsUnkeyed` | internal/addrs/resource.go:118-123 | a whole resource prints like its unkeyed instance |
| `AddressGrammar.TargetParsedIff` | internal/addrs/parse_target.go:36-134 | a traversal is read as a target exactly when it is the steps of that target, every key can be read and no managed type is a reserved word |
| `AddressGrammar.InstanceTextParsedIff` | internal/addrs/parse_target.go:398-457 | a text is read as an instance exactly when it lexes to the steps of that instance, under the same conditions |
| `AddressGrammar.EndpointParsedIff` | internal/addrs/move_endpoint.go:130-155 | a traversal is read as an endpoint of a move exactly when it is the steps of a module path or a resource instance without placeholder keys |
| `Ordering.PathLessScan` | internal/addrs/module_instance.go:328-345 | the loop decides shortlex order of module paths by the first differing step, or fails on its keys |
| `Ordering.KeyOrder` | internal/addrs/instance_key.go:149-192 | comparing two keys fails exactly when one is a placeholder for the other's type; elsewhere key order is a strict total order |
| `Ordering.StepwiseTotal` | internal/addrs/module_instance.go:334-342 | comparing two paths of one length fails exactly when the first step that differs has clashing keys, and decides otherwise |
| `Ordering.ResourceOrder` | internal/addrs/resource.go:45-59 | mode, type and name order is a strict total order |
| `Ordering.LessIsStrictTotalOrder` | internal/addrs/resource.go:399-409 | comparing fails exactly when two instances first differ in clashing keys; elsewhere the order is irreflexive, asymmetric, transitive and total up to equality |
| `Ordering.LessIsBelow` | internal/addrs/resource.go:399-409 | on instances that can be compared, the order is lexicographic order of sort keys: number of modules, then names and keys from the outside in, then mode, type, name and key, each in its stated direction; equal sort keys mean equal instances |
| `Ordering.PlaceholderCannotBeCompared` | internal/addrs/instance_key.go:166-169 | two instances the comparison fails on |
| `Targets.PathContainsScan` | internal/addrs/module_instance.go:462-492 | the loop with its early acceptance of an unkeyed last step decides path containment |
| `Targets.ParseTargetSubjects` | internal/addrs/parse_target.go:36-72 | a parsed target is a module instance, a whole resource or a keyed instance |
| `Targets.ParsedTextIsSubject` | internal/addrs/parse_target.go:268-280 | whatever text a target is written as, its subject is one of those three with identifier names |
| `Targets.ContainsIffCovers` | internal/addrs/module_instance.go:437-505 | between parser subjects containment, string comparisons included, holds exactly when every instance covered by the second is covered by the first |
| `Targets.TargetContainsPreorder` | internal/addrs/resource.go:216-350 | containment is reflexive and transitive on parser subjects, across kinds |
| `Targets.ContainsIffReaches` | internal/addrs/resource.go:333-350 | containment of any two targets, static and unkeyed ones included, resolved from strings to names and keys |
| `Targets.TransitiveIff` | internal/addrs/module.go:84-117 | over all targets containment is reflexive, and when one target contains a second and that a third, the first contains the third exactly unless the one in the middle ignores keys the third has and the first insists on |
| `Targets.DistinctKeysNeverDiffer` | internal/addrs/resource.go:333-350 | without placeholder keys of a known type, only static and unkeyed targets break a chain |
| `Targets.StaticModulesBreakTransitivity` | internal/addrs/module_instance.go:437-460 | a concrete chain of containments that breaks at a static module |
| `OverrideSpec.GetAgreesWithList` | internal/addrs/override_trie.go:138-173 | after any accepted sets, of whatever depths, a lookup on concrete keys without diagnostic returns the last value of the matching pattern preferred at the earliest position, and nothing exactly when none matches |
| `OverrideAddresses.LookupByAddress` | internal/addrs/override_trie.go:138-173 | for addresses: after any accepted sets a lookup without diagnostic returns the value of the set that matches at every module step and at the instance, most specific and latest, and nothing exactly when none matches |
| `OverrideAddresses.NeighbourUntouched` | internal/addrs/override_trie.go:70-86 | an override for one index is found for that index and not for its neighbour |
| `OverrideAddresses.HistoryGrows` | internal/addrs/override_trie.go:70-86 | a trie that stands for the sets of some addresses stands for them and one more after each set it accepts |
| `OverrideSpec.FindIsBest` | internal/addrs/override_trie.go:152-173 | below any node the backtracking search finds the preferred match despite dead ends |
| `OverrideSpec.StoredIsLast` | internal/addrs/override_trie.go:70-86 | a node holds the value of the last set with its pattern |
| `OverrideSpec.MixedUsageNeedsEvidence` | internal/addrs/override_trie.go:175-209 | whatever the flag, mixed usage is reported only with evidence and the flag down, and is the only thing that raises the flag |
| `OverrideDiagnostics.LookupFailsIff` | internal/addrs/override_trie.go:175-209 | after any accepted sets a lookup on concrete keys reports mixed usage exactly when some set used a wildcard and the lookup has a key where some set left it out, at a position some set leads to, naming all sets that left it out at the first such position; and it panics exactly when it has none of these but a key beyond the evidence table |
| `OverrideAddresses.LookupByAddressFails` | internal/addrs/override_trie.go:175-209 | among addresses of one depth a lookup is refused exactly when some set wrote a wildcard and the address looked up has a key where some set left it out, below a path some set leads along; otherwise it has the right value |
| `OverrideDiagnostics.AcceptedIffAllFit` | internal/addrs/override_trie.go:97-105 | a history of sets is accepted exactly when none leaves out a key at a position the first set to leave one out does not have; the table then lists for every position the sets that left out the key, in order |
| `OverrideDiagnostics.DeeperCallPanics` | internal/addrs/override_trie.go:97-105 | two sets of different depths of which the second panics |
| `OverrideDiagnostics.DeeperLookupPanics` | internal/addrs/override_trie.go:187-196 | two accepted sets of different depths and a lookup that panics |
| `OverrideDiagnostics.OneDepthNeverPanics` | internal/addrs/override_trie.go:97-105 | sets of one depth are accepted and lookups within that depth do not panic |
| `OverrideDiagnostics.WalkDiag` | internal/addrs/override_trie.go:152-173 | the search raises the objection of the first position that objects exactly when some stored pattern leads there |
| `OverrideSpec.RewritingRemovesOnlyTheError` | internal/addrs/override_trie.go:88-126 | writing unkeyed sets as wildcards removes the mixed-usage error and the panic, and keeps every other result |
| `OverrideSpec.AtMostOneReport` | internal/addrs/override_trie.go:196-208 | in every interleaving of lookups at most one reports mixed usage |
| `OverrideSpec.ExactlyOneReport` | internal/addrs/override_trie.go:196-208 | in every interleaving, once a lookup has ended that would report mixed usage alone, exactly one lookup has reported it, naming the sources it would name alone |
| `OverrideSpec.LaterLookupsRefused` | internal/addrs/override_trie.go:138-141 | every lookup started after a report returns nothing |
| `OverrideSpec.AnswersAreFind` | internal/addrs/override_trie.go:152-173 | in every interleaving an answered lookup has the answer of the plain search |
| `OverrideSpec.ConcurrentAnswersAgreeWithList` | internal/addrs/override_trie.go:138-173 | in every interleaving an answered lookup agrees with the list of patterns |
| `OverrideAddresses.ConcurrentLookupByAddress` | internal/addrs/override_trie.go:138-173 | the same of every answer in every interleaving |
| `OverrideSpec.WalkIsSteps` | internal/addrs/override_trie.go:152-173 | the atomic steps taken alone are the recursive search: same value, diagnostic and flag |
| `OverrideTries.OverrideTrie.constructor` | internal/addrs/override_trie.go:50-55 | a new trie is valid and stands for the empty history |
| `OverrideTries.OverrideTrie.SubSet` | internal/addrs/override_trie.go:113-126 | one step returns the child for the normalised key, adding at most that node |
| `OverrideTries.OverrideTrie.SetNoKeyEvidence` | internal/addrs/override_trie.go:97-105 | the evidence table is sized once, and recording beyond it panics |
| `OverrideTries.OverrideTrie.Track` | internal/addrs/override_trie.go:73-83 | a set records an unkeyed position and then the use of a wildcard |
| `OverrideTries.OverrideTrie.Set` | internal/addrs/override_trie.go:70-86 | for an address of any depth: the mutable trie keeps its tree invariant and stands for the history extended by this set, or it panics exactly when the evidence table is too short, with nothing stored |
| `OverrideTries.OverrideTrie.CheckKeyFrom` | internal/addrs/override_trie.go:175-209 | a node's check goes to the root and swaps the flag at most once |
| `OverrideTries.OverrideTrie.RecursiveGet` | internal/addrs/override_trie.go:152-173 | the recursive read over nodes computes the specified search |
| `OverrideTries.OverrideTrie.Get` | internal/addrs/override_trie.go:138-151 | for an address of any depth a lookup returns the specified value and diagnostic, a panic included, and changes only the flag |
| `CheckReports.RunKeeps` | internal/checks/state_report.go:24-121 | over every accepted run a known status never changes, the first expansion is final, and every message belongs to a failed check |
| `CheckReports.ExpansionPends` | internal/checks/state_report.go:40-57 | an expansion makes exactly the declared checks of exactly the reported objects pending |
| `CheckReports.ExpansionAcceptedIff` | internal/checks/state_report.go:24-58 | an expansion is accepted exactly when the configuration object is known and either expanded before or given only its own objects; a second one changes nothing |
| `CheckReports.AcceptedIff` | internal/checks/state_report.go:99-121 | a run of results is accepted exactly when each check is pending and not settled by an earlier report |
| `CheckReports.RunReflects` | internal/checks/state_report.go:85-121 | a run's effect on statuses and messages does not mention order |
| `CheckReports.ReorderingReachesSameState` | internal/checks/state_report.go:70-121 | two accepted orders of the same results reach the same state |
| `CheckReports.EveryReorderingAcceptedIff` | internal/checks/state_report.go:112-118 | every reordering of an accepted run is accepted exactly when a check with a known report gets no other report |
| `CheckState.UnknownAfterKnownIsRefused` | internal/checks/state_report.go:112-118 | two orders of the same reports on a new store, one accepted and one not |
| `CheckReports.ObjectStatusIsMostSevere` | internal/checks/state.go:193-229 | an object's status is the most severe of its checks |
| `CheckReports.AggregateIsMostSevere` | internal/checks/state.go:144-186 | the aggregate is the most severe of the per-object statuses, Pass without objects |
| `CheckReports.AggregateMovesForward` | internal/checks/state.go:276-294 | over every accepted run Error is absorbing, Fail can only become Error and Pass is final |
| `CheckState.State.constructor` | internal/checks/state.go:85-89 | a new state knows every configuration object, none expanded, no messages |
| `CheckState.NewStorePends` | internal/checks/state.go:85-89 | a new store has no checks and Unknown aggregates; an expansion with its own objects is accepted and makes exactly the declared checks pending |
| `CheckState.State.ReportCheckableObjects` | internal/checks/state_report.go:24-58 | the expansion loop refines the abstract report; on a foreign object exactly the objects before it are recorded |
| `CheckState.State.SetResult` | internal/checks/state_report.go:99-121 | the shared report method accepts exactly pending checks and changes nothing when it panics |
| `CheckState.State.ReportCheckResult` | internal/checks/state_report.go:70-75 | a result report refines the abstract report |
| `CheckState.State.ReportCheckFailure` | internal/checks/state_report.go:85-95 | a failure report refines the abstract report and records its message only when accepted |
| `CheckState.State.AggregateCheckStatus` | internal/checks/state.go:144-186 | the nested counting loops compute the aggregate |
| `CheckState.State.ObjectCheckStatus` | internal/checks/state.go:193-229 | the counting loops compute an object's status |
| `CheckState.CountSlots` | internal/checks/state.go:162-183 | the innermost loop counts errors, failures and unknowns exactly |
| `ModuleSources.ResolveIsCompose` | internal/addrs/module_source_resolve.go:18-72 | resolving a local source composes normalised positions, whatever the sub-path; from a rooted one it fails |
| `ModuleSources.ResolveValid` | internal/addrs/module_source_resolve.go:18-72 | an absolute source resolves to itself; a local one gives a valid source in the same package at the composed position, inside a package a sub-path without empty, `.` or `..` segments |
| `ModuleSources.ResolveFailsIff` | internal/addrs/module_source_resolve.go:66-70 | resolving fails exactly when the composed path leads out of the package; for a sub-path in normal form, exactly when the relative path climbs higher than it is deep |
| `ModuleSources.FailsWithoutClimbing` | internal/addrs/module_source.go:279-317 | a remote sub-path `..` from which a path that does not climb fails |
| `ModuleSources.ResolveAssociativeIff` | internal/addrs/module_source_resolve.go:18-58 | resolving is associative, errors included, for every three sources exactly unless the middle one leads out of the package and the last one is absolute |
| `ModuleSources.GroupingMatters` | internal/addrs/module_source_resolve.go:18-58 | three sources that resolve or fail depending on the grouping |
| `ModuleSources.ResolveIdentityIff` | internal/addrs/module_source_resolve.go:18-58 | the current directory is a right identity exactly on sources in normal form |
| `ModuleSources.ParseLocalNormalises` | internal/addrs/module_source.go:147-181 | parsing yields the normal form of the path with forward slashes, is local, and is idempotent |
| `ModuleSources.CleanIsShortest` | internal/addrs/module_source.go:165-171 | cleaning gives the one shortest text of all that lead to the same place |
| `ModuleSources.LocalTextIs` | internal/addrs/module_source_resolve.go:28-31 | `./` stands in front of a local path unless it climbs and goes on, or begins like a local prefix with a backslash |
| `ModuleSources.SlashKindIgnored` | internal/addrs/module_source.go:154-164 | which way slashes lean makes no difference to parsing |
| `ModuleSources.IsModuleSourceLocalScan` | internal/addrs/module_source.go:183-190 | the prefix loop decides whether a source is local |
| `PageQueries.LogicalLines` | live/awspagequery.go:175-201 | the continuation loop produces the specified logical lines |
| `PageQueries.Assemble` | live/awspagequery.go:175-201 | the buffer and start-line state of the loop assembles runs of physical lines |
| `PageQueries.LogicalPartitions` | live/awspagequery.go:175-201 | logical lines partition the physical lines into consecutive runs from the recorded line, ending where a line does not continue |
| `PageQueries.LogicalKeepsText` | live/awspagequery.go:190-194 | no text is lost or repeated |
| `PageQueryUses.ReadIs` | live/awspagequery.go:179-193 | a comment adds nothing, a line whose last character before trailing blanks is a backslash goes on with one blank for it, any other line is taken as it is |
| `PageQueryUses.CommentIff` | live/awspagequery.go:173 | a line is a comment exactly when a `#` follows nothing but white space |
| `PageQueryUses.ContainsIff` | live/awspagequery.go:218-220 | the test that skips a line finds `--query` exactly where it occurs |
| `PageQueries.ParseInvocation` | live/awspagequery.go:264-300 | the token loop reads the first two words after global options |
| `PageQueries.OptionsSkipped` | live/awspagequery.go:266-284 | global options with their values are transparent: what follows any number of them is read as if they were not there |
| `PageQueries.ReadsExactlyCalls` | live/awspagequery.go:264-300 | the token loop accepts exactly `[options] service [options] operation ...` and reads the service and the operation from there |
| `PageQueries.AwsOptionsClosed` | live/awspagequery.go:53-72 | the two lists of global options are disjoint, carry no attached values and cannot be mistaken for command words |
| `PageQueries.InvocationNames` | live/awspagequery.go:285-299 | a read invocation has a service and an operation that are command-line words among the tokens |
| `PageQueries.FindOwner` | live/awspagequery.go:239-244 | the span loop finds the nearest preceding command word |
| `PageQueryUses.UseExact` | live/awspagequery.go:225-257 | a query is attributed to the service and operation that the text between the nearest command word and the next one spells, and to none exactly when it spells none or there is no such word; it has its line and unquoted argument |
| `PageQueryUses.UnquoteIff` | live/awspagequery.go:302-307 | exactly one pair of matching quotes around an argument is removed |
| `PageQueries.AnalyzeAWSPageQueries` | live/awspagequery.go:216-260 | every match yields one use in order, attributed to its owner's invocation, or marked unparsed with its line |
| `PageQueries.ClassifyUses` | live/awspagequery.go:324-350 | the classifying loop with its list of services already seen |
| `PageQueries.SortStringsSorts` | live/awspagequery.go:350 | sorting services that are all different keeps each and orders them strictly |
| `PageQueries.PageQueryFindings` | live/awspagequery.go:321-352 | from the lines of a script: the findings in order, each unresolved service once in sorted order, and the lines of the non-reducing unowned uses in order |
| `PageQueries.NoReducingQueryDropped` | live/awspagequery.go:321-352 | every reducing query of a script is a finding, has an unknown service, or resolves to an operation without paginator |
| `PageQueries.FindingsOnly` | live/awspagequery.go:321-352 | every finding is a reducing use: unowned, or resolved to a paginating operation |
| `PageQueryUses.LinesReportInOrder` | live/awspagequery.go:216-352 | what a line adds to uses, findings and unowned lines stands in its place, whatever comes before and after |
| `PageQueryUses.UseReportsOnce` | live/awspagequery.go:324-350 | each use is a finding once or not at all, told by its owner, its reduction and its paginator, and its line is listed once when unowned |
| `CloudState.State.WriteState` | internal/cloud/state.go:156-167 | a write changes the state and clears the force flag |
| `CloudState.State.WriteStateForMigration` | internal/cloud/state.go:115-135 | an accepted migration write takes over state, lineage, serial and force flag; a refused one changes nothing |
| `CloudState.State.RefreshState` | internal/cloud/state.go:386-415 | a refresh takes over the snapshot, or clears lineage and serial, or changes nothing on failure |
| `CloudState.State.PersistState` | internal/cloud/state.go:180-263 | a persist refines the abstract transition, failures to read, to make a lineage, to encode and to upload included; it succeeds exactly when nothing changed or every step worked |
| `CloudState.State.LockWorkspace` | internal/cloud/state.go:348-374 | locking records the lock only when the server accepted it |
| `CloudState.State.UnlockWorkspace` | internal/cloud/state.go:453-507 | unlocking reaches the server only with the right id, no failed upload and locks enabled |
| `CloudState.SerialsIncrease` | internal/cloud/state.go:180-263 | over every run without migration writes the serials sent strictly increase until the next refresh, while the counter cannot pass the largest signed 64-bit number |
| `CloudState.SerialsIncreaseIff` | internal/cloud/state.go:201 | in every run without migration writes whose states can be encoded the serials sent increase exactly when no persist passes the largest signed number between refreshes |
| `CloudState.UploadRaisesSerialIff` | internal/cloud/state.go:289-315 | an upload of a refreshed manager carries its state, lineage and force flag, and the signed serial it sends rises exactly when the serial was not the largest signed number |
| `CloudState.FirstUploadIs` | internal/cloud/state.go:199-217 | without a read state: to an empty workspace the upload is the state written with serial 1 under the lineage generated; a snapshot is uploaded with its own serial and lineage, or with the next serial under the lineage generated when it has none |
| `CloudState.FirstPersist` | internal/cloud/state.go:180-263 | a new manager uploads once to an empty workspace after any writes, locks and unlocks, with serial 1 and unforced, and persisting again uploads nothing |
| `CloudState.RefreshWritePersist` | internal/cloud/state.go:187-251 | reading, writing and persisting uploads what was written with the next serial under the lineage read, unforced, and nothing exactly when the same content is written to a snapshot with lineage and serial |
| `CloudState.RefreshMigratePersist` | internal/cloud/state.go:115-135 | reading, importing and persisting uploads the state imported under its lineage with the serial after its own, forced as asked; a refused import uploads nothing |
| `CloudState.PersistThatStopsEarly` | internal/cloud/state.go:202-217 | a persist that cannot read the server changes nothing; one that cannot make a lineage keeps what it read and uploads nothing |
| `CloudState.SerialArithmetic` | internal/cloud/state.go:289-315 | the counter wraps at 64 bits and is sent as the signed number with the same bits |
| `CloudState.SerialsFallAtSignedMaximum` | internal/cloud/state.go:201 | a run from a new manager whose second upload has a lower serial than its first |
| `CloudState.PersistUploadCount` | internal/cloud/state.go:187-251 | a persist sends one upload exactly when something changed and everything before the upload worked |
| `CloudState.PersistAgainChangesNothingIff` | internal/cloud/state.go:187-260 | a persist right after a successful upload changes nothing exactly when what was uploaded had a state, a lineage and a serial, told by the first persist's inputs, or the state was nil and the server cannot be read |
| `CloudState.NilStateIsUploadedAgain` | internal/cloud/state.go:187-201 | a successful first upload after which the next persist uploads again |
| `CloudState.FailedUploadRetriedIff` | internal/cloud/state.go:247-251 | after a rejected upload and any writes, locks and unlocks the next persist attempts again, except exactly when the state is the one last read and either the rejected persist had refreshed from a proper snapshot or its serial caught up with the one read |
| `CloudState.NeverCaughtUp` | internal/cloud/state.go:187-201 | while the serial read is not ahead of the serial, as in runs without migration writes below the signed maximum, the serial never catches up with it, so only a refreshing persist goes without a retry |
| `CloudState.WriteSurvivesPersistIff` | internal/cloud/state.go:202-212 | a write survives the next persist exactly when a state was read before, or the server has no snapshot, or its snapshot has the same content; what is uploaded is the state kept, unforced |
| `CloudState.LostWriteIsNotRetried` | internal/cloud/state.go:202-212 | a write to a new manager that is lost, in a rejected upload that is not retried |
| `CloudState.LoweredSerialIsNotRetried` | internal/cloud/state.go:115-135 | a forced migration just below the serial read, and a rejected upload that is not retried |
| `CloudState.ForceIsLastWrite` | internal/cloud/state.go:115-167 | over every run the force flag is what the last accepted write left |
| `CloudState.FlagMeansFailure` | internal/cloud/state.go:247-251 | the error flag is up exactly when the server has rejected some upload; a state that cannot be encoded does not raise it |
| `CloudState.NeverReleasedAfterFailure` | internal/cloud/state.go:461-466 | once an upload has failed the rest of the run never releases the workspace |
| `CloudState.UnlockReleasesIff` | internal/cloud/state.go:453-507 | after any run an unlock sends nothing when locks are disabled or an upload failed; else a release exactly for the id of the last lock granted, or, if none was, a forced one exactly for the workspace's name |
| `CloudState.LockIsRequested` | internal/cloud/state.go:348-374 | after any run a lock is one request to the server, and the lock held is the new one exactly when it was granted |
| `CloudState.NoLocksWhenDisabled` | internal/cloud/state.go:352-354 | with locks disabled no run asks the server to lock or unlock |

## Left out

- Strings are sequences of Unicode scalar values: Go strings that are not valid UTF-8, and the NFC
  normalisation that `cty` applies to parsed strings, are not modelled.
- The HCL lexer and parser are not part of the repository: the reference lexer accepts the printed
  subset (names, quoted strings, decimal indexes, splats) and nothing else. It has an extra mode
  for negative indexes, used only for injectivity.
- Diagnostics text and source ranges: only whether there is an error, except that the mixed-usage
  report carries the identities of the offending sources.
- OverrideTries.OverrideTrie.Set: after a panic only the stored values, the flag and the shape of the
  tree are described; values are stored directly instead of through fresh pointers.
- CheckState: the configuration walk that finds the declared checks is a parameter of the constructor;
  `ObjectFailureMessages` and its sorting are not modelled beyond the invariant that every message
  belongs to a failed check. The mutex makes each method one step.
- PageQueries: the regular expressions for command words, tokens, queries and reduction, and the
  paginator snapshot, are parameters.
- ModuleSources: registry and remote address syntax, and the packages inside them, are opaque strings;
  `path.Clean`, `path.Join` and `fs.ValidPath` follow their documentation.
- CloudState: encryption, JSON outputs, run ids, snapshot intervals and deletion are not modelled; two
  contents marshal equal when they are equal; `CheckValidImport` is a parameter; the fallback upload
  is part of the one upload outcome.
- `AbsResourceInstanceObject.Less`, `IsDeclaredByCall`, `parseRef` and the single-name address types,
  and the embedded lookup tables under `live/`.
