# Verified models of the pfSense MCP server's safety-critical logic

This project models, in Dafny, the parts of the pfSense MCP server whose job is
to keep a promise across many steps, and proves those promises for every input,
run or reachable state.

| file | what it models |
|---|---|
| `WitnessService.dfy`, `WitnessProtocol.dfy` | the TPM witness: a locked read, check, increment, re-read, once as an object and once as a transition system over any number of interleaved callers |
| `Numerals.dfy`, `Pools.dfy`, `Allocators.dfy` | the three placeholder allocators, and the tests that accept their output |
| `Sanitizer.dfy`, `SanitizerObject.dfy` | the fixture sanitizer over tokenised strings: its specification, and the object that updates allocators, counters and redacted names in place, proved equal |
| `SanitizerMeaning.dfy` | what is written for every string and which placeholder every address gets, position by position |
| `SanitizerReports.dfy` | what is refused and what the audit reports, string by string |
| `SanitizerSight.dfy` | when the sanitizer's tests on a string's text can see the addresses in it |
| `SanitizerBlindness.dfy`, `SanitizerAudit.dfy` | which documents the sanitizer treats the same whatever real addresses they hold, and the independent audit |
| `SchemaResolver.dfy` | `$ref`/`allOf` resolution over possibly cyclic schemas |
| `BatchSigning.dfy`, `BatchSigningTool.dfy`, `BatchSigningProofs.dfy`, `BatchSigningExact.dfy` | the batch signing ceremony: specification, the tool's loops and directories, what any sequence of runs guarantees, and exactly when each item is signed |
| `ApprovalFile.dfy` | the owner approval as a file |
| `KeyFile.dfy`, `KeyFileProofs.dfy` | storing and loading the API key on a disk where any call may fail and others may interfere |
| `Redaction.dfy` | the secret-masking log filter, character by character |
| `ImportEditor.dfy`, `ImportEditorProofs.dfy`, `CapabilitySet.dfy`, `Anchors.dfy` | the source-editing helpers |
| `Catalogue.dfy`, `CatalogueProofs.dfy` | the endpoint catalogue merge |
| `Recovery.dfy` | recovery contracts, execution and rollback |
| `RecoveryStates.dfy`, `LiveBinding.dfy`, `LabReconciliation.dfy`, `LabReconciliationProofs.dfy` | lab scenarios: admission, deadlines, result validation; reconciliation evidence |
| `Ordering.dfy`, `Text.dfy`, `Options.dfy` | code-point order and stable sorting, character tests, optional values |

Code that changes state is modelled as classes and methods with loops, proved
equal to a specification function; the theorems are about those functions.

Assumptions about the outside world are explicit parameters or predicates: the
clock, random identifiers and system-call failures are inputs; signatures, MACs
and digests are ideal (they determine their key and message); other processes
are arbitrary functions or steps.

## Where the code and its documentation differ

* The sanitizer is meant to keep real addresses out of its output. For a
  user-name value `who@host` it runs only the IPv4 pass on the host
  (scripts/lib/sanitizer.py:400-409), so an IPv6 or MAC address beside an IPv4
  address survives. `SanitizerBlindness.BlindExactly` shows that this is the only
  way in which real addresses can show in documents whose addresses stand apart
  from the text beside them, and `SanitizerAudit.LeakPassesAudit` that the
  sanitizer's own self-check does not notice. Where an address touches text that
  it can make into key material or a key file's name, whether the capture is
  refused can depend on the address (`SanitizerBlindness.AddressCompletesMarker`,
  `SanitizerBlindness.AddressEndsExtension`).
* `store_api_key` says that a write, `fsync`, close or verification failure
  removes the new file (src/pfsense_mcp/config.py:242-245). If the cleanup's own
  `stat` or `unlink` fails too it stays, and a part of the key loads as a key
  exactly when at least one byte was written (`KeyFileProofs.FailureLeavesKey`).
  The check before `unlink` leaves a window
  (`KeyFileProofs.UnlinksAnother`, `KeyFileProofs.SubstituteUnlinked`). About a
  failing `fchmod` or `fstat` it says nothing; the empty file then stays
  (`KeyFileProofs.EmptyFileStays`). A key outside ASCII is never accepted, because
  comparing it raises.
* Between the owner's "yes" and the signing of one item the tool re-checks the
  item's execution digest but not the plan digest it was reviewed under, so an
  authorization can be written that fails its own membership check
  (`BatchSigningProofs.OwnMembership`, `BatchSigningProofs.WrittenButNoMember`).
* A lab scenario whose expected state and final requirement disagree (E9, G6 to
  G10) can never be reported in its expected state
  (`LiveBinding.ExpectedStateAccepted`, `LiveBinding.NeverAsExpected`).
* An import block that names a module twice loses the names of the first line on
  the next edit (`ImportEditorProofs.SecondLineWins`).

## Model

| member | source | states |
|---|---|---|
| `WitnessService.Ended` | witness_daemon/service.py:48-71 | a conflict or a refused increment never moves the counter; a move adds one; the reply is the expected value plus one exactly when the call moved the counter |
| `WitnessService.Service.Read` | witness_daemon/service.py:44-46 | returns the counter, or fails, and changes nothing |
| `WitnessService.Service.Advance` | witness_daemon/service.py:48-71 | reply and final counter are exactly those of `Ended` for every outcome of each device call |
| `WitnessService.Tpm.IncrementCounter` | witness_daemon/tpm_cli.py:95-112 | applied, refused or ambiguous, and what each does to the counter |
| `WitnessProtocol.StepKeepsInv` | witness_daemon/service.py:34-71 | every step of every caller keeps the protocol's invariant |
| `WitnessProtocol.RunKeepsInv` | witness_daemon/service.py:34-71 | the invariant holds in every state of every settled run |
| `WitnessProtocol.AtMostOneMover` | witness_daemon/service.py:48-71 | under every interleaving at most one call with a given expected value ever moves the counter |
| `WitnessProtocol.RepliesTellTheTruth` | witness_daemon/service.py:44-71 | a conflict means the call did not move the counter; a non-conflict reply is v+1 exactly when it did |
| `WitnessProtocol.Linearizable` | witness_daemon/service.py:44-71 | the finished calls are one sequential execution of the specification with the replies they got |
| `WitnessProtocol.RealTimeOrder` | witness_daemon/service.py:44-71 | that execution respects real-time order |
| `WitnessProtocol.UninterruptedAdvance` | witness_daemon/service.py:48-71 | the transition system's steps, run alone, end exactly as the object's `advance` |
| `WitnessProtocol.LateIncrementBreaksIt` | witness_daemon/tpm_cli.py:95-112 | without the assumption that an ambiguous increment has settled, two calls with one expected value move the counter |
| `Numerals.NumeralInjective` | scripts/lib/sanitizer.py:205-214 | different counters print differently |
| `Allocators.NumeralWorth` | scripts/lib/sanitizer.py:205-214 | a number's digits are worth that number, in base 10 and 16 |
| `Pools.FirstUseDecides` | scripts/lib/sanitizer.py:187-228 | over any call sequence a key's placeholder is that of the position of its first use |
| `Allocators.IPv4Allocator.Allocate` | scripts/lib/sanitizer.py:187-197 | same key same placeholder; a new key takes the next one, range by range |
| `Allocators.IPv6Allocator.Allocate` | scripts/lib/sanitizer.py:205-214 | the same for IPv6 texts |
| `Allocators.MacAllocator.Allocate` | scripts/lib/sanitizer.py:222-228 | the same for MAC addresses |
| `Allocators.Ipv4Collisions` | scripts/lib/sanitizer.py:181-197 | two keys share a placeholder exactly when their first uses are a multiple of 723 apart |
| `Allocators.MacCollisions` | scripts/lib/sanitizer.py:217-228 | exactly when a multiple of 65536 apart |
| `Allocators.Ipv6Collisions` | scripts/lib/sanitizer.py:200-214 | never; and the last group is a legal 16-bit group for exactly the first 65535 |
| `Allocators.Ipv4Placeholders` | scripts/lib/sanitizer.py:187-197 | the placeholders in order: hosts 10 to 250 of the three documentation ranges in turn, over and over |
| `Allocators.Ipv6Placeholders` | scripts/lib/sanitizer.py:205-214 | the last group is worth the number of the key, counted from one |
| `Allocators.MacPlaceholders` | scripts/lib/sanitizer.py:222-228 | the last two octets are worth that number's low 16 bits, under the fixed prefix |
| `Allocators.NetmaskExactly` | scripts/lib/security_patterns.py:33-40 | the textual netmask test accepts exactly the values 2^32 - 2^k |
| `Allocators.SafeExactly` | scripts/lib/security_patterns.py:43-52 | safe are exactly loopback addresses, netmasks and the documentation ranges |
| `Allocators.LocalExactly` | scripts/lib/security_patterns.py:59-65 | an address is locally administered exactly when its second digit is 2, 3, 6, 7, a, b, e or f |
| `Allocators.PlaceholdersAccepted` | scripts/lib/security_patterns.py:43-65 | every placeholder passes the two safety tests |
| `SanitizerObject.Sanitizer.SubstituteV4` | scripts/lib/sanitizer.py:231-246 | the IPv4 loop over the allocator in place equals the specification pass |
| `SanitizerObject.Sanitizer.SubstituteV6` | scripts/lib/sanitizer.py:249-279 | the same for IPv6 |
| `SanitizerObject.Sanitizer.SubstituteMac` | scripts/lib/sanitizer.py:282-304 | the same for MAC, leaving the sanitizer's own prefix |
| `SanitizerObject.Sanitizer.SubstituteIdentifying` | scripts/lib/sanitizer.py:391-416 | the identifying-field rules, counters and redacted names, as specified |
| `SanitizerObject.Sanitizer.SubstituteGeneric` | scripts/lib/sanitizer.py:418-436 | address passes, then the host-name fallback, as specified |
| `SanitizerObject.Sanitizer.SanitizeString` | scripts/lib/sanitizer.py:349-389 | the refusals in order, tested on the real text, then substitution, as specified |
| `SanitizerObject.Sanitizer.Sanitize` | scripts/lib/sanitizer.py:340-347 | the recursion over a document, state threaded in order, as specified |
| `SanitizerObject.Sanitizer.Run` | scripts/lib/sanitizer.py:331-338 | a whole capture with its self-check, as specified |
| `SanitizerMeaning.StringMeans` | scripts/lib/sanitizer.py:386-436 | every captured string: the fixed texts, the user name's fallback, the host-name placeholder, the redaction label or the text itself, by its field's name and text; otherwise every address becomes the final pools' placeholder with its prefix and brackets and all else stays; the counts, redacted names and pools grow by exactly that |
| `SanitizerMeaning.DocumentMeans` | scripts/lib/sanitizer.py:340-347 | the same document with every string written so: keys, order and other values stay, and no later placeholder changes what was written |
| `SanitizerMeaning.CaptureMeans` | scripts/lib/sanitizer.py:307-347 | over a whole capture the i-th distinct address of its kind has the i-th placeholder and no other address has one; counts and redacted names are the sums over the strings |
| `SanitizerMeaning.AddressesCounted` | scripts/lib/sanitizer.py:418-426 | the address counts are the numbers of addresses replaced |
| `SanitizerMeaning.HostExactly` | scripts/lib/sanitizer.py:403-409 | the host of a user name is what follows the first "@", its addresses intact |
| `SanitizerMeaning.AtText` | scripts/lib/sanitizer.py:403-409 | and its text is the text after the first "@" |
| `SanitizerReports.RefusalExactly` | scripts/lib/sanitizer.py:349-384 | a string is refused exactly when one of the six categories holds, each spelled out, and for the first of them |
| `SanitizerReports.FirstRefusal` | scripts/lib/sanitizer.py:340-389 | a document is refused for the first string of the walk that must be, under its path; and captured exactly when there is none |
| `SanitizerReports.StrictHostnameExactly` | scripts/lib/sanitizer.py:149-163 | a strict host name is two or more valid labels joined by dots, not all numeric, at most 253 characters |
| `SanitizerSight.MarkerSplit` | scripts/lib/sanitizer.py:135-136 | across an address that cannot complete it, a key-material marker occurs exactly when it does on one side |
| `SanitizerSight.NameSplit` | scripts/lib/sanitizer.py:139-140 | the same for a key file's name, its word boundary included |
| `SanitizerSight.RefusalBlank` | scripts/lib/sanitizer.py:349-384 | where addresses stand apart the refusal of a string is that of the string with every address replaced by the null address |
| `SanitizerBlindness.SameRefusal` | scripts/lib/sanitizer.py:349-384 | and so the same under every renaming of its addresses |
| `SanitizerBlindness.DocumentRelated` | scripts/lib/sanitizer.py:340-436 | on a document whose addresses stand apart and without a leaking value, the runs before and after a renaming of real addresses agree in output, refusals, counts and redacted names |
| `SanitizerBlindness.LeakShows` | scripts/lib/sanitizer.py:400-409 | a leaking value that is reached shows the real address in the output |
| `SanitizerBlindness.RefusedExactly` | scripts/lib/sanitizer.py:340-389 | a document is refused exactly when one of its non-empty strings must be |
| `SanitizerBlindness.BlindExactly` | scripts/lib/sanitizer.py:331-436 | a document whose addresses stand apart is treated blindly exactly when one of its strings must be refused or none leaks |
| `SanitizerBlindness.TouchingShows` | scripts/lib/sanitizer.py:349-384 | when one address after a text is refused and another is not, the document is not treated blindly although nothing leaks |
| `SanitizerBlindness.AddressCompletesMarker` | scripts/lib/sanitizer.py:94-94 | an IPv6 address can complete a key-material marker |
| `SanitizerBlindness.AddressEndsExtension` | scripts/lib/sanitizer.py:95-95 | an IPv6 address can end a key file's extension, or run on from it |
| `SanitizerAudit.RunBlind` | scripts/lib/sanitizer.py:331-338 | the whole run, audit included, is blind on those documents; and a capture that its own audit accepts is blind exactly when nothing leaks |
| `SanitizerAudit.KeyRecovered` | scripts/lib/sanitizer.py:475-498 | the name recovered from a path is the key, for keys free of "." and "[" |
| `SanitizerAudit.IndexTransparent` | scripts/lib/sanitizer.py:475-498 | list indices in a path do not change the recovered name |
| `SanitizerAudit.NameClause` | scripts/lib/sanitizer.py:475-498 | after a successful walk, what the audit's name clause finds in any sub-document |
| `SanitizerAudit.AuditAgrees` | scripts/lib/sanitizer.py:438-498 | after a successful sanitization the audit's name clause fires on exactly the empty strings under a token- or secret-style name |
| `SanitizerReports.AuditExactly` | scripts/lib/sanitizer.py:448-498 | the audit reports exactly: each key of a prohibited name, an unsafe IPv4 address, a MAC address not locally administered, and each string under a sensitive name neither redacted nor exempt |
| `SanitizerReports.RunExactly` | scripts/lib/sanitizer.py:331-338 | a run hands over the capture exactly when the document is not refused and nothing in the capture is a problem; otherwise it reports the refusal or a problem that is there |
| `SanitizerAudit.LeakPassesAudit` | scripts/lib/sanitizer.py:400-409 | a concrete capture whose output holds a real IPv6 address passes its own audit |
| `SchemaResolver.Resolve` | scripts/lib/openapi.py:119-145 | terminates on every finite document, cyclic ones included, and its result has no top-level `$ref` or `allOf` |
| `SchemaResolver.ResolveNode` | scripts/lib/openapi.py:119-145 | the recursion with a path-local guard equals the specification |
| `SchemaResolver.MergeAll` | scripts/lib/openapi.py:129-143 | the in-place merge of `allOf` parts equals the specification |
| `SchemaResolver.FlattenNested` | scripts/lib/openapi.py:131-143 | flattening an inline nested `allOf` into its parent changes nothing |
| `SchemaResolver.AllOfMerged` | scripts/lib/openapi.py:131-143 | properties are a right-biased union and nothing more, the type is the last non-object one, required names come in first-mention order without repeats |
| `SchemaResolver.ResolveMeaning` | scripts/lib/openapi.py:109-145 | on any document, cyclic or not, resolution fails exactly when a dangling reference can be reached, and otherwise declares exactly what reachable plain nodes declare |
| `SchemaResolver.FailureNamesCause` | scripts/lib/openapi.py:109-127 | a failure names a reference that was reached and is not local, or dangles |
| `SchemaResolver.GuardUnused` | scripts/lib/openapi.py:119-145 | on acyclic documents the result equals the unfolding without the guard |
| `BatchSigningTool.Tool.CollectPreviews` | signing/write_batch1_signing.py:735-751 | all previews, or none when any is missing, unreadable or already signed |
| `BatchSigningTool.Tool.OneAuthorization` | signing/write_batch1_signing.py:566-635 | the skip, refuse and write branches for one capability, as specified; when each is taken is `BatchSigningExact.OneExactly` |
| `BatchSigningTool.Tool.SignEntries` | signing/write_batch1_signing.py:789-808 | the signing loop stops at the first refusal and keeps what was written before |
| `BatchSigningTool.Tool.SignAuthorizationBatch` | signing/write_batch1_signing.py:709-808 | the whole command equals the specification of a run |
| `BatchSigningProofs.ManifestOrdered` | src/pfsense_mcp/tier1/shape_a_batch_manifest.py:123-178 | the manifest names each capability once, in strictly increasing order |
| `BatchSigningProofs.ManifestLists` | src/pfsense_mcp/tier1/shape_a_batch_manifest.py:123-178 | it lists exactly the reviewed previews, all against one plan |
| `BatchSigningProofs.ManifestOrderFree` | src/pfsense_mcp/tier1/shape_a_batch_manifest.py:123-178 | the order in which capabilities are named makes no difference |
| `BatchSigningProofs.RefusedRunWritesNothing` | signing/write_batch1_signing.py:709-757 | a run refused before or at the prompt writes nothing |
| `BatchSigningProofs.ApprovedAsReviewed` | signing/write_batch1_signing.py:752-788 | the signed approval commits to exactly the digests of the previews shown before the "yes" |
| `BatchSigningProofs.WrittenAsApproved` | signing/write_batch1_signing.py:752-808 | whatever others do after the "yes", each authorization written carries the identifier and execution digest the approval written before it commits to |
| `BatchSigningExact.OneExactly` | signing/write_batch1_signing.py:566-635 | one item is signed exactly when its preview is readable, for it, of the target posture, assurance and step, with the approved digest, its plan safe and the same, the key pair matching and the inbox empty; skipped exactly when it is already signed |
| `BatchSigningExact.SignAllExactly` | signing/write_batch1_signing.py:789-808 | the loop completes exactly when every item passes, and writes an item exactly when it can be signed and every earlier one passed |
| `BatchSigningExact.ReviewExactly` | signing/write_batch1_signing.py:716-751 | what must hold before the prompt is shown |
| `BatchSigningExact.ApprovedExactly` | signing/write_batch1_signing.py:752-788 | an approval is signed exactly after a "yes" to a reviewable batch with distinct identifiers |
| `BatchSigningExact.ApprovalStates` | signing/write_batch1_signing.py:760-788 | the approval names the batch, the first preview's plan, step, posture and assurance, lasts 1800 seconds and is signed by the loaded key over its whole payload |
| `BatchSigningExact.WrittenExactly` | signing/write_batch1_signing.py:752-808 | once approved, an item is written exactly when the approval could be stored, discovery worked, the item can be signed and every item before it in order passes |
| `BatchSigningExact.FinishedExactly` | signing/write_batch1_signing.py:789-808 | and the run finishes exactly when all pass |
| `BatchSigningExact.SignedAsRequired` | signing/write_batch1_signing.py:349-428 | every authorization a run writes is for its own capability, under a safe plan with the preview's digest and the target posture, assurance and step, issued at the item's time and expiring 1800 seconds later |
| `BatchSigningProofs.RunKeepsStore` | signing/write_batch1_signing.py:709-808 | one run changes no file that exists |
| `BatchSigningProofs.NeverOverwritten` | signing/write_batch1_signing.py:709-808 | no signed file is ever overwritten over any sequence of runs |
| `BatchSigningProofs.MembershipExclusive` | signing/shape_a_batch_owner_approval.py:370-407 | with fresh identifiers and unforgeable signatures an authorization passes membership for its own approval and capability only, over all approvals ever signed |
| `BatchSigningProofs.OwnMembership` | signing/shape_a_batch_owner_approval.py:370-407 | and passes for its own pair exactly when both signing keys are pinned and the plan in force when the item was signed is the one in the first preview reviewed |
| `BatchSigningProofs.WrittenButNoMember` | signing/write_batch1_signing.py:591-635 | a run that finishes and writes an authorization that fails its own membership check |
| `ApprovalFile.HexRoundTrip` | signing/shape_a_batch_owner_approval.py:410-415 | the hexadecimal proof decodes to itself |
| `ApprovalFile.HexReadsExactly` | signing/shape_a_batch_owner_approval.py:442-446 | a text is read as bytes exactly when it spells them, two digits each in either case, with space only around the pairs |
| `ApprovalFile.ApprovalRoundTrip` | signing/shape_a_batch_owner_approval.py:410-474 | every valid approval read back from its file equals the original |
| `ApprovalFile.FileReadsExactly` | signing/shape_a_batch_owner_approval.py:418-474 | a file is read as an approval exactly when its fields hold that approval's values and it has the form an approval must have; the purpose it names is not looked at |
| `ApprovalFile.FileHolds` | signing/shape_a_batch_owner_approval.py:410-415 | what is written holds the approval's values under the fixed purpose |
| `ApprovalFile.ApprovalFits` | signing/shape_a_batch_owner_approval.py:285-305 | an approval made of safe names has the form its file must have exactly when its payload passed the checks of its construction |
| `ApprovalFile.ReadBackIsSame` | signing/shape_a_batch_owner_approval.py:353-367 | the approval of a batch, written and read back, is the one signed and verifies identically |
| `KeyFiles.KeyDirectory.WriteAll` | src/pfsense_mcp/config.py:287-294 | the write loop on short and failing writes equals its specification |
| `KeyFiles.KeyDirectory.StoreApiKey` | src/pfsense_mcp/config.py:239-326 | outcome and disk equal the specification for every pattern of failures and interference |
| `KeyFileProofs.WritingAppends` | src/pfsense_mcp/config.py:287-294 | whatever the writes do, only the created file changes, by a prefix of the value |
| `KeyFileProofs.ShortWritesSuffice` | src/pfsense_mcp/config.py:287-294 | any pattern of positive short writes delivers the whole value |
| `KeyFileProofs.KeyLoads` | src/pfsense_mcp/config.py:205-236 | a stored ASCII key of up to 4096 bytes is the key that loads |
| `KeyFileProofs.LoadExactly` | src/pfsense_mcp/config.py:205-236 | a file loads as a key exactly when it is a private regular file of the caller's, at most 16384 bytes long, and its first line is at most 4096 bytes, holds no control byte and decodes and strips to that non-empty key |
| `KeyFileProofs.LoadNeedsFile` | src/pfsense_mcp/config.py:205-236 | and never when the file is missing or a call on it fails |
| `KeyFileProofs.StripExactly` | src/pfsense_mcp/config.py:226-236 | stripping takes away exactly the white space around a text |
| `KeyFileProofs.AcceptableExactly` | src/pfsense_mcp/config.py:247-260 | a key is acceptable exactly when it is not empty, has no white space around it and holds no control or formatting character |
| `KeyFileProofs.StoreSucceeds` | src/pfsense_mcp/config.py:239-326 | when nothing fails, storing succeeds for exactly the acceptable ASCII keys up to 4096 bytes, and leaves no file otherwise |
| `KeyFileProofs.StoredExactly` | src/pfsense_mcp/config.py:239-326 | with nobody interfering, storing succeeds exactly when the key is acceptable, ASCII and at most 4096 bytes, every call succeeds, the writes deliver the line and the verifying read is not cut short of the key |
| `KeyFileProofs.StoredLoadsBack` | src/pfsense_mcp/config.py:296-305 | under arbitrary short writes and failures a normal return means the key loads back, if the verifying read was not cut short or others did not swap the file before it |
| `KeyFileProofs.ShortReadAcceptsSwap` | src/pfsense_mcp/config.py:215-215 | with both, another key can be what loads |
| `KeyFileProofs.EmptyFileStays` | src/pfsense_mcp/config.py:280-284 | a failure before the file is identified leaves it, empty, whatever others do; it never loads |
| `KeyFileProofs.FailureLeavesFile` | src/pfsense_mcp/config.py:266-326 | a failed store leaves a file behind exactly when it created one and could not identify it or could not clean it up |
| `KeyFileProofs.FailureLeavesKey` | src/pfsense_mcp/config.py:266-326 | for an ASCII key, something loads exactly when the file was identified, a byte was written and the cleanup's own calls failed; it is then a part of the key |
| `KeyFileProofs.FailureLeavesNoKey` | src/pfsense_mcp/config.py:311-326 | so a failed store of any key leaves nothing that loads when the cleanup's calls work |
| `KeyFileProofs.PrefixSurvives` | src/pfsense_mcp/config.py:311-322 | a run in which a proper prefix of the key is left to load |
| `KeyFileProofs.OnlyItsOwnFile` | src/pfsense_mcp/config.py:266-326 | an existing path is refused unchanged; otherwise only the created file is touched, exactly unless others swap the name between the cleanup's `stat` and its `unlink` |
| `KeyFileProofs.UnlinksAnother` | src/pfsense_mcp/config.py:311-322 | the cleanup unlinks a file not its own exactly when the name led to its own at `stat` and to another at `unlink` |
| `KeyFileProofs.SubstituteUnlinked` | src/pfsense_mcp/config.py:318-321 | a run in which that happens |
| `Redaction.SecretRedactionFilter.RegisterSecret` | src/pfsense_mcp/logging_setup.py:26-28 | appends a secret, ignoring the empty one |
| `Redaction.SecretRedactionFilter.Filter` | src/pfsense_mcp/logging_setup.py:30-37 | the record's message becomes the formatted message with every secret masked (in the sense of `Redaction.RedactExactly`), and is not formatted again |
| `Redaction.MaskingKeepsPieces` | src/pfsense_mcp/logging_setup.py:32-34 | the text is pieces joined by the secret at its leftmost occurrences, and the result is the same pieces joined by the mask |
| `Redaction.CutUnique` | src/pfsense_mcp/logging_setup.py:32-34 | those pieces are the only ones |
| `Redaction.RedactExactly` | src/pfsense_mcp/logging_setup.py:30-37 | the filtered message is exactly the one obtained by masking each registered secret so, in turn |
| `Redaction.MaskingIntroducesNothing` | src/pfsense_mcp/logging_setup.py:32-34 | masking a secret removes it and creates no other, as long as none can overlap the mask |
| `Redaction.NoSecretLeft` | src/pfsense_mcp/logging_setup.py:30-37 | then no registered secret is left, whatever their number and order |
| `Redaction.FilterRemovesSecrets` | src/pfsense_mcp/logging_setup.py:26-37 | in particular if no secret shares a character with the mask; and a second filter changes nothing |
| `Redaction.MaskedByItself` | src/pfsense_mcp/logging_setup.py:32-34 | every secret that occurs in the mask is still there after masking |
| `ImportEditor.InsertClientModelImport` | scripts/lib/code_templates.py:380-418 | one pass over the block, the refusals, and the rewritten block, as specified |
| `ImportEditor.InsertImport` | scripts/lib/code_templates.py:380-418 | an insertion is accepted exactly when there is one block and it does not import the name |
| `ImportEditorProofs.NamesOfJoin` | scripts/lib/code_templates.py:406-417 | a rendered name list parses back to itself |
| `ImportEditorProofs.ParseRendered` | scripts/lib/code_templates.py:401-417 | a rendered block parses back to the dict it came from |
| `ImportEditorProofs.InsertReadsBack` | scripts/lib/code_templates.py:380-418 | lines outside the block are unchanged, and the block reads back as before with one name added |
| `ImportEditorProofs.InsertTwice` | scripts/lib/code_templates.py:408-413 | adding the same name again is refused |
| `ImportEditorProofs.InsertionsCommute` | scripts/lib/code_templates.py:380-418 | two different names give the same text in either order |
| `ImportEditorProofs.ExactlyImported` | scripts/lib/code_templates.py:401-418 | afterwards the file imports the new name and exactly what the last line for each module imported |
| `ImportEditorProofs.NothingLost` | scripts/lib/code_templates.py:401-418 | so nothing is lost when each module has one line |
| `ImportEditorProofs.SecondLineWins` | scripts/lib/code_templates.py:401-406 | and a module with two lines loses the name of the first |
| `Anchors.ReplacesTheOne` | scripts/lib/code_templates.py:40-46 | an anchor is accepted exactly when it occurs once (an empty one, in an empty text), and only that occurrence is replaced |
| `Anchors.InsertIsReplace` | scripts/lib/code_templates.py:29-37 | inserting after an anchor is replacing it by itself and the insertion |
| `Anchors.ReadListReadsBack` | scripts/lib/code_templates.py:578-591 | a name is refused exactly when listed; otherwise the edited import list reads back as old and new names, sorted |
| `Anchors.ReadInsertionsCommute` | scripts/lib/code_templates.py:578-591 | insertions commute, and a listed name is refused |
| `CapabilitySet.InsertReadsBack` | scripts/lib/code_templates.py:658-683 | the edited set literal, on one line or several, reads back as the old members followed by the new one |
| `CapabilitySet.InsertAgain` | scripts/lib/code_templates.py:658-683 | it keeps its layout and can be edited again; the same member is refused and any other accepted |
| `CapabilitySet.IndentsExactly` | scripts/lib/code_templates.py:671-677 | the two indentations are those of the first line that starts with a member and of the first from which only the brace is left |
| `CapabilitySet.AcceptedExactly` | scripts/lib/code_templates.py:658-675 | refused as a repetition exactly when the braces hold the name; otherwise accepted exactly when there are braces and, on several lines, both indentations |
| `Catalogue.Merge` | scripts/build_endpoint_catalogue.py:96-133 | the two loops of the merge equal its specification |
| `CatalogueProofs.MergeMeans` | scripts/build_endpoint_catalogue.py:96-133 | the result is strictly sorted, and holds for each discovered path the discovered facts with the old entry's classification if there is one and its own otherwise, and for any other path the old entry |
| `CatalogueProofs.MergeAllMeans` | scripts/build_endpoint_catalogue.py:96-133 | over any sequence of merges each path holds its last discovered facts with its original classification |
| `CatalogueProofs.NothingLost` | scripts/build_endpoint_catalogue.py:96-133 | no entry is lost, no classification changes, and the paths are exactly the old and the discovered ones |
| `CatalogueProofs.MergeTwice` | scripts/build_endpoint_catalogue.py:96-133 | repeating a merge adds nothing, updates nothing and keeps the entries |
| `CatalogueProofs.ReportIsExact` | scripts/build_endpoint_catalogue.py:106-133 | the report lists exactly the new paths, those whose facts differ from the discovered ones, and the undiscovered ones |
| `CatalogueProofs.ReportIsSorted` | scripts/build_endpoint_catalogue.py:127-133 | each of the three lists in order |
| `Ordering.SortPermuted` | scripts/build_endpoint_catalogue.py:127-133 | sorting ignores the order its input came in |
| `Recovery.RecoveryContractStore.Get` | src/pfsense_mcp/recovery.py:75-82 | an open contract past its expiry becomes expired, and is never reported open |
| `Recovery.RecoveryContractStore.MoveTo` | src/pfsense_mcp/recovery.py:84-96 | changes the status of a stored contract only |
| `Recovery.PfSenseWriteClient.Execute` | src/pfsense_mcp/pfsense_write_client.py:67-72 | commits exactly when confirmed, admitted, given as open and unexpired, and sent successfully |
| `Recovery.PfSenseWriteClient.Rollback` | src/pfsense_mcp/rollback.py:29-40 | runs the plan exactly when given a committed contract, and marks success |
| `Recovery.OnlyStatusChanges` | src/pfsense_mcp/recovery.py:51-96 | in every run a stored contract stays, only its status changes, and it never becomes open again |
| `Recovery.NeverOpenPastExpiry` | src/pfsense_mcp/recovery.py:75-82 | after any run, reading never reports open past expiry |
| `Recovery.RunsOnlyWhenCommitted` | src/pfsense_mcp/rollback.py:29-40 | with fresh reads the reply is that the plan ran exactly when the store says committed, and the contract is rolled back exactly when it then succeeded |
| `Recovery.CommitsExactly` | src/pfsense_mcp/pfsense_write_client.py:67-72 | with fresh reads an execute replies success exactly when the store moves to committed, which is exactly when it is confirmed, admitted, sent, open and unexpired |
| `Recovery.OneRollbackPerCommit` | src/pfsense_mcp/rollback.py:29-40 | with fresh reads there are never more successful rollbacks than commits |
| `Recovery.CommitsOnceRollsBackOnce` | src/pfsense_mcp/pfsense_write_client.py:67-75 | with fresh reads on both sides a contract commits and rolls back at most once, ever |
| `Recovery.StaleCopyReplays` | src/pfsense_mcp/rollback.py:29-40 | a stale committed copy rolls back a second time |
| `LiveBinding.ReportMeans` | lab/stage3_live_binding.py:172-222 | for every backend a report has the planned sends and exactly one policy: reconciliation stop exactly for a reconciliation result, otherwise exactly back at A; and when each read-back classification is given |
| `LiveBinding.AnsweredExactly` | lab/stage3_live_binding.py:131-222 | when a scenario is refused, is late, or is reported: exactly for a result that agrees with its plan and carries the evidence the plan needs, inside the time the receipt grants |
| `LiveBinding.ExpectedStateAccepted` | lab/stage3_live_binding.py:172-222 | the expected state can be reported exactly when it agrees with the final requirement |
| `LiveBinding.NeverAsExpected` | lab/stage3_deg.py:393-514 | scenarios E9 and G6 to G10 are never reported in their expected state |
| `LiveBinding.FastPortNeverLate` | lab/stage3_backend.py:42-64 | a port whose whole run takes less than 60 seconds for each declared send and four more, plus 30, never trips a deadline check |
| `LiveBinding.BoundedOperationsNeverLate` | lab/stage3_live_binding.py:31-38 | so a run of the declared sends and four more operations within the transport's limit is never late |
| `LiveBinding.RequiredTimeIsTight` | lab/stage3_live_binding.py:131-138 | one that takes exactly that long can be refused |
| `LabReconciliation.Lab.EmitPendingEvidence` | lab/reconciliation_authority.py:340-367 | emitting a pending record from the store, as specified |
| `LabReconciliation.Lab.SignExistingPending` | lab/reconciliation_owner.py:30-49 | the owner's signing step, as specified |
| `LabReconciliation.Lab.ResolveSignedEvidence` | lab/reconciliation_authority.py:370-387 | handing signed evidence to the store, as specified |
| `LabReconciliationProofs.PendingRoundTrip` | lab/reconciliation_authority.py:142-216 | every valid pending record reads back from its file |
| `LabReconciliationProofs.SignedRoundTrip` | lab/reconciliation_authority.py:219-275 | every valid evidence record reads back from its file |
| `LabReconciliationProofs.PendingLoads` | lab/reconciliation_authority.py:142-216 | and a file loads as a record exactly when it is that valid record's own file |
| `LabReconciliationProofs.SignedLoads` | lab/reconciliation_authority.py:219-275 | the same for evidence |
| `LabReconciliationProofs.SignableExactly` | lab/reconciliation_authority.py:106-123 | which outcomes can be signed for a pending record |
| `LabReconciliationProofs.EmitsExactly` | lab/reconciliation_authority.py:340-367 | a pending record is written exactly for an unresolved operation whose data allow it, once, with what the store and the caller say |
| `LabReconciliationProofs.SignsExactly` | lab/reconciliation_owner.py:30-49 | evidence is written exactly for an authentic record that still fits the store, an outcome it allows and the pinned key, once, with the statement spelled out |
| `LabReconciliationProofs.ResolvesExactly` | lab/reconciliation_authority.py:370-387 | evidence is handed over exactly when its file is well formed and its outcome fits the origin of the unresolved operation |
| `LabReconciliationProofs.VerifiesExactly` | lab/reconciliation_authority.py:133-137 | evidence fails to verify exactly when it is another authority's or algorithm's or lacks the pinned key's signature |
| `LabReconciliationProofs.ThreeStepsResolve` | lab/reconciliation_authority.py:340-387 | from an unresolved operation, emitting, signing with the pinned key and resolving hand over evidence that verifies |
| `LabReconciliationProofs.OthersMayChangeAll` | lab/reconciliation_authority.py:340-387 | the runs include every change others can make to the store and the two files |
| `LabReconciliationProofs.RunKeeps` | lab/reconciliation_authority.py:340-387 | the invariant over any sequence of emit, sign and resolve with the store and files changing in between |
| `LabReconciliationProofs.GivenFitsOrigin` | lab/reconciliation_authority.py:305-387 | evidence given to the store has an outcome its last audit event allows, a fingerprint exactly for confirmed-applied and a locator exactly for the two applied outcomes |
| `LabReconciliationProofs.VerifiedIsEmitted` | lab/reconciliation_owner.py:30-49 | evidence the pinned key verifies was signed for a record emitted from the store, and is handed over under the origin that record was emitted with |

## Left out

- Real cryptography, canonical JSON bytes and base64: signatures, MACs, digests, enumeration names and time texts are ideal; the approval's hexadecimal proof is modelled in full.
- Regular-expression engines: candidate addresses are tokens, so a pass that re-matches the tail of another pass's placeholder, and an address that straddles two tokens, are not captured; the tests on a string's text run on the whole real text.
- SanitizerBlindness.BlindExactly: decides only documents whose addresses stand apart; one whose address touches such text may or may not be treated blindly, and two that are not are exhibited.
- Shannon entropy: an abstract predicate of the policy, asked only of long unbroken text.
- Addresses hidden inside literal text or inside keys, which the audit would look for as characters.
- `resolve_ref`'s walk through nested mappings: a document maps each local reference to its node; Python's recursion limit.
- `_type_of`, `_describe_property` and the response-field descriptions, the schema fetch and its parsing.
- The single-item signing commands, the confirmation batch and its approval, review rendering and the export of the security plan: the plan in force is an input.
- A power failure in the middle of a write, and an inode number that is reused after the tool closed its descriptor: a file is identified by its number.
- UTF-8 beyond ASCII and Unicode character classes in the key file: abstract functions that leave ASCII alone.
- Log handlers, rotation and permissions.
- Line separators other than the newline inside an import line, an import line whose name list is empty, and identifiers outside ASCII.
- `find_method_body_end`, the rendering of models, tools, clients and registration code, and finding the capability literal in a file.
- Validation of catalogue fields, the OpenAPI walk that produces the discovery, and reading and writing the artifact: a discovery has distinct paths and classifies nothing.
- The write allow-list and API version checks and the request itself: whether a plan is admitted and whether its request succeeds are inputs.
- The scenario table, the fault proxy and the evidence files of the lab: definitions are arbitrary.
- `write_secure_new` in the lab: only its exclusive creation is kept; its write loop is that of the key file without the identity check.
- The Tier 1 store, executor and confirmation flow: only the outcomes they hand over.
- The witness's transport, its command line and the eight bytes in which the device returns its counter: the counter is a number.
