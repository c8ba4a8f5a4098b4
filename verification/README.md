# Epic Continuum: handoff bundles, releases and the MCP connection, modelled and proved

Epic Continuum packs a root directory of evidence into a ZIP *bundle* and later verifies such bundles
without trusting them; it builds and finalizes release archives; it stores memory cards in a small
deterministic YAML; and it serves tools over the Model Context Protocol. This project models the
parts of that system whose correctness is not visible from one function at a time, and proves what
they are for. `dafny verify dfyconfig.toml` checks all of it.

**Bundles** (`Struct`, `Utf8`, `ZipFormat`, `ZipExtra`, `ZipPreflight`, `ZipEnvelope`, `ZipCanonical`,
`ZipEndLemmas`, `ZipBundle`, `ZipCompleteness`, `Inflate`, `MemberStream`, `CutShortStreams`,
`BoundedErrors`). Two parsers read the same bytes, a bounded preflight and a full envelope check that
reports into a bounded list. Together they are shown to accept exactly one byte layout: the packer's.
The member reader then binds each member's region to one complete stream, in bounded calls to a
decoder that goes at a pace of its own. Hence no byte of a bundle that both accept lies outside a
record or a member's stream.

**Manifests** (`Samplers`, `ManifestBinding`, `ManifestExtraction`, `Verification`). The binding checks
report nothing exactly when manifest and members correspond one to one with equal digests, sizes and
modes, though every diagnostic is only sampled. `Verification` puts layout, limits, reader and binding
together, from the bytes of a file to the verdict, and says what a verified bundle holds. Extraction
is modelled on a case-folding directory tree.

**Limits and publication** (`Limits`, `WorkBudget`, `Publish`). The ceilings the packer derives from its
own archive always let that archive pass; the byte-work budget suffices unless a large manifest lists
itself; and the publish block is a protocol over names, inodes and hard links in which any steps may fail.

**Releases** (`ReleaseZip`, `ArchivePaths`, `ArchiveExtraction`, `Csv`, `TextOrder`, `Wheel`, `Dates`,
`StableSort`). An independent geometry validator, the prefix tables that make names safe on
case-folding filesystems, the extraction that relies on them, the wheel writer against its validators,
and one date conversion written three times.

**Atomic YAML** (`YamlText`, `Yaml`, `YamlParse`, `YamlRoundTrip`, `YamlTheorem`), **MCP** (`McpFraming`,
`McpJson`, `McpSession`, `McpRuns`), **bounded walks and texts** (`Walkers`, `Truncation`).

Loops and objects of the source are loops and classes here, each proved against a function or
predicate; the theorems are about those. Python's behaviour where it matters (ranges of fixed-width
fields, `rfind`, `errors="ignore"`, stable `sorted`, dictionary order) is written out.

## Where the code does not do what it is meant to

- **A member name can look like a ZIP64 locator.** The verifier reads 20 bytes before the end record as
  a locator whenever they start with its signature. A last member whose name is those bytes makes it
  refuse the packer's own layout (`CompletenessFailsForLookalike`). Names under the bundle root
  without control characters cannot do that (`PackedBundleVerifies`).
- **A manifest that is `null` binds nothing.** A manifest member that holds the JSON value `null` equals
  its own canonical form, is no object to check, and is not reported as a missing one either. Any
  archive whose names and layout are in order then verifies, whatever unlisted members it carries
  (`UnlistedMembersPass`; the exact condition is `BindingAccepted`).
- **Valid members can be refused.** Both readers ask for at most 1 MiB of output per call and call again
  only while input is left. A decoder that has taken a member's last byte while more than that is due
  is never asked for the rest, and the member counts as not terminated (`ExactMemberRefused`,
  `FaithfulArchiveRefused`). A decoder that takes all it is handed does so for every member larger
  than 1 MiB that packs into 1 MiB or less (`EagerRefusesLargeMembers`). Members of at most 1 MiB are
  never affected (`SmallMembersAreRead`).
- **A manifest that lists itself is read twice.** If it is larger than one chunk, a pass under tight
  limits runs out of its byte-work budget (`SelfListingExceeds`).
- **Two halves of a surrogate pair become one character.** A Python string holding a high surrogate
  followed by a low one is printed as two escapes and read back as one code point. This is the only
  failure of the YAML round trip for containers (`RoundTrip`).
- **A top-level YAML string with a colon cannot be read back** (`ScalarLoadOfDump`); it is taken for a
  mapping entry. Mappings, which is all the program writes, are not affected.
- **A manifest can bind a file and another file below it.** Collisions are looked for among whole names,
  so such an archive passes every binding check and then fails to extract
  (`BindingDoesNotMeanExtraction`; the exact condition is in `ExtractManifestedRoot`).
- **"Raised" does not always mean "rolled back".** If only the removal of an old backup fails, publication
  raises although the new pair is complete (`CleanupFailureRaisesAfterPublishing`).
- **A failed restore costs the backup.** The `finally` clause then removes the only remaining copy of
  the earlier bundle (`FailedRestoreLosesTheBackup`), or of the earlier receipt, beside a restored
  bundle that the new receipt does not describe (`FailedReceiptRestoreMixesThePair`).
- **A lone text can be searched in part without saying so.** The metadata walk skips the embedded paths of
  a text whose direct finding takes the last slot; if that text is the whole value, the walk still
  calls itself complete (`PortableMetadataFindings`, `NothingMissed`). No caller passes such a value.
- **The no-clobber rule covers the bundle, not its receipt.** A receipt another publisher creates between
  check and publication is overwritten, or removed by the rollback (`PublishPair`).

## Model

| member | source | states |
|---|---|---|
| BoundedErrors.Collector.constructor | src/continuum/core/bundle.py:99-105 | a new list is empty, with nothing counted and room for `maximum` entries, marker included |
| BoundedErrors.Collector.Append | src/continuum/core/bundle.py:132-140 | one more diagnostic is counted; the list stays exactly the contents its history determines, so an entry goes in before the marker and a full list only counts it |
| BoundedErrors.Collector.RecordUnavailable | src/continuum/core/bundle.py:115-130 | a positive count of diagnostics that cannot be kept is added to the total and to the marker, and nothing else changes |
| BoundedErrors.Collector.Extend | src/continuum/core/bundle.py:151-152 | extending with an iterable is offering its elements one by one |
| BoundedErrors.Collector.ExtendCollector | src/continuum/core/bundle.py:142-150 | extending with another collector offers what that one retained and adds its whole total; extending with itself is refused and changes nothing |
| BoundedErrors.ContentsMeaning | src/continuum/core/bundle.py:96-152 | the list never exceeds its maximum, its originals are the first diagnostics offered, in order, and a marker is there and last exactly when something was dropped, carrying that number |
| BoundedErrors.EmptyMeansNothingReported | src/continuum/core/bundle.py:107-152 | the list is empty exactly when nothing was ever reported |
| BoundedErrors.RunIsCounted | src/continuum/core/bundle.py:96-152 | over every sequence of calls, nested collectors included, the total is the number of diagnostics reported at any depth and the list stays bounded |
| Struct.UnpackPack | src/continuum/core/bundle.py:2576-2586 | a packed record of in-range values unpacks to those values, for every format used here |
| Struct.PackUnpack | src/continuum/core/bundle.py:2576-2586 | unpacking yields in-range values that pack to the same bytes, so a record is known from its values |
| Utf8.DecodeIsInverse | src/continuum/core/bundle.py:2567-2569 | strict UTF-8 decoding succeeds exactly on the encoding of a surrogate-free text, and gives that text |
| ZipFormat.FilenameBytesUnique | src/continuum/core/bundle.py:2567-2569 | under the flags a name calls for, its bytes decode to it exactly when they are its UTF-8 encoding |
| ZipExtra.ZipExtraFields | src/continuum/core/bundle.py:2503-2516 | the cursor loop returns the fields and the error of the recursive field parser, for every byte sequence |
| ZipExtra.ParseOfPrint | src/continuum/core/bundle.py:2503-2516 | parsing printed extra fields gives the fields back |
| ZipExtra.PrintOfParse | src/continuum/core/bundle.py:2503-2516 | printing the fields of an extra that parses gives its bytes back |
| ZipExtra.Zip64ExtraError | src/continuum/core/bundle.py:2519-2564 | the early-return checker reports the error of its specification on the values the saturated fields call for |
| ZipExtra.ExtraIsCanonical | src/continuum/core/bundle.py:2519-2564 | no error is reported exactly when the extra bytes are the one canonical encoding of the required values, empty when none is required |
| ZipPreflight.FindEocd | src/continuum/core/bundle.py:2572-2590 | the search with `rfind`, which resumes below a rejected signature, finds the terminal record or else the last record whose comment fits, as a byte-by-byte scan would, and it terminates |
| ZipPreflight.SignaturesApart | src/continuum/core/bundle.py:2581-2590 | two end-record signatures never overlap, so resuming below one misses none |
| ZipPreflight.CountCentralRecords | src/continuum/core/bundle.py:2774-2800 | the counting loop walks whole records from the directory's start to its end and returns their number, or the first thing wrong |
| ZipPreflight.ReadBundleZipPreflight | src/continuum/core/bundle.py:2627-2807 | the whole preflight, with every rejection in the order the code makes it |
| ZipEndLemmas.EndIsExact | src/continuum/core/bundle.py:2646-2764 | the end-record part accepts a directory position exactly when the file ends, right behind the directory, in the byte-for-byte canonical end records for it: a ZIP64 record and locator if and only if they are needed, and one end record |
| ZipEnvelope.CentralPass | src/continuum/core/bundle.py:3001-3153 | the central loop reports exactly the diagnostics of the record-by-record walk, into a bounded list, and records which offsets use ZIP64 |
| ZipEnvelope.LocalPass | src/continuum/core/bundle.py:3157-3255 | the local loop reports exactly the diagnostics of the walk in offset order and returns where the last member's data end |
| ZipEnvelope.ZipEnvelopeErrors | src/continuum/core/bundle.py:2831-3264 | the envelope check reports exactly the specified diagnostics, in order |
| ZipCanonical.CentralProblemsExact | src/continuum/core/bundle.py:3015-3151 | the checks on one central record are silent exactly on the record the packer writes for that member, field for field and byte for byte |
| ZipCanonical.LocalProblemsExact | src/continuum/core/bundle.py:3180-3253 | likewise for one local record, which also settles the member's versions |
| ZipBundle.PreflightImpliesEndChecks | src/continuum/core/bundle.py:2878-2999 | whenever the preflight accepts the end records, the envelope's own end-record checks report nothing and locate the same directory |
| ZipBundle.CentralStepExact | src/continuum/core/bundle.py:3007-3153 | one turn of the central loop is silent exactly when the next member's canonical record stands at the cursor, and moves the cursor by its length |
| ZipBundle.CentralWalkExact | src/continuum/core/bundle.py:3001-3155 | counting loop and central loop both end well exactly when the directory is the concatenation of the members' canonical records |
| ZipBundle.LocalStepExact | src/continuum/core/bundle.py:3159-3255 | one turn of the local loop is silent exactly when the member's canonical local record stands at the expected offset |
| ZipBundle.LocalWalkExact | src/continuum/core/bundle.py:3157-3263 | the local loop is silent exactly when local records and data fill the file up to the directory without gap, overlap or orphan |
| ZipBundle.BundleIsExact | src/continuum/core/bundle.py:2627-3264 | preflight, envelope check and member count together accept a file exactly when it is the packer's layout of its members with canonical end records, within the caller's limits |
| ZipBundle.NoHiddenBytes | src/continuum/core/bundle.py:2831-3264 | an accepted file is the concatenation of local records with their data, central records and end records, and of nothing else |
| ZipBundle.MembersAgree | src/continuum/core/bundle.py:3157-3255 | each member of an accepted file has a central record behind all local data and a local record at the offset it names; both spell the same name, flags, CRC and sizes |
| ZipBundle.VerifyZipStructure | src/continuum/core/bundle.py:3963-4088 | the structural half of verification, diagnostics through the bounded list, accepts exactly those files |
| Inflate.Inflater.Decompress | src/continuum/core/bundle.py:2450-2455 | one bounded call takes all input up to the end of the stream unless its output limit is reached before, gives the next part of what was decoded and no more than the limit, and hands back the rest, as unused once the stream has ended and all its output is given |
| Inflate.GoodCall | src/continuum/core/bundle.py:2448-2457 | on a complete stream every call decodes, gets somewhere and stays within the output, and whether output will be left behind is settled by the calls that follow |
| Inflate.SmallOutputIsFinished | src/continuum/core/bundle.py:2450-2461 | output that one call can give is never left behind, at any pace of the decoder |
| Inflate.EagerOnOneChunk | src/continuum/core/bundle.py:2448-2461 | a decoder that takes all it is handed leaves a one-chunk stream unfinished exactly when it decodes to more than one call gives |
| MemberStream.InflateChunk | src/continuum/core/bundle.py:2448-2457 | feeding back what is left of a chunk terminates and stays in step with the region; on a complete stream it never faults, and the stream has ended behind the last byte exactly if no output was left behind |
| MemberStream.InflateRegion | src/continuum/core/bundle.py:2438-2464 | a region passes exactly when it is all there, is one complete DEFLATE stream within the declared size, and no call takes its last byte while more output is due than that call gives; its output is then that stream's |
| MemberStream.ReadZipMemberExact | src/continuum/core/bundle.py:2379-2477 | a member is accepted exactly when its declared region is all there, is one complete stream with nothing behind its end, decodes to the declared size and checksum, and the decoder does not take its last byte while more than 1 MiB of output is due; its data are then those the region decodes to |
| MemberStream.SmallMembersAreRead | src/continuum/core/bundle.py:2431-2475 | so every exact member that is stored or no larger than 1 MiB is read, at any pace |
| MemberStream.EagerRefusesLargeMembers | src/continuum/core/bundle.py:2448-2461 | an exact deflated member of at most 1 MiB compressed is refused by an eager decoder exactly when it is larger than 1 MiB |
| MemberStream.DataFollowsRecord | src/continuum/core/bundle.py:2394-2399 | the reader looks for a member's data right behind its canonical local record |
| MemberStream.ReadsTheLaidOutRegion | src/continuum/core/bundle.py:2379-2399 | for a bundle that passes the structural checks, the bytes the reader binds are the ones the layout gives the member, in the file and in front of the directory |
| CutShortStreams.ExactMemberRefused | src/continuum/core/bundle.py:2448-2461 | for every legal member that decodes to more than 1 MiB from one byte there is a lawful code under which its one-member bundle passes every structural check and the member is exact, and the reader refuses it |
| CutShortStreams.ZerosAreRefused | src/continuum/core/bundle.py:2448-2461 | a concrete such bundle |
| StableSort.SortIsPermutation | src/continuum/core/bundle.py:3157-3157 | ordering members by offset neither loses nor repeats one |
| StableSort.SortIsOrdered | src/continuum/core/bundle.py:3157-3157 | and orders them |
| ZipCompleteness.PackerFileAccepted | src/continuum/core/bundle.py:2359-2376 | a file laid out by the packer's rules is accepted exactly when it needs ZIP64 end records or no locator signature happens to stand 20 bytes before its end record |
| ZipCompleteness.PlainNamesHaveNoLocator | src/continuum/core/bundle.py:2683-2690 | that cannot happen when the last member's name has no control characters and lies under a root, as every name the bundle rules allow |
| ZipCompleteness.PackedBundleVerifies | src/continuum/core/bundle.py:5004-5037 | so every bundle packed under such names passes its own structural verification |
| ZipCompleteness.OneMemberLayout | src/continuum/core/bundle.py:2359-2376 | local record, data, central record and end record of one member are the packer's layout of it |
| ZipCompleteness.LookalikeIsRefused | src/continuum/core/bundle.py:2683-2690 | a one-member file whose 20-byte member name starts with the locator signature is refused although it is the packer's layout |
| ZipCompleteness.CompletenessFailsForLookalike | src/continuum/core/bundle.py:2683-2690 | a concrete such file: completeness fails without a condition on names |
| ReleaseZip.FindExactEnd | scripts/finalize_release_distributions.py:263-275 | the backward search finds the last end record whose comment ends the data exactly, and terminates |
| ReleaseZip.ReleaseEndIsExact | scripts/finalize_release_distributions.py:256-314 | a directory position is accepted exactly when the file ends in the one plain end record for it and in no locator |
| ReleaseZip.ReadReleaseEnd | scripts/finalize_release_distributions.py:256-314 | the loop and the field checks compute that decision |
| ReleaseZip.ReadRecordExact | scripts/finalize_release_distributions.py:320-360 | a central record is accepted exactly when its in-range, canonical byte form stands there and ends within the directory |
| ReleaseZip.ReadCentralMembers | scripts/finalize_release_distributions.py:316-408 | the central loop returns the records exactly when they fill the directory, agree one by one with the parsed members and number as declared; else there is no such list |
| ReleaseZip.LocalAgreesExact | scripts/finalize_release_distributions.py:419-454 | the local checks pass exactly when the local record of the same values stands at the member's offset |
| ReleaseZip.CheckLocals | scripts/finalize_release_distributions.py:410-465 | the offset-ordered loop accepts exactly when local records and data fill the file up to the directory |
| ReleaseZip.ReleaseChunk | scripts/finalize_release_distributions.py:210-228 | one chunk of a deflated member, under output limits that follow the declared size: on a complete stream no fault, and the stream has ended behind the last byte exactly if no output was left |
| ReleaseZip.ReleaseInflate | scripts/finalize_release_distributions.py:203-234 | the loop over chunks succeeds exactly on a complete stream within the declared size whose last byte is not taken while more output is due than that call may give |
| ReleaseZip.ValidateMemberStream | scripts/finalize_release_distributions.py:174-241 | a member's data are accepted exactly when they are what the record declares and are not cut short |
| ReleaseZip.ValidateZipRawGeometry | scripts/finalize_release_distributions.py:244-470 | the whole check accepts exactly the files laid out as local records with data, central records and one end record that agree with the parsed members and with their own streams, and none of whose members the decoder cuts short; acceptance thus always means a faithful file |
| ReleaseZip.SmallRecordsAreRead | scripts/finalize_release_distributions.py:210-228 | no member of at most 1 MiB is cut short, at any pace |
| ReleaseZip.EagerCutsLargeRecords | scripts/finalize_release_distributions.py:203-234 | an eager decoder cuts short exactly the larger ones among the members packed into 1 MiB or less |
| ReleaseZip.ReadersCutAlike | scripts/finalize_release_distributions.py:211-214 | this script's output limits and the bundle reader's cut the same streams short |
| CutShortStreams.FaithfulArchiveRefused | scripts/finalize_release_distributions.py:210-234 | a release archive that is faithful in every respect and whose only member is cut short |
| ReleaseZip.ReleaseHidesNothing | scripts/finalize_release_distributions.py:244-465 | every byte of an accepted archive belongs to a local record, its data, a central record or the end record |
| ReleaseZip.ReleasePassesPreflight | scripts/finalize_release_distributions.py:244-465 | an archive of that geometry passes the bundle preflight exactly when its directory lies below the ZIP64 limits and within the caller's, and both count the same entries |
| Samplers.BoundedDiagnosticSample | src/continuum/core/bundle.py:1974-1988 | the sample is the first `maximum` values |
| Samplers.BoundedAbsentTextSample | src/continuum/core/bundle.py:1991-2010 | the sample is the first `maximum` distinct candidates that are not present, without building the difference |
| Samplers.AbsentIsDifference | src/continuum/core/bundle.py:1991-2010 | the unbounded list it cuts off is exactly the set difference, each element once |
| Samplers.CountNames | src/continuum/core/bundle.py:4091-4091 | counting names gives each name once, in order of appearance, with its multiplicity |
| Samplers.RepeatedSample | src/continuum/core/bundle.py:4091-4094 | the duplicate sample is the first names that occur more than once |
| Samplers.NoneRepeated | src/continuum/core/bundle.py:4091-4098 | it is empty exactly when all names are distinct |
| Samplers.PortableNameCollisions | src/continuum/core/bundle.py:2026-2054 | the bounded scan returns, per folded key met twice, its first names, sorted; it is empty exactly when no key is met twice |
| Samplers.NoneCollide | src/continuum/core/bundle.py:2026-2054 | that is exactly when no two names, equal or not, fold together |
| ManifestBinding.CheckNames | src/continuum/core/bundle.py:4089-4145 | the checks on member names, encryption, platform and file type report exactly their specified diagnostics |
| ManifestBinding.NamesAreExact | src/continuum/core/bundle.py:4089-4145 | they are silent exactly when names are in order, distinct, safe and distinct when folded, and every member is an unencrypted plain file written on Unix |
| ManifestBinding.CheckEntries | src/continuum/core/bundle.py:4364-4443 | the entry loop reports and collects exactly what the entry-by-entry walk does, stopping where the work budget runs out |
| ManifestBinding.StepIsBound | src/continuum/core/bundle.py:4364-4443 | one entry is silent exactly when it is a safe path whose one member has its digest, size and mode |
| ManifestBinding.RunIsBound | src/continuum/core/bundle.py:4364-4443 | the whole loop is silent exactly when every entry is bound, and then lists all paths and sums all sizes |
| ManifestBinding.CheckSets | src/continuum/core/bundle.py:4445-4498 | the checks behind the loop report exactly their specified diagnostics |
| ManifestBinding.SetsAreBound | src/continuum/core/bundle.py:4445-4498 | they are silent exactly when paths are distinct, distinct when folded and include the required ones, the archive's files are the manifest and the listed paths, and count and total match |
| ManifestBinding.BindingIsExact | src/continuum/core/bundle.py:4364-4498 | no binding diagnostic is reported exactly when the manifest binds the archive |
| ManifestBinding.VerifyManifestBinding | src/continuum/core/bundle.py:4089-4500 | from member names to totals, through the bounded list: acceptance exactly when names are fine, the manifest member is in place, nothing else was reported, and the manifest is JSON null or an object within the entry limit that binds the archive |
| ManifestBinding.MembersAreAccountedFor | src/continuum/core/bundle.py:4465-4482 | an archive bound by a manifest object has one member per listed path and the manifest, and no other; only a manifest that lists itself would share its member |
| ManifestExtraction.UnlistedMembersPass | src/continuum/core/bundle.py:4283-4500 | a concrete archive with four members besides its manifest passes under a manifest that is JSON null |
| ManifestExtraction.ExtractManifestedRoot | src/continuum/core/bundle.py:3291-3350 | extraction into a fresh directory succeeds exactly when every file has its listed size and no listed path is, up to folding, another one or lies under one, and then holds every file at its own path with its own data and no other file |
| ManifestExtraction.MeetsMeansConflict | src/continuum/core/bundle.py:3319-3327 | whatever stands in the way of the next file is an earlier path leading to it, or one it leads to |
| ManifestExtraction.ConflictMeets | src/continuum/core/bundle.py:3319-3327 | and every such earlier path stands in its way |
| ManifestExtraction.BindingDoesNotMeanExtraction | src/continuum/core/bundle.py:2026-2054 | a concrete archive, with entries the structure checks accept, passes every name and binding check while one listed path lies under another, so that it has no extraction: collisions are looked for among whole names only |
| Verification.ReadMembers | src/continuum/core/bundle.py:4364-4403 | every member's stream is what the exact reader returns for it |
| Verification.DecodeManifest | src/continuum/core/bundle.py:4216-4298 | the manifest is decoded from the exact data of the one member of its name, if that is within its size limit |
| Verification.VerifyRootBundle | src/continuum/core/bundle.py:3963-4500 | from bytes to verdict: accepted exactly when the layout is the packer's, all sizes are within the ceilings and the binding accepts what the members decode to |
| Verification.ListedPathsAreHeld | src/continuum/core/bundle.py:2379-2392 | in a verified bundle with a manifest object every listed path has a member whose packed data, where the layout puts them, are one complete stream of the listed digest, size and mode |
| Verification.NothingElseIsHeld | src/continuum/core/bundle.py:4465-4482 | there is nothing else in it: every member is the manifest's or a listed path's, and every byte a record's, a member's or an end record's |
| Verification.PackedBundleIsVerified | src/continuum/core/bundle.py:5004-5037 | a file the packer wrote, under plain names and the ceilings derived from it, is verified whenever the binding accepts what its members decode to |
| ArchivePaths.MemberDeterminesName | scripts/finalize_release_distributions.py:104-141 | a member name is known from its parts and its kind |
| ArchivePaths.EnterMember | scripts/finalize_release_distributions.py:492-514 | entering a member's prefixes keeps the table in step with what was entered, and fails exactly on a prefix that meets a different entry under its folded key |
| ArchivePaths.BuilderTable | scripts/build_release_package.py:443-467 | the builder's table accepts exactly the legal lists whose prefixes agree in spelling and kind wherever they fold together |
| ArchivePaths.AssertUniqueArcnames | scripts/build_release_package.py:379-389 | the builder accepts exactly those lists with distinct names |
| ArchivePaths.FinalizerPaths | scripts/finalize_release_distributions.py:475-514 | the finalizer accepts exactly those lists with distinct logical paths |
| ArchivePaths.BuilderImpliesFinalizer | scripts/build_release_package.py:379-467 | every list the builder accepts the finalizer accepts, in spite of its further check |
| ArchivePaths.PortableIsOrderFree | scripts/finalize_release_distributions.py:475-514 | acceptance depends on which names there are, not on their order |
| ArchiveExtraction.Tree.MakeDirectories | scripts/finalize_release_distributions.py:1283-1286 | directories are made down to a path exactly when no file stands in the way, and nothing else changes |
| ArchiveExtraction.Tree.WriteNew | scripts/finalize_release_distributions.py:1287-1293 | a file is created exactly when its folded path is free |
| ArchiveExtraction.RelativeParts | scripts/finalize_release_distributions.py:1281-1282 | the text behind the archive root splits into the member's parts below the root |
| ArchiveExtraction.Step | scripts/finalize_release_distributions.py:1278-1293 | nothing extracted before stands in the way of the next member, and the tree becomes that of one member more |
| ArchiveExtraction.ExtractCanonicalSourceTree | scripts/finalize_release_distributions.py:1253-1296 | refused names never reach the directory; accepted names always extract in full on a case-folding filesystem, leaving exactly the needed entries and every file with its own data |
| ArchiveExtraction.OneTree | scripts/finalize_release_distributions.py:1278-1293 | the tree is the same whatever the order of the members |
| Csv.ParseOfPrint | scripts/canonicalize_distributions.py:121-131 | reading back any rows that were written gives those rows, whatever their fields hold (section 2 of RFC 4180) |
| TextOrder.SortedIsSorted | scripts/canonicalize_distributions.py:124-124 | `sorted` sorts by code points |
| TextOrder.SortedAgain | scripts/canonicalize_distributions.py:124-124 | and leaves a sorted list alone |
| Wheel.NormalizedLines | scripts/canonicalize_distributions.py:30-31 | the result has no carriage return, and a payload without one is unchanged |
| Wheel.EveryLineEnding | scripts/canonicalize_distributions.py:30-31 | the two replacements together turn each CR LF, lone CR and LF into one LF and keep every other byte |
| Wheel.CanonicalOrderIs | scripts/canonicalize_distributions.py:157-158 | the member order has every name once, RECORD last, and is its own canonical order |
| Wheel.CanonicalRecordReads | scripts/finalize_release_distributions.py:851-879 | a canonical RECORD decodes and parses back to one good row per member |
| Wheel.ValidateWheelRecord | scripts/finalize_release_distributions.py:851-918 | the validator accepts exactly legal member names with the RECORD the writer makes, byte for byte |
| Wheel.NormalizeTexts | scripts/canonicalize_distributions.py:189-196 | the loop rewrites the metadata texts in the payload dictionary and nothing else |
| Wheel.NormalizeWheel | scripts/canonicalize_distributions.py:172-218 | the writer produces the specified canonical wheel, or raises where it has none |
| Wheel.WriterMeetsValidators | scripts/canonicalize_distributions.py:121-218 | for legal names and every 32-bit epoch both validators accept what the writer produced |
| Wheel.NormalizingTwice | scripts/canonicalize_distributions.py:172-218 | normalizing a normalized wheel changes nothing |
| Dates.FromEpochIsExact | scripts/finalize_release_distributions.py:629-643 | the calendar conversion gives a real date whose distance from 1970 in days and seconds is the epoch |
| Dates.WheelTimestamp | scripts/canonicalize_distributions.py:134-145 | the wheel writer's timestamp is the finalizer's |
| Dates.DosRoundTrip | scripts/finalize_release_distributions.py:629-643 | the DOS format keeps a date and time but for the parity of the second, for the years that fit its 7 bits |
| Dates.ClampKeepsDate | scripts/build_release_package.py:251-258 | moving an earlier year to 1980 always leaves a day that exists |
| Dates.TimestampsAgree | scripts/build_release_package.py:241-258 | for every epoch up to 2^32-1 the builder's timestamp stored and read back is the finalizer's and the wheel writer's, and its year fits |
| YamlText.ScanOfEscape | src/continuum/core/atomic.py:23-23 | a printed string literal scans back to its text up to joined surrogate pairs, and ends where it should (section 7 of RFC 8259) |
| YamlText.IntRoundTrip | src/continuum/core/atomic.py:17-18 | a printed integer parses to itself |
| Yaml.DumpYaml | src/continuum/core/atomic.py:32-59 | the recursive printer, appending to a line list, produces the specified text |
| YamlParse.ParseYamlBlock | src/continuum/core/atomic.py:122-159 | the index-driven loops compute the recursive block parser, for every line list |
| YamlParse.BlockAdvances | src/continuum/core/atomic.py:122-159 | a parsed block moves the index forward, strictly where a block starts, and never past the lines; the parser terminates on every input |
| YamlParse.LoadAtomicYaml | src/continuum/core/atomic.py:162-174 | the loader is the specified one, trailing content refused |
| YamlRoundTrip.BlockBack | src/continuum/core/atomic.py:122-159 | the block parser undoes the block printer at every indentation and position |
| YamlTheorem.LoadOfDump | src/continuum/core/atomic.py:32-174 | loading a printed container gives it back up to joined surrogate pairs, key order kept |
| YamlTheorem.ScalarLoadOfDump | src/continuum/core/atomic.py:162-170 | a top-level scalar comes back too, except that a string holding a colon fails to load |
| YamlTheorem.NormIsIdentity | src/continuum/core/atomic.py:84-84 | joining changes a value exactly when some text in it has a high surrogate before a low one |
| YamlTheorem.RoundTrip | src/continuum/core/atomic.py:32-174 | a container is read back as itself if and only if it holds no such pair |
| YamlTheorem.DumpIsInjective | src/continuum/core/atomic.py:32-59 | different values without such pairs print differently |
| YamlTheorem.LoadOfWritten | src/continuum/core/atomic.py:177-187 | the written file, its end stripped and a newline added, loads like the printed text |
| Walkers.PortableMetadataFindings | src/continuum/core/bundle.py:663-771 | the explicit-stack walk returns the first entries of the recursive preorder list; a false truncated flag means there are no others, except where the value is itself a text whose direct finding takes the only slot; a true one that the slots are used up, or all but one when texts are searched |
| Walkers.StepKeepsFindings | src/continuum/core/bundle.py:681-729 | a turn of the loop on a container reports what it finds, leaves the rest of the preorder to the frames it pushes, and makes the stack lighter |
| Walkers.EmbeddedNonportablePaths | src/continuum/core/bundle.py:621-643 | the scan returns the first distinct local paths among the matches, and all of them unless it calls itself truncated |
| Walkers.ReportText | src/continuum/core/bundle.py:730-770 | a text gives its direct finding and its embedded ones up to the room there is; a cut leaves at most one slot empty |
| Walkers.NothingMissed | src/continuum/core/bundle.py:749-771 | where a direct finding takes the only slot, nothing goes unreported exactly if the text holds no local path but itself |
| McpJson.RequestJsonDepthError | src/continuum/mcp_server.py:3505-3517 | the stack walk reports an error exactly when recursive nesting exceeds 64, and terminates |
| Limits.CheckResources | src/continuum/core/bundle.py:3998-4209 | the resource checks pass exactly when count, directory, physical size, expanded size, members and ratios are within the ceilings |
| Limits.TrustedLimits | src/continuum/core/bundle.py:4608-4652 | the packer's ceilings are tight and within the absolute ones; none are derived exactly when some size is beyond an absolute limit |
| Limits.BoundsAdd | src/continuum/core/bundle.py:2614-2624 | compressed sizes within zlib's bound per member add up to no more than the bound computed on the total: floors of parts lose to the floor of the sum |
| Limits.CanonicalFileSize | src/continuum/core/bundle.py:4014-4030 | a canonical bundle is no longer than its compressed data, twice its directory, four bytes a member and its end records |
| Limits.DerivedCeilingsSuffice | src/continuum/core/bundle.py:4608-4652 | a bundle in the packer's layout whose members stay within zlib's bound passes preflight and every resource check under the ceilings derived from it |
| WorkBudget.Budget.constructor | src/continuum/core/bundle.py:3956-3963 | the account of a pass allows twice the file, the expanded size once per reading phase, and one chunk |
| WorkBudget.Budget.Consume | src/continuum/core/bundle.py:206-214 | a charge is booked exactly when it fits, and a refused one leaves the account alone |
| WorkBudget.Budget.HashArchive | src/continuum/core/bundle.py:2810-2820 | hashing chunk by chunk charges the whole file exactly |
| WorkBudget.Budget.ReadMember | src/continuum/core/bundle.py:2412-2424 | reading a member charges exactly its pieces up to the first that exceeds the declared size, and runs out exactly when these do not fit |
| WorkBudget.OncePerMember | src/continuum/core/bundle.py:4364-4396 | the members a pass reads for a manifest are distinct exactly when the paths that lead to a member are distinct and none of them is the manifest's own |
| WorkBudget.OnceEachFits | src/continuum/core/bundle.py:4364-4392 | reading each member at most once declares no more than the archive does, and as much if all are read |
| WorkBudget.VerificationPass | src/continuum/core/bundle.py:3956-3963 | a whole pass, both hashes, manifest, listed members and extraction, stays within its budget exactly if the bytes these steps charge come to no more than the allowance |
| WorkBudget.DistinctPathsFit | src/continuum/core/bundle.py:3956-3963 | that holds, within the limit on expanded bytes, for every manifest whose paths are distinct, unless it lists itself and is larger than one chunk |
| WorkBudget.SelfListingCosts | src/continuum/core/bundle.py:4364-4396 | a manifest that lists itself is read twice; when every member is read in full under a limit that is just met, the pass goes over budget exactly if the manifest is larger than one chunk |
| WorkBudget.SelfListingExceeds | src/continuum/core/bundle.py:3956-3963 | a concrete bundle whose manifest lists itself and exceeds the budget |
| Publish.Directory.Replace | src/continuum/core/bundle.py:5058-5058 | renaming over a name moves the file, does nothing between two links to one file, and changes nothing when it fails |
| Publish.Directory.Backup | src/continuum/core/bundle.py:4659-4673 | a backup holds what the path shows and disturbs no other name; it fails exactly on an odd file or when its steps do |
| Publish.Directory.PublishWithoutOverwrite | src/continuum/core/bundle.py:4770-4799 | publication succeeds exactly when the name was free and one of the two ways works, and never changes a name that was taken |
| Publish.Directory.RestoreOrRemove | src/continuum/core/bundle.py:4676-4680 | a restored name shows its backup, or nothing if there was none |
| Publish.Directory.WriteReceiptFile | src/continuum/core/bundle.py:5084-5084 | the receipt is written whole or not at all, and may still fail behind that |
| Publish.PlaceUnforced | src/continuum/core/bundle.py:5055-5067 | without force an existing path is refused untouched, and a path created meanwhile by another publisher is never replaced |
| Publish.Rollback | src/continuum/core/bundle.py:5085-5096 | a sound rollback shows both backups again; a failed restore of the bundle leaves the new one and loses its backup; a failed restore of the receipt alone leaves the receipt as it stood beside the restored bundle and loses the receipt's backup |
| Publish.PublishPair | src/continuum/core/bundle.py:5042-5099 | under failures of any chosen steps, whether the new pair stands is decided by the steps up to the receipt alone; if it does not and the rollback is sound, the pair is the earlier one; what either failed restore leaves is spelled out; success names the hash of the published bytes; and exactly when the call raises |
| Publish.CleanupFailureRaisesAfterPublishing | src/continuum/core/bundle.py:5092-5096 | one concrete failure, removing the old backup, raises although the new pair is complete |
| Publish.FailedRestoreLosesTheBackup | src/continuum/core/bundle.py:5085-5096 | after a failed verification and a failed restore the earlier bundle has no name left |
| Publish.FailedReceiptRestoreMixesThePair | src/continuum/core/bundle.py:5085-5096 | after a failed sync of the receipt and a failed restore of it, the earlier bundle stands beside the new receipt |
| McpFraming.BoundedRequestLines | src/continuum/mcp_server.py:3472-3502 | for every byte stream the bounded reader yields what splitting at newlines and judging each line yields: too long, not UTF-8, or its text |
| McpFraming.NextFrame | src/continuum/mcp_server.py:3479-3502 | one turn yields the next line's frame and leaves exactly the bytes behind that line |
| McpFraming.Drain | src/continuum/mcp_server.py:3486-3487 | draining an oversized line stops at its end, neither losing nor joining the next |
| McpJson.SchemaErrorIsExact | src/continuum/mcp_server.py:3119-3224 | the early-return validator reports nothing exactly when the value satisfies the schema |
| McpSession.Session.Dispatch | src/continuum/mcp_server.py:3364-3469 | dispatching a request gives the specified reply and handler call, and leaves the specified phase |
| McpSession.ServeFrame | src/continuum/mcp_server.py:3609-3644 | one frame gives the specified reply and handler call, and leaves the specified phase |
| McpSession.Serve | src/continuum/mcp_server.py:3607-3645 | over a whole byte stream the serving loop writes the replies and runs the handlers of the specified run, in order |
| McpRuns.TurnReply | src/continuum/mcp_server.py:3609-3644 | a frame goes unanswered exactly when it is blank or a recognizable notification; a reply carries the request's id when that is valid and none otherwise |
| McpRuns.RepliesAreExact | src/continuum/mcp_server.py:3607-3645 | over every frame sequence there is one reply per frame that is due one, in order and under the due id, and no other |
| McpRuns.TurnStep | src/continuum/mcp_server.py:3364-3469 | a frame can only complete one of the two handshake steps, make a permitted call in a ready session, or leave the session alone |
| McpRuns.PhaseOnlyAdvances | src/continuum/mcp_server.py:3385-3409 | over every run the phase moves only new, initializing, ready, one step at a time |
| McpRuns.OneInitialize | src/continuum/mcp_server.py:3401-3421 | at most one initialize request of a connection succeeds |
| McpRuns.HandlersRunAfterHandshake | src/continuum/mcp_server.py:3424-3457 | every handler call comes after a successful initialize and a later initialized notification, names a known tool, and has arguments that satisfy its schema |
| McpRuns.ServedCallsAreEarned | src/continuum/mcp_server.py:3424-3457 | so every handler the serving loop runs is permitted and stands behind a completed handshake |
| Truncation.FitCountIsLongest | src/continuum/core/config.py:410-420 | a prefix fits the byte budget exactly when it is no longer than the kept one |
| Truncation.CutIsLongestPrefix | src/continuum/core/config.py:411-411 | cutting encoded text at any byte and decoding leniently gives its longest prefix of code points that fits |
| Truncation.ShrinkToFit | src/continuum/core/config.py:413-415 | the shrinking loop ends at the longest prefix that fits, and makes no turn on a text that already fits |
| Truncation.TrimToolResult | src/continuum/core/config.py:389-435 | every policy stores the specified text, texts without an encoding fail, and the shrinking loops never run |
| Truncation.TrimmedFits | src/continuum/core/config.py:389-435 | whatever the policy, the stored bytes are counted right and stay within the limit |
| Truncation.BoundedTextFits | src/continuum/core/bundle.py:586-596 | bounded metadata text meets its limit exactly when it needs no cut or its marker fits, and keeps the longest prefix beside the marker |

## Left out

- LocalZip64Required: compares exact integers where the code multiplies by the float 1.05; around the limit the two differ by far more than a rounding step.
- VerifyZipStructure: takes the parsed members as any list; how `zipfile` derives them from the central bytes is not modelled, since acceptance fixes every field of theirs that is compared.
- ValidateZipRawGeometry: DEFLATE and CRC are parameters as for the other reader; it says whether it accepts but not with which message, as every fault is one RuntimeError.
- ReadZipMemberExact: DEFLATE is given by three uninterpreted functions with their laws, and its decoder takes input at any pace once its output limit is reached; which pace zlib keeps for which stream is not modelled. The incremental digest and checksum are those of the whole output, and the byte charges are modelled apart (`ReadMember`).
- ReadBundleZipPreflight: the deadline that may interrupt it, and the other clock checks, are left out.
- VerifyManifestBinding: the decoding of the manifest is a parameter, and so is what its serialization, structure, semantic, secret and portability checks report.
- VerifyRootBundle: the budget, the repeated hash and identity checks, and the embedded-root audit are left out; members are read before their names are judged, which no verdict depends on.
- ExtractManifestedRoot: chunk copying, free-space checks and file modes are left out.
- PublishPair: only exceptions the `except Exception` clause sees are injected; an interrupt that bypasses it is not modelled. The names of leftover backups are described only where a clause says so.
- VerificationPass: counts bytes only; the deadline of the budget is left out. Extraction compares with the size in the directory entry, where the code has the listed one; it runs only when nothing was reported, and the two are then equal.
- PortableMetadataFindings: which texts count as local paths and what the embedded-path patterns match are parameters; how finding fields are shortened and hashed is implied by the text, and paths are told apart by themselves instead of by their hashes.
- NormalizeWheel: the temporary file, the CRC re-check and the read errors of `zipfile` are left out; written attributes are those `zipfile` stores and reads back.
- DumpYaml: floats are left out, since their text is Python's own; Unicode letter classes and line-breaking spaces are a parameter.
- ParseYamlBlock: texts that are neither words, containers, quoted strings nor decimal integers come back as themselves; Python's other number spellings and its digit limit are left out, none of which the printer writes.
- BoundedRequestLines: the branch for text streams, which counts characters first, is left out.
- RequestJsonDepthError: Python's own recursion limit while parsing is part of the abstract parser.
- SchemaErrorIsExact: regular-expression search is a parameter; messages are reduced to the path and kind of the fault.
- Dispatch: handlers, protocol negotiation and reply payloads are parameters; an exception escaping from dispatch itself is left out.
- ExtractCanonicalSourceTree: file modes are left out, and the per-component name rules and the folding of a component are parameters shared by both scripts.
- WriterMeetsValidators: legal names are those of the shared name check; SHA-256 with its base64 text is an uninterpreted ASCII digest.
- TrimToolResult: the digest and bookkeeping fields of its metadata are left out; the notice text is a parameter.
- DEFLATE, CRC-32 and SHA-256 themselves, Unicode normalisation and case folding, file descriptors and permissions, and Windows handles.
- Semantic audits of an extracted root, secret scanning, SQLite metadata audits, the sdist writer, Git and toolchain receipts, the command line and the plug-ins.
