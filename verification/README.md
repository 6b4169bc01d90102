# Verified model of the release platform's hard cores

This project models the parts of the Apache Trusted Releases platform in which the most can go wrong without being
noticed, and proves what they are for. Verify with `dafny verify dfyconfig.toml`.

- `Field37`, `ReedSolomon`, `NoisyAlphabet`, `Namespaces`, `NoisySecrets`, `NoisyErrors`: noisy secrets, tokens whose
  checksum is a Reed-Solomon code over the field of 37 elements. The generator used by the shift register has the
  roots 2, 4, 8 and 16 when symbols are weighted from the last one backwards; read the other way round they are their
  inverses.
- `Packets`, `PacketStreams`, `CertificateParts`, `CertificateOrder`, `Certificates`, `CertificateDeltas`,
  `CertificateMerge`, `CertificateLayout`, `WrittenOrder`: OpenPGP certificates as sets of placements, with packet
  framing by section 4.2 of RFC 9580, the canonical printer and parser, deltas and merging. What the `openpgp`
  library says about a signature or key is a function of the packet body, about which nothing is assumed.
- `DirectoryIds`, `TreeObjects`, `Identifiers`: the tree digest of a directory and SWHIDs, by ISO/IEC 18670. The hash is
  any function to twenty octets; where it matters, the statement says on which objects it must not collide.
- `RevisionMerge`: the three-way merge of a new revision with one that was committed in the meantime. The hashes of the
  new revision are computed before the merge and are its files' own; those of the base and the prior revision are
  whatever was recorded, right or wrong.
- `FileStates`, `MergeHashes`, `Attribution`: the attestable of a revision, the table of file state rows that is to
  agree with it, what a merge makes of what it reads from that table, and the record of who uploaded what.
- `Sealing`, `Base64Url`: the chain of seals over the audit logs. Signatures are symbolic: they can be made with the
  private key only, and a signature holds its key and message.
- `DailyLogs`, `AuditTrail`: daily audit logs, appended to and then closed, and the daily job that closes and seals
  them.
- `PubSub`, `RateLimits`, `RequestBody`, `CatalogRules`: the pubsub listener, the rate limiter, the spooled request
  body, and the redirect rules of a release.
- `Wrappers`, `Text`, `Sorting`: optional values and results, splitting and joining texts, sorting by keys.

Classes and loops stand where the program updates state; each such method is specified by a function or a predicate
about which the lemmas are proved. A crash or an error of a tool is a parameter that says before which step it comes.

## Where the code falls short of what it is meant to do

- Restoring an earlier revision writes its change rows against the restored revision and not against the latest one,
  so the table of file states goes wrong (`FileStates.RestoreWritesNothing`, `FileStates.RestoreDiverges`), and so do
  the hashes that a later merge reads from it. The same comes of an attestable that cannot be loaded.
  `FileStates.AgreementThroughout` says exactly when the table is right throughout, and
  `MergeHashes.MergeReadsRightHashesExactly` when a merge reads right hashes.
- A merge trusts the hashes it reads. A wrong one recorded for the prior revision is noted for the merged revision
  (`MergeHashes.RestoreMisleadsMerge`), and can undo the restore (`MergeHashes.RestoreUndone`). The wrong hash noted is
  a base hash of the next merge, which can lose an edit by it (`MergeHashes.EditLost`).
  `RevisionMerge.Inputs.RuleUnlessMisled` says exactly when a path departs from the rule, and
  `RevisionMerge.Workspace.Merge` when the hashes noted are right.
- The record of who uploaded what can lose entries when an earlier revision is restored or an attestable cannot be
  loaded (`Attribution.RestoreShrinksRecord`); `Attribution.RestoredRecord` and `Attribution.LostRecord` say exactly
  when it still grows.
- A merge loses both a file and the directory that replaced it in the prior revision
  (`RevisionMerge.FileTurnedDirectory`), and fails when the base revision has no recorded hashes but one is looked up
  (`RevisionMerge.MissingBaseHashHappens`; `RevisionMerge.Workspace.Merge` says exactly when).
- The pubsub listener can lose a payload when the first cursor that becomes durable was staged on an earlier
  connection and something was published before the next one opened (`PubSub.AtLeastOnceOnEvents`,
  `PubSub.PayloadLost`).
- A read of a request body can return nothing before the body is complete when another reader or a clear comes in
  between (`RequestBody.NothingBeforeComplete`).
- A rate limit of zero accepts attempts (`RateLimits.ZeroLimitAccepts`); the limits in use are 100 and 10.
- A delta cannot take the primary key away (`CertificateDeltas.DeltaRoundTripExactly`).

## Model

| member | source | states |
|---|---|---|
| ReedSolomon.MinimumDistance | atr/noisy.py:233-248 | Any two different messages of at most 32 symbols over the field of 37 elements, each followed by the checksum that the shift register leaves, differ in at least five positions. |
| ReedSolomon.DistanceIsExactlyFive | atr/noisy.py:233-248 | Five cannot be improved: two 32-symbol messages are given whose codewords differ in exactly five positions. |
| ReedSolomon.RegisterInvariant | atr/noisy.py:233-248 | After every prefix of a message, the registers hold the remainder that makes the prefix vanish at each of the four roots of the generator. |
| ReedSolomon.CodewordsAreChecksummed | atr/noisy.py:233-248 | A word of 4 to 36 symbols vanishes at the four roots exactly when its last four symbols are the checksum of those before. |
| NoisyAlphabet.RunRegisters | atr/noisy.py:235-240 | The loop over the bytes of a message leaves in r0 to r3 what the division by the generator leaves. |
| NoisyAlphabet.ComputeChecksum | atr/noisy.py:233-248 | Every message over the 37-character alphabet gets four characters of that alphabet, no lookup fails, and message and checksum are a codeword. |
| NoisyAlphabet.Alphabets | atr/noisy.py:28-36 | Whether a character may stand in a secret, a payload, a namespace or a domain component is decided for every character as by the alphabets written out. |
| NoisyAlphabet.FieldTable | atr/noisy.py:38-38 | The number of a symbol is its place in the alphabet of 37, as in the field map. |
| NoisyAlphabet.Base32Table | atr/noisy.py:30-30 | Looking up a character of the alphabet of 32 gives its place there. |
| NoisyErrors.FewErrorsDetected | atr/noisy.py:297-300 | If a value verifies, no value of the same length that differs from it in one to four positions does, wherever they are. |
| NoisyErrors.BurstDetected | atr/noisy.py:124-181 | If a value verifies, no different value of the same length whose changes lie within eight consecutive positions does: the two interleaved checksums see four of them each. |
| NoisySecrets.VerifyExact | atr/noisy.py:297-300 | A value verifies exactly when it is the secret built from some valid namespace string and some 32-symbol payload. |
| NoisyErrors.VerifiesExactly | atr/noisy.py:124-230 | A value verifies exactly when it is `secret_`, a namespace string, an underscore, 32 payload symbols and 8 more, and each of the two words interleaved in it, over the namespace padded to 32, is a codeword. |
| NoisySecrets.CreatedVerifies | atr/noisy.py:184-188 | Every secret built for an accepted domain and a payload verifies, and the domain can be read back from its namespace. |
| Namespaces.ConstructNamespace | atr/noisy.py:90-109 | The in-place rewriting of the components computes the namespace of a domain or raises the error that the specification names, for every input. |
| Namespaces.NamespaceRoundTrip | atr/noisy.py:112-121 | For every accepted domain, also with repeated hyphens, and for no domain, decoding the namespace gives the domain back. |
| Namespaces.ConstructedIsNamespace | atr/noisy.py:255-269 | Every constructed namespace passes the check for namespace strings. |
| Namespaces.NamespaceShape | atr/noisy.py:255-269 | What passes that check is 1 or 3 to 32 characters of the 37-character alphabet, so that padding and lookups cannot fail. |
| Namespaces.NamespaceStringsExactly | atr/noisy.py:255-285 | A namespace string is a two, or is 3 to 32 characters of the 37-character alphabet, of which the first gives the length, the second is an underscore, and the third and the last are not. |
| Namespaces.NamespacesExactly | atr/noisy.py:90-109 | A domain has a namespace exactly when it is components of letters, digits and inner hyphens with dots between them, and has at most thirty characters with its hyphens counted twice; the namespace is that length as a character, an underscore, and the parts of the domain from the last to the first. |
| Namespaces.SuffixByDots | atr/noisy.py:101-104 | The part of a domain before its first dot comes last in the namespace, behind an underscore. |
| Packets.FrameOffsets | atr/pgp.py:694-726 | The loop over the packet headers gives the spans of the recursive reading of the stream, or its error; `PacketStreams` says for which data. |
| Packets.OffsetsTile | atr/pgp.py:694-726 | On every accepted input the spans follow each other from the first octet to the last, with no gap and no overlap. |
| Packets.LimitOnlyRefuses | atr/pgp.py:694-726 | A packet limit accepts exactly the inputs that have no more packets, and changes no span. |
| PacketStreams.ReadsExactly | atr/pgp.py:694-741 | Reading gives a list of tags and bodies exactly when the data is those packets one after the other, each with one of the six headers of old and new format that its tag and length fit, written out octet by octet. |
| PacketStreams.FailsExactly | atr/pgp.py:694-726 | With or without a limit, reading fails with an error exactly when the data is packets followed by what makes that error: one more than the limit, first octets that begin no header, or the beginning of a packet that is cut short. |
| PacketStreams.FramedIsNew | atr/pgp.py:729-737 | A packet is written in the new format, with the shortest length. |
| PacketStreams.FramesOfFramed | atr/pgp.py:729-741 | Reading any concatenation of written packets gives back exactly that list of tags and bodies. |
| CertificateParts.Split | atr/pgp.py:188-201 | The raw slices are those of `certificate_spans`, each part holds exactly the packets of its slice, no primary key packet of an accepted block is empty, the limits only refuse, and each error says what is wrong with the block. |
| CertificateParts.LimitIsTransparent | atr/pgp.py:188-201 | An input within the packet limit is split as without one. |
| CertificateOrder.OrderedForgetsOrder | atr/pgp.py:839-854 | The order in which attachments are written does not depend on the order in which they are met. |
| CertificateOrder.EarliestIsLeast | atr/pgp.py:640-651 | The moment a section is ordered by is that of one of its self-certifications and none is earlier, or there is none. |
| CertificateOrder.EmittedForgetsOrder | atr/pgp.py:671-685 | The sections written depend on what the table holds and not on the order in which it was filled. |
| Certificates.FragmentPlacements | atr/pgp.py:270-289 | The loop that attaches every packet to the last head before it computes the placements of the specification, or its error. |
| Certificates.FragmentBytes | atr/pgp.py:250-267 | Whatever order the set is iterated in, the bytes are those that the specification gives for the set; `WrittenOrder` says in which order its packets stand in them. |
| Certificates.PrintingFails | atr/pgp.py:250-267 | Printing fails exactly when no primary key is given and the set is not under exactly one, when it is under another than the given one, or when the one to print under is no primary key that the library reads. |
| Certificates.WrittenForgetsOrder | atr/pgp.py:250-267 | Two listings of the same placements are written as the same bytes. |
| Certificates.CertificateRoundTrip | atr/pgp.py:270-289 | Every well-formed certificate is written without error and parses back to the same placements. |
| Certificates.FragmentRoundTrip | atr/pgp.py:250-289 | A fragment without its bare primary key, written and parsed under that key, comes back with every component standing by itself. |
| Certificates.WholeRoundTrip | atr/pgp.py:250-289 | The same for a fragment that holds its primary key, which need not be given again. |
| CertificateLayout.ParsesByPosition | atr/pgp.py:270-289 | Data parses as a certificate exactly when its packets begin with the only primary key among them and none is a marker, a trust packet or padding, and then to what stands at each position under the last head before it. |
| CertificateLayout.ParsesUnderByPosition | atr/pgp.py:270-289 | The same for data that is read under a primary key given, which may not be among the packets. |
| WrittenOrder.WrittenInOrder | atr/pgp.py:671-685 | The packets that a fragment reads back as are in order at every pair of positions: the primary key and what is attached to it, then user IDs, user attributes and subkeys, each kind ascending by its earliest self-certification, or creation time, and body; and the heads and attachments are the fragment's, each at one position. |
| WrittenOrder.OrderedInOrder | atr/pgp.py:839-854 | Under one head, readable signatures come first, under a primary key with its revocations in front, by date, type and body, and all else after them by tag and body. |
| CertificateDeltas.DeltaRoundTrip | atr/pgp.py:103-116 | The delta from nothing or from a certificate to a certificate of the same primary key, written as bytes and applied, leads there. |
| CertificateDeltas.DeltaRoundTripExactly | atr/pgp.py:228-240 | From a certificate, the delta leads to the intended state exactly when that state still holds the primary key. |
| CertificateDeltas.DeltaNamesExactly | atr/pgp.py:228-240 | A delta names only what changed: components that went, each by itself, and what went from under those that stay; and what came, with the component it came under. |
| CertificateDeltas.AppliesExactly | atr/pgp.py:103-116 | A placement is in the new state exactly when it is added, or it was there and neither it nor, by itself, its component is named among the deletions; the primary key stays. |
| CertificateDeltas.EmptyDelta | atr/pgp.py:688-691 | Both parts of a delta are missing exactly when nothing changed. |
| CertificateDeltas.FoldedHistory | atr/pgp.py:243-247 | Folding the deltas along any chain of certificates of one primary key, from nothing, gives the last one. |
| CertificateMerge.CertificateGroups | atr/pgp.py:572-585 | The loop groups the packets of a block under their heads, or refuses the block with the error of the specification. |
| CertificateMerge.MergeCertificateBlocks | atr/pgp.py:325-350 | The loops over blocks, groups and attachments compute the merge of the specification, or its error, for every list of blocks; `CertificateLayout.MergeKeepsExactly` says which packets are in it. |
| CertificateMerge.MergeIsUnion | atr/pgp.py:325-350 | The merged certificate parses to exactly the union of the placements of the blocks, without skippable packets and local certifications. |
| CertificateLayout.MergeKeepsExactly | atr/pgp.py:817-829 | A merged certificate holds, at its positions, every packet of every block under the head it had there, but for markers, trust packets, padding, and certifications or their revocations that say that they are not exportable; and nothing else. |
| CertificateLayout.MergesExactly | atr/pgp.py:325-350 | A merge succeeds exactly for one or more blocks that are certificates of one primary key that is not empty and that the library reads, when it accepts the certificate that holds what survives of them; each error says what fails first, and for blocks it is the first bad one's. |
| WrittenOrder.MergedInOrder | atr/pgp.py:325-350 | The packets of a merged certificate stand in the order of a written one, which depends on them alone. |
| CertificateMerge.MergeForgetsOrder | atr/pgp.py:325-350 | Permuting or repeating blocks gives identical bytes. |
| CertificateMerge.MergeAssociates | atr/pgp.py:325-350 | Merging a merged certificate with further blocks gives what merging all at once gives, the same bytes or the same error. |
| CertificateMerge.MergeIsIdempotent | atr/pgp.py:325-350 | Merging a merged certificate alone gives it back byte for byte. |
| CertificateMerge.UnionIsCertificate | atr/pgp.py:325-350 | The union of blocks of one primary key that the library reads is a well-formed certificate. |
| DirectoryIds.DirectoryIdentity | atr/swhid.py:211-234 | Two directories have the same digest exactly when they are equal once empty directories and special files are dropped and file modes reduced to one bit, unless the hash collides on two of the objects hashed for them. |
| DirectoryIds.ScanOrderIrrelevant | atr/swhid.py:178-183 | The digest of a directory does not depend on the order in which it is scanned. |
| DirectoryIds.ManifestDecodes | atr/swhid.py:233-234 | Two lists of lines with the same manifest bytes are the same list. |
| DirectoryIds.ComputeTreeDigest | atr/swhid.py:211-234 | The recursion that appends entries while it scans computes the digest of the specification, which `TreeObjects.TreeIsGits` says in Git's terms. |
| TreeObjects.TreeIsGits | atr/swhid.py:178-234 | A directory has a digest unless nothing in it can be listed, and it is the hash of `tree`, the decimal length, a zero octet, and a line for exactly the entries with a place in a Git tree: the mode 40000, 100755, 100644 or 120000, the name, the digest of its blob or tree; of two lines, the first has the smaller name, octet by octet, directories being compared with a slash behind. |
| DirectoryIds.ComputeDirectoryDigest | atr/swhid.py:108-112 | A directory with nothing to list gets the digest of the empty tree object, and others their own. |
| TreeObjects.DirectoryIsGits | atr/swhid.py:108-112 | The digest of any directory is the hash of the Git tree object of what it lists, which may be the empty one. |
| Identifiers.ParseExactlyPrint | atr/swhid.py:115-132 | A text parses to an identifier exactly when it is the identifier's printed form with a digest of forty lower-case hexadecimal digits. |
| Identifiers.ParsesLiterally | atr/swhid.py:115-132 | Identifiers are the texts of fifty characters that begin with `swh:1:`, one of the five types and a colon, told by their characters. |
| Identifiers.HexByDigit | atr/swhid.py:112-112 | An octet is written as two lower-case hexadecimal digits, the higher one first. |
| Identifiers.HexInjective | atr/swhid.py:112-112 | Different digests are written as different hexadecimal texts. |
| Identifiers.DirectoryIdentifiesTree | atr/swhid.py:108-112 | Directory identifiers parse back, and are printed alike exactly for equal canonical trees, unless the hash collides on what was hashed. |
| RevisionMerge.Workspace.Merge | atr/merge.py:36-116 | Whatever hashes were recorded, right or wrong: the loop, over paths in any order, goes through exactly when every base hash it looks up is known; then every file is the new or the prior revision's, no file lies below another, every path is as the one-line rule says exactly when the hashes mislead nowhere, and the hashes noted are those of the files exactly when the recorded ones are for the files taken from the prior revision. |
| RevisionMerge.Inputs.RuleUnlessMisled | atr/merge.py:171-234 | What the merge leaves at a path is as the rule says exactly when it is not misled there: all inodes differ, or the prior revision deleted the file and the others have different inodes, and comparing the hashes it was told comes out otherwise than comparing the true ones would. |
| RevisionMerge.Inputs.MisledByRecorded | atr/merge.py:171-234 | With right base hashes it is misled exactly where the three inodes differ, base and new content have one hash, the hash recorded for the prior file is that one too, and its true hash is another. |
| RevisionMerge.Inputs.RightHashesSuffice | atr/merge.py:237-250 | With right base and recorded hashes it is misled nowhere and notes no wrong hash. |
| RevisionMerge.Inputs.RightExactly | atr/merge.py:36-116 | For the whole directory: both equivalences of the merge. |
| RevisionMerge.MissingBaseHashHappens | atr/merge.py:89-97 | A base revision without recorded hashes, and a path on which the merge fails for it. |
| RevisionMerge.Workspace.Step | atr/merge.py:64-116 | One turn leaves its path as specified by the inodes and the hashes told, and touches no other; no link or removal can fail, and only a missing base hash stops it. |
| RevisionMerge.Workspace.MergePriorOnly | atr/merge.py:70-86 | A path of the prior revision alone is linked unless it is in type conflict with the new revision as it was before the merge. |
| RevisionMerge.Workspace.MergePriorDeleted | atr/merge.py:89-97 | A path that the prior revision deleted goes when base and new revision share its inode or the base hash is that of the new file, and stays otherwise; without a base hash the merge fails. |
| RevisionMerge.Workspace.MergeAllPresent | atr/merge.py:171-234 | Inodes are compared first, and hashes, as told, only where all three inodes differ; the prior file comes in as specified, and only there a missing base hash is an error. |
| RevisionMerge.Workspace.AddFromPrior | atr/merge.py:119-142 | The file is linked, its directories made, and the hash recorded for it, or else computed, and its size noted; the directory stays a file tree. |
| RevisionMerge.Workspace.ReplaceWithPrior | atr/merge.py:253-276 | The file becomes the prior revision's, with the hash recorded for it, or else computed, and its size, and nothing else changes. |
| RevisionMerge.Workspace.LoadPriorHashes | atr/merge.py:237-250 | Recorded hashes are taken as they are if there are any, and otherwise all are computed; either way looking a prior file up gives its recorded hash, or its own where there is none. |
| RevisionMerge.MergedContent | atr/merge.py:145-153 | When hashes tell contents apart: where base and new revision hold the same, absence included, the merged directory holds what the prior revision has, and elsewhere what the new one has; a prior path in conflict is skipped. |
| RevisionMerge.NothingIntervened | atr/merge.py:191-193 | Merging onto an unchanged prior revision keeps the new revision's files, whatever the hashes say. |
| RevisionMerge.NothingEdited | atr/merge.py:156-160 | A new revision that changes nothing ends up with the prior one's files, whatever the hashes say, exactly when no path is in type conflict. |
| RevisionMerge.FileTurnedDirectory | atr/merge.py:69-97 | A file that the prior revision replaced by a directory disappears together with what replaced it. |
| RevisionMerge.FileTurnedDirectoryHappens | atr/merge.py:69-97 | Such a merge exists, and leaves nothing at all. |
| FileStates.ComputeFileStateRows | atr/attestable.py:99-166 | A row is written for exactly those paths whose hash, classification or provenance changed or that are gone, one each, with the new state. |
| FileStates.ReplayIsSnapshot | atr/attestable.py:99-166 | In every run whose revisions are each compared with the one right before, replaying the table up to any revision gives exactly that revision's states. |
| FileStates.AgreementStep | atr/attestable.py:99-166 | In every run, whatever a revision is compared with: if the table agrees with the revision before, it agrees with this one exactly when every path without a row is as the revision before had it. |
| FileStates.AgreementThroughout | atr/attestable.py:99-166 | In every run, whatever its revisions are compared with, the table agrees with all of them exactly when in each every path without a row is as the revision before had it, or missing in the first. |
| FileStates.ReplayIsLastWritten | atr/attestable.py:99-166 | In every run, the replay gives a path the state that the last revision to write a row for it had. |
| FileStates.RunIsKeyed | atr/attestable.py:99-166 | No run writes two rows for a path in one revision. |
| FileStates.RestoreWritesNothing | atr/storage/writers/revision.py:530-541 | Restoring an earlier revision unchanged compares it with itself, so no row is written, and the table agrees exactly when the latest revision was the same. |
| FileStates.RestoreDiverges | atr/post/revisions.py:76-76 | A run of three revisions after which the replay disagrees with the restored one. |
| MergeHashes.MergeReadsRightHashes | atr/merge.py:237-250 | When every revision was compared with the one right before it, the table gives a merge the right hash of every file of the prior revision. |
| MergeHashes.MergeReadsRightHashesExactly | atr/merge.py:237-250 | In every run, a merge reads the right hash for every file of the prior revision exactly when the last revision that wrote a row for each of them gave it the hash it still has. |
| MergeHashes.MergeReadsRightHashesNext | atr/merge.py:237-250 | Where the table was right for the revision before, exactly when every such file got a row in the prior revision or had the same hash in the one before. |
| MergeHashes.ToldIsLastSaid | atr/merge.py:237-250 | In every run, a merge knows a prior file by the hash that the last row for it gave, or by its own where there is none. |
| MergeHashes.ChainedMergeIsRight | atr/merge.py:36-116 | When every revision was compared with the one right before and the base hashes are right, a merge follows its rule everywhere and notes no wrong hash. |
| MergeHashes.RestoreMisleadsMerge | atr/merge.py:253-276 | A run after which a merge onto the restored revision takes its file and notes a wrong hash for it. |
| MergeHashes.RestoreUndone | atr/merge.py:171-234 | After the same run, a merge with right base hashes whose rule asks for the restored file keeps the other one: the restore is undone. |
| MergeHashes.EditLost | atr/merge.py:89-97 | With the merged revision and the hashes noted for it as the next base, an edit passes for no change, and is lost when the prior revision deleted the file. |
| FileStates.LostAttestableWritesNothing | atr/attestable.py:60-66 | A revision with a parent whose attestable cannot be loaded writes no row, and the table agrees exactly when nothing changed. |
| FileStates.UnchangedWritesNothing | atr/attestable.py:229-234 | Committing the same files again with nothing new said about them carries their provenance over and writes no row. |
| FileStates.EffectivePathValues | atr/attestable.py:560-585 | A path has the value given for it, or else what was recorded for the same content at the same path before. |
| FileStates.CarriedExactly | atr/attestable.py:560-585 | What was recorded is carried over for the same content at the same path only, and gives way to a value given. |
| FileStates.ReleaseFileHashesAt | atr/db/__init__.py:1033-1060 | Reading the sorted rows gives every path the hash of its latest row, and none to a path whose latest row says that it is gone. |
| FileStates.LatestIsLatest | atr/db/__init__.py:1039-1049 | The row that the replay reads is the latest of those up to the revision. |
| Attribution.ComputeAttribution | atr/attestable.py:588-630 | The loops over contents and names give every content the entry of the specification and leave other entries alone. |
| Attribution.BasenameIs | atr/attestable.py:687-688 | The name noted for a path is what is behind its last slash, or all of it. |
| Attribution.RevisionExtends | atr/attestable.py:588-630 | No entry, uploader or name is lost or entered twice, every current name is in, and the uploader is noted exactly where a content is new or at more paths. |
| Attribution.HistoryExtends | atr/attestable.py:588-630 | In a run of revisions, the record of each extends that of every earlier one as far back as every revision started from the one right before it. |
| Attribution.RestoredRecord | atr/storage/writers/revision.py:530-541 | A revision restored unchanged leaves the record of the restored one, and extends the latest record exactly when the restored one does. |
| Attribution.LostRecord | atr/attestable.py:588-630 | A revision whose predecessor's attestable cannot be loaded extends the latest record exactly when that speaks of no content, uploader or name beyond this revision's own, and of the same sizes. |
| Attribution.RestoreShrinksRecord | atr/storage/writers/revision.py:530-541 | A run of three revisions in which restoring the first drops a content from the record. |
| Sealing.NoFork | atr/sealing.py:91-96 | Two chains that verify from one root agree record for record as far as both go, and so do the digests of their logs, when no key has signed twice and signatures cannot be made up. |
| Sealing.NoLongerChain | atr/sealing.py:91-96 | While the key due next has not signed, nobody can show a chain longer than the published one. |
| Sealing.ChainVerifies | atr/sealing.py:91-96 | Verifying seal after seal succeeds exactly when each verifies with the key that the one before named, and ends at the last key named. |
| Sealing.Service.RestingVerifies | atr/sealing.py:42-54 | In every state that is reached, no key has signed twice; the resting states are those with a root and no leftover key file, and in them the day files verify from the root up to the current key. |
| Sealing.Service.Prepare | atr/sealing.py:42-54 | A state is accepted exactly when it is a resting one, after the first key is made if there is no root; nothing else is changed. |
| Sealing.Service.Initialise | atr/sealing.py:36-39 | The first key is made once; any attempt, cut short or not, leaves the key directory, with which every later attempt fails. |
| Sealing.Service.Seal | atr/sealing.py:71-88 | Cut short before any step, a round publishes its seal whole or not at all and keeps the chain sound; cut short once the next key's file is begun, it leaves that file, half or whole, on which every later round fails; uninterrupted it ends at rest with one more seal and no file left. |
| Sealing.Service.SignRecord | atr/sealing.py:77-85 | The current key signs one record, which names the next key and the digest of the log. |
| Sealing.Service.SealNext | atr/tasks/audit.py:53-61 | More seals than days due are an error. From rest, or after making the first key where there is neither root nor key directory, the job seals the first due day without a seal and rests again; a round cut short before publication adds no seal; from any other state it signs and publishes nothing. |
| Base64Url.DecodeExactlyEncode | atr/sealing.py:99-103 | A text decodes to octets of the required number exactly when it is their unpadded encoding; no other spelling is accepted. |
| Base64Url.EncodesBits | atr/sealing.py:111-112 | Each character stands for the next six bits, by its place in the alphabet of RFC 4648, section 5, and there are as few characters as that takes. |
| DailyLogs.Build | atr/daylog.py:64-76 | Records are split into the days of a range exactly when the range is not reversed and holds every record; each day holds exactly its records with their multiplicity, and of any two the earlier comes first, or at one time the one with the smaller logger, then level, then event, each character by character. |
| DailyLogs.SortThenPick | atr/daylog.py:64-76 | Taking a day out of the sorted records is sorting the records of the day. |
| DailyLogs.ClosedFileForgetsOrder | atr/daylog.py:64-76 | A closed file is sorted, holds exactly the day's records with their multiplicity, and does not depend on the order in which they were appended. |
| DailyLogs.OrderIsTotal | atr/daylog.py:152-161 | The sort key orders all records and tells different ones apart. |
| DailyLogs.AuditLog.Append | atr/daylog.py:35-46 | A record is appended under today's date exactly when the day is not closed and its file ends with a whole line; closed days are not touched, and a write cut short loses no earlier record. |
| DailyLogs.AuditLog.Close | atr/daylog.py:79-103 | Closing fails exactly for a day that is not over, a crash, or an unfinished line in a day due, and has nothing to do exactly when no day is due. On success every day due, from the oldest file on and without a gap, has its closed file, an empty one included, and the marker is moved; on failure the marker stays and every day is as it was or closed. |
| DailyLogs.AuditLog.ClosedFilesInOrder | atr/daylog.py:95-103 | Whatever has happened to the logs, the files of the closed days hold exactly the records of their days, whole and in order of time. |
| DailyLogs.AuditLog.CloseDays | atr/daylog.py:95-102 | The loop closes the days of its range one by one up to the first crash or unfinished line, and leaves every other file as it was. |
| DailyLogs.AuditLog.CloseDay | atr/daylog.py:96-102 | A day's file becomes its closed file, unless its last line is unfinished. |
| DailyLogs.AuditLog.FirstOpen | atr/daylog.py:84-92 | Closing starts after the last closed day, or at the oldest day that has a file. |
| DailyLogs.AuditLog.Initialise | atr/daylog.py:106-116 | The directory is filled at once from the older logs, day by day in closed form, unless it has files or a record lies after today. |
| AuditTrail.Trail.SealedDaysVerify | atr/tasks/audit.py:40-61 | In every state reached by appending and by the daily job, in any order and with any crashes, the files of the sealed days, read as they are now, verify from the root of the chain to its last key. |
| AuditTrail.Trail.SealDay | atr/tasks/audit.py:40-61 | The daily job moves the closed marker exactly when closing succeeds, and goes through exactly when closing does not fail, there are no more seals than days due, the service is ready, and the round, if a day is due, is not cut short; then, or after a fault behind the publication, exactly the first day due without a seal gets one, and earlier seals stay. |
| AuditTrail.Trail.HandOver | atr/tasks/audit.py:48-52 | The days due are exactly those with a file up to the given one, closed and one after the other from the oldest on: the job's check for a missing day never fires. |
| AuditTrail.Trail.Append | atr/daylog.py:35-46 | An append, cut short or not, does no harm to a sealed day. |
| PubSub.AtLeastOnceExactly | atr/pubsub.py:278-287 | After the first cursor is saved, every later payload up to the durable cursor has been handled in every run that can follow, exactly when no payload between that cursor and the connection's position is missing at that moment. |
| PubSub.AtLeastOnceOnEvents | atr/pubsub.py:278-287 | On the events: the promise holds in every run that goes on from the first save exactly when, since the delivery that staged the cursor, every connection was opened where the one before it had stopped. |
| PubSub.UnsavedUntilSaved | atr/pubsub.py:229-276 | Until a cursor is saved, every run is in a state to which that applies. |
| PubSub.NoGapIsSafe | atr/pubsub.py:229-276 | From a state in which nothing is missing, no reconnect, restart, failing handler or failed save leads to one in which a payload up to the durable cursor was never handled. |
| PubSub.StagedOnThisConnection | atr/pubsub.py:278-287 | Nothing is missing when the first cursor saved was staged on the connection on which it is saved. |
| PubSub.PayloadLost | atr/pubsub.py:229-287 | A run in which the first cursor was staged on an earlier connection, and a payload is never handled though a later cursor becomes durable. |
| PubSub.CursorMovesBack | atr/pubsub.py:278-287 | A run in which the durable cursor moves back from the third payload to the second. |
| PubSub.RunIsSane | atr/pubsub.py:73-116 | In every run the reconnection delay is 0, 2, 6, 14 or 30 seconds, memory and file hold the same cursor, and a connection has handled all it delivered. |
| PubSub.Listener.Checkpoint | atr/pubsub.py:278-287 | A staged cursor that is new is saved and then remembered; a save that fails changes nothing. |
| PubSub.Listener.ProcessPayload | atr/pubsub.py:253-269 | Every delivered payload is handled; its cursor is staged when the handler returns and the payload has one. |
| PubSub.Listener.OpenConnection | atr/pubsub.py:101-103 | A connection asks for what follows the saved cursor, or is live when there is none. |
| PubSub.Listener.LoseConnection | atr/pubsub.py:109-116 | A failed connection waits at most thirty seconds, and the next delay is stepped up. |
| PubSub.Listener.Start | atr/pubsub.py:229-276 | A new process goes on from the saved cursor with nothing staged. |
| RequestBody.Body.Append | atr/body.py:65-90 | Data is put after what is still to be read, or ignored, or refused for the length limit, the free disk space or a failed write, in which case the body ends with that error; accepted bytes never exceed the maximum. |
| RequestBody.Body.FinishGet | atr/body.py:111-123 | A read gives the next bytes in order, at most one chunk: what was delivered and what is still to be read are together what was accepted. |
| RequestBody.ChunkIsNext | atr/body.py:111-123 | A read takes what is there, or its first 65536 bytes. |
| RequestBody.Body.FinishNext | atr/body.py:48-54 | Iteration reads in the same way, and truncating the spool at the end loses nothing. |
| RequestBody.Body.AwaitAll | atr/body.py:56-63 | Waiting for the whole body gives exactly the accepted bytes that no read has delivered. |
| RequestBody.Body.StartGet | atr/body.py:111-123 | A read raises the error, waits when nothing is there and nothing was completed, and goes on otherwise; then there is data or the body is complete. |
| RequestBody.Body.Clear | atr/body.py:92-99 | Nothing is left to be read, and what was accepted and delivered is counted from here. |
| RequestBody.Body.Disconnect | atr/body.py:105-109 | A body that is not complete ends with an error; a complete one is left as it is. |
| RequestBody.EmptyExactlyWhenDrained | atr/body.py:111-123 | After any schedule of appends, reads, clears and ends, nothing is pending exactly when, since the last clear, the reads suffice for what was there and all that arrived, and from every point on for what arrived after it. |
| RequestBody.PendingAtMost | atr/body.py:111-123 | Without clears, at most so many bytes are pending exactly when the reads of the schedule suffice for all but that many. |
| RequestBody.NothingBeforeComplete | atr/body.py:111-123 | A reader that was woken gets nothing before the body is complete exactly when nothing ended the body and what others appended and took in between drained it. |
| RequestBody.UndisturbedGetsData | atr/body.py:111-123 | A reader that was woken, and that no other reader and no clear comes before, gets data, or the body is complete. |
| RequestBody.SecondReaderGetsNothing | atr/body.py:111-123 | Of two readers woken for the same byte the second gets nothing though the body is not complete. |
| RequestBody.WrittenAtEnd | atr/body.py:83-90 | Writing at the write offset keeps the unread bytes in place and puts the new ones after them, also after the spool was truncated. |
| RateLimits.RunBound | atr/ssh.py:351-364 | In every run whose clock does not go back, a key has at most as many accepted attempts as its limit in any closed interval of sixty seconds, for limits of at least one. |
| RateLimits.Limiter.Check | atr/ssh.py:351-364 | An attempt is refused exactly when the sixty seconds before it hold as many accepted attempts as the limit and at least one; the decision depends on nothing else. |
| RateLimits.Limiter.CleanUp | atr/ssh.py:262-273 | Exactly the windows without a recent attempt are forgotten. |
| RateLimits.CleanupsPlayNoPart | atr/ssh.py:262-273 | Two runs with the same attempts and different cleanups leave different windows; the next attempt of any key is decided alike on both. |
| RateLimits.AdmitsWhatIsAccepted | atr/ssh.py:351-364 | The window kept for a key decides an attempt as all earlier accepted attempts together would. |
| RateLimits.WindowBound | atr/ssh.py:351-364 | Any ascending times that were each accepted in their turn keep to the limit in every closed interval. |
| RateLimits.ZeroLimitAccepts | atr/ssh.py:358-359 | A limit of zero still accepts an attempt when the window is empty. |
| CatalogRules.MinimalCombo | atr/catalog_site.py:728-735 | The search finds a subset of the classifiers that no other file has, of least size, and finds none exactly when there are no classifiers or another file has them all. |
| CatalogRules.CombinationsArePicks | atr/catalog_site.py:732-732 | The combinations of a size are exactly the ways to take that many items in their order. |
| CatalogRules.EverySubsetPicked | atr/catalog_site.py:732-732 | Every subset of the items is among the combinations. |
| CatalogRules.ClassifierRules | atr/catalog_site.py:433-461 | Every rule is that of a file, every file that its classifiers tell apart has one, and larger combos come first. |
| CatalogRules.MostSpecificRuleWins | atr/catalog_site.py:433-461 | No rule that matches a query asks for more classifiers than the first one that matches, which is taken. |
| CatalogRules.OnlyItsOwnRule | atr/catalog_site.py:877-895 | A query between a file's combo and its classifiers matches no other file's rule. |
| CatalogRules.QueryFindsFile | atr/catalog_site.py:877-895 | The query text of such a query, its pairs in any order, redirects to the file's URL by the first rule that matches, whatever rules by name come first. |
| CatalogRules.QuoteByOctet | atr/catalog_site.py:709-714 | A qualifier value is written octet by octet, as itself or as a percent sign and two hexadecimal digits. |
| CatalogRules.OccursIsPart | atr/catalog_site.py:709-714 | The pattern of a condition matches a query exactly when its text is one of the parts of the query between ampersands. |
| CatalogRules.PairTextInjective | atr/catalog_site.py:709-714 | Different qualifiers or values are encoded as different texts. |
| CatalogRules.Unique | atr/catalog_site.py:947-956 | Exactly the pairs whose non-empty key stands once in the list are kept. |

## Left out

- OpenPGP signature verification, expiry, revocation, key facts and ASCII armor: they rest on a library that is not part of this model.
- Real hashing, SLH-DSA, OpenSSL and RFC 8785 serialisation: hashes are arbitrary functions, signatures symbolic, and records are values that stand for their canonical lines.
- The size and field checks on a seal's JSON text, apart from the base64url fields, which `Base64Url` models.
- Attestables of version 1 as snapshots: they are modelled as what a revision is compared with, but the replay is stated for version 2, since rows are not kept for version 1 from the start.
- Legacy formats of the older audit logs, read once by the backfill: the model starts from the records they yield.
- File permissions, symbolic links, temporary files, locks and asyncio itself: files are maps, and each link, rename or removal is one step; asynchronous reads of the body are split into their start and their end, between which anything may happen.
- Floating-point rounding in clock readings: times are real numbers.
- Calendar dates in day files and timestamps: days are numbered, and the rest of a timestamp is a text.
- Seal files put among the daily logs by hand, out of order: seals are a sequence, of which only the length is compared with the days due; and the daily job where there is no sealing directory outside production.
- The derivation of classifiers, subpaths and file names of artifacts by heuristics over names, and the choice between permanent and temporary redirects: the rules start from the pairs that these yield.
- UTF-8 encoding: values of qualifiers, paths of a tree and packet bodies are octets; other texts are sequences of characters.
- Manager, cycles, CLE, web pages, forms, mail, LDAP, JWT, SSH and rsync dispatch, sessions and database plumbing: thin wrappers or input and output.
- CertificateDeltas.FoldedHistory: the fold is a function and not a loop, because what picks the primary key out of a set is a choice that Dafny cannot compile.
- RevisionMerge.Workspace.Merge: paths are visited in an arbitrary order, of which the sorted one is a case; paths are sequences of components.
- FileStates.ComputeFileStateRows: the order in which paths are listed is a parameter, of which the sorted order is a case.
- Attribution.ComputeAttribution: the size of a content is given once for each content, where the program takes it from any of its paths.
- PubSub.NoGapIsSafe: assumes that a server asked for a cursor delivers everything after it in order.
