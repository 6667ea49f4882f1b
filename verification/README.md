# Verification of the libpkgbuild-exec adapter

This project models the adapter that realizes one sealed package build, and proves what its
design promises. `dafny verify dfyconfig.toml` (Dafny 4.11) checks all of it.

* **Source archive extraction** (`PathText`, `SymlinkCheck`, `SourceTree`, `Extraction`,
  `ExtractionSpec`, `ExtractionTheorems`, `Sealing`, `ExtractedTree`, `Unpack`). The class `Workspace` holds the tree
  and the directory map that the extractor updates in place. Its methods refine a pure fold, and the
  fold is proved to accept exactly the archives that meet a declarative condition and to leave the
  declared tree: names, contents, metadata and inode sharing, which `ExtractedTree` says again item by
  item in the fields of the archive.
* **Artifact publication** (`ArtifactDisk`, `Publication`, `PrivateSealing`, `SealedPublication`,
  `PublisherRace`, `PublisherProgress`). The class `Kernel` carries a schedule of faults, one entry
  for each call; a call may fail, or be where the process dies, after which no call has an effect, so
  the state a run leaves for a schedule that dies at a call is the state between two calls of the real
  run. `TemporaryArtifact` is the source's class. `PublisherRace` is a state machine over single calls
  for any number of publishers in any order.
* **Durable result codec** (`Wire`, `WireBuffers`, `RecordFormat`, `RecordBuffers`, `BuildResults`,
  `ResultCodec`, `SealedOrder`, `RecordLayout`, `DurableCodec`) and its agreement with the executor
  (`ExecutorAgreement`). Writer and reader are classes over a buffer, each method exact about when it
  fails; printers and parsers are proved inverse both ways, and `RecordLayout` gives the bytes and the
  accepted results without them.
* **Payload inspection and archive encoding** (`TextOrder`, `OutputTree`, `Inspection`, `Inspector`,
  `Determinism`, `PackageArchive`) of a quiescent tree, and under interference (`Snapshot`), where
  anything may change before every call as long as a change advances the inode's stamp.
* **Admission and preparation** (`PathLayout`, `Admission`, `AdmittedSession`, `HostState`,
  `Preparation`). `HostTree` holds the host's nodes; its methods refine a function from host to host,
  which says exactly what survives.

Libraries that are not shown enter as function-valued parameters with a small contract: the manifest
sealer keeps its own output and only entries it was given; the embedded execution codec decodes what
it encoded within its size bound, under the execution's own authorities; the image authority is the
pair it was admitted with. SHA-256 (FIPS 180-4) is an arbitrary function; where injectivity is needed
a lemma requires it.

Three statements are false of the code as it stands and are proved with their exact condition.

* *Disjoint paths.* `lexically_normal` keeps a trailing slash as an empty last component
  ([fs.path.generic] of ISO C++17), so a root written with one passes the overlap check against
  everything beneath it (`PathLayout.SlashHides`, `PathLayout.SlashHidesNesting`). The check is exact
  in all other cases (`PathLayout.OverlapsExactly`). An undisturbed `prepare`, whether it succeeds or
  not, leaves a protected place alone on every host if and only if no trailing slash hid the place from
  the check (`Preparation.SparedExactlyIfSeen`). A root view "/build/view" with session root "/build/"
  is deleted (`Preparation.RootViewIsDeleted`); so is "/o/view" with session root "/o/s" and output
  root "/o/", and then `prepare` fails (`Preparation.RootViewIsDeletedInVain`); of a root view "/view/"
  with session root "/view/s" what was at and beneath the session root is replaced, and the rest stays
  (`Preparation.RootViewIsOverwritten`).
* *Publication converges.* The private sealed artifact lies in the session root. If that root is
  written with a trailing slash and the artifact path is the private name or lies beneath it, and only
  then, the layout is admitted with the two names in line (`AdmittedSession.PublicIsSealedExactly`,
  `AdmittedSession.ArtifactCanBeAtSealed`). Where they are equal, `publish_sealed_artifact` finds its
  own artifact published, removes the private name, and reports success with the artifact gone
  (`SealedPublication.SlashedRootLosesArtifact`). Where the public name lies beneath the private one,
  which is a regular file, every run fails and the artifact stays unpublished
  (`SealedPublication.BeneathSealedNeverPublishes`). Where the names differ, publication converges
  exactly from the ready states (`SealedPublication.PublishUntilSettled`): over an exact private
  artifact those with an exact public name, or a free one that nothing on the disk is in line with
  (`SealedPublication.ReadyExactly`).
* *Decoding returns what it can read.* A byte string that passes every other check of the decoder is
  returned exactly if its entries were in sealed order already and its embedded execution record was
  canonical (`ResultCodec.CanonicalExactly`). Entries out of order are refused although they seal to
  the payload of a valid result (`SealedOrder.ReorderedIsRefused`); `SealedOrder.OneIsRefused` is one
  such string.

A publisher that adopts another's object may fail although the object is exact, because the owner's
unlink of its private name changes the object's stamp meanwhile. That is safe, and `PublisherRace`
allows it.

## Model

| member | source | states |
|---|---|---|
| PathText.ParseArchivePath | src/source_archive_libarchive.cpp:78-110 | the two loops accept and cut exactly the raw names that `ParsePath` accepts, every failure being a staging failure |
| PathText.CutComponents | src/source_archive_libarchive.cpp:91-106 | the offset loop yields the components between slashes, or refuses at the first empty, "." or ".." one |
| PathText.JoinComponents | src/source_archive_libarchive.cpp:112-123 | joining the first `count` components puts one slash between each two |
| PathText.AcceptedPathsAreJoined | src/source_archive_libarchive.cpp:78-110 | for any components: a raw name is read as them if and only if there is at least one, none is empty, a dot or two dots or holds a slash, and the name is the components joined with slashes and then any number of slashes |
| PathText.ReparseYieldsComponents | src/source_archive_libarchive.cpp:366-377 | joining canonical components and parsing the text again gives back the same components, so a map key names the directory it was made for |
| PathText.SplitJoin | src/source_archive_libarchive.cpp:91-123 | cutting joined canonical components at the slashes gives them back |
| PathText.JoinSplit | src/source_archive_libarchive.cpp:91-123 | joining the pieces of an accepted text gives the text back |
| PathText.JoinInjective | src/source_archive_libarchive.cpp:112-123 | two canonical component lists with the same text are the same |
| PathText.SlashCountIsDepth | src/source_archive_libarchive.cpp:383-391 | the number of slashes in a key is its depth less one, which is what the sealing order compares |
| SymlinkCheck.SymlinkTargetStaysBeneath | src/source_archive_libarchive.cpp:241-270 | the mutable stack loop decides exactly the lexical resolution of the target from the entry's parent |
| SymlinkCheck.ResolveIsCounting | src/source_archive_libarchive.cpp:241-270 | lexical resolution succeeds exactly when no prefix has more ".." than the depth plus the ordinary components before it, and its depth is that count |
| SymlinkCheck.DotsStay | src/source_archive_libarchive.cpp:254-255 | an empty component and "." drop out of a target wherever they stand |
| SymlinkCheck.UpTakesBack | src/source_archive_libarchive.cpp:256-263 | an ordinary component and the ".." after it take each other back wherever they stand |
| SymlinkCheck.CheckIsExact | src/source_archive_libarchive.cpp:241-270 | the check accepts exactly the non-empty relative targets whose every prefix stays at or beneath the root, counted in the text alone |
| SymlinkCheck.LexicalIsPhysical | src/source_archive_libarchive.cpp:241-270 | through real directories an accepted target ends at the node its lexical resolution names |
| SymlinkCheck.RefusedTargetsClimbOut | src/source_archive_libarchive.cpp:257-262 | a refused relative target asks for the parent of the root at some component |
| ExtractionSpec.WalkRealizes | src/source_archive_libarchive.cpp:162-188 | walking to a parent creates exactly the missing implicit directories and fails exactly when a component is a non-directory |
| ExtractionSpec.PlaceRealizes | src/source_archive_libarchive.cpp:272-340 | placing one new node keeps names, leaves, directory records and sharing what the entries say |
| ExtractionSpec.LinkRealizes | src/source_archive_libarchive.cpp:342-364 | a hard link adds one name to an inode and joins exactly the two origins |
| ExtractionSpec.UpgradeRealizes | src/source_archive_libarchive.cpp:277-294 | an explicit entry over an implicit directory changes only that directory's record |
| ExtractionTheorems.FolderRealizes | src/source_archive_libarchive.cpp:272-294 | a directory entry succeeds exactly when it fits the entries before it, upgrading an implicit directory at most once |
| ExtractionTheorems.LeafRealizes | src/source_archive_libarchive.cpp:296-340 | a file or symbolic link succeeds exactly when its name is free and its parents are directories |
| ExtractionTheorems.HardlinkFits | src/source_archive_libarchive.cpp:342-364 | a hard link succeeds exactly when its target is an existing regular file reached through directories and its name is free |
| ExtractionTheorems.StepRealizes | src/source_archive_libarchive.cpp:432-473 | one archive item succeeds exactly when it reads as an entry that fits the ones before it, and then realizes one entry more |
| ExtractionTheorems.StepAllPreserves | src/source_archive_libarchive.cpp:432-473 | no item, failing or not, removes or replaces a node that existed, and every inode keeps its content |
| ExtractionTheorems.FoldRealizes | src/source_archive_libarchive.cpp:403-482 | the whole loop accepts exactly the archives whose items all read and fit, and leaves what their entries stand for |
| ExtractionTheorems.AllFitMeans | src/source_archive_libarchive.cpp:403-482 | fitting one after another is the same as each entry fitting its own prefix of the archive |
| Sealing.NothingBelowHead | src/source_archive_libarchive.cpp:383-391 | in the sealing order nothing beneath the next directory is still waiting |
| Sealing.PendingOpens | src/source_archive_libarchive.cpp:366-377 | every directory still to be sealed can be opened component by component, whatever modes were sealed already |
| Sealing.SealRealizes | src/source_archive_libarchive.cpp:379-399 | sealing always succeeds, and each directory ends with exactly its recorded mode and time while nothing else changes |
| Sealing.SealedIsExtracted | src/source_archive_libarchive.cpp:379-399 | the sealed tree is the one the entries stand for: names, leaves, directory metadata and sharing |
| Sealing.UnpackMeans | src/source_archive_libarchive.cpp:403-491 | over any tree and any archive: acceptance is the declarative condition, and the result the declared tree |
| ExtractedTree.ReadsExactly | src/source_archive_libarchive.cpp:432-473 | which items can be unpacked at all, said of their fields: no raw or broken item, an ordinary name, and an ordinary target name or a link target that stays beneath the root |
| ExtractedTree.AdmittedBits | src/source_archive_libarchive.cpp:133-136 | a final mode has no set-id or sticky bit, no bit of the mask, and every other bit as the archive has it |
| ExtractedTree.BitsDecide | src/source_archive_libarchive.cpp:133-136 | there is one such mode only |
| ExtractedTree.ItemsAreThere | src/source_archive_libarchive.cpp:403-491 | every item of an accepted archive ends at its own name with its own content, time and permission bits, or as a regular file if it is a hard link |
| ExtractedTree.LinksAreShared | src/source_archive_libarchive.cpp:342-364 | a hard link and the file that its target text names end as one inode |
| ExtractedTree.ParentsArePlain | src/source_archive_libarchive.cpp:162-188 | a parent that no item names ends with every permission the mask leaves, and the time zero |
| Unpack.Workspace.OpenParent | src/source_archive_libarchive.cpp:162-188 | the loop over the parents leaves exactly the stage of the fold, where it succeeds and where it throws |
| Unpack.Workspace.ExtractDirectory | src/source_archive_libarchive.cpp:272-294 | the method leaves exactly the stage of the fold |
| Unpack.Workspace.WriteRegularData | src/source_archive_libarchive.cpp:213-239 | whatever the sizes of partial writes, the file ends with the chunks joined |
| Unpack.Workspace.ExtractRegular | src/source_archive_libarchive.cpp:296-317 | the method leaves exactly the stage of the fold |
| Unpack.Workspace.ExtractSymlink | src/source_archive_libarchive.cpp:319-340 | the method leaves exactly the stage of the fold, refusing targets that climb out |
| Unpack.Workspace.ExtractHardlink | src/source_archive_libarchive.cpp:342-364 | the method leaves exactly the stage of the fold |
| Unpack.SortForSealing | src/source_archive_libarchive.cpp:379-391 | the map's entries, each once: more slashes first, and among equals the later text first |
| Unpack.Workspace.SealDirectories | src/source_archive_libarchive.cpp:379-399 | the loop leaves exactly the fold of sealing over that order |
| Unpack.Workspace.Unpack | src/source_archive_libarchive.cpp:403-491 | succeeds exactly for non-empty archives whose entries all fit; then the tree is the declared one; otherwise a staging failure; never is an earlier node removed, replaced or altered |
| ArtifactDisk.FreshTemporary | src/executor.cpp:763-772 | a private name beside the destination can always be found |
| ArtifactDisk.TemporaryDiffers | src/executor.cpp:763-767 | a private name lies beside the destination: a dot, the destination's own name, ".tmp." and some text |
| Publication.HashRegular | src/executor.cpp:491-521 | the read loop yields the size and digest of the bytes there, exactly if the stamp is unchanged afterwards |
| Publication.OpenExactReadOnly | src/executor.cpp:999-1042 | a name is accepted only if it leads to a read-only regular file of the expected size and digest; undisturbed, exactly then |
| Publication.Create | src/executor.cpp:754-785 | a fresh private name, or nothing else changed; no existing name or content is touched; undisturbed, it fails exactly where something that is not a directory is above the destination |
| Publication.CopyExactArtifact | src/executor.cpp:1076-1124 | after success the private file is read-only and has the expected size and digest; only that inode changed |
| Publication.TemporaryArtifact.Settle | src/executor.cpp:820-858 | after the link, the checks and the unlink of the private name leave at most that name changed |
| Publication.TemporaryArtifact.PublishLinked | src/executor.cpp:820-866 | every failure after the link takes the destination away again; success owns it |
| Publication.TemporaryArtifact.AdoptExactExisting | src/executor.cpp:928-990 | an occupied destination is adopted only if exact; a differing one is left untouched and the call fails with nothing changed |
| Publication.TemporaryArtifact.Publish | src/executor.cpp:807-866 | an existing destination always leads where it led; success means exact bytes there, owned only if the name was free; undisturbed, it succeeds exactly for an exact destination or a free one that nothing stands in the way of; without a private name left it always fails and changes nothing |
| Publication.TemporaryArtifact.VerifyPublishedBinding | src/executor.cpp:868-890 | success means the published name leads to the held read-only regular file; undisturbed, exactly then |
| Publication.TemporaryArtifact.Rollback | src/executor.cpp:892-920 | an owned publication is taken back, an adopted one only forgotten |
| Publication.TemporaryArtifact.Retain | src/executor.cpp:921-925 | an owned publication is kept in every state, except where a rollback that then failed has taken its name away |
| Publication.TemporaryArtifact.Destroy | src/executor.cpp:787-803 | with clean-up undisturbed the private name is gone and the destination exists exactly if it did before or an owned publication was retained |
| Publication.Lifetime | src/executor.cpp:752-997 | from constructor to destructor, for every sequence of publish, verify, rollback and retain in any state: with clean-up undisturbed the private name is gone, and the destination is there exactly if it was before, or was retained and no rollback had unlinked it and then failed to synchronize; an adopted destination is never unlinked |
| SealedPublication.RemovePrivateSealedArtifact | src/executor.cpp:1044-1074 | at most the private name changes; undisturbed, it succeeds exactly for a regular file or a name that is at most missing, and otherwise always fails and changes nothing |
| SealedPublication.CopyAndPublish | src/executor.cpp:1796-1802 | at every outcome what is at the public name is exact |
| SealedPublication.PublishFresh | src/executor.cpp:1789-1803 | with a free public name and nothing in its way, whatever fails the private name and all other names stay, and the public one is absent or exact |
| SealedPublication.PublishSealedArtifact | src/executor.cpp:1760-1804 | for any session root and artifact path: if the private name is not the public one, whatever fails and wherever the process dies no content changes, no other name goes and the private name goes only once the public one is exact; undisturbed success is equivalent to a ready state, and from any other state every run fails and changes nothing; if the names are the same, undisturbed success is equivalent to an exact artifact, and has removed it |
| SealedPublication.RunsKeep | src/executor.cpp:1760-1804 | what one run keeps, any sequence of runs keeps |
| SealedPublication.RunsStaySafe | src/executor.cpp:1760-1804 | a state with the bytes safe stays safe, one from which a quiet run publishes stays one, and a settled one stays settled |
| SealedPublication.RunHistories | src/executor.cpp:1784-1803 | after any number of runs with any faults and deaths, if the names differ: every disk left is safe, a ready state stays ready, and no run changes any other |
| SealedPublication.PublishUntilSettled | src/executor.cpp:1784-1803 | if the names differ, one undisturbed run after any history ends with the public name exact and the private one gone exactly if the state at the start was ready; otherwise no run ever changes anything |
| SealedPublication.SealedIsNoTemporary | src/executor.cpp:754-785 | the private sealed name is never one of the temporary names beside the public one, wherever the two lie |
| SealedPublication.ReadyExactly | src/executor.cpp:999-1013 | while the private artifact is exact, a free public name is ready exactly if nothing stands in its way; above or beneath the private name something always does |
| SealedPublication.SlashedRootLosesArtifact | src/executor.cpp:1784-1788 | at a concrete admitted layout with equal names, one undisturbed run over an exact artifact reports success and the artifact is gone |
| SealedPublication.BeneathSealedNeverPublishes | src/executor.cpp:1004-1013 | at the concrete admitted layouts with the public name beneath the private one, over an exact artifact every run fails, with faults and without, and none changes the disk |
| PrivateSealing.EncodeInto | src/executor.cpp:724-747 | whatever the sizes of partial writes, after success the file is read-only and holds the archive's blocks joined |
| PrivateSealing.HashArtifact | src/executor.cpp:1336-1348 | success yields digest and size of a read-only regular file; undisturbed, exactly for one |
| PrivateSealing.EncodeAndPublish | src/executor.cpp:1690-1703 | the evidence that comes out is that of the bytes at the private name, owned or adopted |
| PrivateSealing.SealArtifact | src/executor.cpp:1685-1739 | success leaves the private name exact for the digest and size of the archive written; a cleaned-up failure leaves the name as it was; an existing name is never touched; undisturbed it succeeds over a free name |
| PrivateSealing.SealThenPublish | src/executor.cpp:1685-1804 | from sealing to publication over any faults between, nothing assumed of the private artifact: the last undisturbed run publishes exactly if the public name is exact, or free with nothing in its way |
| PublisherRace.OthersKept | src/executor.cpp:807-1125 | one publisher's call leaves every other publisher where it was |
| PublisherRace.DiskKept | src/executor.cpp:807-1125 | one publisher's call leaves names, contents and the public object in order |
| PublisherRace.HashKept | src/executor.cpp:491-521 | a read in the middle of another publisher's progress still collects a prefix of the bytes |
| PublisherRace.StepKeeps | src/executor.cpp:807-1125 | every call of every publisher keeps the invariant of all reachable states |
| PublisherRace.EveryRun | src/executor.cpp:1784-1803 | over every schedule the invariant holds, what is at the public name stays with its bytes and mode, and private names go only once it is exact |
| PublisherRace.VisibleIsComplete | src/executor.cpp:807-818 | what appears at a free public name is complete, read-only and exact from its first instant |
| PublisherRace.SuccessIsExact | src/executor.cpp:1784-1803 | a publisher that succeeded has its bytes at the public name in every later state |
| PublisherRace.DifferingObjectStays | src/executor.cpp:928-954 | an object that was there first and differs is never altered, its publisher never succeeds, and the private name stays |
| PublisherProgress.FreeLeavesNames | src/executor.cpp:1044-1074 | while the public name is free no publisher takes an original name away |
| PublisherProgress.OthersLeaveIt | src/executor.cpp:807-1125 | whatever another publisher does, one that is on its way to the link stays there with its facts |
| PublisherProgress.Advances | src/executor.cpp:1076-1124 | while the public name is free, each call of a publisher with an exact artifact takes it one stage further or links the name |
| PublisherProgress.OnlyLinkFills | src/executor.cpp:807-818 | no call fills a public name that something stands in the way of |
| PublisherProgress.EndedMeansPublished | src/executor.cpp:1784-1803 | over every schedule from a free public name: if nothing stands in its way, then once a publisher with an exact artifact has ended, in success or failure, the public name is exact for some publisher; if something does, the name is never filled and the publisher never succeeds |
| PublisherProgress.InLineNeverPublishes | src/executor.cpp:1004-1013 | so a publisher whose exact private name lies above or beneath the public one never succeeds, and nobody fills the public name |
| Wire.ValueOfBE | src/result_codec.cpp:82-106 | what the reader accumulates from a big-endian field is the value written |
| Wire.BEOfValue | src/result_codec.cpp:189-212 | every field of bytes is the big-endian form of the value read from it |
| Wire.CastsAreInverse | src/result_codec.cpp:103-106 | the signed and unsigned casts are inverse on all 64-bit values |
| Wire.BoolInverse | src/result_codec.cpp:219-225 | a boolean is read back, and only the bytes 0 and 1 are read |
| Wire.IdentityLeft | src/result_codec.cpp:139-151 | 64 hexadecimal digits survive packing into 32 bytes |
| Wire.IdentityRight | src/result_codec.cpp:227-238 | any 32 bytes are the packed form of the identity read from them |
| Wire.TextLeft | src/result_codec.cpp:131-137 | text within the limit is read back, and nothing after it |
| Wire.TextRight | src/result_codec.cpp:240-250 | text that is read was printed by exactly the bytes consumed |
| Wire.AllRight | src/result_codec.cpp:676-681 | a list parsed entry by entry prints to exactly the bytes consumed |
| WireBuffers.Writer.PutByte | src/result_codec.cpp:76-80 | a byte is appended, or the write fails exactly when the bound would be exceeded |
| WireBuffers.Writer.PutInteger | src/result_codec.cpp:82-101 | appends the big-endian form, or fails exactly when the bound would be exceeded |
| WireBuffers.Writer.PutRaw | src/result_codec.cpp:113-120 | the subtraction from the bound never wraps, so the data is refused exactly when it does not fit |
| WireBuffers.Writer.PutText | src/result_codec.cpp:122-137 | appends length and contents, or fails exactly when the bound would be exceeded |
| WireBuffers.Writer.PutIdentity | src/result_codec.cpp:139-151 | appends 32 bytes, refusing exactly what is not 64 lower-case hexadecimal digits or does not fit |
| WireBuffers.Reader.TakeInteger | src/result_codec.cpp:193-217 | takes what the parser takes, and fails exactly on truncation |
| WireBuffers.Reader.TakeIdentity | src/result_codec.cpp:227-238 | takes what the parser takes, and fails exactly on truncation |
| WireBuffers.Reader.TakeText | src/result_codec.cpp:240-263 | takes what the parser takes, and fails exactly on truncation or above the limit |
| RecordFormat.EntryLeft | src/result_codec.cpp:317-403 | an entry within the limits, of any of the seven types, is read back |
| RecordFormat.EntryRight | src/result_codec.cpp:354-403 | an entry that is read was printed by exactly the bytes consumed |
| RecordFormat.PayloadInverse | src/result_codec.cpp:616-621 | parser and printer of the counted entry list are inverse both ways |
| RecordFormat.ReceiptInverse | src/result_codec.cpp:494-523 | parser and printer of the inspection receipt are inverse both ways |
| RecordFormat.TailRight | src/result_codec.cpp:666-702 | the nested optional evidence that is read was printed by exactly the bytes consumed |
| RecordFormat.RecordLeft | src/result_codec.cpp:599-719 | a printed record is parsed back, and nothing after it |
| RecordFormat.RecordRight | src/result_codec.cpp:599-719 | a parsed record prints to exactly the bytes consumed |
| RecordFormat.NoProperPrefix | src/result_codec.cpp:640-704 | no accepted body is a proper prefix of another |
| RecordBuffers.EncodePayloadEntry | src/result_codec.cpp:317-352 | writes exactly the entry's printed form, failing exactly for a bad digest or for size |
| RecordBuffers.EncodePayload | src/result_codec.cpp:616-621 | the loop writes exactly the printed list |
| RecordBuffers.DecodePayloadEntry | src/result_codec.cpp:354-403 | reads exactly what the entry parser accepts |
| RecordBuffers.DecodePayload | src/result_codec.cpp:673-682 | the loop reads exactly what the list parser accepts |
| RecordBuffers.EncodeReceipt | src/result_codec.cpp:494-503 | writes exactly the receipt's printed form, failing only for size |
| RecordBuffers.DecodeReceipt | src/result_codec.cpp:505-523 | reads exactly what the receipt parser accepts, its derived identity included |
| ResultCodec.RebuiltIsSame | src/result_codec.cpp:425-451 | the build rebuilt from the evidence keeps the result valid and its record unchanged; with injective build identities it is the same result |
| ResultCodec.RoundTrip | src/result_codec.cpp:547-597 | decoding an encoded result whose parts fit the decoder's limits under its own three authorities returns it |
| ResultCodec.WrongAuthority | src/result_codec.cpp:636-648 | under any other authority an encoded record is refused as another's, never as damaged |
| ResultCodec.CanonicalExactly | src/result_codec.cpp:704-736 | for every byte string that passes the other checks, re-encoding reproduces it exactly when its entries were in sealed order and its embedded record canonical |
| SealedOrder.ReorderedIsRefused | src/result_codec.cpp:724-737 | for every lawful library: entries that seal to a result's payload and are not that payload make a byte string that passes every other check, stands for the same result, and is refused |
| SealedOrder.OneIsRefused | src/result_codec.cpp:724-737 | one such byte string, for one lawful library |
| ResultCodec.DecodedIsEncoded | src/result_codec.cpp:720-736 | a decoded result carries the authorities it was decoded under and has that one encoding |
| RecordLayout.FourIsBE | src/result_codec.cpp:88-92 | four-byte fields have the most significant byte first |
| RecordLayout.EightIsBE | src/result_codec.cpp:94-98 | so have eight-byte fields |
| RecordLayout.IdentityIsHexadecimal | src/result_codec.cpp:139-160 | an identity is 64 of the digits "0123456789abcdef", and its 32 bytes are the values of its digit pairs |
| RecordLayout.EntryLaidOut | src/result_codec.cpp:317-352 | an entry is its type number, path, mode, user, group, size, time and what its type adds, in this order and these widths |
| RecordLayout.BodyLaidOut | src/result_codec.cpp:557-590 | a record is laid out field by field as the encoder writes it, from the result's own fields |
| RecordLayout.EncodesExactly | src/result_codec.cpp:425-597 | exactly the results whose evidence fits together, in identities that print and within the limits, are encoded: as these bytes and their checksum; all others are inconsistent |
| RecordLayout.OtherReceiptIsRefused | src/result_codec.cpp:405-423 | a result whose receipt counts other than its payload's entries, or names another archive digest, is not encoded |
| RecordLayout.SpelledReceiptIsRefused | src/result_codec.cpp:705-716 | nor is any byte string decoded that spells such a record |
| RecordLayout.DecodesExactly | src/result_codec.cpp:599-737 | whatever is decoded carries the three authorities given, and is exactly one of the encoded results with these bytes |
| RecordLayout.OtherAuthorityIsRefused | src/result_codec.cpp:636-648 | a record of another build request, execution request or backend, or for no build, is refused as such |
| RecordLayout.RefusedAsOthers | src/result_codec.cpp:605-668 | every refusal is as another's record or as a corrupt one, and as another's exactly if size and checksum are right and an identity, the purpose or the embedded record is another's |
| DurableCodec.EncodeBuildExecutionResult | src/result_codec.cpp:547-597 | the writer's many partial writes give the specified bytes for exactly the encodable results, refused for size exactly above 256 MiB with the checksum included |
| DurableCodec.DecodeBuildExecutionResult | src/result_codec.cpp:599-737 | the reader's steps give the decoding of the specification, with the same error code for every input; what is decoded is consistent, carries the authorities given, and is written as these bytes |
| ExecutorAgreement.VerifySealed | src/executor.cpp:1706-1736 | success is equivalent to every verification step working, and the result is valid with the build those steps determine |
| ExecutorAgreement.Handle | src/executor.cpp:1740-1757 | each of the five codes is recorded as its own kind of failure, under the failure identity of that kind; any other exception as a failed verification; any other code escapes |
| ExecutorAgreement.SealExecution | src/executor.cpp:1685-1757 | the first step that fails decides what is recorded, kind by kind, with unequal inspections as failed encoding and unequal stamps as failed verification; a failing rollback takes the place of the failure it follows; without any failure the result is the sealed build; every result is valid |
| ExecutorAgreement.ExecuteSealed | src/executor.cpp:1658-1758 | a build succeeds exactly if every step works; otherwise the error, the failed execution or the failed sealing is what the first failing step determines; every result is valid and carries the session's own authorities |
| ExecutorAgreement.Execute | src/executor.cpp:1806-1831 | the same after publication: a build succeeds exactly if publication works too, and a failed publication is recorded as its own kind of failure |
| ExecutorAgreement.ExecuteAndEncode | src/result_codec.cpp:453-492 | encoding a returned result fails exactly when it exceeds a size limit |
| OutputTree.SortSorts | src/executor.cpp:466-467 | sorting a directory's listing orders it strictly and keeps exactly its entries |
| TextOrder.LessExactly | src/executor.cpp:466-467 | one name comes before another exactly if, where they first differ, it ends or has the smaller character |
| OutputTree.PathLessExactly | src/executor.cpp:537-669 | one path comes before another exactly if, where they first differ, it ends or has the smaller name |
| OutputTree.ItemsIncrease | src/executor.cpp:537-669 | the walk meets paths in strictly increasing component-wise order |
| OutputTree.ItemIsThere | src/executor.cpp:523-675 | everything the walk meets is what its path leads to |
| OutputTree.NodeIsMet | src/executor.cpp:523-675 | every node is met under its path |
| OutputTree.TidiedKeepsPaths | src/executor.cpp:435-468 | sorting listings moves nothing to another path |
| Inspection.WalkDescribes | src/executor.cpp:523-675 | the fold over the walk succeeds exactly when every node is acceptable, and its entries, records and link map are those said without the walk |
| Inspection.HardLinksNameRegulars | src/executor.cpp:587-606 | a hard-link entry names an earlier regular entry of the same inode; there are no chains |
| Inspection.RepresentativesAreInodes | src/executor.cpp:587-620 | two files have the same representative exactly when they share an inode |
| Inspection.RegularsAreRetained | src/executor.cpp:615-620 | every regular entry has a retained record with its size and digest |
| Inspection.FirstRefusedDecides | src/executor.cpp:523-675 | the first node in the walk that is refused decides the error, whatever follows |
| Inspector.ReadSymlink | src/executor.cpp:470-489 | the doubling buffer returns exactly the targets shorter than 1 MiB |
| Inspector.DirectoryNames | src/executor.cpp:435-468 | the names of the listing, sorted, whatever order the stream gave |
| Inspector.Walk.InspectFile | src/executor.cpp:577-623 | one file is pushed as the fold says, as a hard link exactly if its inode is in the map |
| Inspector.Walk.InspectDirectory | src/executor.cpp:523-675 | the recursive walk over entries, records and link map leaves exactly the fold over the sorted tree, error code included |
| PackageArchive.InspectPayload | src/executor.cpp:677-701 | inspection succeeds exactly for a non-empty directory with nothing refused that the sealer takes; whatever the sealer keeps, each entry has the mode, owner, time, type and content of the node its path leads to; the errors are those of the first refused node, or the sealer's |
| PackageArchive.ManifestTells | src/executor.cpp:523-675 | every entry's mode, user, group and time are those of its node, or the epoch; its size, digest, target and device numbers too; a hard link leads to a file of the same inode |
| PackageArchive.AcceptedExactly | src/executor.cpp:523-675 | the walk accepts exactly the trees with acceptable paths, no unsupported node and no link target of 1 MiB or more |
| PackageArchive.FirstPathDecides | src/executor.cpp:523-675 | of the refused nodes the one whose path comes first decides the error: an unacceptable path, or else an unacceptable node |
| PackageArchive.HeadersTell | src/executor.cpp:1256-1314 | every header written for an entry has the mode, owner, time, type, size, link target and device numbers of the node its path leads to |
| PackageArchive.ChunksAreAll | src/executor.cpp:1171-1198 | the data calls of a file carry its bytes in order, in full buffers but for the last |
| PackageArchive.EntriesCoverTree | src/executor.cpp:523-675 | every non-root node has exactly one entry at its own path, in strictly increasing order |
| PackageArchive.OpenRegularBeneath | src/executor.cpp:1127-1156 | opening component by component reaches exactly what the path leads to, unless that is a symbolic link |
| PackageArchive.Archive.WriteRegularPayload | src/executor.cpp:1158-1209 | the file's bytes are written in order, exactly if stamp, size and digest still hold |
| PackageArchive.Archive.EncodeArtifact | src/executor.cpp:1211-1334 | the calls to the archive writer are the trace of the manifest over the tree, and fail exactly if some record no longer holds |
| PackageArchive.QuiescentHolds | src/executor.cpp:703-714 | if nothing changes, every regular entry's record is found and still holds |
| PackageArchive.InspectAndEncode | src/executor.cpp:1688-1692 | inspection then encoding of an unchanging tree fails only in inspection |
| Determinism.SameTreesAlign | src/executor.cpp:435-468 | trees equal up to inode numbers, times and listing order are brought into step by sorting |
| Determinism.ScansAgree | src/executor.cpp:408-420 | in step, with a source date epoch, two walks give the same entries |
| PackageArchive.PayloadIsDetermined | src/executor.cpp:1256-1319 | with a source date epoch such trees give the same manifest and the same sequence of header and data calls |
| Snapshot.SameStampIsStill | src/executor.cpp:174-223 | an inode with the same stamp at two instants did not change in between |
| Snapshot.Observer.ReadBetween | src/executor.cpp:491-521 | bytes read at many instants between two equal stamps are the inode's bytes at one |
| Snapshot.Observer.InspectRegular | src/executor.cpp:577-623 | a retained record is what its inode held at an instant of the inspection |
| Snapshot.OwnedIsFresh | src/executor.cpp:665-674 | if the directory's stamp did not change, its listing names nothing twice, so no two records have the same path |
| Snapshot.Observer.InspectDirectory | src/executor.cpp:523-675 | on success every record of the recursive walk was seen at an instant of it, and no two have the same path |
| Snapshot.Observer.WriteRegular | src/executor.cpp:1158-1209 | the bytes written are what the retained inode held at every instant from its inspection to the start of the call |
| Snapshot.Observer.EncodeAll | src/executor.cpp:1211-1334 | every regular inode held exactly the bytes written for it at every instant from the end of the inspection to the start of the encoding |
| Snapshot.Observer.InspectThenEncode | src/executor.cpp:1211-1334 | whatever else changes the tree at any instant: if both passes succeed, then at every instant from the end of the first to the start of the second all the regular inodes together held exactly the bytes written for them, of the manifest's sizes and digests |
| PathLayout.NormalizedOnce | src/model.cpp:19-34 | the normal form has ordinary names and at most one empty last component, and is its own normal form |
| PathLayout.NormalizedExactly | src/model.cpp:19-34 | a path is refused exactly if it is relative or names the root; otherwise its names are the reduced ones, with a trailing slash exactly if it was written with one or ended in a dot |
| PathLayout.DotsDropOut | src/model.cpp:19-34 | "." and empty components drop out wherever they stand |
| PathLayout.UpTakesBack | src/model.cpp:19-34 | an ordinary name and the ".." after it take each other back wherever they stand |
| PathLayout.UpFromRoot | src/model.cpp:19-34 | the root is its own parent |
| PathLayout.ContainsOrEquals | src/model.cpp:36-47 | the two-iterator loop decides the component prefix |
| PathLayout.OverlapsExactly | src/model.cpp:49-54 | the overlap check sees nested places exactly when no trailing slash hides what lies properly beneath it |
| PathLayout.SlashHides | src/model.cpp:36-54 | every root written with a trailing slash passes the check against everything beneath it |
| PathLayout.SlashHidesNesting | src/model.cpp:36-54 | for instance "/build/" and "/build/out" |
| Admission.AdmitInputs | src/model.cpp:165-209 | the nested loops with the consumed flags compute the matching of the specification, error code included |
| Admission.AdmittedExactly | src/model.cpp:165-209 | inputs are admitted exactly if there are as many as expected, each expected, each with a path that has a normal form, and no two alike in either identity |
| Admission.RefusedAs | src/model.cpp:165-209 | refused inputs are mismatched, unless some supplied path is at fault |
| Admission.OrderDoesNotMatter | src/model.cpp:165-199 | outcome and error code depend only on the multiset supplied |
| Admission.LeftOverExactly | src/model.cpp:195-199 | once every input has one resource, the final check fires exactly when the request repeats an input; with distinct inputs never |
| Admission.AdmittedIsPermutation | src/model.cpp:175-194 | what is admitted is in request order, a permutation of what was supplied, each path in normal form |
| AdmittedSession.DomainsSeparate | src/executor.cpp:131-144 | hashes of different domains differ whatever the material, by the zero byte between |
| AdmittedSession.RequireUnique | src/executor.cpp:1409-1420 | the set insertions decide distinctness |
| AdmittedSession.AliasExactly | src/executor.cpp:1493-1543 | the alias check fires exactly when an input resource equals one of the four hashes that the adapter derives for itself, given by their texts |
| AdmittedSession.ApartExactly | src/model.cpp:222-255 | the rows of checks keep every two of the roots, the inputs and the artifact apart, and the source objects from the mutable roots and the artifact |
| AdmittedSession.AdmitLayout | src/model.cpp:211-267 | once the four paths have normal forms: a trailing slash of the artifact is an invalid session, any clash an unsafe layout, and every other layout is admitted |
| AdmittedSession.AdmitPaths | src/model.cpp:124-267 | from the paths as they are given: source objects, package inputs and the four places are normalized and checked in the source's order, the first failure deciding |
| AdmittedSession.AdmittedIsNormal | src/model.cpp:18-32 | every admitted session has normal paths throughout, two real roots and an artifact path without a trailing slash, and is apart as far as the check sees |
| AdmittedSession.ProtectedNestExactly | src/model.cpp:222-267 | in an admitted layout a protected place is nested with a mutable root exactly when a trailing slash hid it |
| AdmittedSession.PublicIsSealedExactly | src/executor.cpp:1487-1491 | in an admitted layout the artifact path is the private sealed name or beneath it exactly if the session root has a trailing slash and the artifact path begins with that name; it is never above it |
| AdmittedSession.ArtifactCanBeAtSealed | src/model.cpp:236-255 | layouts of both kinds are admitted: the private name itself, and anything beneath it |
| Preparation.HostTree.MakeTreeRemovable | src/executor.cpp:243-288 | on success every directory of the tree has its owner's permissions and what it had before; nothing else changes, wherever it stops |
| Preparation.HostTree.ResetDirectory | src/executor.cpp:290-310 | wherever it stops, only the root and missing directories above it change; it succeeds only where nothing but directories is above the root, undisturbed exactly there, and then leaves exactly the tree with an empty directory at the root |
| Preparation.HostTree.PrepareWritableDirectory | src/executor.cpp:312-329 | the same, with the mode and owner asked for |
| Preparation.HostTree.PrepareWritableChild | src/executor.cpp:331-348 | succeeds only for a free place in an existing directory, undisturbed exactly there |
| HostState.PreparedIsReady | src/executor.cpp:1562-1583 | with disjoint roots the prepared tree has the session root, workspace and home as asked for and empty temporary and output roots: no step undoes another |
| HostState.OutputNotAbove | src/executor.cpp:1573-1578 | an output root at or above the session root takes the workspace away, so its home cannot be made |
| HostState.RootsForgotten | src/executor.cpp:1562-1583 | what ends in the two roots does not depend on what was there: any two hosts end alike |
| HostState.StoppedForgets | src/executor.cpp:290-310 | a reset that something above its root stops has deleted its tree all the same |
| HostState.DirectoryForgotten | src/executor.cpp:1557-1583 | a directory in one of the two roots makes no difference there to what an undisturbed run leaves, whether the run succeeds or is stopped |
| HostState.LeftSpares | src/executor.cpp:1557-1583 | what an undisturbed run leaves, stopped or not, is the old host outside the two roots but for new directories above them |
| HostState.SessionHolds | src/executor.cpp:1477-1485 | after success there is nothing beneath the session root but its sources, its workspace, its temporary root and the output root |
| Preparation.HostTree.Prepare | src/executor.cpp:1557-1615 | wherever it stops, nothing outside the session and output roots changed but for new directories above them; undisturbed it leaves exactly the specified tree and succeeds exactly if nothing is in its way; after success the session root holds its sources, workspace, temporary root and nothing else but the way to the output root |
| Preparation.HostTree.PrepareSession | src/model.cpp:222-267 | preparing an admitted session leaves every node at or beneath each protected place the check could see unchanged, wherever it stops; and on success everything in the two roots is as an empty host would have it |
| Preparation.ProtectedSpared | src/model.cpp:222-267 | component-prefix disjointness is inherited by everything beneath |
| Preparation.SparedExactlyIfSeen | src/model.cpp:222-267 | an undisturbed preparation, successful or not, leaves a protected place as it was on every host if and only if no trailing slash hid it from the overlap check |
| Preparation.RootViewIsDeleted | src/executor.cpp:1557-1562 | an admitted session root with a trailing slash above the root view: on every host preparation succeeds and deletes the whole view |
| Preparation.RootViewIsDeletedInVain | src/executor.cpp:1573-1580 | an admitted output root with a trailing slash above session root and root view: preparation succeeds on no host, and deletes the whole view before it fails |
| Preparation.RootViewIsOverwritten | src/executor.cpp:1557-1562 | an admitted root view with a trailing slash above the session root: preparation succeeds wherever the view is a directory, and replaces what the view held there |

## Left out

- libarchive, OpenSSL and the tar and pax formats: archives are sequences of items, archive output is a sequence of calls, digests are a function.
- `ftruncate` of the temporary file before encoding, which is empty then; the image library's verdict and the second inspection of the payload are parameters of `PrivateSealing`.
- The extractor's `fchmod`, `futimens`, `fsync` and `close` are taken to work, and libarchive's own status codes are parameters of the items; the permission bits of directories are modelled, other causes of a refused call are not.
- Interrupted calls that are repeated (`EINTR`), the process umask, file ownership beyond the prepared directories, and read permission on artifacts.
- Loss of power: a process may die between any two calls, and the file system survives.
- `create_directories` of the artifact's parent appears only as a call that may fail. Directories are not nodes of the disk of `ArtifactDisk`: they are what lies above a name, and a fixed set besides. A call on one is refused where the source goes on to refuse it, with the same error and the same disk. No directory above a name is reached through a symbolic link.
- Physical resolution through chains of symbolic links: `SymlinkCheck.LexicalIsPhysical` speaks of directories only, as the source checks text only.
- The numbers of the payload entry types are taken in the order of the source's switch, with the block device last; the numbers of the tar encoding and of the last compression are parameters.
- A payload entry is a datatype with the fields of its type, so the encoder's refusals of a missing digest, target or device number do not arise.
- `payload_path::parse` and the other parsers of library texts are acceptance predicates; a refusal is a foreign exception, which the callers report as the source does.
- Snapshot.Observer.InspectThenEncode: names are taken in the order read, not sorted; nodes other than regular files are stamped but give no entries; the second inspection that `execute_sealed` makes afterwards is not needed for the statement.
- PackageArchive.PayloadIsDetermined: reads of a regular file fill the buffer, and the archive writer takes each buffer whole.
- Inspector.Walk.InspectFile: the stamps around the read are not compared, because nothing changes in this model; `Snapshot` has them.
- Inspector.Walk.InspectDirectory: the stamps before and after each entry are not compared, for the same reason.
- PackageArchive.Archive.EncodeArtifact: the root's stamp is not compared before and after, for the same reason.
- Snapshot.Observer.InspectRegular: a second name of an inode is checked and gives no entry there; `Inspection` has hard-link entries.
- Snapshot.Observer.InspectDirectory: only regular files give entries and names are not sorted; `Inspection` has all seven types in sorted order.
- PublisherRace.EveryRun: no call fails there; runs with faults are those of one publisher at a time.
- Preparation.HostTree.PrepareSession: no ancestor of a named place is a symbolic link, the source library writes beneath its own root only, and unpacked archives only add nodes beneath the workspace, as `Sealing.UnpackMeans` has it.
- Admission of source objects by name and digest, credentials, output layout and compression: membership tests and numeric bounds without a hard property.
- The execution backend, environment, resource limits, and the derivation of the three evidence identities beyond being functions of the execution's identity.
- Error texts, `to_string` tables, accessors, build scripts and manual pages.
