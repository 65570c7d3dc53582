# A verified model of the source controller

The controller turns OCI images and Maven artifacts into tarballs that it serves over HTTP. What makes
it correct is that four pieces of state agree: the published files, the cache records on the volume, the
status of each object, and the remote source. This project models the code that moves these four and
proves how they agree, over every input and every run.

The parts, each a module in a file of its name:

| module | what it is |
|---|---|
| Strings, Paths | Go strings; Clean, Join, Base and Rel; file-name sanitizing; the containment test for archive entries |
| Trees, Archive, ArchiveMeaning | a zip unpacked into a directory and packed as a tar, and what that preserves |
| Extraction, Packaging | exactly which zips are unpacked and to what; exactly what is packed for a download |
| Volume, Publish | the served volume with names and inodes; publishing a tarball one file operation at a time |
| ObjectStatus, Remote, Sync | the status and its conditions; the outside world; what both kinds of sync share |
| MavenSync, VersionSync, Resolver, Metadata, Admission | a Maven reconcile, from admission over secrets, version and URL to cache and download |
| ImageSync | an image reconcile: its sub-reconcilers, stash and conditions |
| Resolutions, MavenOutcome, ImageOutcome | what the resolver asks and answers, and what a reconcile ends in, written out for every case |
| Cluster, ClusterTheorems | all objects over one volume: interleaved single operations, I/O errors, crashes, wipes, deletion; safety over all runs |
| MavenCache, MavenStatus, Departures | what the cache does to whole histories; when the status names what is served; where the code departs from an expected property, and exactly when |
| Reproducible | what is packed does not depend on when and where, so a status stays as it is when the same is fetched again |
| Redirect | the redirect policy and the client that consults it |

How the forms fit together. Code that works step by step is a class or a method with a loop
(`Workspace`, `TarWriter`, `ServedVolume`, `MavenArtifact`, `ImageRepository`, `MavenResolver`,
`MavenArtifactSpec`, the snapshot and redirect loops). Each such method is proved equal to a function, and
the theorems are about the functions. A sync is a plan: it ends at once, or it carries a job, which is the
list of file operations that publish one tarball. `Exec` runs a job to its end or to its first I/O error;
`Cluster.Next` runs one operation of one object at a time. `SyncIsARun` says that the outcome proved of the
sync methods is that of an uninterrupted run, so what holds in every run holds of them.

Assumptions. SHA-1, zip, gzip, reference parsing and the registry are functions without known insides
(`World`); SHA-1 values have 40 hex digits, and no theorem needs SHA-1 to be injective. In runs, Stat of a file
just opened succeeds, artifact URLs contain no `|`, a successful pull yields the content of its image, and a
placeholder that cannot be created does no harm (`Admissible`; `World.pulls` says what the content of an image
is). That the last condition, `CreateSafe`, is exact for one sync is shown in `Departures`; `TarComplete` covers
Stats that fail, and `ParsesTo` what any record stands for, bars or not. One worker serves an object at a time and a reconcile starts with a fresh stash. Ready is
True exactly when both dependent conditions are.

What turned out different from what one might expect of the code:

- An archive entry such as `../extracted-artifact/x` leaves the destination and comes back, and is accepted.
  The tar therefore holds the files under the names relative to the destination; these are the cleaned entry
  names exactly when no file entry climbs (`KeyIsCleanName`, `MeaningByCleanName`, `ReentryExtracts`).
- An entry that climbs two levels is accepted or not depending on the name of the temporary directory
  (`ClimbingTwiceDepends`). Without such entries the tarball is the same wherever and whenever it is packed
  (`PackIsReproducible`).
- If the destination were `/` or `.`, the containment test would accept only entries that denote the destination
  itself (`SafePathExactDestinations`, `RootDestinationsRejectAll`).
- A file entry of a zip needs a directory entry before it unless it lies at the top; a zip without entries for its
  directories is refused (`ExtractionExactly`).
- A file whose Stat fails is left out of the tarball without an error; a tarball that is made at all is complete
  exactly when no Stat failed (`TarComplete`).
- Images are served under the part of their digest after the colon, so digests of two algorithms could share a
  name; within one algorithm none do (`DigestsKeepApart`).
- A failed create of the placeholder is reported as success. A Maven sync then leaves a record that is backed
  only if the tarball was there before (`MavenCreateFailure`); an image sync publishes a left-over placeholder
  (`ImageCreateFailure`).
- A Maven hit changes neither status nor conditions: after versions A, B, A the status names B
  (`StatusStaysBehind`), and ArtifactAvailable stays False if it was (`StatusAfterSync`). So a Maven artifact,
  unlike an image, can be Ready while the tarball that its status names is gone: B is synced, the volume is wiped,
  a sync of A writes its record but loses its status update, and the next one hits (`StatusNamesMissing`,
  `StatusTarballIsServed`).
- While an object is being deleted, a record can outlive its tarball (`FinalizationAndRecords`); the theorem
  about records is for objects that are not being deleted.
- A download URL does not always determine classifier and type: classifier x with type tar.gz and classifier
  x.tar with type gz share one (`DottedTypesCollide`). The URL of an artifact is its own exactly when it has no
  classifier, or neither its type nor its classifier after the first character has a dot (`UrlIsUnique`).
- The comment on `MavenArtifactType.Version` calls LATEST and SNAPSHOT unsupported; the resolver supports them,
  and the model follows the resolver.

## Model

| member | source | states |
|---|---|---|
| Strings.LessIsByteOrder | controllers/imagerepository_controller.go:119-123 | names are ordered byte by byte, a proper prefix first |
| Paths.SanitizeFilename | controllers/internal.go:21-26 | accepts exactly the plain one-segment names, and `/` |
| Paths.SafePathIsSegmentPrefix | controllers/mavenartifact_controller.go:725-734 | for a clean destination other than `/` and `.`, an entry is accepted iff it is not absolute and the cleaned join extends the destination segment by segment |
| Paths.SafePathExactDestinations | controllers/mavenartifact_controller.go:725-734 | those two destinations are the only clean ones for which the string test and the segment test differ |
| Paths.RootDestinationsRejectAll | controllers/mavenartifact_controller.go:725-734 | with either of them, an entry is accepted iff it is relative and joins to the destination itself |
| Paths.CleanDropsDot | controllers/imagerepository_controller.go:224 | cleaning drops empty pieces and dots |
| Paths.CleanDropsPair | controllers/imagerepository_controller.go:224 | cleaning drops a name and the ".." after it |
| Paths.CleanDropsRootParent | controllers/imagerepository_controller.go:224 | cleaning drops a ".." at the root |
| Paths.CleanKeeps | controllers/imagerepository_controller.go:224 | cleaning keeps a path to which none of these rules applies |
| Paths.RelRoundTrip | controllers/imagerepository_controller.go:364-369 | joining the relative name to the base gives back the cleaned target, for every pair for which Rel succeeds, the empty base included |
| Paths.JoinPath4CleansOnce | controllers/mavenartifact_controller.go:273-278 | joining four elements one after the other is joining those that are not empty and cleaning once, for all elements |
| Sync.DirOfIsJoined | controllers/mavenartifact_controller.go:273-278 | the joined object directory is the served directory followed by kind, namespace and name |
| Sync.ServedDirsDisjoint | controllers/imagerepository_controller.go:197-202 | no path lies in the directories of two different objects |
| Sync.ServedFileIsJoined | controllers/imagerepository_controller.go:221-224 | the joined path of a served file is the object's directory followed by the file name |
| MavenSync.HttpPathIsServedPath | controllers/mavenartifact_controller.go:447-448 | the status path of a Maven artifact is the path of its tarball in the served directory |
| ImageSync.HttpPathIsServedPath | controllers/imagerepository_controller.go:221-222 | the status path of an image is the path of its tarball in the served directory |
| MavenSync.CacheFileIsRecordPath | controllers/mavenartifact_controller.go:340 | the formatted cache file name is a file in the object's own directory |
| Trees.WalkVisits | controllers/imagerepository_controller.go:346-352 | the walk visits exactly the regular files at or below its start |
| Trees.WalkIncreases | controllers/imagerepository_controller.go:346-352 | in strictly increasing order, component by component, so each file once |
| Archive.Workspace.ExtractFile | controllers/mavenartifact_controller.go:736-759 | the tree and the success after one entry, with partial writes, kept modes and reset times |
| Archive.Workspace.ExtractArchive | controllers/mavenartifact_controller.go:695-718 | the tree and the success after the whole loop, which stops at the first error |
| Archive.TarWriter.AddFiles | controllers/imagerepository_controller.go:346-387 | appends one entry for each file of the walk, in its order, under its relative name; skips a file whose Stat fails and stops at one that cannot be opened |
| Archive.TarWriter.CreateTar | controllers/imagerepository_controller.go:333-388 | writes the entries of the directory and nothing else, and fails when a file cannot be opened |
| Archive.TarComplete | controllers/imagerepository_controller.go:354-363 | packing fails iff some file cannot be opened; otherwise the tar holds all files iff no Stat fails |
| Archive.TarSkips | controllers/imagerepository_controller.go:360-363 | a Stat that fails drops the entry of that file, and neither another entry nor the order |
| ArchiveMeaning.ExtractEntryContained | controllers/mavenartifact_controller.go:736-759 | one entry, accepted or not, complete or broken off, changes no path outside the destination |
| ArchiveMeaning.ExtractContained | controllers/mavenartifact_controller.go:708-717 | so does the whole loop, also when it stops early |
| ArchiveMeaning.ExtractNames | controllers/mavenartifact_controller.go:708-717 | the files under the destination are those of the zip, the last entry of a name winning, directories dropped |
| ArchiveMeaning.TarEntriesNames | controllers/imagerepository_controller.go:346-387 | the tar maps relative names to bytes exactly as the tree does |
| ArchiveMeaning.ArchiveMeaningPreserved | controllers/mavenartifact_controller.go:695-759 | if extraction succeeds, the tar of the result means what the zip means |
| ArchiveMeaning.KeyIsCleanName | controllers/mavenartifact_controller.go:725-734 | an accepted entry is found under its cleaned name iff that name does not climb |
| ArchiveMeaning.ReentryIsAccepted | controllers/mavenartifact_controller.go:725-734 | an entry that climbs out and comes back is accepted under a name that is not its cleaned name |
| ArchiveMeaning.ReentryExtracts | controllers/mavenartifact_controller.go:695-759 | a zip with such an entry alone extracts in any working directory, to a tar that is not the zip keyed by cleaned names |
| ArchiveMeaning.MeaningByCleanName | controllers/mavenartifact_controller.go:695-759 | the tar is the zip keyed by cleaned names iff no file entry climbs |
| ArchiveMeaning.TarCanonical | controllers/imagerepository_controller.go:346-387 | the tar depends only on names, bytes, modes and times of the files, wherever the directory is and however it came about |
| ArchiveMeaning.TarNamesGiveBackFiles | controllers/imagerepository_controller.go:364-369 | joining an entry's name to the directory gives back the file it was made from |
| Extraction.EntryStep | controllers/mavenartifact_controller.go:736-759 | one entry succeeds iff it fits what the entries before it made, and then its directory with all above it, or its file, is there |
| Extraction.ExtractionExactly | controllers/mavenartifact_controller.go:695-759 | extraction succeeds iff the zip opens, every name is accepted, every file can be read and lies at the top or in a directory that an earlier entry makes, and no file is at or above a directory; then the destination holds exactly the directories and files of the entries, each file with the data of the last entry at its place, the mode of the first and the reset time |
| Remote.PlainPackContents | controllers/mavenartifact_controller.go:415-439 | a file that is no archive is served as a tar holding just that file under its name |
| Packaging.ArchiveOutcome | controllers/mavenartifact_controller.go:415-439 | a download that begins with the signature of a zip is refused iff it does not open or cannot be unpacked; otherwise, with no read error, the tarball lists the files of its entries in order |
| Packaging.PlainOutcome | controllers/mavenartifact_controller.go:415-439 | any other download is packed as one file under its name, with mode 0666 and the reset time |
| Remote.PackWithoutStatFaults | controllers/mavenartifact_controller.go:415-439 | files that cannot be opened can make packing fail, but never change the tarball |
| Reproducible.PackIsReproducible | controllers/mavenartifact_controller.go:408-439 | a download is packed to the same bytes in any two temporary directories and at any two times, if no entry of the zip climbs two levels |
| Reproducible.ClimbingTwiceDepends | controllers/mavenartifact_controller.go:725-734 | an entry that climbs two levels is accepted in one temporary directory and rejected in another |
| Reproducible.RefetchKeepsStatus | controllers/mavenartifact_controller.go:408-473 | fetching again what the status describes, elsewhere and later, publishes the same bytes and record and leaves the status as it is, its time included; without local errors it does get that far |
| Volume.NamesNeverCollide | controllers/mavenartifact_controller.go:340-413 | tarballs, placeholders and cache records never share a name |
| Volume.JobStep | controllers/mavenartifact_controller.go:450-462 | each file operation keeps the job's invariant, touches only its own paths, and changes the published name only by putting the complete tarball there |
| Volume.SealedKept | controllers/mavenartifact_controller.go:670-693 | no operation writes to an inode that is or was published |
| Publish.ServedVolume.CopyInto | controllers/imagerepository_controller.go:417-419 | the copy loop performs the write steps of the job, up to its end or an I/O error |
| Publish.ServedVolume.CopyFile | controllers/imagerepository_controller.go:403-421 | performs the steps of the job up to the rename, a failed create counting as success |
| Publish.ServedVolume.CopyCompressedFile | controllers/mavenartifact_controller.go:670-693 | performs the steps of the job including the rename, a failed create counting as success with nothing renamed |
| ObjectStatus.LastUpdateTime | controllers/imagerepository_controller.go:317-331 | after any updates of any status it shows the last artifact, with the time of the first of the final stretch that equals it in all other fields, where the artifact it started from can be that first |
| MavenSync.RecordRoundTrip | controllers/mavenartifact_controller.go:77-79 | a record parses back as written iff its source has no bar; otherwise the parsed source differs, so the record is never a hit for its own URL |
| MavenSync.ParsesTo | controllers/mavenartifact_controller.go:771-774 | a record parses to a source and a checksum iff both have no bar and it is the two with a bar between, at its end or before another bar |
| MavenSync.ParsePanics | controllers/mavenartifact_controller.go:771-774 | the unguarded index panics on exactly the contents without a bar |
| MavenSync.MavenArtifact.Package | controllers/mavenartifact_controller.go:415-439 | the tarball of the downloaded file, unpacked first if it is an archive |
| MavenSync.MavenArtifact.MarkDownloadError | controllers/mavenartifact_controller.go:308-338 | 429 and 5xx are returned for retry with conditions kept, every other failure marks ArtifactAvailable False |
| MavenSync.MavenArtifact.Install | controllers/mavenartifact_controller.go:450-462 | publishes the tarball and then writes the record, or stops at the first I/O error |
| MavenSync.MavenArtifact.FetchAndPublish | controllers/mavenartifact_controller.go:357-475 | volume, status, conditions and error after the part of the sync that follows a miss, including failures to make the temporary directory, to hash and to pack |
| MavenSync.MavenArtifact.DownloadSync | controllers/mavenartifact_controller.go:279-475 | volume, status, conditions and error of the whole sync, for every answer, cache content, cache read error, local error and I/O error |
| MavenOutcome.EndsAtOnce | controllers/mavenartifact_controller.go:301-440 | a download sync errs iff a download answers 429 or 500 and above, a local error occurs or the record is broken, and then keeps the conditions; it ends without error and without reaching the volume iff a download fails otherwise, the checksum is wrong or the archive is refused, and then ArtifactAvailable is False and the other condition as before |
| MavenOutcome.HitsExactly | controllers/mavenartifact_controller.go:340-355 | the sync is a hit iff the record holds the resolved URL and the remote checksum and the status has an artifact |
| MavenOutcome.FetchInstalls | controllers/mavenartifact_controller.go:408-473 | what a fetch publishes, records and puts into status and conditions, written out: file, record, URL at the host, path, file name, checksum, and the time, which is kept if nothing else changed |
| MavenOutcome.SyncVerdict | controllers/mavenartifact_controller.go:279-475 | a sync that errs, I/O errors included, changes neither status nor conditions; one that does not has refused, held or installed the artifact |
| MavenOutcome.UrlWritten | controllers/mavenartifact_controller.go:447-448 | at a plain host the URL is host, slash, path |
| VersionSync.SecretsSync | controllers/mavenartifact_controller.go:130-163 | condition, stashed secret, HTTP client with its certificates, and error, for every answer of the API server |
| VersionSync.ClientTrusts | controllers/mavenartifact_controller.go:146-161 | a client trusts the configured certificates in their order and at most one more, there iff the secret has data, which is its CA file; there is no client iff an error is returned or the secret is missing |
| MavenOutcome.SecretsVerdict | controllers/mavenartifact_controller.go:130-163 | conditions, error, client and secret of the secrets sync, written out |
| VersionSync.VersionSync | controllers/mavenartifact_controller.go:178-266 | condition, stash and error of the version sync |
| VersionSync.StashedDetails | controllers/mavenartifact_controller.go:209-264 | details are stashed only with the condition True, with a plain file name and the URL built from it; no details and no error means the condition is False |
| MavenOutcome.VersionVerdict | controllers/mavenartifact_controller.go:178-266 | the version sync errs iff metadata are refused with 429 or 500 and above, keeping the conditions; otherwise its condition is True iff the version resolves, and the details are those resolved |
| VersionSync.Reconcile | controllers/mavenartifact_controller.go:86-100 | secrets, version and download sync in sequence, stopped by an error; what each stashes meets what the next relies on |
| VersionSync.UnresolvedTouchesNothing | controllers/mavenartifact_controller.go:130-301 | a reconcile without details or without its secret changes neither volume nor status and marks the version unresolved |
| MavenOutcome.ReconcileVerdict | controllers/mavenartifact_controller.go:86-100 | a reconcile that errs changes neither the status nor ArtifactAvailable; one that does not says what it found of the version and of the artifact |
| ImageSync.ImageRepository.PullSecretsSync | controllers/imagerepository_controller.go:95-139 | the first missing or failing secret decides; otherwise all secrets are stashed in order |
| ImageSync.ImageRepository.GetPullSecrets | controllers/imagerepository_controller.go:122-134 | the loop that fills the slice finds what looking the names up in order finds, ended by the first that is missing or fails |
| ImageOutcome.NamesOfSecrets | controllers/imagerepository_controller.go:98-123 | the secrets looked up are those of the repository and of its service account, each once, in byte order |
| ImageOutcome.LookupExactly | controllers/imagerepository_controller.go:122-134 | the first name that is not found decides between missing and error; if all are found, all secrets are returned in order |
| ImageOutcome.SecretsVerdict | controllers/imagerepository_controller.go:95-139 | conditions, stash and error of the pull secrets sync, written out |
| ImageSync.ImageRepository.DigestSync | controllers/imagerepository_controller.go:155-190 | conditions and stash after resolving the image to a digest |
| ImageOutcome.DigestVerdict | controllers/imagerepository_controller.go:155-190 | conditions, stash and error of resolving the image, written out |
| ImageSync.ImageRepository.PullImageSync | controllers/imagerepository_controller.go:203-304 | volume, status, conditions and error of the pull, for every stash, status, pulled tree, local error and I/O error; the status is never dereferenced without an artifact |
| ImageOutcome.PullVerdict | controllers/imagerepository_controller.go:206-303 | the pull in every case, written out: when it is skipped, when it errs, when the image is not resolved, and what is published and put into status and conditions |
| ImageSync.ImageRepository.PackAndPublish | controllers/imagerepository_controller.go:271-301 | the same from the pulled directory on: packed, hashed, published and described, or stopped by an error |
| ImageSync.PulledTarball | controllers/imagerepository_controller.go:263-274 | the tarball of a pulled image is the packed pulled directory and holds exactly its files |
| ImageSync.ImageRepository.Reconcile | controllers/imagerepository_controller.go:58-73 | the whole sequence from fresh conditions and stash, stopped by an error |
| ImageOutcome.ReconcileVerdict | controllers/imagerepository_controller.go:58-73 | a reconcile that errs changes no status and is not Ready; one that ends without error but not Ready does not say that the image is resolved |
| ImageOutcome.ReadyVerdict | controllers/imagerepository_controller.go:58-73 | one that ends Ready has found the tarball of the resolved digest under the status, or has pulled and installed it |
| ImageSync.DigestHexOf | controllers/imagerepository_controller.go:216-217 | the part of alg:hex that names the tarball is hex |
| ImageSync.DigestsKeepApart | controllers/imagerepository_controller.go:216-217 | two digests of one algorithm share a tarball name only if they are equal |
| ImageSync.ImageUrlsKeepApart | controllers/imagerepository_controller.go:221-222 | and so with their URLs at one host |
| ImageSync.FalseIsFinal | controllers/imagerepository_controller.go:98-269 | once ImageResolved is False no later sub-reconciler turns it True, because the failing one left a stash key unset |
| ImageSync.ReadyPlan | controllers/imagerepository_controller.go:206-303 | a reconcile can only become Ready through the tarball of the digest it resolved itself, found under the status URL or pulled and described by the new status |
| Cluster.HitIsBacked | controllers/mavenartifact_controller.go:341-351 | what a readable record names is on the volume |
| Cluster.MavenFlight | controllers/mavenartifact_controller.go:279-475 | every Maven sync starts with the in-flight invariant |
| Cluster.ImageFlight | controllers/imagerepository_controller.go:203-304 | every image sync starts with the in-flight invariant, and one that ends at once is not Ready |
| Cluster.OwnStep | controllers/mavenartifact_controller.go:450-462 | each operation of a sync keeps the object's tarballs complete and its records backed |
| ClusterTheorems.NextKeepsInv | controllers/mavenartifact_controller.go:270-477 | every action of the cluster keeps the invariant of all objects |
| ClusterTheorems.RunKeepsInv | controllers/mavenartifact_controller.go:270-477 | so does every run, with I/O errors, harmless failures to create a placeholder, crashes, wipes and deletions anywhere |
| ClusterTheorems.StatusIsConsistent | controllers/imagerepository_controller.go:224 | in every reachable state a status URL comes with an artifact of the same URL, so the skip test never dereferences a missing one |
| ClusterTheorems.RecordsAreBacked | controllers/mavenartifact_controller.go:340-351 | in every reachable state each record of an object that is not being deleted parses to a source and the SHA-1 of some bytes, and the complete tarball of that hash stands beside it |
| ClusterTheorems.PublicationIsAtomic | controllers/imagerepository_controller.go:283-290 | in every reachable state a published name holds a complete tarball; it stays, or a step of its own object's sync replaces it by a complete one, or it goes by finalization of that object or by a wipe, and by nothing else |
| ClusterTheorems.ReadersSeeWholeFiles | controllers/imagerepository_controller.go:283-290 | a reader that has opened a published tarball reads the same complete bytes to the end, whatever happens meanwhile |
| ClusterTheorems.ObjectsAreIsolated | controllers/mavenartifact_controller.go:273-278 | any interleaving of actions of other objects leaves an object's files, cache and status unchanged |
| ClusterTheorems.FinalizationRemovesOwnSubtree | controllers/imagerepository_controller.go:197-202 | removing the files in any order and then the directory leaves nothing of the object and everything of the others |
| ClusterTheorems.ReadyImageIsServed | controllers/imagerepository_controller.go:203-304 | from the start of an image reconcile, over any actions of any objects, to its end: if it ends Ready, hex.tar.gz for the resolved digest alg:hex is on the volume and holds the content of an image served under that name, of the very digest if all digests are of one algorithm; both status URLs lead to it at the input's host; and the status gives the checksum of the bytes served if the sync put them there, which it does unless the placeholder cannot be created; one that ends at its start is not Ready |
| ClusterTheorems.FlightCarriesResolvedDigest | controllers/imagerepository_controller.go:206-222 | throughout its run, over any actions that do not end it, an image sync is for the tarball named after the digest resolved from its input, with a status whose URLs lead to it at the input's host |
| ClusterTheorems.OnlyFinishIsReady | controllers/imagerepository_controller.go:203-304 | no image reconcile ends Ready except by a sync that ran to its status update |
| ClusterTheorems.FinishedMavenIsServed | controllers/mavenartifact_controller.go:441-473 | a Maven sync that finishes without a hit leaves a complete tarball of its hash and a status with its URL, path, checksum and file name; the bytes are its own unless the placeholder could not be created |
| ClusterTheorems.ServedTarballMeaning | controllers/mavenartifact_controller.go:408-439 | in every reachable state the tarball served under a hash holds the files of a zip with that hash, or the one file with that hash |
| ClusterTheorems.SyncIsARun | controllers/mavenartifact_controller.go:450-474 | the outcome proved of the sync methods is that of an uninterrupted run of single operations |
| MavenCache.CacheIsTransparent | controllers/mavenartifact_controller.go:347-355 | in histories whose fetches succeed, with I/O errors, crashes, lost status updates, wipes and re-creations anywhere, the published tarballs are those of a sync without the skip test |
| MavenCache.StatusAfterSync | controllers/mavenartifact_controller.go:347-355 | a sync without error names the resolved tarball iff it was no hit or the status named it already, and likewise for ArtifactAvailable |
| MavenCache.StatusStaysBehind | controllers/mavenartifact_controller.go:347-351 | after versions A, B and A, with different files, the status has the URL of B, which is not that of A at any hosts |
| MavenStatus.StatusTarballIsServed | controllers/mavenartifact_controller.go:347-355 | after a sync without error the tarball that the status names is on the volume iff the sync was no hit or that tarball was there when it began |
| MavenStatus.StatusNamesMissing | controllers/mavenartifact_controller.go:347-351 | after a sync of B, a wipe, a sync of A whose status update is lost, and a sync of A, the status names the tarball of B, which is not on the volume, and no condition has turned False |
| Departures.MavenCreateFailure | controllers/mavenartifact_controller.go:680-683 | after a failed create the record is backed iff the tarball was published before, which is what runs assume of failing creates |
| Departures.ImageCreateFailure | controllers/imagerepository_controller.go:412-415 | after a failed create an image sync publishes a left-over placeholder, and is safe iff there is none, or it is complete or the same as what is published, which is what runs assume of failing creates |
| Departures.FinalizationAndRecords | controllers/mavenartifact_controller.go:273-278 | removing one file of a deleted object keeps the remaining records backed iff none of them names it |
| Metadata.SnapshotResolvedVersion | pkg/mavenmetadata/mavenmetadata.go:83-98 | the last-match loop yields base, timestamp and build if some entry has that value and the extension, else the metadata version |
| Metadata.ReplaceFirstAt | pkg/mavenmetadata/mavenmetadata.go:88-89 | replacing once replaces the first occurrence, and nothing if there is none |
| Metadata.ResolvedSnapshotOf | pkg/mavenmetadata/mavenmetadata.go:83-98 | for base-SNAPSHOT, an entry of the file type with value base-timestamp-build makes that the result; without one it is the metadata version |
| Metadata.ResolvedSnapshotInGeneral | pkg/mavenmetadata/mavenmetadata.go:83-98 | the same for any metadata version, without its first -SNAPSHOT |
| Metadata.SnapshotOrderIrrelevant | pkg/mavenmetadata/mavenmetadata.go:87-92 | reordering or repeating entries changes nothing |
| Resolver.MavenResolver.Resolve | controllers/internal.go:60-78 | fields and error after Resolve, whether it succeeds or fails, for every version and metadata answer |
| Resolver.MavenResolver.ProcessFixedVersion | controllers/internal.go:80-99 | fields and error for a pinned version, also with a bad file name |
| Resolver.MavenResolver.ProcessLatestVersion | controllers/internal.go:101-149 | fields and error for LATEST, going on as a snapshot if it is one, which on an error keeps the version it was set to |
| Resolver.MavenResolver.ProcessSnapshotVersion | controllers/internal.go:151-184 | fields and error for a snapshot in every case, the URL keeping the version asked for |
| Resolver.MavenResolver.ProcessReleaseVersion | controllers/internal.go:186-221 | fields and error for RELEASE in every case |
| Resolver.FieldsAfterError | controllers/internal.go:60-221 | a failed Resolve leaves its fields as they were unless the file name is bad, except for the version when LATEST is a snapshot without metadata |
| Resolutions.FieldsExactly | controllers/internal.go:60-221 | the fields after Resolve in every case, written out |
| Resolutions.RangeIsRefused | controllers/internal.go:60-63 | a version is refused as a range iff it begins with a bracket |
| Resolutions.PinnedResolution | controllers/internal.go:80-99 | name and URL of a pinned version, written out |
| Resolutions.SnapshotResolution | controllers/internal.go:151-184 | which metadata a snapshot is looked up in, and its name and URL, written out |
| Resolutions.LatestResolution | controllers/internal.go:101-149 | the same for LATEST, also if it is a snapshot |
| Resolutions.ReleaseResolution | controllers/internal.go:186-221 | the same for RELEASE |
| Resolutions.RequestPathOf | controllers/mavenartifact_controller.go:192 | the request path is the parts of the group and the artifact, with slashes between |
| Resolver.ResolvedShape | controllers/internal.go:60-221 | every success has a plain file name and the URL repository, request path, final version, file name |
| Resolver.LatestIsDirect | controllers/internal.go:101-149 | LATEST resolves as the version it stands for, iff that is no range and no RELEASE standing for another version |
| Resolver.ReleaseIsDirect | controllers/internal.go:186-221 | RELEASE resolves as the version it stands for when that is no range, no LATEST for another version and no snapshot resolving further, and among successes only then |
| Resolver.UrlsInjective | controllers/mavenartifact_controller.go:192 | equal pinned URLs in one repository mean equal group, artifact, version and file name, and the same artifact when neither type has a dot |
| Resolver.SharedUrl | controllers/internal.go:84-92 | two artifacts share a pinned URL iff they are the same, or one is the other with classifier and type split at another dot |
| Resolver.UrlIsUnique | controllers/internal.go:84-92 | no other artifact has the pinned URL iff there is no classifier, or neither the type nor the classifier after its first character has a dot |
| Resolver.DottedTypesCollide | controllers/internal.go:84-92 | a pair of artifacts that share a URL, for any group, artifact and version |
| Admission.MavenArtifactSpec.Default | apis/source/v1alpha1/mavenartifact_defaults.go:35-48 | sets type and timeout only where they are unset |
| Admission.DefaultsAre | apis/source/v1alpha1/mavenartifact_defaults.go:35-48 | the defaulted spec, written out: type jar, timeout the interval, nothing else |
| Admission.MavenArtifactSpec.Validate | apis/source/v1alpha1/mavenartifact_validation.go:58-72 | the error list holds exactly the errors the spec deserves, field by field, and is empty iff the spec is acceptable |
| Admission.MavenArtifactSpec.ValidateArtifact | apis/source/v1alpha1/mavenartifact_validation.go:74-106 | exactly the deserved errors of the coordinates |
| Admission.MavenArtifactSpec.ValidateRepository | apis/source/v1alpha1/mavenartifact_validation.go:116-136 | exactly the deserved errors of the repository |
| Admission.AdmittedExactly | apis/source/v1alpha1/mavenartifact_validation.go:58-136 | a spec is admitted iff group, artifact and version are not empty, the version opens no range, no coordinate is ".." or has a slash or backslash, the URL has scheme https, the secret name is empty or a label, and interval and any timeout are positive |
| Admission.ErrorsByField | apis/source/v1alpha1/mavenartifact_validation.go:58-136 | which error each field gets, written out |
| Admission.OrdinaryIsAdmitted | apis/source/v1alpha1/mavenartifact_validation.go:108-114 | coordinates of letters, digits, dots, dashes and underscores other than ".." are admitted |
| Admission.AdmissionSuffices | apis/source/v1alpha1/mavenartifact_validation.go:58-106 | a defaulted and admitted spec has a positive timeout and a type, and its pinned version resolves whatever the repository answers |
| Admission.AdmittedUrlsInjective | apis/source/v1alpha1/mavenartifact_validation.go:74-114 | admitted pinned artifacts that share a URL have the same group, artifact, version and file name, and are the same if neither type has a dot |
| Admission.AdmittedUrlIsUnique | apis/source/v1alpha1/mavenartifact_validation.go:74-114 | among defaulted and admitted specs the pinned URL is the artifact's own iff no other dot divides classifier and type into two parts that admission takes |
| Admission.DefaultIdempotent | apis/source/v1alpha1/mavenartifact_defaults.go:35-48 | defaulting twice is defaulting once, and changes nothing iff timeout and type are set |
| Redirect.Do | controllers/mavenartifact_controller.go:112-123 | whatever the servers answer, the client follows every redirect to the scheme and host of the first request up to the tenth request, no other, and stops |
| Redirect.FollowsExactly | controllers/mavenartifact_controller.go:112-123 | the chases are exactly those: at most ten requests at one scheme and host, ended by no redirect, one that leaves, or an eleventh |
| Redirect.ChaseUnique | controllers/mavenartifact_controller.go:112-123 | the servers determine the chase, so no allowed redirect is dropped and none is added |

## Left out

- Disk.WriteFile: writes a cache record in one step, although os.WriteFile truncates first; `ParsePanics` says which torn records make the next read panic.
- DownloadSync: a panic of the record parser is the error that the runtime makes of it.
- ExtractArchive: writing and reading back files in the temporary directory does not fail except where the tree itself forbids it; errors of opening or reading the zip are a zip that does not parse.
- CreateTar: listing a directory during the walk does not fail, nor does reading a file that was opened; that isArchive takes a file it cannot read for no archive is not modelled.
- DigestHex: that parsed digests are of one algorithm and that their hex parts have no separators is not modelled; `ReadyImageIsServed` says what follows with and without the first, and the served path theorems ask for a plain file name.
- FalseIsFinal: is about one reconcile of an image; Maven conditions are not reset between reconciles and carry over.
- What is in certificates, whether newTransport takes them, and the credentials that requests carry: the answers of the repository are inputs.
- The Timeout branches, which the reformatted client errors do not reach.
- HTTP, TLS, registry and imgpkg calls, XML, gzip and zip byte formats: their answers are arbitrary inputs.
- Condition reasons and messages, and the wording of errors per status code.
- Permissions, symbolic links, hard links, ignored close errors, and path separators other than the slash.
- The marshalled metadata kept for logging, requeue intervals, server/artifact.go, controllers/transport.go, main.go and generated code.
- Liveness: nothing is said about how soon a sync succeeds.
