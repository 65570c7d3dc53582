/** The sub-reconcilers of an ImageRepository, which talk through a stash and the conditions. */
module ImageSync {
  import opened Strings
  import opened Paths
  import opened Trees
  import opened Archive
  import opened ArchiveMeaning
  import opened Volume
  import opened Publish
  import opened ObjectStatus
  import opened Remote
  import opened Sync

  datatype Secret = Secret(data: string)

  datatype ImageSpec = ImageSpec(image: string, pullSecrets: seq<string>, serviceAccount: string)

  /** What a reconcile depends on besides the volume and the status. `tmp` is the directory that
      os.MkdirTemp returns; `pull` gives the file tree after an image has been pulled into its
      sub-directory "artifact", or None for an error. `tempFails` and `hashFails` are local errors before
      the pull and after the tarball is packed. */
  datatype ImageInput = ImageInput(
    spec: ImageSpec, host: string, now: int, transportOk: bool,
    account: string -> ApiAnswer<seq<string>>, secret: string -> ApiAnswer<Secret>,
    keychainOk: bool, registryOk: bool, head: string -> Option<string>,
    tmp: string, pull: string -> Option<Tree>, tempFails: bool, hashFails: bool, faults: ReadFaults,
    createFails: bool) {

    /** A pull that succeeds has made its directory. */
    ghost predicate Valid() {
      IsAbs(tmp) && forall ref :: pull(ref).Some? ==>
        WellFormed(pull(ref).value) && Segs(tmp) + ["artifact"] in pull(ref).value
    }
  }

  /** The files named m are the content of the image. */
  ghost predicate IsContent(w: World, digest: string, files: map<Path, Node>, m: map<string, Bytes>) {
    Names(m, files) && w.pulls(digest, m)
  }

  /** A pull that succeeds yields the content of the image named by the digest. */
  ghost predicate PullsAreComplete(w: World, input: ImageInput) {
    forall ref :: input.pull(ref).Some? && w.parseDigest(ref).Some? ==>
      exists m :: IsContent(w, w.parseDigest(ref).value,
                            FilesUnder(input.pull(ref).value, Segs(input.tmp) + ["artifact"]), m)
  }

  /** The stash of one reconcile. An image reference that is not stashed reads as "". */
  datatype Stash = Stash(secrets: Option<seq<Secret>>, imageRef: string)

  /** Conditions, stash and error after a sub-reconciler. */
  datatype Progress = Progress(conds: Conditions, stash: Stash, err: bool)

  // ----- the sub-reconcilers as functions -----

  function Start(input: ImageInput): Progress {
    Progress(Conditions(Unknown, Unknown), Stash(None, ""), !input.transportOk)
  }

  function AccountName(spec: ImageSpec): string {
    if spec.serviceAccount == "" then "default" else spec.serviceAccount
  }

  function SecretNames(spec: ImageSpec, fromAccount: seq<string>): seq<string> {
    Sorted((set n | n in spec.pullSecrets) + (set n | n in fromAccount))
  }

  datatype SecretLookup = AllFound(secrets: seq<Secret>) | SecretMissing | LookupError

  /** The first secret that is missing or fails decides. */
  function Lookup(names: seq<string>, secret: string -> ApiAnswer<Secret>): SecretLookup {
    if names == [] then AllFound([])
    else match secret(names[0])
      case NotFound => SecretMissing
      case ApiError => LookupError
      case Found(s) => Prepend([s], Lookup(names[1..], secret))
  }

  function Prepend(found: seq<Secret>, rest: SecretLookup): SecretLookup {
    match rest
    case AllFound(more) => AllFound(found + more)
    case _ => rest
  }

  function SecretsStep(input: ImageInput, s: Progress): Progress {
    match input.account(AccountName(input.spec))
    case NotFound => s.(conds := s.conds.(resolved := False))
    case ApiError => s.(err := true)
    case Found(fromAccount) =>
      match Lookup(SecretNames(input.spec, fromAccount), input.secret)
      case AllFound(secrets) => s.(stash := s.stash.(secrets := Some(secrets)))
      case SecretMissing => s.(conds := s.conds.(resolved := False))
      case LookupError => s.(err := true)
  }

  function DigestStep(w: World, input: ImageInput, s: Progress): Progress {
    var image := input.spec.image;
    if w.parseDigest(image).Some? then s.(stash := s.stash.(imageRef := image))
    else if s.stash.secrets.None? then s
    else if !input.keychainOk then s.(err := true)
    else match w.parseTag(image)
      case None => s.(conds := s.conds.(resolved := False))
      case Some(tag) =>
        match input.head(tag)
        case None => s.(conds := s.conds.(resolved := False))
        case Some(digest) => s.(stash := s.stash.(imageRef := tag + "@" + digest))
  }

  /** The part of a digest after its first colon, by strings.Cut. */
  function DigestHex(digest: string): string {
    if digest == "" then "" else if digest[0] == ':' then digest[1..] else DigestHex(digest[1..])
  }

  /** The file that an image with this digest is served as: algorithm:hex as hex.tar.gz. */
  ghost predicate NamedAfter(file: string, digest: string) {
    if ':' in digest then exists alg, hex :: ':' !in alg && digest == alg + ":" + hex && file == hex + ".tar.gz"
    else file == ".tar.gz"
  }

  lemma {:induction false} DigestHexOf(alg: string, hex: string)
    requires ':' !in alg
    ensures DigestHex(alg + ":" + hex) == hex
  {
    var digest := alg + ":" + hex;
    if alg == "" {
      assert digest[1..] == hex;
    } else {
      assert alg[0] in alg && digest[1..] == alg[1..] + ":" + hex;
      DigestHexOf(alg[1..], hex);
    }
  }

  lemma {:induction false} DigestWithoutColon(digest: string)
    requires ':' !in digest
    ensures DigestHex(digest) == ""
  {
    if digest != "" {
      assert digest[0] in digest;
      DigestWithoutColon(digest[1..]);
    }
  }

  lemma {:induction false} ColonSplits(digest: string) returns (alg: string, hex: string)
    requires ':' in digest
    ensures ':' !in alg && digest == alg + ":" + hex
  {
    if digest[0] == ':' {
      alg, hex := "", digest[1..];
    } else {
      alg, hex := ColonSplits(digest[1..]);
      alg := [digest[0]] + alg;
    }
  }

  /** The tarball name that a sync computes is the one after the digest, and no other is. */
  lemma TarNameIsAfter(digest: string)
    ensures forall file :: NamedAfter(file, digest) <==> file == TarName(DigestHex(digest))
  {
    if ':' in digest {
      var alg, hex := ColonSplits(digest);
      DigestHexOf(alg, hex);
      forall file | NamedAfter(file, digest) ensures file == TarName(DigestHex(digest)) {
        var a, h :| ':' !in a && digest == a + ":" + h && file == h + ".tar.gz";
        DigestHexOf(a, h);
      }
    } else {
      DigestWithoutColon(digest);
    }
  }

  /** Two digests of one algorithm share a tarball name only if they are equal. */
  lemma DigestsKeepApart(alg: string, a: string, b: string, file: string)
    requires ':' !in alg && NamedAfter(file, alg + ":" + a) && NamedAfter(file, alg + ":" + b)
    ensures a == b
  {
    DigestHexOf(alg, a);
    DigestHexOf(alg, b);
    TarNameIsAfter(alg + ":" + a);
    TarNameIsAfter(alg + ":" + b);
    assert a == TarName(a)[..|TarName(a)| - 7] && b == TarName(b)[..|TarName(b)| - 7];
  }

  /** And so with the URLs at one host. */
  lemma ImageUrlsKeepApart(host: string, id: Id, file: string, file': string)
    requires ImageUrl(host, id, file) == ImageUrl(host, id, file')
    ensures file == file'
  {
    var head := "http://" + host + "/" + KindDir(Image) + "/" + id.ns + "/" + id.name + "/";
    assert ImageUrl(host, id, file) == head + file && ImageUrl(host, id, file') == head + file';
    assert (head + file)[|head|..] == file && (head + file')[|head|..] == file';
  }

  function ImageHttpPath(id: Id, file: string): string {
    KindDir(Image) + "/" + id.ns + "/" + id.name + "/" + file
  }

  /** The path in the status is the path of the tarball relative to the served directory. */
  lemma HttpPathIsServedPath(id: Id, file: string)
    requires id.kind.Image? && ValidId(id) && ValidSegment(file)
    ensures Segs(ImageHttpPath(id, file)) == DirOf(id) + [file]
  {
    KindDirValid(Image);
    SlashJoin4(KindDir(Image), id.ns, id.name, file);
  }

  function ImageUrl(host: string, id: Id, file: string): string {
    "http://" + host + "/" + ImageHttpPath(id, file)
  }

  function PulledStatus(w: World, status: Status, id: Id, input: ImageInput, ref: string, hex: string, tar: Bytes)
    : Status
  {
    var url := ImageUrl(input.host, id, TarName(hex));
    Status(url, Some(Preserve(status.artifact,
                              Artifact(ImageHttpPath(id, TarName(hex)), url, ref, w.sha1(tar), input.now))))
  }

  /** The skip test. The status is dereferenced only when its URL is set. */
  predicate IsPresent(d: Disk, status: Status, id: Id, host: string, hex: string)
    requires status.Consistent()
  {
    var url := ImageUrl(host, id, TarName(hex));
    DirOf(id) + [TarName(hex)] in d.names && url == status.url && url == status.artifact.value.url
  }

  function PullPlan(w: World, d: Disk, status: Status, id: Id, input: ImageInput, s: Progress): Plan
    requires status.Consistent() && input.Valid()
  {
    var conds, ref := s.conds, s.stash.imageRef;
    if ref == "" then Finished(conds, false)
    else match w.parseDigest(ref)
      case None => Finished(conds.(resolved := False), false)
      case Some(digest) =>
        var hex := DigestHex(digest);
        if IsPresent(d, status, id, input.host, hex) then
          var shown := Conditions(if conds.resolved == Unknown then True else conds.resolved, True);
          Flying(Flight(Job(DirOf(id), TarName(hex), "", None, false, AtStatus), hex, true, status, shown, conds))
        else if input.tempFails then Finished(conds, true)
        else if s.stash.secrets.None? then Finished(conds, false)
        else if !input.keychainOk || !input.registryOk then Finished(conds, true)
        else match input.pull(ref)
          case None => Finished(conds.(resolved := False), false)
          case Some(t) => PublishPlan(w, status, id, input, ref, hex, t, conds.(resolved := True))
  }

  /** Package the pulled directory; then the file operations that publish it. */
  function PublishPlan(w: World, status: Status, id: Id, input: ImageInput, ref: string, hex: string, t: Tree,
                       conds: Conditions): Plan
    requires IsAbs(input.tmp) && WellFormed(t) && Segs(input.tmp) + ["artifact"] in t
  {
    ArtifactDir(input.tmp);
    match TarGz(w, t, JoinPath(input.tmp, "artifact"), input.faults)
    case None => Finished(conds, true)
    case Some(tar) =>
      if input.hashFails then Finished(conds, true)
      else Flying(Flight(Job(DirOf(id), TarName(hex), tar, None, input.createFails, AtMkdir), hex, false,
                         PulledStatus(w, status, id, input, ref, hex, tar), Conditions(True, True), conds))
  }

  /** The sequence of sub-reconcilers, which an error stops. */
  function ImagePlan(w: World, d: Disk, status: Status, id: Id, input: ImageInput): Plan
    requires status.Consistent() && input.Valid()
  {
    var s0 := Start(input);
    if s0.err then Finished(s0.conds, true)
    else
      var s1 := SecretsStep(input, s0);
      if s1.err then Finished(s1.conds, true)
      else
        var s2 := DigestStep(w, input, s1);
        if s2.err then Finished(s2.conds, true) else PullPlan(w, d, status, id, input, s2)
  }

  // ----- the reconcile in its own form -----

  class ImageRepository {
    const id: Id
    var status: Status
    var conds: Conditions
    var stash: Stash

    constructor (i: Id, s: Status, c: Conditions)
      ensures id == i && status == s && conds == c
    {
      id, status, conds, stash := i, s, c, Stash(None, "");
    }

    ghost function Now(err: bool): Progress
      reads this
    {
      Progress(conds, stash, err)
    }

    /** The loop of the pull secrets sync, which the first secret that is missing or fails ends. */
    method GetPullSecrets(names: seq<string>, secret: string -> ApiAnswer<Secret>) returns (found: SecretLookup)
      ensures found == Lookup(names, secret)
    {
      var imagePullSecrets := new Secret[|names|];
      assert names[0..] == names && imagePullSecrets[..0] == [];
      for i := 0 to |names|
        invariant Prepend(imagePullSecrets[..i], Lookup(names[i..], secret)) == Lookup(names, secret)
      {
        LookupStep(imagePullSecrets[..i], names, i, secret);
        var got := secret(names[i]);
        if got.NotFound? {
          return SecretMissing;
        }
        if got.ApiError? {
          return LookupError;
        }
        imagePullSecrets[i] := got.value;
        assert imagePullSecrets[..i + 1] == imagePullSecrets[..i] + [got.value];
      }
      assert imagePullSecrets[..] + [] == imagePullSecrets[..];
      return AllFound(imagePullSecrets[..]);
    }

    method PullSecretsSync(input: ImageInput) returns (err: bool)
      modifies this`conds, this`stash
      ensures Now(err) == SecretsStep(input, old(Now(false)))
    {
      var answer := input.account(AccountName(input.spec));
      if answer.NotFound? {
        conds := conds.(resolved := False);
        return false;
      }
      if answer.ApiError? {
        return true;
      }
      var names := SecretNames(input.spec, answer.value);
      var found := GetPullSecrets(names, input.secret);
      if found.SecretMissing? {
        conds := conds.(resolved := False);
        return false;
      }
      if found.LookupError? {
        return true;
      }
      stash := stash.(secrets := Some(found.secrets));
      return false;
    }

    method DigestSync(w: World, input: ImageInput) returns (err: bool)
      modifies this`conds, this`stash
      ensures Now(err) == DigestStep(w, input, old(Now(false)))
    {
      var image := input.spec.image;
      if w.parseDigest(image).Some? {
        stash := stash.(imageRef := image);
        return false;
      }
      if stash.secrets.None? {
        return false;
      }
      if !input.keychainOk {
        return true;
      }
      var tag := w.parseTag(image);
      if tag.None? {
        conds := conds.(resolved := False);
        return false;
      }
      var digest := input.head(tag.value);
      if digest.None? {
        conds := conds.(resolved := False);
        return false;
      }
      stash := stash.(imageRef := tag.value + "@" + digest.value);
      return false;
    }

    method PullImageSync(w: World, vol: ServedVolume, input: ImageInput) returns (err: bool)
      requires status.Consistent() && input.Valid()
      modifies this`conds, this`status, vol
      ensures Outcome(vol.disk, status, conds, err) ==
              Complete(PullPlan(w, old(vol.disk), old(status), id, input, old(Now(false))),
                       old(vol.disk), old(status), old(vol.budget))
    {
      var imageRef := stash.imageRef;
      if imageRef == "" {
        return false;
      }
      var digest := w.parseDigest(imageRef);
      if digest.None? {
        conds := conds.(resolved := False);
        return false;
      }
      var hex := DigestHex(digest.value);
      var final := TarName(hex);
      var to := DirOf(id) + [final];
      var httpUrl := ImageUrl(input.host, id, final);
      if to in vol.disk.names && httpUrl == status.url && httpUrl == status.artifact.value.url {
        if conds.resolved == Unknown {
          conds := conds.(resolved := True);
        }
        conds := conds.(available := True);
        return false;
      }
      if input.tempFails {
        return true;
      }
      if stash.secrets.None? {
        return false;
      }
      if !input.keychainOk {
        return true;
      }
      if !input.registryOk {
        return true;
      }
      var pulled := input.pull(imageRef);
      if pulled.None? {
        conds := conds.(resolved := False);
        return false;
      }
      conds := conds.(resolved := True);
      err := PackAndPublish(w, vol, input, imageRef, hex, pulled.value);
    }

    /** From the pulled directory to the end of the sync. */
    method PackAndPublish(w: World, vol: ServedVolume, input: ImageInput, imageRef: string, hex: string, t: Tree)
      returns (err: bool)
      requires IsAbs(input.tmp) && WellFormed(t) && Segs(input.tmp) + ["artifact"] in t && conds.resolved == True
      modifies this`conds, this`status, vol
      ensures Outcome(vol.disk, status, conds, err) ==
              Complete(PublishPlan(w, old(status), id, input, imageRef, hex, t, old(conds)),
                       old(vol.disk), old(status), old(vol.budget))
    {
      ArtifactDirClean(input.tmp);
      var artifactDir := JoinPath(input.tmp, "artifact");
      var tw := new TarWriter();
      var packed := tw.CreateTar(t, artifactDir, input.faults);
      if !packed {
        return true;
      }
      assert tw.entries == TarWritten(t, artifactDir, input.faults).0;
      var tar := w.gzip(tw.entries);
      if input.hashFails {
        return true;
      }
      var final := TarName(hex);
      var job := Job(DirOf(id), final, tar, None, input.createFails, AtMkdir);
      var placeholder := DirOf(id) + [PlaceholderName(final)];
      var ok := vol.CopyFile(placeholder, tar, input.createFails, job);
      if !ok {
        return true;
      }
      ok := vol.Rename(placeholder, DirOf(id) + [final]);
      if !ok {
        return true;
      }
      status := PulledStatus(w, status, id, input, imageRef, hex, tar);
      conds := conds.(available := True);
      return false;
    }

    /** One reconcile: conditions and stash start afresh. */
    method Reconcile(w: World, vol: ServedVolume, input: ImageInput) returns (err: bool)
      requires status.Consistent() && input.Valid()
      modifies this, vol
      ensures Outcome(vol.disk, status, conds, err) ==
              Complete(ImagePlan(w, old(vol.disk), old(status), id, input), old(vol.disk), old(status), old(vol.budget))
    {
      conds, stash := Conditions(Unknown, Unknown), Stash(None, "");
      if !input.transportOk {
        return true;
      }
      err := PullSecretsSync(input);
      if err {
        return;
      }
      err := DigestSync(w, input);
      if err {
        return;
      }
      err := PullImageSync(w, vol, input);
    }
  }

  /** One turn of the loop over the secrets. */
  lemma LookupStep(found: seq<Secret>, names: seq<string>, i: nat, secret: string -> ApiAnswer<Secret>)
    requires i < |names|
    ensures Prepend(found, Lookup(names[i..], secret)) ==
            match secret(names[i])
            case NotFound => SecretMissing
            case ApiError => LookupError
            case Found(s) => Prepend(found + [s], Lookup(names[i + 1..], secret))
  {
    assert names[i..][0] == names[i] && names[i..][1..] == names[i + 1..];
    if secret(names[i]).Found? {
      PrependTwice(found, secret(names[i]).value, Lookup(names[i + 1..], secret));
    }
  }

  lemma PrependTwice(found: seq<Secret>, s: Secret, rest: SecretLookup)
    ensures Prepend(found, Prepend([s], rest)) == Prepend(found + [s], rest)
  {
    if rest.AllFound? {
      assert found + ([s] + rest.secrets) == found + [s] + rest.secrets;
    }
  }

  // ----- what one reconcile can end in -----

  predicate EndsUnresolved(plan: Plan) {
    match plan
    case Finished(conds, _) => conds.resolved == False
    case Flying(f) => f.okConds.resolved == False && f.failConds.resolved == False
  }

  /** Whatever the sub-reconcilers leave unset in the stash keeps ImageResolved False. */
  predicate StashKeepsFalse(s: Progress) {
    s.conds.resolved == False ==> s.stash.secrets.None? || s.stash.imageRef == ""
  }

  /** Once a sub-reconciler marks ImageResolved False, no later one marks it True. */
  lemma FalseIsFinal(w: World, d: Disk, status: Status, id: Id, input: ImageInput)
    requires status.Consistent() && input.Valid()
    ensures var s1 := SecretsStep(input, Start(input)); var s2 := DigestStep(w, input, s1);
            var plan := PullPlan(w, d, status, id, input, s2);
            && (s1.conds.resolved == False ==> s2.conds.resolved == False)
            && (s2.conds.resolved == False ==> EndsUnresolved(plan))
            && StashKeepsFalse(s1) && StashKeepsFalse(s2)
  {
  }

  /** The bytes are the tarball of the directory that was pulled for the reference. */
  ghost predicate PackedPull(w: World, input: ImageInput, ref: string, tar: Bytes)
    requires input.Valid()
  {
    ArtifactDir(input.tmp);
    && input.pull(ref).Some?
    && TarGz(w, input.pull(ref).value, JoinPath(input.tmp, "artifact"), input.faults) == Some(tar)
  }

  /** The tarball of a pulled image holds exactly the files of the pulled directory. */
  lemma PulledTarball(w: World, input: ImageInput, ref: string, tar: Bytes)
    requires input.Valid() && input.faults.stat == {} && PackedPull(w, input, ref, tar)
    ensures var t, dir := input.pull(ref).value, JoinPath(input.tmp, "artifact");
            && IsAbs(dir) && Segs(dir) == Segs(input.tmp) + ["artifact"] && Segs(dir) in t
            && tar == w.gzip(TarEntries(t, dir))
            && Names(TarContents(TarEntries(t, dir)), FilesUnder(t, Segs(dir)))
  {
    var t, dir := input.pull(ref).value, JoinPath(input.tmp, "artifact");
    ArtifactDir(input.tmp);
    TarGzComplete(w, t, dir, input.faults);
    TarEntriesNames(t, dir);
    assert tar == w.gzip(TarEntries(t, dir));
  }

  /** The status to be installed describes the tarball that was pulled for the reference. */
  predicate DescribesPull(w: World, id: Id, f: Flight, ref: string) {
    && f.okStatus.artifact.Some?
    && var a := f.okStatus.artifact.value;
       && a.checksum == w.sha1(f.job.tar) && a.revision == ref
       && a.path == ImageHttpPath(id, TarName(f.hex)) && a.url == f.okStatus.url
  }

  /** What is known of a sync that has got as far as the volume, from the progress s. */
  ghost predicate ShapeOfFlight(w: World, d: Disk, status: Status, id: Id, input: ImageInput, s: Progress, f: Flight)
    requires input.Valid()
  {
    && BareShape(w, d, status, id, input, s, f)
    && NamedAfter(f.job.final, w.parseDigest(s.stash.imageRef).value)
  }

  ghost predicate BareShape(w: World, d: Disk, status: Status, id: Id, input: ImageInput, s: Progress, f: Flight)
    requires input.Valid()
  {
    && !f.failConds.Ready()
    && (f.okConds.Ready() <==> s.conds.resolved != False)
    && w.parseDigest(s.stash.imageRef).Some?
    && f.hex == DigestHex(w.parseDigest(s.stash.imageRef).value)
    && f.job.dir == DirOf(id) && f.job.final == TarName(f.hex)
    && f.okStatus.Consistent() && f.okStatus.url == ImageUrl(input.host, id, TarName(f.hex))
    && (if f.hit then f.job.pc.AtStatus? && f.job.Final() in d.names && f.okStatus == status
        else f.job.pc.AtMkdir? && PackedPull(w, input, s.stash.imageRef, f.job.tar) &&
             DescribesPull(w, id, f, s.stash.imageRef))
  }

  lemma PullPlanShape(w: World, d: Disk, status: Status, id: Id, input: ImageInput, s: Progress)
    requires status.Consistent() && input.Valid() && s.conds.available == Unknown
    requires s.conds.resolved == False ==> EndsUnresolved(PullPlan(w, d, status, id, input, s))
    ensures match PullPlan(w, d, status, id, input, s)
            case Finished(conds, _) => !conds.Ready()
            case Flying(f) => BareShape(w, d, status, id, input, s, f)
  {
  }

  lemma OwnName(digest: string)
    ensures NamedAfter(TarName(DigestHex(digest)), digest)
  {
    TarNameIsAfter(digest);
  }

  lemma AvailableStaysUnknown(w: World, input: ImageInput)
    ensures var s1 := SecretsStep(input, Start(input)); var s2 := DigestStep(w, input, s1);
            s1.conds.available == Unknown && s2.conds.available == Unknown
  {
  }

  /** The reference that a reconcile with this input resolves: the image itself if it has a digest, and
      otherwise the tag with the digest that the registry has for it. */
  function ResolvedRef(w: World, input: ImageInput): Option<string> {
    var image := input.spec.image;
    if w.parseDigest(image).Some? then Some(image)
    else if w.parseTag(image).Some? && input.head(w.parseTag(image).value).Some? then
      Some(w.parseTag(image).value + "@" + input.head(w.parseTag(image).value).value)
    else None
  }

  function ResolvedDigest(w: World, input: ImageInput): Option<string> {
    if ResolvedRef(w, input).Some? then w.parseDigest(ResolvedRef(w, input).value) else None
  }

  /** The stash of a reconcile holds no other reference. */
  lemma StashedRef(w: World, input: ImageInput)
    ensures var ref := DigestStep(w, input, SecretsStep(input, Start(input))).stash.imageRef;
            ref == "" || ResolvedRef(w, input) == Some(ref)
  {
  }

  lemma FlyingHasRef(w: World, d: Disk, status: Status, id: Id, input: ImageInput)
    requires status.Consistent() && input.Valid()
    ensures ImagePlan(w, d, status, id, input).Flying? ==>
              DigestStep(w, input, SecretsStep(input, Start(input))).stash.imageRef != ""
  {
  }

  lemma ImageUrlWritten(host: string, id: Id, file: string)
    ensures ImageUrl(host, id, file) == "http://" + host + "/imagerepository/" + id.ns + "/" + id.name + "/" + file
    ensures ImageHttpPath(id, file) == "imagerepository/" + id.ns + "/" + id.name + "/" + file
  {
  }

  /** A reconcile that ends Ready has resolved a digest in this reconcile, and either found its
      tarball under the status URL or pulled it; a reconcile that ends before that is not Ready. */
  lemma ReadyPlan(w: World, d: Disk, status: Status, id: Id, input: ImageInput)
    requires status.Consistent() && input.Valid()
    ensures match ImagePlan(w, d, status, id, input)
            case Finished(conds, _) => !conds.Ready()
            case Flying(f) =>
              var s2 := DigestStep(w, input, SecretsStep(input, Start(input)));
              ShapeOfFlight(w, d, status, id, input, s2, f)
  {
    var s2 := DigestStep(w, input, SecretsStep(input, Start(input)));
    FalseIsFinal(w, d, status, id, input);
    AvailableStaysUnknown(w, input);
    PullPlanShape(w, d, status, id, input, s2);
    if w.parseDigest(s2.stash.imageRef).Some? {
      OwnName(w.parseDigest(s2.stash.imageRef).value);
    }
  }
}
