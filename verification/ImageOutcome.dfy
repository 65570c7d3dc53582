/** What a reconcile of an ImageRepository ends in, for every answer of the API server and the registry, and
    every local or I/O error. */
module ImageOutcome {
  import opened Strings
  import opened Paths
  import opened Trees
  import opened Archive
  import opened Volume
  import opened ObjectStatus
  import opened Remote
  import opened Sync
  import opened ImageSync

  // ----- pull secrets -----

  /** The secrets to look up are those of the repository and of its service account, each once, in the order
      of their bytes. */
  lemma NamesOfSecrets(spec: ImageSpec, fromAccount: seq<string>)
    ensures var names := SecretNames(spec, fromAccount);
            forall n :: n in names <==> n in spec.pullSecrets || n in fromAccount
    ensures var names := SecretNames(spec, fromAccount);
            forall i, j :: 0 <= i < j < |names| ==> BytesBefore(names[i], names[j])
  {
    var names := SecretNames(spec, fromAccount);
    forall n ensures n in names <==> n in spec.pullSecrets || n in fromAccount {
      assert n in names <==> n in (set x | x in spec.pullSecrets) + (set x | x in fromAccount);
    }
    forall i, j | 0 <= i < j < |names| ensures BytesBefore(names[i], names[j]) {
      LessIsByteOrder(names[i], names[j]);
    }
  }

  /** All names up to i are found. */
  predicate FoundUpTo(names: seq<string>, secret: string -> ApiAnswer<Secret>, i: nat) {
    i <= |names| && forall j :: 0 <= j < i ==> secret(names[j]).Found?
  }

  /** The first that is not found decides; if there is none, all are returned in their order. */
  lemma {:induction false} LookupExactly(names: seq<string>, secret: string -> ApiAnswer<Secret>)
    ensures match Lookup(names, secret)
            case AllFound(secrets) =>
              && FoundUpTo(names, secret, |names|) && |secrets| == |names|
              && forall i :: 0 <= i < |names| ==> secrets[i] == secret(names[i]).value
            case SecretMissing =>
              exists i: nat :: i < |names| && FoundUpTo(names, secret, i) && secret(names[i]).NotFound?
            case LookupError =>
              exists i: nat :: i < |names| && FoundUpTo(names, secret, i) && secret(names[i]).ApiError?
  {
    if names != [] && secret(names[0]).Found? {
      var rest := names[1..];
      LookupExactly(rest, secret);
      match Lookup(rest, secret)
      case AllFound(more) =>
        assert forall i :: 1 <= i < |names| ==> names[i] == rest[i - 1];
      case SecretMissing =>
        var i: nat :| i < |rest| && FoundUpTo(rest, secret, i) && secret(rest[i]).NotFound?;
        FoundFurther(names, secret, i);
        assert names[i + 1] == rest[i];
      case LookupError =>
        var i: nat :| i < |rest| && FoundUpTo(rest, secret, i) && secret(rest[i]).ApiError?;
        FoundFurther(names, secret, i);
        assert names[i + 1] == rest[i];
    } else if names != [] {
      assert FoundUpTo(names, secret, 0);
    }
  }

  lemma FoundFurther(names: seq<string>, secret: string -> ApiAnswer<Secret>, i: nat)
    requires names != [] && secret(names[0]).Found? && FoundUpTo(names[1..], secret, i)
    ensures FoundUpTo(names, secret, i + 1)
  {
    assert forall j :: 1 <= j < i + 1 ==> names[j] == names[1..][j - 1];
  }

  /** The service account that is looked up. */
  function Account(input: ImageInput): ApiAnswer<seq<string>> {
    input.account(if input.spec.serviceAccount != "" then input.spec.serviceAccount else "default")
  }

  /** Without the service account or one of the secrets, the image is not resolved; an error of the API
      server is returned; otherwise the secrets are stashed. */
  lemma SecretsVerdict(input: ImageInput, s: Progress)
    requires !s.err
    ensures var r := SecretsStep(input, s);
            match Account(input)
            case NotFound => r == Progress(Conditions(False, s.conds.available), s.stash, false)
            case ApiError => r == Progress(s.conds, s.stash, true)
            case Found(fromAccount) =>
              match Lookup(SecretNames(input.spec, fromAccount), input.secret)
              case SecretMissing => r == Progress(Conditions(False, s.conds.available), s.stash, false)
              case LookupError => r == Progress(s.conds, s.stash, true)
              case AllFound(secrets) => r == Progress(s.conds, Stash(Some(secrets), s.stash.imageRef), false)
  {
  }

  // ----- the digest -----

  /** An image given by digest is taken as it is. A tag is resolved at the registry, for which the pull secrets
      must have been stashed; if it cannot be parsed or the registry does not know it, the image is not
      resolved; an error of the keychain is returned. */
  lemma DigestVerdict(w: World, input: ImageInput, s: Progress)
    requires !s.err
    ensures var r, image := DigestStep(w, input, s), input.spec.image;
            if w.parseDigest(image).Some? then r == Progress(s.conds, Stash(s.stash.secrets, image), false)
            else if s.stash.secrets.None? then r == s
            else if !input.keychainOk then r == Progress(s.conds, s.stash, true)
            else if w.parseTag(image).Some? && input.head(w.parseTag(image).value).Some? then
              var tag := w.parseTag(image).value;
              r == Progress(s.conds, Stash(s.stash.secrets, tag + "@" + input.head(tag).value), false)
            else r == Progress(Conditions(False, s.conds.available), s.stash, false)
  {
  }

  // ----- the pull, up to the volume -----

  /** The file is published, and both URLs of the status lead to it at the host. */
  predicate Present(d: Disk, status: Status, id: Id, host: string, file: string) {
    var url := "http://" + host + "/imagerepository/" + id.ns + "/" + id.name + "/" + file;
    && ["imagerepository", id.ns, id.name, file] in d.names
    && status.url == url && status.artifact.Some? && status.artifact.value.url == url
  }

  lemma PresentIsHit(d: Disk, status: Status, id: Id, host: string, hex: string)
    requires status.Consistent() && id.kind.Image?
    ensures IsPresent(d, status, id, host, hex) <==> Present(d, status, id, host, hex + ".tar.gz")
  {
    ImageUrlWritten(host, id, hex + ".tar.gz");
    assert DirOf(id) + [TarName(hex)] == ["imagerepository", id.ns, id.name, hex + ".tar.gz"];
    assert "http://"[0] == 'h';
  }

  /** What is packed of the tree that the pull leaves. */
  function Tarball(w: World, input: ImageInput, t: Tree): Option<Bytes>
    requires IsAbs(input.tmp) && WellFormed(t) && Segs(input.tmp) + ["artifact"] in t
  {
    ArtifactDir(input.tmp);
    TarGz(w, t, JoinPath(input.tmp, "artifact"), input.faults)
  }

  /** The status after an installation; the time is now unless the status said the same before. */
  predicate Installed(
    w: World, after: Status, before: Status, id: Id, input: ImageInput, ref: string, file: string, tar: Bytes)
  {
    var path := "imagerepository/" + id.ns + "/" + id.name + "/" + file;
    && after.artifact.Some?
    && var a := after.artifact.value;
       var since := if before.artifact.Some? then before.artifact.value.lastUpdate else 0;
       && after.url == "http://" + input.host + "/" + path && a.url == after.url && a.path == path
       && a.revision == ref && a.checksum == w.sha1(tar)
       && if before.artifact == Some(a.(lastUpdate := since)) then a.lastUpdate == since
          else a.lastUpdate == input.now
  }

  /** What a sync that goes on to the volume publishes and puts into status and conditions. */
  ghost predicate Installs(
    w: World, f: Flight, before: Status, conds: Conditions, id: Id, input: ImageInput, ref: string)
    requires input.Valid()
  {
    && input.pull(ref).Some? && Tarball(w, input, input.pull(ref).value) == Some(f.job.tar)
    && f.job.dir == ["imagerepository", id.ns, id.name] && f.job.record == None && f.job.pc.AtMkdir?
    && f.job.createFails == input.createFails
    && f.failConds == Conditions(True, conds.available) && f.okConds == Conditions(True, True)
    && Installed(w, f.okStatus, before, id, input, ref, f.job.final, f.job.tar)
  }

  /** Without a reference, or with one that is not a digest, nothing is pulled. A tarball that is present is
      reported, and an undecided condition turns True. Otherwise the image is pulled, for which the pull
      secrets must have been stashed: every local error is returned, a pull that fails leaves the image not
      resolved, and one that succeeds is packed and published. */
  lemma PullVerdict(w: World, d: Disk, status: Status, id: Id, input: ImageInput, s: Progress, file: string)
    requires status.Consistent() && input.Valid() && id.kind.Image?
    requires w.parseDigest(s.stash.imageRef).Some? ==> NamedAfter(file, w.parseDigest(s.stash.imageRef).value)
    ensures var plan, conds, ref := PullPlan(w, d, status, id, input, s), s.conds, s.stash.imageRef;
            if ref == "" then plan == Plan.Finished(conds, false)
            else if w.parseDigest(ref).None? then plan == Plan.Finished(Conditions(False, conds.available), false)
            else if Present(d, status, id, input.host, file) then
              && plan.Flying? && plan.flight.hit && plan.flight.job.pc.AtStatus? && plan.flight.okStatus == status
              && plan.flight.okConds == Conditions(if conds.resolved == Unknown then True else conds.resolved, True)
            else if input.tempFails then plan == Plan.Finished(conds, true)
            else if s.stash.secrets.None? then plan == Plan.Finished(conds, false)
            else if !input.keychainOk || !input.registryOk then plan == Plan.Finished(conds, true)
            else if input.pull(ref).None? then plan == Plan.Finished(Conditions(False, conds.available), false)
            else if Tarball(w, input, input.pull(ref).value).None? || input.hashFails then
              plan == Plan.Finished(Conditions(True, conds.available), true)
            else
              plan.Flying? && !plan.flight.hit && plan.flight.job.final == file &&
              Installs(w, plan.flight, status, conds, id, input, ref)
  {
    var ref := s.stash.imageRef;
    if w.parseDigest(ref).Some? {
      TarNameIsAfter(w.parseDigest(ref).value);
      PresentIsHit(d, status, id, input.host, DigestHex(w.parseDigest(ref).value));
      ImageUrlWritten(input.host, id, file);
    }
  }

  // ----- the reconcile to its end -----

  /** Every reconcile begins with both conditions undecided; without a transport it ends like that. */
  lemma TransportVerdict(w: World, d: Disk, status: Status, id: Id, input: ImageInput)
    requires status.Consistent() && input.Valid()
    ensures Start(input).conds == Conditions(Unknown, Unknown) && Start(input).stash == Stash(None, "")
    ensures !input.transportOk ==>
              ImagePlan(w, d, status, id, input) == Plan.Finished(Conditions(Unknown, Unknown), true)
  {
  }

  /** Before the pull, ImageResolved is not True. */
  lemma StepsNeverResolve(w: World, input: ImageInput)
    ensures var s1 := SecretsStep(input, Start(input)); var s2 := DigestStep(w, input, s1);
            && s1.conds.resolved != True && s2.conds.resolved != True
            && s1.conds.available == Unknown && s2.conds.available == Unknown
  {
  }

  /** A reconcile that ends in an error leaves the status as it was, and is not Ready; one that ends without
      error but not Ready does not say that the image is resolved. */
  lemma ReconcileVerdict(w: World, d: Disk, status: Status, id: Id, input: ImageInput, budget: nat)
    requires status.Consistent() && input.Valid() && id.kind.Image?
    ensures var o' := Complete(ImagePlan(w, d, status, id, input), d, status, budget);
            && (o'.err ==> o'.status == status && o'.conds != Conditions(True, True))
            && (!o'.err && o'.conds != Conditions(True, True) ==> o'.conds.resolved != True)
  {
    ReadyPlan(w, d, status, id, input);
    StepsNeverResolve(w, input);
    LastStep(w, d, status, id, input);
  }

  /** The sequence ends early or with the pull. */
  lemma LastStep(w: World, d: Disk, status: Status, id: Id, input: ImageInput)
    requires status.Consistent() && input.Valid() && id.kind.Image?
    ensures var s2 := DigestStep(w, input, SecretsStep(input, Start(input)));
            var plan := ImagePlan(w, d, status, id, input);
            match plan
            case Finished(conds, err) => !err ==> conds.resolved != True
            case Flying(f) => plan == PullPlan(w, d, status, id, input, s2) && f.okConds.available == True
  {
    StepsNeverResolve(w, input);
  }

  /** One that ends Ready has found the tarball of its reference present under the status, which it leaves as
      it is, or has pulled the image and installed its tarball. */
  lemma ReadyVerdict(w: World, d: Disk, status: Status, id: Id, input: ImageInput, budget: nat)
    requires status.Consistent() && input.Valid() && id.kind.Image?
    ensures var o' := Complete(ImagePlan(w, d, status, id, input), d, status, budget);
            o'.conds == Conditions(True, True) ==>
              && ResolvedDigest(w, input).Some?
              && var ref := ResolvedRef(w, input).value;
                 exists file ::
                   && NamedAfter(file, ResolvedDigest(w, input).value)
                   && (if Present(d, status, id, input.host, file) then o'.status == status && o'.disk == d
                       else PulledAndInstalled(w, o'.status, status, id, input, ref, file))
  {
    ReadyPlan(w, d, status, id, input);
    LastStep(w, d, status, id, input);
    StashedRef(w, input);
    FlyingHasRef(w, d, status, id, input);
    var s2 := DigestStep(w, input, SecretsStep(input, Start(input)));
    var plan := ImagePlan(w, d, status, id, input);
    if plan.Flying? {
      PullVerdict(w, d, status, id, input, s2, plan.flight.job.final);
    }
  }

  ghost predicate PulledAndInstalled(
    w: World, after: Status, before: Status, id: Id, input: ImageInput, ref: string, file: string)
    requires IsAbs(input.tmp)
  {
    && input.pull(ref).Some? && WellFormed(input.pull(ref).value)
    && Segs(input.tmp) + ["artifact"] in input.pull(ref).value
    && Tarball(w, input, input.pull(ref).value).Some?
    && Installed(w, after, before, id, input, ref, file, Tarball(w, input, input.pull(ref).value).value)
  }
}
