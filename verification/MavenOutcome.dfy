/** What a reconcile of a MavenArtifact ends in, for every answer of the API server and the repository, every
    record, and every local or I/O error. */
module MavenOutcome {
  import opened Strings
  import opened Paths
  import opened Volume
  import opened ObjectStatus
  import opened Remote
  import opened Sync
  import opened MavenSync
  import opened VersionSync
  import Resolver

  // ----- the download sync, up to the volume -----

  /** An answer for which the whole reconcile is to be tried again. */
  predicate Retried<T>(a: Answer<T>) {
    a.DownloadError? && (a.code == 429 || a.code >= 500)
  }

  predicate Refused<T>(a: Answer<T>) {
    a.OtherError? || (a.DownloadError? && a.code != 429 && a.code < 500)
  }

  /** The content of the cache file of the input. */
  function RecordText(d: Disk, id: Id, input: MavenInput): Option<Bytes>
    requires input.details.Some?
  {
    d.Content(DirOf(id) + [input.details.value.fileName + ".sha1"])
  }

  predicate Broken(d: Disk, id: Id, input: MavenInput)
    requires input.details.Some?
  {
    var text := RecordText(d, id, input);
    text.Some? && '|' !in text.value
  }

  /** The record names the resolved URL and the remote checksum, and the status has an artifact. */
  predicate Held(d: Disk, status: Status, id: Id, input: MavenInput)
    requires input.details.Some? && input.checksum.Body?
  {
    var text, url, c := RecordText(d, id, input), input.details.value.url, input.checksum.data;
    && status.artifact.Some? && text.Some? && '|' !in url && '|' !in c
    && (text.value == url + "|" + c || url + "|" + c + "|" <= text.value)
  }

  lemma HeldIsHit(d: Disk, status: Status, id: Id, input: MavenInput)
    requires input.details.Some? && input.checksum.Body?
    ensures var det := input.details.value;
            var cache := ReadRecord(d, RecordPathOf(id, det.fileName));
            && (cache.Panics? <==> Broken(d, id, input))
            && (IsHit(cache, status, input.checksum.data, det.url) <==> Held(d, status, id, input))
  {
    var det := input.details.value;
    assert DirOf(id) + [det.fileName + ".sha1"] == RecordPathOf(id, det.fileName);
    if RecordText(d, id, input).Some? {
      var text := RecordText(d, id, input).value;
      ParsePanics(text);
      ParsesTo(text, det.url, input.checksum.data);
    }
  }

  /** The artifact arrives with the announced checksum. */
  predicate Arrives(w: World, input: MavenInput) {
    input.checksum.Body? && input.artifact.Body? && w.sha1(input.artifact.data) == input.checksum.data
  }

  function Packing(w: World, input: MavenInput): Remote.Packing
    requires input.Valid() && input.details.Some? && input.artifact.Body?
  {
    Pack(w, input.tmp, input.details.value.fileName, input.artifact.data, input.clock, input.faults)
  }

  /** A fetch that must end in an error: for a code to be retried, or for a local error on its way. */
  predicate FetchErrs(w: World, input: MavenInput)
    requires input.Valid() && input.details.Some?
  {
    || input.local.temp || Retried(input.artifact)
    || (Arrives(w, input) &&
        (input.local.rehash || Packing(w, input).NotPacked? || (Packing(w, input).Packed? && input.local.tgz)))
  }

  /** A fetch that must end with the artifact not available. */
  predicate FetchRefused(w: World, input: MavenInput)
    requires input.Valid() && input.details.Some?
  {
    !input.local.temp &&
    (|| Refused(input.artifact)
     || (input.artifact.Body? && !Arrives(w, input))
     || (Arrives(w, input) && !input.local.rehash && Packing(w, input).NotExtracted?))
  }

  /** A sync without details or without a client does nothing. */
  lemma NothingToDo(w: World, d: Disk, status: Status, conds: Conditions, id: Id, input: MavenInput)
    requires input.Valid() && (input.details.None? || !input.client)
    ensures MavenPlan(w, true, d, status, conds, id, input) == Plan.Finished(conds, false)
  {
  }

  /** With details and a client, a sync either ends at once or goes on to the volume or reports a hit. It ends
      with an error exactly for code 429, a code of 500 or more, a local error or a broken record, and then
      leaves the conditions alone. It ends at once without an error exactly for any other failure of a
      download, a wrong checksum or an archive that cannot be unpacked, and then ArtifactAvailable is False
      and the other condition as it was. */
  lemma EndsAtOnce(w: World, d: Disk, status: Status, conds: Conditions, id: Id, input: MavenInput)
    requires input.Valid() && input.details.Some? && input.client
    ensures var plan := MavenPlan(w, true, d, status, conds, id, input);
            && (plan.Finished? && plan.err ==> plan.conds == conds)
            && (plan.Finished? && !plan.err ==> plan.conds == Conditions(conds.resolved, False))
            && (plan.Finished? && plan.err <==>
                || Retried(input.checksum)
                || (input.checksum.Body? &&
                    (|| input.local.cache || Broken(d, id, input)
                     || (!Held(d, status, id, input) && FetchErrs(w, input)))))
            && (plan.Finished? && !plan.err <==>
                || Refused(input.checksum)
                || (input.checksum.Body? && !input.local.cache && !Broken(d, id, input) &&
                    !Held(d, status, id, input) && FetchRefused(w, input)))
  {
    if input.checksum.Body? {
      HeldIsHit(d, status, id, input);
    }
  }

  /** It reports a hit exactly when the record holds what is wanted, and then changes nothing. */
  lemma HitsExactly(w: World, d: Disk, status: Status, conds: Conditions, id: Id, input: MavenInput)
    requires input.Valid() && input.details.Some? && input.client
    ensures var plan := MavenPlan(w, true, d, status, conds, id, input);
            && (plan.Flying? && plan.flight.hit <==>
                input.checksum.Body? && !input.local.cache && Held(d, status, id, input))
            && (plan.Flying? && plan.flight.hit ==>
                  plan.flight.job.pc.AtStatus? && plan.flight.okStatus == status && plan.flight.okConds == conds)
  {
    if input.checksum.Body? {
      HeldIsHit(d, status, id, input);
      HeldIsWhole(d, status, id, input);
    }
  }

  lemma HeldIsWhole(d: Disk, status: Status, id: Id, input: MavenInput)
    requires input.details.Some? && input.checksum.Body?
    ensures Held(d, status, id, input) ==> !Broken(d, id, input)
  {
    if Held(d, status, id, input) {
      var text, url := RecordText(d, id, input).value, input.details.value.url;
      assert (url + "|" + input.checksum.data)[|url|] == '|';
      assert text[|url|] == '|';
    }
  }

  /** What a fetch that goes on to the volume publishes, records and puts into status and conditions. */
  lemma FetchInstalls(w: World, d: Disk, status: Status, conds: Conditions, id: Id, input: MavenInput)
    requires ValidWorld(w) && input.Valid() && input.details.Some? && input.client && id.kind.Maven? && ValidId(id)
    ensures var plan := MavenPlan(w, true, d, status, conds, id, input);
            plan.Flying? && !plan.flight.hit ==>
              && Arrives(w, input) && Packing(w, input).Packed?
              && var f, det, c := plan.flight, input.details.value, input.checksum.data;
                 && f.job.dir == ["mavenartifact", id.ns, id.name] && f.job.final == c + ".tar.gz"
                 && f.job.tar == Packing(w, input).tar && f.job.pc.AtMkdir? && f.job.createFails == input.createFails
                 && f.job.record == Some(Record(det.fileName, det.url + "|" + c))
                 && f.failConds == conds && f.okConds == Conditions(conds.resolved, True)
                 && Installed(w, f.okStatus, status, id, input, f.job.tar)
  {
    var plan := MavenPlan(w, true, d, status, conds, id, input);
    if plan.Flying? && !plan.flight.hit {
      MissIsFetch(w, d, status, conds, id, input);
      FetchFlies(w, status, conds, id, input);
      NewStatusInstalled(w, status, id, input, plan.flight.job.tar);
    }
  }

  lemma MissIsFetch(w: World, d: Disk, status: Status, conds: Conditions, id: Id, input: MavenInput)
    requires input.Valid() && input.details.Some?
    ensures var plan := MavenPlan(w, true, d, status, conds, id, input);
            plan.Flying? && !plan.flight.hit ==>
              input.checksum.Body? && plan == FetchPlan(w, status, conds, id, input, input.checksum.data)
  {
  }

  lemma FetchFlies(w: World, status: Status, conds: Conditions, id: Id, input: MavenInput)
    requires input.Valid() && input.details.Some? && input.checksum.Body? && id.kind.Maven?
    ensures var plan := FetchPlan(w, status, conds, id, input, input.checksum.data);
            plan.Flying? ==>
              && Arrives(w, input) && Packing(w, input).Packed?
              && var f, det, c := plan.flight, input.details.value, input.checksum.data;
                 && f.job.dir == ["mavenartifact", id.ns, id.name] && f.job.final == c + ".tar.gz"
                 && f.job.tar == Packing(w, input).tar && f.job.pc.AtMkdir? && f.job.createFails == input.createFails
                 && f.job.record == Some(Record(det.fileName, det.url + "|" + c))
                 && f.failConds == conds && f.okConds == Conditions(conds.resolved, True)
                 && f.okStatus == NewStatus(w, status, id, input, det.fileName, c, f.job.tar)
  {
  }

  lemma NewStatusInstalled(w: World, status: Status, id: Id, input: MavenInput, tar: Bytes)
    requires ValidWorld(w) && input.details.Some? && Arrives(w, input) && id.kind.Maven? && ValidId(id)
    ensures Installed(w, NewStatus(w, status, id, input, input.details.value.fileName, input.checksum.data, tar),
                      status, id, input, tar)
  {
    Sha1Segment(w, input.artifact.data);
    HttpPathWritten(id, input.checksum.data + ".tar.gz");
    var path := HttpPath(id, input.checksum.data + ".tar.gz");
    assert path == "mavenartifact/" + id.ns + "/" + id.name + "/" + input.checksum.data + ".tar.gz";
  }

  /** The status names the tarball of the checksum at the host, with its path, its own checksum and the file
      name; the time is now unless the status said the same before. */
  predicate Installed(w: World, after: Status, before: Status, id: Id, input: MavenInput, tar: Bytes)
    requires input.details.Some? && input.checksum.Body?
  {
    var path := "mavenartifact/" + id.ns + "/" + id.name + "/" + input.checksum.data + ".tar.gz";
    && after.artifact.Some?
    && var a := after.artifact.value;
       && after.url == "http://" + JoinPath(input.host, path) && a.url == after.url && a.path == path
       && a.revision == input.details.value.fileName && a.checksum == w.sha1(tar)
       && if before.artifact == Some(a.(lastUpdate := SinceWhen(before))) then a.lastUpdate == SinceWhen(before)
          else a.lastUpdate == input.now
  }

  function SinceWhen(status: Status): int {
    if status.artifact.Some? then status.artifact.value.lastUpdate else 0
  }

  lemma HttpPathWritten(id: Id, file: string)
    requires id.kind.Maven? && ValidId(id) && ValidSegment(file)
    ensures HttpPath(id, file) == "mavenartifact/" + id.ns + "/" + id.name + "/" + file
  {
    HttpPathIsRendered(id, file);
    JoinFour(KindDir(Maven), id.ns, id.name, file);
    assert DirOf(id) + [file] == [KindDir(Maven), id.ns, id.name, file];
  }

  lemma JoinFour(a: string, b: string, c: string, d: string)
    ensures Join([a, b, c, d], '/') == a + "/" + b + "/" + c + "/" + d
  {
    assert [a, b, c, d][1..] == [b, c, d] && [b, c, d][1..] == [c, d] && [c, d][1..] == [d];
    assert Join([c, d], '/') == c + ['/'] + d;
    assert Join([b, c, d], '/') == b + ['/'] + (c + ['/'] + d);
    assert Join([a, b, c, d], '/') == a + ['/'] + (b + ['/'] + (c + ['/'] + d));
  }

  /** At a host that is a plain name, such as host:port, the URL is what one would write. */
  lemma UrlWritten(host: string, id: Id, file: string)
    requires id.kind.Maven? && ValidId(id) && ValidSegment(file) && ValidSegment(host)
    ensures JoinPath(host, HttpPath(id, file)) == host + "/" + HttpPath(id, file)
  {
    HttpPathIsRendered(id, file);
    KindDirValid(Maven);
    JoinedToName(host, DirOf(id) + [file]);
  }

  // ----- the download sync to its end -----

  /** A sync that ends in an error leaves status and conditions as they were. One that ends without has
      refused the artifact, has found it held, or has installed it. */
  lemma SyncVerdict(w: World, o: Outcome, id: Id, input: MavenInput, budget: nat)
    requires ValidWorld(w) && input.Valid() && input.details.Some? && input.client && id.kind.Maven? && ValidId(id)
    ensures var o' := Complete(MavenPlan(w, true, o.disk, o.status, o.conds, id, input), o.disk, o.status, budget);
            && (o'.err ==> o'.status == o.status && o'.conds == o.conds)
            && (!o'.err ==>
                  || o' == Outcome(o.disk, o.status, Conditions(o.conds.resolved, False), false)
                  || (o' == Outcome(o.disk, o.status, o.conds, false) && input.checksum.Body? &&
                      Held(o.disk, o.status, id, input))
                  || (o'.conds == Conditions(o.conds.resolved, True) && Arrives(w, input) &&
                      Packing(w, input).Packed? &&
                      Installed(w, o'.status, o.status, id, input, Packing(w, input).tar)))
  {
    EndsAtOnce(w, o.disk, o.status, o.conds, id, input);
    HitsExactly(w, o.disk, o.status, o.conds, id, input);
    FetchInstalls(w, o.disk, o.status, o.conds, id, input);
  }

  // ----- the two syncs before it -----

  predicate SecretMissing(input: SecretsInput, ns: string) {
    input.secretRef != "" && input.secret(ns, input.secretRef).NotFound?
  }

  /** The certificates that the client is to trust. */
  function Trusted(input: SecretsInput, ns: string): seq<Cert> {
    var answer := input.secret(ns, input.secretRef);
    if input.secretRef != "" && answer.Found? && answer.value.Some? then
      var data := answer.value.value;
      input.certs + [RawCert(if "caFile" in data then data["caFile"] else "")]
    else input.certs
  }

  lemma SecretsVerdict(input: SecretsInput, ns: string, conds: Conditions)
    ensures var r := SecretsStep(input, ns, conds);
            && r.conds == (if SecretMissing(input, ns) then Conditions(False, conds.available) else conds)
            && (r.err <==> (input.secretRef != "" && input.secret(ns, input.secretRef).ApiError?) ||
                           (!SecretMissing(input, ns) && !input.transportOk(Trusted(input, ns))))
            && (r.client == if r.err || SecretMissing(input, ns) then None else Some(Trusted(input, ns)))
            && (r.auth == if input.secretRef != "" && input.secret(ns, input.secretRef).Found?
                          then Some(input.secret(ns, input.secretRef).value) else None)
  {
  }

  /** What the repository says of the version, at a URL that may be asked. */
  function Resolved(input: VersionInput): Option<Resolver.Result> {
    if input.repo.Some? && input.repo.value.scheme == "https" then
      var a := input.artifact;
      Some(Resolver.Resolution(a, input.repo.value.text, Resolver.RequestPath(a), input.answers, a.version))
    else None
  }

  /** The version sync errs exactly when metadata are refused with a code to be retried, and leaves the
      conditions alone; otherwise its condition says whether the version is resolved. */
  lemma VersionVerdict(input: VersionInput, conds: Conditions)
    requires input.client
    ensures var r, ask := VersionStep(input, conds), Resolved(input);
            && (r.err <==> ask.Some? && ask.value.Err? && ask.value.error.Fetch? && Retried(ask.value.error.answer))
            && (r.err ==> r.conds == conds && r.details.None?)
            && (!r.err ==> r.conds.available == conds.available &&
                           r.conds.resolved == if ask.Some? && ask.value.Ok? then True else False)
            && (r.details == if ask.Some? && ask.value.Ok?
                             then Some(Details(ask.value.value.fileName, ask.value.value.version, ask.value.value.url))
                             else None)
  {
  }

  // ----- the reconcile -----

  /** A reconcile that ends in an error leaves the status and ArtifactAvailable as they were. One that ends
      without says so of the version, if that is not resolved, and otherwise of the artifact: it is not
      available, or the status is that of a held or of an installed tarball. */
  lemma ReconcileVerdict(w: World, o: Outcome, id: Id, inputs: Inputs, budget: nat)
    requires ValidWorld(w) && IsAbs(inputs.download.tmp) && id.kind.Maven? && ValidId(id)
    ensures var o' := ReconcileOutcome(w, o, id, inputs, budget);
            && (o'.err ==> o'.status == o.status && o'.conds.available == o.conds.available)
            && (!o'.err ==>
                  || o' == Outcome(o.disk, o.status, Conditions(False, o.conds.available), false)
                  || o' == Outcome(o.disk, o.status, Conditions(True, False), false)
                  || (o' == Outcome(o.disk, o.status, Conditions(True, o.conds.available), false) &&
                      o.status.artifact.Some?)
                  || (o'.conds == Conditions(True, True) && o'.status.artifact.Some? &&
                      o'.status.url == o'.status.artifact.value.url))
  {
    var s := SecretsStep(inputs.secrets, id.ns, o.conds);
    SecretsVerdict(inputs.secrets, id.ns, o.conds);
    if !s.err {
      if s.client.None? {
        UnresolvedTouchesNothing(w, o, id, inputs, budget);
      } else {
        VersionVerdict(ForVersion(s, inputs), s.conds);
        var v := VersionStep(ForVersion(s, inputs), s.conds);
        if !v.err {
          DownloadInputValid(s, s.conds, inputs);
          if v.details.Some? {
            SyncVerdict(w, o.(conds := v.conds), id, ForDownload(s, v, inputs), budget);
          }
        }
      }
    }
  }
}
