/** The secrets and version syncs of a MavenArtifact, and a reconcile from there to the served file. */
module VersionSync {
  import opened Paths
  import opened Publish
  import opened ObjectStatus
  import opened Remote
  import opened Sync
  import Resolver
  import MavenSync

  /** The parsed repository URL: its scheme and its String(). */
  datatype RepoURL = RepoURL(scheme: string, text: string)

  datatype VersionInput = VersionInput(
    client: bool, artifact: Resolver.Coordinates, repo: Option<RepoURL>, answers: Resolver.Answers)

  datatype VersionResult = VersionResult(conds: Conditions, details: Option<MavenSync.Details>, err: bool)

  // ----- the secrets sync -----

  /** One of the three ways to give a certificate. */
  datatype Cert = PathCert(path: string) | ParsedCert(der: string) | RawCert(pem: string)

  /** The data of a Secret; None is nil. */
  type SecretData = Option<map<string, string>>

  /** `secret` answers for a namespace and a name; `transportOk` says whether newTransport takes the
      certificates. */
  datatype SecretsInput = SecretsInput(
    secretRef: string, certs: seq<Cert>, secret: (string, string) -> ApiAnswer<SecretData>,
    transportOk: seq<Cert> -> bool)

  /** The client is described by the certificates that it trusts. */
  datatype SecretsResult = SecretsResult(
    conds: Conditions, auth: Option<SecretData>, client: Option<seq<Cert>>, err: bool)

  function CertsWith(certs: seq<Cert>, data: SecretData): seq<Cert> {
    if data.None? then certs
    else certs + [RawCert(if "caFile" in data.value then data.value["caFile"] else "")]
  }

  function SecretsStep(input: SecretsInput, ns: string, conds: Conditions): SecretsResult {
    if input.secretRef == "" then
      if input.transportOk(input.certs) then SecretsResult(conds, None, Some(input.certs), false)
      else SecretsResult(conds, None, None, true)
    else
      match input.secret(ns, input.secretRef)
      case NotFound => SecretsResult(conds.(resolved := False), None, None, false)
      case ApiError => SecretsResult(conds, None, None, true)
      case Found(data) =>
        var certs := CertsWith(input.certs, data);
        if input.transportOk(certs) then SecretsResult(conds, Some(data), Some(certs), false)
        else SecretsResult(conds, Some(data), None, true)
  }

  method SecretsSync(parent: MavenSync.MavenArtifact, input: SecretsInput)
    returns (auth: Option<SecretData>, client: Option<seq<Cert>>, err: bool)
    modifies parent`conds
    ensures SecretsResult(parent.conds, auth, client, err) == SecretsStep(input, parent.id.ns, old(parent.conds))
  {
    auth, client, err := None, None, false;
    var data: SecretData := None;
    if input.secretRef != "" {
      var answer := input.secret(parent.id.ns, input.secretRef);
      if !answer.Found? {
        if answer.NotFound? {
          parent.conds := parent.conds.(resolved := False);
          return;
        }
        err := true;
        return;
      }
      data := answer.value;
      auth := Some(data);
    }
    var certs := input.certs;
    if data.Some? {
      certs := certs + [RawCert(if "caFile" in data.value then data.value["caFile"] else "")];
    }
    if !input.transportOk(certs) {
      err := true;
      return;
    }
    client := Some(certs);
  }

  /** The client trusts the configured certificates and at most one more, in their order; the further one
      is there exactly when the secret that is named has data, and holds its CA file. A client is missing
      exactly after an error or for a secret that does not exist. */
  lemma ClientTrusts(input: SecretsInput, ns: string, conds: Conditions)
    ensures var r := SecretsStep(input, ns, conds);
            && (r.client.None? <==> r.err || (input.secretRef != "" && input.secret(ns, input.secretRef).NotFound?))
            && (r.client.Some? ==>
                  var certs, n := r.client.value, |input.certs|;
                  && input.certs <= certs && n <= |certs| <= n + 1 && input.transportOk(certs)
                  && (|certs| == n + 1 <==> r.auth.Some? && r.auth.value.Some?)
                  && (|certs| == n + 1 ==> certs[n].RawCert?)
                  && (|certs| == n + 1 && "caFile" in r.auth.value.value ==>
                        certs[n] == RawCert(r.auth.value.value["caFile"])))
  {
  }

  // ----- the version sync -----

  function Unresolved(conds: Conditions): VersionResult {
    VersionResult(conds.(resolved := False), None, false)
  }

  function VersionStep(input: VersionInput, conds: Conditions): VersionResult {
    if !input.client then VersionResult(conds, None, false)
    else if input.repo.None? || input.repo.value.scheme != "https" then Unresolved(conds)
    else
      var a := input.artifact;
      match Resolver.Resolution(a, input.repo.value.text, Resolver.RequestPath(a), input.answers, a.version)
      case Ok(r) =>
        VersionResult(conds.(resolved := True), Some(MavenSync.Details(r.fileName, r.version, r.url)), false)
      case Err(Fetch(DownloadError(code))) =>
        if MavenSync.Retryable(code) then VersionResult(conds, None, true) else Unresolved(conds)
      case Err(_) => Unresolved(conds)
  }

  method VersionSync(parent: MavenSync.MavenArtifact, input: VersionInput)
    returns (details: Option<MavenSync.Details>, err: bool)
    modifies parent`conds
    ensures VersionResult(parent.conds, details, err) == VersionStep(input, old(parent.conds))
  {
    details := None;
    if !input.client {
      return None, false;
    }
    if input.repo.None? {
      parent.conds := parent.conds.(resolved := False);
      return None, false;
    }
    if input.repo.value.scheme != "https" {
      parent.conds := parent.conds.(resolved := False);
      return None, false;
    }
    var mr := new Resolver.MavenResolver(input.artifact, input.repo.value.text, Resolver.RequestPath(input.artifact));
    var e := mr.Resolve(input.answers);
    if e.Some? {
      if e.value.Fetch? && e.value.answer.DownloadError? {
        if e.value.answer.code == 429 {
          return None, true;
        }
        if e.value.answer.code >= 500 {
          return None, true;
        }
      }
      parent.conds := parent.conds.(resolved := False);
      return None, false;
    }
    parent.conds := parent.conds.(resolved := True);
    return Some(MavenSync.Details(mr.resolvedFilename, mr.artifact.version, mr.downloadURL)), false;
  }

  /** Details are stashed only with the condition True, and always with a plain file name, so that the
      download sync never joins anything else to its directories. */
  lemma StashedDetails(input: VersionInput, conds: Conditions)
    ensures var r := VersionStep(input, conds);
            r.details.Some? ==>
              && r.conds.resolved == True && !r.err && ValidSegment(r.details.value.fileName)
              && r.details.value.url ==
                 Resolver.DownloadURL(input.repo.value.text, Resolver.RequestPath(input.artifact),
                                      r.details.value.version, r.details.value.fileName)
    ensures var r := VersionStep(input, conds); r.details.None? && !r.err && input.client ==> r.conds.resolved == False
  {
    if input.repo.Some? {
      var a := input.artifact;
      Resolver.ResolvedShape(a, input.repo.value.text, Resolver.RequestPath(a), input.answers, a.version);
    }
  }

  // ----- the sequence -----

  datatype Inputs = Inputs(secrets: SecretsInput, version: VersionInput, download: MavenSync.MavenInput)

  /** The version input after the secrets sync, and the download input after the version sync. */
  function ForVersion(s: SecretsResult, inputs: Inputs): VersionInput {
    inputs.version.(client := s.client.Some?)
  }

  function ForDownload(s: SecretsResult, v: VersionResult, inputs: Inputs): MavenSync.MavenInput {
    inputs.download.(details := v.details, client := s.client.Some?)
  }

  lemma DownloadInputValid(s: SecretsResult, conds: Conditions, inputs: Inputs)
    requires IsAbs(inputs.download.tmp)
    ensures ForDownload(s, VersionStep(ForVersion(s, inputs), conds), inputs).Valid()
  {
    StashedDetails(ForVersion(s, inputs), conds);
  }

  ghost function ReconcileOutcome(w: World, o: Outcome, id: Id, inputs: Inputs, budget: nat): Outcome
    requires IsAbs(inputs.download.tmp)
  {
    var s := SecretsStep(inputs.secrets, id.ns, o.conds);
    if s.err then Outcome(o.disk, o.status, s.conds, true)
    else
      var v := VersionStep(ForVersion(s, inputs), s.conds);
      if v.err then Outcome(o.disk, o.status, v.conds, true)
      else
        DownloadInputValid(s, s.conds, inputs);
        var plan := MavenSync.MavenPlan(w, true, o.disk, o.status, v.conds, id, ForDownload(s, v, inputs));
        Complete(plan, o.disk, o.status, budget)
  }

  /** The three sub-reconcilers in their sequence, which an error stops. */
  method Reconcile(parent: MavenSync.MavenArtifact, w: World, vol: ServedVolume, inputs: Inputs) returns (err: bool)
    requires IsAbs(inputs.download.tmp)
    modifies parent, vol
    ensures Outcome(vol.disk, parent.status, parent.conds, err) ==
            ReconcileOutcome(w, old(Outcome(vol.disk, parent.status, parent.conds, false)), parent.id, inputs,
                             old(vol.budget))
  {
    ghost var s := SecretsStep(inputs.secrets, parent.id.ns, parent.conds);
    DownloadInputValid(s, s.conds, inputs);
    var auth, client, details;
    auth, client, err := SecretsSync(parent, inputs.secrets);
    if err {
      return;
    }
    details, err := VersionSync(parent, inputs.version.(client := client.Some?));
    if err {
      return;
    }
    err := parent.DownloadSync(w, vol, inputs.download.(details := details, client := client.Some?));
  }

  /** A reconcile in which neither of the first two syncs fails and no details are stashed leaves volume and
      status as they were and marks the version as not resolved. A missing secret does so whatever the
      repository would answer. */
  lemma UnresolvedTouchesNothing(w: World, o: Outcome, id: Id, inputs: Inputs, budget: nat)
    requires IsAbs(inputs.download.tmp)
    ensures var s := SecretsStep(inputs.secrets, id.ns, o.conds);
            var v := VersionStep(ForVersion(s, inputs), s.conds);
            var ref := inputs.secrets.secretRef;
            (!s.err && !v.err && v.details.None?) || (ref != "" && inputs.secrets.secret(id.ns, ref).NotFound?) ==>
              ReconcileOutcome(w, o, id, inputs, budget) ==
              Outcome(o.disk, o.status, o.conds.(resolved := False), false)
  {
    var s := SecretsStep(inputs.secrets, id.ns, o.conds);
    DownloadInputValid(s, s.conds, inputs);
    StashedDetails(ForVersion(s, inputs), s.conds);
  }
}
