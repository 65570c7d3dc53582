/** Defaulting and validation of a MavenArtifact, and what they establish for the reconciler. */
module Admission {
  import opened Paths
  import Resolver

  datatype Repository = Repository(url: string, secretRef: string)

  /** Durations are in nanoseconds; a timeout that is nil is None. */
  datatype Spec = Spec(artifact: Resolver.Coordinates, repository: Repository, interval: int, timeout: Option<int>)

  /** url.Parse, of which only the scheme matters here, and validation.NameIsDNSLabel. */
  datatype Parsers = Parsers(scheme: string -> Option<string>, isLabel: string -> bool)

  datatype Field = GroupId | ArtifactId | Version | Type | Classifier | RepositoryURL | SecretName | Interval | Timeout

  datatype FieldError = Required(field: Field) | Invalid(field: Field)

  predicate ContainsPathTraversal(value: string) {
    value == ".." || '/' in value || '\\' in value
  }

  function Defaulted(s: Spec): Spec {
    s.(artifact := if s.artifact.typ == "" then s.artifact.(typ := "jar") else s.artifact,
       timeout := if s.timeout.None? then Some(s.interval) else s.timeout)
  }

  /** Which errors a spec deserves, field by field. */
  predicate Deserves(s: Spec, parsers: Parsers, e: FieldError) {
    var a := s.artifact;
    match e
    case Required(GroupId) => a.groupId == ""
    case Required(ArtifactId) => a.artifactId == ""
    case Required(Version) => a.version == ""
    case Required(RepositoryURL) => s.repository.url == ""
    case Required(_) => false
    case Invalid(GroupId) => ContainsPathTraversal(a.groupId)
    case Invalid(ArtifactId) => ContainsPathTraversal(a.artifactId)
    case Invalid(Version) => Resolver.IsRange(a.version) || ContainsPathTraversal(a.version)
    case Invalid(Type) => ContainsPathTraversal(a.typ)
    case Invalid(Classifier) => ContainsPathTraversal(a.classifier)
    case Invalid(RepositoryURL) => s.repository.url != "" && parsers.scheme(s.repository.url) != Some("https")
    case Invalid(SecretName) => s.repository.secretRef != "" && !parsers.isLabel(s.repository.secretRef)
    case Invalid(Interval) => s.interval <= 0
    case Invalid(Timeout) => s.timeout.Some? && s.timeout.value <= 0
  }

  class MavenArtifactSpec {
    var artifact: Resolver.Coordinates
    var repository: Repository
    var interval: int
    var timeout: Option<int>

    constructor (s: Spec)
      ensures Value() == s
    {
      artifact, repository, interval, timeout := s.artifact, s.repository, s.interval, s.timeout;
    }

    function Value(): Spec
      reads this
    {
      Spec(artifact, repository, interval, timeout)
    }

    method Default()
      modifies this`artifact, this`timeout
      ensures Value() == Defaulted(old(Value()))
    {
      if artifact.typ == "" {
        artifact := artifact.(typ := "jar");
      }
      if timeout.None? {
        timeout := Some(interval);
      }
    }

    /** The error list holds exactly the errors that the spec deserves. */
    method Validate(parsers: Parsers) returns (errs: seq<FieldError>)
      ensures forall e :: e in errs <==> Deserves(Value(), parsers, e)
      ensures errs == [] <==> Acceptable(Value(), parsers)
    {
      AdmittedExactly(Value(), parsers);
      errs := ValidateArtifact(parsers);
      var more := ValidateRepository(parsers);
      errs := errs + more;
      if interval <= 0 {
        errs := errs + [Invalid(Interval)];
      }
      if timeout.Some? && timeout.value <= 0 {
        errs := errs + [Invalid(Timeout)];
      }
      assert errs != [] ==> errs[0] in errs;
    }

    method ValidateArtifact(ghost parsers: Parsers) returns (errs: seq<FieldError>)
      ensures forall e :: e in errs <==>
                e.field in {GroupId, ArtifactId, Version, Type, Classifier} && Deserves(Value(), parsers, e)
    {
      errs := ValidateNames(parsers);
      if artifact.version == "" {
        errs := errs + [Required(Version)];
      } else if "[" <= artifact.version || "(" <= artifact.version {
        errs := errs + [Invalid(Version)];
      } else if ContainsPathTraversal(artifact.version) {
        errs := errs + [Invalid(Version)];
      }
      if artifact.typ != "" && ContainsPathTraversal(artifact.typ) {
        errs := errs + [Invalid(Type)];
      }
      if artifact.classifier != "" && ContainsPathTraversal(artifact.classifier) {
        errs := errs + [Invalid(Classifier)];
      }
    }

    /** The first two checks of the artifact's validate method. */
    method ValidateNames(ghost parsers: Parsers) returns (errs: seq<FieldError>)
      ensures forall e :: e in errs <==> e.field in {GroupId, ArtifactId} && Deserves(Value(), parsers, e)
    {
      errs := [];
      if artifact.groupId == "" {
        errs := errs + [Required(GroupId)];
      } else if ContainsPathTraversal(artifact.groupId) {
        errs := errs + [Invalid(GroupId)];
      }
      if artifact.artifactId == "" {
        errs := errs + [Required(ArtifactId)];
      } else if ContainsPathTraversal(artifact.artifactId) {
        errs := errs + [Invalid(ArtifactId)];
      }
    }

    method ValidateRepository(parsers: Parsers) returns (errs: seq<FieldError>)
      ensures forall e :: e in errs <==>
                e.field in {RepositoryURL, SecretName} && Deserves(Value(), parsers, e)
    {
      errs := [];
      if repository.url == "" {
        errs := errs + [Required(RepositoryURL)];
      } else {
        var scheme := parsers.scheme(repository.url);
        if scheme.None? {
          errs := errs + [Invalid(RepositoryURL)];
        } else if scheme.value != "https" {
          errs := errs + [Invalid(RepositoryURL)];
        }
      }
      var n := repository.secretRef;
      if n != "" {
        if !parsers.isLabel(n) {
          errs := errs + [Invalid(SecretName)];
        }
      }
    }
  }

  ghost predicate Admitted(s: Spec, parsers: Parsers) {
    forall e :: !Deserves(s, parsers, e)
  }

  // ----- which specs are admitted -----

  /** No directory of its own: no separator of either kind, and not the parent directory. */
  predicate Local(value: string) {
    value != ".." && forall i :: 0 <= i < |value| ==> value[i] != '/' && value[i] != '\\'
  }

  predicate OpensRange(version: string) {
    version != "" && (version[0] == '[' || version[0] == '(')
  }

  /** What validation asks of a spec, field by field. */
  predicate Acceptable(s: Spec, parsers: Parsers) {
    var a, r := s.artifact, s.repository;
    && a.groupId != "" && a.artifactId != "" && a.version != "" && !OpensRange(a.version)
    && Local(a.groupId) && Local(a.artifactId) && Local(a.version) && Local(a.typ) && Local(a.classifier)
    && r.url != "" && parsers.scheme(r.url) == Some("https")
    && (r.secretRef != "" ==> parsers.isLabel(r.secretRef))
    && s.interval > 0 && (s.timeout.Some? ==> s.timeout.value > 0)
  }

  lemma TraversalIsNotLocal(value: string)
    ensures ContainsPathTraversal(value) <==> !Local(value)
  {
    assert forall c :: c in value <==> exists i :: 0 <= i < |value| && value[i] == c;
  }

  lemma BracketOpensRange(version: string)
    ensures Resolver.IsRange(version) <==> OpensRange(version)
  {
    if version != "" {
      assert version[..1] == [version[0]];
    }
  }

  /** A field is complained of as missing exactly when it is mandatory and empty, and as invalid exactly
      when it does not hold what it should. */
  lemma ErrorsByField(s: Spec, parsers: Parsers)
    ensures var a, r := s.artifact, s.repository;
            && (Deserves(s, parsers, Required(GroupId)) <==> a.groupId == "")
            && (Deserves(s, parsers, Required(ArtifactId)) <==> a.artifactId == "")
            && (Deserves(s, parsers, Required(Version)) <==> a.version == "")
            && (Deserves(s, parsers, Required(RepositoryURL)) <==> r.url == "")
            && (forall f :: f !in {GroupId, ArtifactId, Version, RepositoryURL} ==> !Deserves(s, parsers, Required(f)))
            && (Deserves(s, parsers, Invalid(GroupId)) <==> !Local(a.groupId))
            && (Deserves(s, parsers, Invalid(ArtifactId)) <==> !Local(a.artifactId))
            && (Deserves(s, parsers, Invalid(Version)) <==> OpensRange(a.version) || !Local(a.version))
            && (Deserves(s, parsers, Invalid(Type)) <==> !Local(a.typ))
            && (Deserves(s, parsers, Invalid(Classifier)) <==> !Local(a.classifier))
            && (Deserves(s, parsers, Invalid(RepositoryURL)) <==>
                r.url != "" && (parsers.scheme(r.url).None? || parsers.scheme(r.url).value != "https"))
            && (Deserves(s, parsers, Invalid(SecretName)) <==> r.secretRef != "" && !parsers.isLabel(r.secretRef))
            && (Deserves(s, parsers, Invalid(Interval)) <==> s.interval <= 0)
            && (Deserves(s, parsers, Invalid(Timeout)) <==> s.timeout.Some? && s.timeout.value <= 0)
  {
    TraversalIsNotLocal(s.artifact.groupId);
    TraversalIsNotLocal(s.artifact.artifactId);
    TraversalIsNotLocal(s.artifact.version);
    TraversalIsNotLocal(s.artifact.typ);
    TraversalIsNotLocal(s.artifact.classifier);
    BracketOpensRange(s.artifact.version);
  }

  /** A spec is admitted exactly when it is acceptable. */
  lemma AdmittedExactly(s: Spec, parsers: Parsers)
    ensures Admitted(s, parsers) <==> Acceptable(s, parsers)
  {
    ErrorsByField(s, parsers);
    if Acceptable(s, parsers) {
      forall e ensures !Deserves(s, parsers, e) {
        match e
        case Required(f) =>
        case Invalid(f) =>
      }
    }
  }

  /** Letters, digits, dots, dashes and underscores. */
  predicate Ordinary(value: string) {
    forall c :: c in value ==>
      'a' <= c <= 'z' || 'A' <= c <= 'Z' || '0' <= c <= '9' || c == '.' || c == '-' || c == '_'
  }

  /** Ordinary coordinates are admitted, whatever they are apart from "..". */
  lemma OrdinaryIsAdmitted(s: Spec, parsers: Parsers)
    requires var a := s.artifact;
             && a.groupId != "" && a.artifactId != "" && a.version != ""
             && forall v :: v in [a.groupId, a.artifactId, a.version, a.typ, a.classifier] ==>
                  Ordinary(v) && v != ".."
    requires s.repository.url != "" && parsers.scheme(s.repository.url) == Some("https") && s.repository.secretRef == ""
    requires s.interval > 0 && s.timeout.None?
    ensures Admitted(s, parsers)
  {
    var a := s.artifact;
    var values := [a.groupId, a.artifactId, a.version, a.typ, a.classifier];
    assert a.groupId in values && a.artifactId in values && a.version in values;
    assert a.typ in values && a.classifier in values;
    forall v | v in values ensures Local(v) {
      assert forall i :: 0 <= i < |v| ==> v[i] in v;
    }
    assert a.version[0] in a.version;
    AdmittedExactly(s, parsers);
  }

  lemma AdmittedIsPlain(s: Spec, parsers: Parsers)
    requires Admitted(s, parsers)
    ensures Resolver.Plain(s.artifact) && !Resolver.IsRange(s.artifact.version)
    ensures parsers.scheme(s.repository.url) == Some("https") && s.interval > 0
  {
    assert !Deserves(s, parsers, Invalid(GroupId)) && !Deserves(s, parsers, Invalid(ArtifactId));
    assert !Deserves(s, parsers, Invalid(Version)) && !Deserves(s, parsers, Invalid(Type));
    assert !Deserves(s, parsers, Invalid(Classifier)) && !Deserves(s, parsers, Invalid(Interval));
    assert !Deserves(s, parsers, Required(RepositoryURL)) && !Deserves(s, parsers, Invalid(RepositoryURL));
  }

  /** A spec that is defaulted and then validates has a positive timeout and a type, and a pinned version
      of it resolves against any repository, whatever the repository answers. */
  lemma AdmissionSuffices(s: Spec, parsers: Parsers, repo: string, answers: Resolver.Answers)
    requires Admitted(Defaulted(s), parsers)
    ensures Defaulted(s).timeout.Some? && Defaulted(s).timeout.value > 0 && Defaulted(s).artifact.typ != ""
    ensures var a := Defaulted(s).artifact;
            Resolver.IsPinned(a.version) ==>
              Resolver.Resolution(a, repo, Resolver.RequestPath(a), answers, a.version) ==
              Resolver.Ok(Resolver.Resolved(a.version, a.version, Resolver.FileName(a, a.version),
                                             Resolver.PinnedURL(repo, a)))
  {
    var d := Defaulted(s);
    AdmittedIsPlain(d, parsers);
    assert !Deserves(d, parsers, Invalid(Timeout));
    Resolver.PlainFileName(d.artifact);
  }

  /** Admitted specs whose pinned artifacts share a URL of one repository name the same group, artifact and
      version, and the same file. */
  lemma AdmittedUrlsInjective(s: Spec, t: Spec, parsers: Parsers, repo: string)
    requires Admitted(s, parsers) && Admitted(t, parsers) && SharesUrl(repo, s, t)
    ensures var a, b := s.artifact, t.artifact;
            && a.groupId == b.groupId && a.artifactId == b.artifactId && a.version == b.version
            && Resolver.FileName(a, a.version) == Resolver.FileName(b, b.version)
            && ('.' !in a.typ && '.' !in b.typ ==> a == b)
  {
    AdmittedIsPlain(s, parsers);
    AdmittedIsPlain(t, parsers);
    Resolver.UrlsInjective(repo, s.artifact, t.artifact);
  }

  /** Among stored specs, which are defaulted and admitted, the pinned URL of an artifact is its own exactly
      when no other split of its classifier and type leaves a classifier and a type that admission takes. */
  lemma AdmittedUrlIsUnique(s: Spec, parsers: Parsers, repo: string)
    requires Stored(s, parsers)
    ensures (forall t :: Stored(t, parsers) && SharesUrl(repo, s, t) ==> t.artifact == s.artifact) <==>
            !(s.artifact.classifier != "" && exists i: nat :: AdmittedSplit(s.artifact, i))
  {
    AdmittedIsPlain(s, parsers);
    forall t | Stored(t, parsers) && SharesUrl(repo, s, t) && t.artifact != s.artifact
      ensures s.artifact.classifier != "" && exists i: nat :: AdmittedSplit(s.artifact, i)
    {
      SharedIsSplit(s, t, parsers, repo);
    }
    if s.artifact.classifier != "" && exists i: nat :: AdmittedSplit(s.artifact, i) {
      var i: nat :| AdmittedSplit(s.artifact, i);
      var t := s.(artifact := Resolver.Moved(s.artifact, i));
      SplitIsStored(s, parsers, i);
      Resolver.SharedUrl(repo, s.artifact, t.artifact);
      assert Stored(t, parsers) && SharesUrl(repo, s, t);
    }
  }

  /** As the API server stores it. */
  ghost predicate Stored(s: Spec, parsers: Parsers) {
    Defaulted(s) == s && Admitted(s, parsers)
  }

  predicate SharesUrl(repo: string, s: Spec, t: Spec) {
    Resolver.PinnedURL(repo, s.artifact) == Resolver.PinnedURL(repo, t.artifact)
  }

  /** Another dot at which classifier and type can be divided so that both are admitted. */
  predicate AdmittedSplit(a: Resolver.Coordinates, i: nat) {
    && Resolver.SplitsAt(a, i) && i != |a.classifier|
    && Resolver.Tail(a)[..i] != ".." && Resolver.Tail(a)[i + 1..] !in {"", ".."}
  }

  lemma SharedIsSplit(s: Spec, t: Spec, parsers: Parsers, repo: string)
    requires Stored(s, parsers) && Stored(t, parsers) && SharesUrl(repo, s, t) && t.artifact != s.artifact
    ensures s.artifact.classifier != "" && exists i: nat :: AdmittedSplit(s.artifact, i)
  {
    AdmittedIsPlain(s, parsers);
    AdmittedIsPlain(t, parsers);
    Resolver.SharedUrl(repo, s.artifact, t.artifact);
    var i: nat :| Resolver.SplitsAt(s.artifact, i) && t.artifact == Resolver.Moved(s.artifact, i);
    MovedIsAdmitted(s.artifact, i, t, parsers);
  }

  lemma MovedIsAdmitted(a: Resolver.Coordinates, i: nat, t: Spec, parsers: Parsers)
    requires Resolver.SplitsAt(a, i) && t.artifact == Resolver.Moved(a, i) && t.artifact != a && Stored(t, parsers)
    ensures AdmittedSplit(a, i)
  {
    Resolver.TailParts(a);
    assert !Deserves(t, parsers, Invalid(Type)) && !Deserves(t, parsers, Invalid(Classifier));
  }

  lemma SplitIsStored(s: Spec, parsers: Parsers, i: nat)
    requires Stored(s, parsers) && s.artifact.classifier != "" && AdmittedSplit(s.artifact, i)
    ensures Stored(s.(artifact := Resolver.Moved(s.artifact, i)), parsers)
    ensures Resolver.Plain(Resolver.Moved(s.artifact, i)) && Resolver.Moved(s.artifact, i) != s.artifact
  {
    AdmittedIsPlain(s, parsers);
    Resolver.MovedTail(s.artifact, i);
    var t := s.(artifact := Resolver.Moved(s.artifact, i));
    assert !Deserves(s, parsers, Invalid(Type)) && !Deserves(s, parsers, Invalid(Classifier));
    assert '\\' !in Resolver.Tail(s.artifact);
    forall e ensures !Deserves(t, parsers, e) {
      assert !Deserves(s, parsers, e);
    }
  }

  /** Only an empty type and a missing timeout are filled in. */
  lemma DefaultsAre(s: Spec)
    ensures var a, d := s.artifact, Defaulted(s);
            d == Spec(Resolver.Coordinates(a.groupId, a.artifactId, a.version,
                                           if a.typ == "" then "jar" else a.typ, a.classifier),
                      s.repository, s.interval, Some(if s.timeout.None? then s.interval else s.timeout.value))
  {
  }

  lemma DefaultIdempotent(s: Spec)
    ensures Defaulted(Defaulted(s)) == Defaulted(s)
    ensures s.timeout.Some? && s.artifact.typ != "" <==> Defaulted(s) == s
  {
  }
}
