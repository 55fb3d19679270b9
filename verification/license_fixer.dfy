/** The license fixer: a manifest that still carries a top-level `license`
    gets it moved to `conditions.elastic.subscription`. */
module LicenseFixer {
  import opened Documents
  import opened Files
  import Text

  const LicenseKey: string := "license"
  const ConditionsKey: string := "conditions"
  const ElasticKey: string := "elastic"
  const SubscriptionKey: string := "subscription"

  /** The license pattern only captures paths naming a manifest file. */
  predicate IsManifestPath(p: Path)
  {
    Text.HasSuffix(p, "/manifest.yaml") || Text.HasSuffix(p, "/manifest.yml")
  }

  /** What the fix needs to find: a string `license` and a mapping
      `conditions`. Anything else fails a Go type assertion. */
  ghost predicate Relocatable(m: Manifest)
  {
    && LicenseKey in m && m[LicenseKey].Str?
    && ConditionsKey in m && m[ConditionsKey].Mapping?
  }

  /** `after` is `before` with the license moved: no top-level `license`;
      `conditions.elastic` is exactly `{subscription: <license>}`, replacing
      any previous `elastic` entry; every other key, at the top level and
      inside `conditions`, keeps its value. */
  ghost predicate Relocates(before: Manifest, after: Manifest)
    requires Relocatable(before)
  {
    var c := before[ConditionsKey].entries;
    && after.Keys == before.Keys - {LicenseKey}
    && (forall k :: k in before && k != LicenseKey && k != ConditionsKey ==> after[k] == before[k])
    && after[ConditionsKey].Mapping?
    && after[ConditionsKey].entries.Keys == c.Keys + {ElasticKey}
    && after[ConditionsKey].entries[ElasticKey] == Mapping(map[SubscriptionKey := before[LicenseKey]])
    && (forall k :: k in c && k != ElasticKey ==> after[ConditionsKey].entries[k] == c[k])
  }

  datatype Relocation = Relocated(manifest: Manifest) | Panic

  /** The manifest rewrite of `LicenceFixer.Fix`. */
  function RelocateLicense(m: Manifest): (r: Relocation)
    ensures r.Relocated? <==> Relocatable(m)
    ensures r.Relocated? ==> Relocates(m, r.manifest)
  {
    if !(LicenseKey in m && m[LicenseKey].Str?) then Panic
    else
      var license := m[LicenseKey].s;
      var withoutLicense := m - {LicenseKey};
      if !(ConditionsKey in withoutLicense && withoutLicense[ConditionsKey].Mapping?) then Panic
      else
        var conditions := withoutLicense[ConditionsKey].entries;
        var elastic := Mapping(map[SubscriptionKey := Str(license)]);
        Relocated(withoutLicense[ConditionsKey := Mapping(conditions[ElasticKey := elastic])])
  }

  /** The relocation property pins the result down completely. */
  lemma RelocatesUnique(m: Manifest, a: Manifest, b: Manifest)
    requires Relocatable(m) && Relocates(m, a) && Relocates(m, b)
    ensures a == b
  {
    var ca := a[ConditionsKey].entries;
    var cb := b[ConditionsKey].entries;
    assert ca == cb;
    assert a[ConditionsKey] == b[ConditionsKey];
  }

  /** What `LicenceFixer.Fix` promises for the manifest at `path`, given the
      store `st` it starts from and the status and store `r` it ends with.
      Every failure leaves the store as it was. A missing file cannot be
      opened; a manifest that does not decode is a parse failure; one whose
      `license` or `conditions` has the wrong type panics; otherwise the
      relocated manifest is written back, which fails only for a path that
      cannot be opened for writing. */
  ghost predicate Fixes(path: Path, st: Store, codec: Codec, r: Applied)
  {
    && (r.status != Done ==> r.store == st)
    && (r.status == Failed(OpenFailed(path)) <==> path !in st.files)
    && (r.status.Failed? ==> r.status.err in {OpenFailed(path), ParseFailed(path), WriteFailed(path)})
    && (path in st.files ==>
          var parsed := codec.parseManifest(st.files[path]);
          && (r.status == Failed(ParseFailed(path)) <==> parsed.None?)
          && (r.status.Panicked? <==> parsed.Some? && !Relocatable(parsed.value))
          && (r.status == Failed(WriteFailed(path)) <==>
                parsed.Some? && Relocatable(parsed.value) && path in st.readOnly)
          && (r.status.Done? <==>
                parsed.Some? && Relocatable(parsed.value) && path !in st.readOnly)
          && (r.status.Done? ==>
                && parsed.Some? && Relocatable(parsed.value)
                && exists after :: Relocates(parsed.value, after)
                                && OnlyFileReplaced(st, r.store, path, codec.marshalManifest(after))))
  }

  /** `LicenceFixer.Fix` on the manifest at `path`: read, decode, relocate,
      encode, overwrite. */
  function Fix(path: Path, st: Store, codec: Codec): (r: Applied)
    ensures Fixes(path, st, codec, r)
  {
    if path !in st.files then Applied(Failed(OpenFailed(path)), st)
    else match codec.parseManifest(st.files[path])
      case None => Applied(Failed(ParseFailed(path)), st)
      case Some(m) =>
        match RelocateLicense(m)
        case Panic => Applied(Panicked, st)
        case Relocated(after) =>
          match Overwrite(st, path, codec.marshalManifest(after))
          case WriteError(e) => Applied(Failed(e), st)
          case Written(st') => Applied(Done, st')
  }
}
