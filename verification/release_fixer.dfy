/** The release fixer: a `release` property the schema no longer allows is
    removed, from a package manifest by key (after checking that the version
    agrees with a non-GA release), and from any other file by dropping every
    line that mentions it. */
module ReleaseFixer {
  import opened Documents
  import opened Files
  import Text

  const ReleaseKey: string := "release"
  const VersionKey: string := "version"

  /** The text whose presence marks a line for removal in a non-manifest file. */
  const ReleaseLineMarker: string := "release: "

  /** Manifests are recognised by suffix alone: no separator is required
      before `manifest`. */
  predicate IsManifestFile(p: Path)
  {
    Text.HasSuffix(p, "manifest.yaml") || Text.HasSuffix(p, "manifest.yml")
  }

  /** The release value is "ga" in any letter case. */
  predicate IsGA(release: string)
  {
    Text.LowerAscii(release) == "ga"
  }

  /** A version that announces a pre-release: it carries a `-` tag, or its
      major segment (everything before the first `.`, or the whole string
      when there is none) is exactly "0". */
  predicate IsPreReleaseVersion(version: string)
  {
    '-' in version || Text.BeforeFirst(version, '.') == "0"
  }

  /** Only a lower-case "ga" is "ga" after lower-casing, so the test accepts
      exactly the four spellings of it. */
  lemma GAInAnyCase(release: string)
    ensures IsGA(release) <==> release in ["ga", "gA", "Ga", "GA"]
  {
    if IsGA(release) {
      assert |release| == 2;
      assert Text.LowerChar(release[0]) == 'g' && Text.LowerChar(release[1]) == 'a';
      assert release[0] in "gG" && release[1] in "aA";
      assert release == [release[0], release[1]];
    }
  }

  /** The manifest branch's consistency check fails: the release is not GA
      yet the version reads as a GA version. */
  ghost predicate VersionContradictsRelease(m: Manifest)
  {
    && ReleaseKey in m && m[ReleaseKey].Str? && !IsGA(m[ReleaseKey].s)
    && VersionKey in m && m[VersionKey].Str? && !IsPreReleaseVersion(m[VersionKey].s)
  }

  /** The type assertions Go performs hold: `release` is a string, and so is
      `version` whenever the release is not GA and the version is looked at. */
  ghost predicate AssertionsHold(m: Manifest)
  {
    && ReleaseKey in m && m[ReleaseKey].Str?
    && (IsGA(m[ReleaseKey].s) || (VersionKey in m && m[VersionKey].Str?))
  }

  datatype Removal = Removed(manifest: Manifest) | Mismatch | Panic

  /** The manifest rewrite of `ReleaseFixer.Fix`: check the version against
      the release, then delete `release` and nothing else. */
  function RemoveRelease(m: Manifest): (r: Removal)
    ensures r.Panic? <==> !AssertionsHold(m)
    ensures r.Mismatch? <==> AssertionsHold(m) && VersionContradictsRelease(m)
    ensures r.Removed? ==> r.manifest.Keys == m.Keys - {ReleaseKey}
    ensures r.Removed? ==> forall k :: k in r.manifest ==> r.manifest[k] == m[k]
  {
    if !(ReleaseKey in m && m[ReleaseKey].Str?) then Panic
    else if !IsGA(m[ReleaseKey].s) && !(VersionKey in m && m[VersionKey].Str?) then Panic
    else if !IsGA(m[ReleaseKey].s) && !IsPreReleaseVersion(m[VersionKey].s) then Mismatch
    else Removed(m - {ReleaseKey})
  }

  /** A GA release (in any letter case) is removed without looking at the
      version at all: it may be missing or of any type. */
  lemma GAReleaseIgnoresVersion(m: Manifest, v: Value)
    requires ReleaseKey in m && m[ReleaseKey].Str? && IsGA(m[ReleaseKey].s)
    ensures RemoveRelease(m).Removed? && RemoveRelease(m[VersionKey := v]).Removed?
    ensures RemoveRelease(m - {VersionKey}).Removed?
  {
  }

  /** The lines the line-filter pass writes back, in order. */
  function KeptLines(lines: seq<string>): (r: seq<string>)
    ensures |r| <= |lines|
    ensures forall i :: 0 <= i < |r| ==> !Text.Contains(r[i], ReleaseLineMarker)
    ensures forall l :: multiset(r)[l] == if Text.Contains(l, ReleaseLineMarker) then 0 else multiset(lines)[l]
  {
    if |lines| == 0 then []
    else
      assert lines == [lines[0]] + lines[1..];
      var rest := KeptLines(lines[1..]);
      if Text.Contains(lines[0], ReleaseLineMarker) then rest else [lines[0]] + rest
  }

  /** `a` can be obtained from `b` by deleting elements. */
  ghost predicate Subsequence(a: seq<string>, b: seq<string>)
    decreases |b|
  {
    || |a| == 0
    || (|b| > 0 && ((a[0] == b[0] && Subsequence(a[1..], b[1..])) || Subsequence(a, b[1..])))
  }

  /** The kept lines keep their relative order. */
  lemma {:induction false} KeptLinesInOrder(lines: seq<string>)
    ensures Subsequence(KeptLines(lines), lines)
  {
    if |lines| > 0 {
      KeptLinesInOrder(lines[1..]);
      var rest := KeptLines(lines[1..]);
      if !Text.Contains(lines[0], ReleaseLineMarker) {
        assert ([lines[0]] + rest)[1..] == rest;
      }
    }
  }

  lemma {:induction false} KeptLinesOfUnmarked(lines: seq<string>)
    requires forall i :: 0 <= i < |lines| ==> !Text.Contains(lines[i], ReleaseLineMarker)
    ensures KeptLines(lines) == lines
  {
    if |lines| > 0 {
      assert forall i :: 1 <= i < |lines| ==> lines[1..][i - 1] == lines[i];
      KeptLinesOfUnmarked(lines[1..]);
      assert lines == [lines[0]] + lines[1..];
    }
  }

  /** Filtering leaves a file alone exactly when no line mentions a release. */
  lemma {:induction false} KeptLinesFixpoint(lines: seq<string>)
    ensures KeptLines(lines) == lines <==> forall i :: 0 <= i < |lines| ==> !Text.Contains(lines[i], ReleaseLineMarker)
  {
    if forall i :: 0 <= i < |lines| ==> !Text.Contains(lines[i], ReleaseLineMarker) {
      KeptLinesOfUnmarked(lines);
    }
  }

  /** Filtering twice is filtering once. */
  lemma {:induction false} KeptLinesIdempotent(lines: seq<string>)
    ensures KeptLines(KeptLines(lines)) == KeptLines(lines)
  {
    KeptLinesFixpoint(KeptLines(lines));
  }

  /** What `ReleaseFixer.Fix` promises for the file at `path`, given the
      store `st` it starts from and the status and store `r` it ends with.
      Every failure leaves the store as it was. A missing file cannot be
      opened. A manifest that decodes is checked: a failed type assertion
      panics, a version contradicting the release is refused, and otherwise
      the manifest without `release` is written back. Any other file is
      rewritten with the lines that do not mention `release: `. The write
      itself fails only for a path that cannot be opened for writing. */
  ghost predicate Fixes(path: Path, st: Store, codec: Codec, r: Applied)
  {
    && (r.status != Done ==> r.store == st)
    && (r.status == Failed(OpenFailed(path)) <==> path !in st.files)
    && (path in st.files && IsManifestFile(path) ==>
          var parsed := codec.parseManifest(st.files[path]);
          && (r.status == Failed(ParseFailed(path)) <==> parsed.None?)
          && (r.status.Panicked? <==> parsed.Some? && !AssertionsHold(parsed.value))
          && (r.status == Failed(VersionIndicatesGA) <==>
                parsed.Some? && AssertionsHold(parsed.value) && VersionContradictsRelease(parsed.value))
          && (r.status == Failed(WriteFailed(path)) <==>
                parsed.Some? && AssertionsHold(parsed.value) && !VersionContradictsRelease(parsed.value)
                && path in st.readOnly)
          && (r.status.Done? <==>
                parsed.Some? && AssertionsHold(parsed.value) && !VersionContradictsRelease(parsed.value)
                && path !in st.readOnly)
          && (r.status.Done? ==>
                parsed.Some? && OnlyFileReplaced(st, r.store, path, codec.marshalManifest(parsed.value - {ReleaseKey}))))
    && (path in st.files && !IsManifestFile(path) ==>
          && (r.status.Done? <==> path !in st.readOnly)
          && (!r.status.Done? ==> r.status == Failed(WriteFailed(path)))
          && (r.status.Done? ==> OnlyFileReplaced(st, r.store, path, KeptLines(st.files[path]))))
  }

  /** `ReleaseFixer.Fix` on the file at `path`: a manifest is decoded, checked
      and written back without `release`; any other file goes through the
      line filter. */
  function Fix(path: Path, st: Store, codec: Codec): (r: Applied)
    ensures Fixes(path, st, codec, r)
  {
    if path !in st.files then Applied(Failed(OpenFailed(path)), st)
    else if IsManifestFile(path) then
      match codec.parseManifest(st.files[path])
      case None => Applied(Failed(ParseFailed(path)), st)
      case Some(m) =>
        match RemoveRelease(m)
        case Panic => Applied(Panicked, st)
        case Mismatch => Applied(Failed(VersionIndicatesGA), st)
        case Removed(after) =>
          match Overwrite(st, path, codec.marshalManifest(after))
          case WriteError(e) => Applied(Failed(e), st)
          case Written(st') => Applied(Done, st')
    else
      match Overwrite(st, path, KeptLines(st.files[path]))
      case WriteError(e) => Applied(Failed(e), st)
      case Written(st') => Applied(Done, st')
  }
}
