/** The closed set of fixers behind one capability: `Type`, `Detect` and
    `Fix`. `Detect` matches an error's text against the fixer's pattern and,
    on a match, stores what it captured; `Fix` acts on what the last
    successful `Detect` stored. */
module Fixers {
  import opened Documents
  import opened Files
  import LicenseFixer
  import ReleaseFixer
  import DuplicateFieldFixer
  import Text

  /** The fixers' regular expressions, as partial parses of an error's text.
      Each returns the capture groups on a match: the file path for the
      license and release patterns, the field name and file path for the
      duplicate-field pattern. The file-name suffixes the license and
      duplicate-field patterns insist on are checked by `Detect` itself. */
  datatype Patterns = Patterns(
    license: string -> Option<Path>,
    release: string -> Option<Path>,
    duplicateField: string -> Option<(string, Path)>)

  /** A fixer with the context its last successful `Detect` stored; a fresh
      fixer holds empty strings. */
  datatype Fixer =
    | License(manifestFilePath: Path)
    | Release(filePath: Path)
    | DuplicateField(field: string, filePath: Path, fixedFiles: seq<Path>)

  /** `Type()`: the name a fixer is reported under; each kind has its own. */
  function Type(f: Fixer): (t: string)
    ensures t == "license" <==> f.License?
    ensures t == "release" <==> f.Release?
    ensures t == "duplicate field" <==> f.DuplicateField?
  {
    match f
    case License(_) => "license"
    case Release(_) => "release"
    case DuplicateField(_, _, _) => "duplicate field"
  }

  /** The file the fixer would rewrite. */
  function Target(f: Fixer): Path
  {
    match f
    case License(p) => p
    case Release(p) => p
    case DuplicateField(_, p, _) => p
  }

  /** Whether the error's text matches the fixer's pattern; this depends on
      the kind of fixer only, never on what it stored earlier. */
  predicate Matches(f: Fixer, e: string, pats: Patterns)
  {
    match f
    case License(_) =>
      pats.license(e).Some? && LicenseFixer.IsManifestPath(pats.license(e).value)
    case Release(_) =>
      pats.release(e).Some?
    case DuplicateField(_, _, _) =>
      pats.duplicateField(e).Some? && DuplicateFieldFixer.IsFieldsFile(pats.duplicateField(e).value.1)
  }

  datatype Detection = Detection(matched: bool, fixer: Fixer)

  /** `Detect(e)`: on a match, store the captures and report true; on a miss,
      report false and keep everything stored before. The duplicate-field
      fixer's memo of rewritten files survives either way. */
  function Detect(f: Fixer, e: string, pats: Patterns): (d: Detection)
    ensures d.matched <==> Matches(f, e, pats)
    ensures !d.matched ==> d.fixer == f
    ensures Type(d.fixer) == Type(f)
    ensures d.fixer.License? && d.matched ==>
      d.fixer.manifestFilePath == pats.license(e).value && LicenseFixer.IsManifestPath(d.fixer.manifestFilePath)
    ensures d.fixer.Release? && d.matched ==> d.fixer.filePath == pats.release(e).value
    ensures d.fixer.DuplicateField? && d.matched ==>
      && (d.fixer.field, d.fixer.filePath) == pats.duplicateField(e).value
      && DuplicateFieldFixer.IsFieldsFile(d.fixer.filePath)
      && d.fixer.fixedFiles == f.fixedFiles
  {
    match f
    case License(_) =>
      (match pats.license(e)
       case Some(p) => if LicenseFixer.IsManifestPath(p) then Detection(true, License(p)) else Detection(false, f)
       case None => Detection(false, f))
    case Release(_) =>
      (match pats.release(e)
       case Some(p) => Detection(true, Release(p))
       case None => Detection(false, f))
    case DuplicateField(_, _, memo) =>
      (match pats.duplicateField(e)
       case Some((field, p)) =>
         if DuplicateFieldFixer.IsFieldsFile(p) then Detection(true, DuplicateField(field, p, memo)) else Detection(false, f)
       case None => Detection(false, f))
  }

  /** A fix's status, the store it leaves, and the fixer afterwards. */
  datatype FixStep = FixStep(status: Status, store: Store, fixer: Fixer)

  /** `Fix()`: act on the stored target, as the kind of fixer prescribes.
      Only that file can change, and only on success; the fixer keeps its
      stored context, and only the duplicate-field fixer's memo can grow. */
  function Fix(f: Fixer, st: Store, codec: Codec): (r: FixStep)
    ensures r.status != Done ==> r.store == st
    ensures r.status.Done? ==> r.store.readOnly == st.readOnly && r.store.files.Keys == st.files.Keys
    ensures forall p :: p in st.files && p != Target(f) ==> p in r.store.files && r.store.files[p] == st.files[p]
    ensures r.status.Panicked? && f.Release? ==> ReleaseFixer.IsManifestFile(Target(f))
    ensures Type(r.fixer) == Type(f) && Target(r.fixer) == Target(f)
    ensures !f.DuplicateField? ==> r.fixer == f
  {
    match f
    case License(p) =>
      var a := LicenseFixer.Fix(p, st, codec);
      FixStep(a.status, a.store, f)
    case Release(p) =>
      var a := ReleaseFixer.Fix(p, st, codec);
      FixStep(a.status, a.store, f)
    case DuplicateField(field, p, memo) =>
      var a := DuplicateFieldFixer.Fix(p, memo, st, codec);
      FixStep(a.status, a.store, DuplicateField(field, p, a.fixedFiles))
  }

  /** `Fix()` does what the kind of fixer prescribes: the license fixer
      relocates the license, the release fixer removes the release, and the
      duplicate-field fixer deduplicates the file or finds it already done. */
  lemma FixByKind(f: Fixer, st: Store, codec: Codec)
    ensures var r := Fix(f, st, codec);
      && (f.License? ==> LicenseFixer.Fixes(f.manifestFilePath, st, codec, Applied(r.status, r.store)))
      && (f.Release? ==> ReleaseFixer.Fixes(f.filePath, st, codec, Applied(r.status, r.store)))
      && (f.DuplicateField? ==>
            && r.fixer.DuplicateField? && r.fixer.field == f.field
            && DuplicateFieldFixer.Fixes(f.filePath, f.fixedFiles, st, codec,
                                         DuplicateFieldFixer.MemoApplied(r.status, r.store, r.fixer.fixedFiles)))
  {
  }

  /** A path the license pattern accepts is one the release fixer treats as a
      manifest. */
  lemma ManifestPathIsManifestFile(p: Path)
    requires LicenseFixer.IsManifestPath(p)
    ensures ReleaseFixer.IsManifestFile(p)
  {
    if Text.HasSuffix(p, "/manifest.yaml") {
      assert p[|p| - 13..] == p[|p| - 14..][1..];
    } else {
      assert p[|p| - 12..] == p[|p| - 13..][1..];
    }
  }
}
