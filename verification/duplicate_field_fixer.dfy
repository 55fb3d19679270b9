/** The duplicate-field fixer: a fields file reported to define a field more
    than once is rewritten with every duplicate removed. A fixer remembers
    the files it has already rewritten in this run and does not touch them
    again, since one pass removes every duplicate in a file. */
module DuplicateFieldFixer {
  import opened Documents
  import opened Files
  import Dedup
  import Text

  /** The duplicate-field pattern only captures YAML file paths. */
  predicate IsFieldsFile(p: Path)
  {
    Text.HasSuffix(p, ".yaml") || Text.HasSuffix(p, ".yml")
  }

  /** The whole document, deduplicated from the top level: empty prefix and
      empty seed. */
  function DedupDocument(fs: seq<Field>): seq<Field>
  {
    Dedup.Dedup(fs, "", [])
  }

  /** A fix's status, the store it leaves, and the fixer's memo of rewritten
      files afterwards. */
  datatype MemoApplied = MemoApplied(status: Status, store: Store, fixedFiles: seq<Path>)

  /** What `DuplicateFieldFixer.Fix` promises for the file at `path`, given
      the memo `fixedFiles` and store `st` it starts from and the status,
      store and memo `r` it ends with. A file already in the memo is a
      success that touches nothing. Otherwise a missing file, text that does
      not decode to field definitions, or a path that cannot be opened for
      writing is an error; a YAML text with no document node makes Go index
      an empty slice and panic; and a successful fix writes back the
      deduplicated document and records the path. Every outcome but that
      write leaves store and memo as they were. */
  ghost predicate Fixes(path: Path, fixedFiles: seq<Path>, st: Store, codec: Codec, r: MemoApplied)
  {
    && (path in fixedFiles ==> r == MemoApplied(Done, st, fixedFiles))
    && (r.status != Done ==> r.store == st && r.fixedFiles == fixedFiles)
    && (path !in fixedFiles ==>
          && (r.status == Failed(OpenFailed(path)) <==> path !in st.files)
          && (path in st.files ==>
                var parsed := codec.parseFields(st.files[path]);
                && (r.status == Failed(ParseFailed(path)) <==> parsed.Malformed?)
                && (r.status.Panicked? <==> parsed.NoDocument?)
                && (r.status == Failed(WriteFailed(path)) <==> parsed.Parsed? && path in st.readOnly)
                && (r.status.Done? <==> parsed.Parsed? && path !in st.readOnly)
                && (r.status.Done? ==>
                      && parsed.Parsed?
                      && OnlyFileReplaced(st, r.store, path, codec.marshalFields(DedupDocument(parsed.fields)))
                      && r.fixedFiles == fixedFiles + [path])))
  }

  /** `DuplicateFieldFixer.Fix` for the file at `path`, given the files this
      fixer has already rewritten. */
  function Fix(path: Path, fixedFiles: seq<Path>, st: Store, codec: Codec): (r: MemoApplied)
    ensures Fixes(path, fixedFiles, st, codec, r)
  {
    if path in fixedFiles then MemoApplied(Done, st, fixedFiles)
    else if path !in st.files then MemoApplied(Failed(OpenFailed(path)), st, fixedFiles)
    else match codec.parseFields(st.files[path])
      case Malformed => MemoApplied(Failed(ParseFailed(path)), st, fixedFiles)
      case NoDocument => MemoApplied(Panicked, st, fixedFiles)
      case Parsed(fs) =>
        match Overwrite(st, path, codec.marshalFields(DedupDocument(fs)))
        case WriteError(e) => MemoApplied(Failed(e), st, fixedFiles)
        case Written(st') => MemoApplied(Done, st', fixedFiles + [path])
  }

  /** A second fix of a file already rewritten is a no-op success, whatever
      happened to the store in between. */
  lemma FixTwiceSameFile(path: Path, fixedFiles: seq<Path>, st: Store, st2: Store, codec: Codec)
    requires Fix(path, fixedFiles, st, codec).status.Done?
    ensures var r := Fix(path, fixedFiles, st, codec);
      Fix(path, r.fixedFiles, st2, codec) == MemoApplied(Done, st2, r.fixedFiles)
  {
  }

  /** The memo only ever grows, and only by the path just fixed. */
  lemma MemoGrowsOnlyOnSuccess(path: Path, fixedFiles: seq<Path>, st: Store, codec: Codec)
    ensures var r := Fix(path, fixedFiles, st, codec);
      && fixedFiles <= r.fixedFiles
      && (r.fixedFiles != fixedFiles <==> r.status.Done? && path !in fixedFiles)
      && (r.fixedFiles != fixedFiles ==> r.fixedFiles == fixedFiles + [path])
  {
  }
}
