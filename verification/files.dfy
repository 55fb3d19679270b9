/** The file system as the fixers see it, and the YAML codec they call.

    Files are held as their lines. Reading a missing file fails; overwriting
    replaces a file's whole contents in one step and fails, leaving the store
    as it was, for a path that cannot be created for writing. YAML decoding
    and encoding are parameters: the model does not look inside them. */
module Files {
  import opened Documents

  datatype Option<T> = None | Some(value: T)

  type Path = string

  /** A file's contents, line by line. */
  type Lines = seq<string>

  datatype Store = Store(files: map<Path, Lines>, readOnly: set<Path>)

  /** Errors a fix reports back to the command (its `error` return). */
  datatype FixError =
    | OpenFailed(path: Path)
    | ParseFailed(path: Path)
    | WriteFailed(path: Path)
    | VersionIndicatesGA

  /** How one `Fix` call ends: success, an error returned to the command, or
      a Go panic (a failed type assertion on a manifest value, or indexing
      the missing document node of an empty fields file). */
  datatype Status = Done | Failed(err: FixError) | Panicked

  /** A fix's status together with the file store it leaves behind. */
  datatype Applied = Applied(status: Status, store: Store)

  /** `after` is `before` with exactly file `p` replaced by `data`. */
  ghost predicate OnlyFileReplaced(before: Store, after: Store, p: Path, data: Lines)
  {
    && p in before.files
    && after.readOnly == before.readOnly
    && after.files.Keys == before.files.Keys
    && after.files[p] == data
    && forall q :: q in before.files && q != p ==> after.files[q] == before.files[q]
  }

  /** Decoding a fields file goes through a YAML node first: the text may not
      be YAML at all or may not hold field definitions (`Malformed`), or it
      may be YAML with no document node in it, as an empty file is
      (`NoDocument`). */
  datatype FieldsParse = Malformed | NoDocument | Parsed(fields: seq<Field>)

  /** `yaml.Unmarshal` / `yaml.Marshal` for the two document shapes. */
  datatype Codec = Codec(
    parseManifest: Lines -> Option<Manifest>,
    marshalManifest: Manifest -> Lines,
    parseFields: Lines -> FieldsParse,
    marshalFields: seq<Field> -> Lines)

  /** The result of one write: the new store, or the error `overwriteFile`
      returns. */
  datatype Write = Written(store: Store) | WriteError(err: FixError)

  /** `overwriteFile`: truncate-and-write the whole file. Only that one file
      changes; a path that cannot be opened for writing changes nothing. */
  function Overwrite(st: Store, p: Path, data: Lines): (w: Write)
    ensures w.Written? <==> p !in st.readOnly
    ensures w.WriteError? ==> w.err == WriteFailed(p)
    ensures w.Written? ==> w.store.readOnly == st.readOnly
    ensures w.Written? ==> p in w.store.files && w.store.files[p] == data
    ensures w.Written? ==> w.store.files.Keys == st.files.Keys + {p}
    ensures w.Written? ==> forall q :: q in st.files && q != p ==> w.store.files[q] == st.files[q]
  {
    if p in st.readOnly then WriteError(WriteFailed(p))
    else Written(st.(files := st.files[p := data]))
  }
}
