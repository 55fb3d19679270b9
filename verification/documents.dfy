/** The already-parsed documents the fixers work on. YAML parsing and
    serialisation are not modelled: a manifest is the untyped mapping Go
    decodes it into, and a fields file is the list of field definitions. */
module Documents {

  /** An untyped YAML value as `yaml.Unmarshal` produces it into an
      `interface{}`: scalars, sequences and string-keyed mappings. */
  datatype Value =
    | Null
    | Bool(b: bool)
    | Int(i: int)
    | Str(s: string)
    | List(items: seq<Value>)
    | Mapping(entries: map<string, Value>)

  /** A package manifest decoded into `map[string]interface{}`. */
  type Manifest = map<string, Value>

  /** One node of a data stream's field-definition tree. `kind` is the
      field's `type` attribute; `attrs` stands for every other attribute
      (description, unit, ...), which deduplication carries along untouched;
      `fields` holds the children of a `group`. */
  datatype Field = Field(name: string, kind: string, attrs: map<string, Value>, fields: seq<Field>)

  /** The `type` that makes a field a group whose children are scoped
      under its name. */
  const GroupKind: string := "group"
}
