/** `load_entity_schema` (app.py:35-48): find an entity's schema file through
    its directory name and take the schema out of its optional envelope. The
    file system is an input: the schema files that exist, keyed by directory
    name, each either parsed or not parseable as JSON. */
module SchemaLoader {
  import opened JsonData
  import opened NameCodec

  /** The contents of one `validation_schema.json`. */
  datatype SchemaFile = Unparseable(reason: string) | Parsed(doc: Json)

  /** The three ways `load_entity_schema` ends: a schema, a
      `FileNotFoundError`, or any other exception (malformed JSON, or a
      document without a `get` method). */
  datatype LoadResult = Loaded(schema: Json) | NotFound(message: string) | LoadError(message: string)

  /** `root / part` for the path strings used here. */
  function JoinPath(root: string, part: string): string {
    if part == "" then root else if root == "" then part else root + "/" + part
  }

  function SchemaPath(root: string, dir: string): string {
    JoinPath(JoinPath(root, dir), "validation_schema.json")
  }

  /** `schema_data.get('schema', schema_data)`: the value under a top-level
      `schema` member when there is one, the whole document when there is
      not, and Python's `AttributeError` when the document is not an object. */
  function UnwrapEnvelope(doc: Json): Result<Json> {
    match doc
    case Object(m) => if "schema" in m then Ok(m["schema"]) else Ok(doc)
    case _ => Err("'" + TypeName(doc) + "' object has no attribute 'get'")
  }

  /** Wrapping a schema in an envelope, with or without further members such
      as `rules`, and unwrapping it gives the schema back; a plain schema
      object comes through unchanged. */
  lemma EnvelopeRoundTrip(schema: Json, others: map<string, Json>)
    ensures UnwrapEnvelope(Object(others["schema" := schema])) == Ok(schema)
    ensures "schema" !in others ==> UnwrapEnvelope(Object(others)) == Ok(Object(others))
  {
  }

  /** Looks the schema file up under the entity's directory name. */
  function LoadEntitySchema(root: string, files: map<string, SchemaFile>, entityName: string): (r: LoadResult)
    ensures var dir := ToDirectoryName(entityName);
            && (r.NotFound? <==> dir !in files)
            && (r.NotFound? ==> r.message == "Schema file not found: " + SchemaPath(root, dir))
            && (r.Loaded? <==> dir in files && files[dir].Parsed? && files[dir].doc.Object?)
            && (r.Loaded? ==> Ok(r.schema) == UnwrapEnvelope(files[dir].doc))
  {
    var dir := ToDirectoryName(entityName);
    if dir !in files then NotFound("Schema file not found: " + SchemaPath(root, dir))
    else
      match files[dir]
      case Unparseable(reason) => LoadError(reason)
      case Parsed(doc) =>
        match UnwrapEnvelope(doc)
        case Ok(schema) => Loaded(schema)
        case Err(message) => LoadError(message)
  }
}
