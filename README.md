# BOOST schema validator: a verified model of the validation backend

The BOOST schema validator is a small web service. It lists the entities
whose JSON schemas live under a schema root. It parses each entity's markdown
field dictionary. It validates submitted data against an entity's schema, and
then runs a simplified business-rule check. This project models the logic of
the backend class `BOOSTWebValidator` (`backend/app.py`) in Dafny and proves
what that logic does.

Modules, one per part of the backend:

- `Text`: the Python `str` operations the backend relies on, over ASCII.
  These are `lower`, `upper`, `capitalize`, `strip`, `startswith`, `in`,
  `split` and `replace(ch, '')`.
- `Ordering`: Python's ordering of strings and `sorted()`, as a proved
  insertion sort.
- `NameCodec`: the two conversions between an entity name (`TraceableUnit`)
  and its schema directory name (`traceable_unit`), with their round trips.
- `JsonData`: parsed JSON values and the Python behaviours of those values
  the backend uses: truthiness, `dict.get`, and type names in exception texts.
- `EntityCatalog`: `get_available_entities`. It is a method with the source's
  loop, over a given sequence of directory entries.
- `SchemaLoader`: `load_entity_schema`, over a given map of schema files, and
  the unwrapping of the optional `{"schema": ...}` envelope.
- `DictionaryParser`: `_parse_dictionary_markdown`. The line loop and the
  inner row scan are methods, proved to compute `Run`, the state machine
  written as a function. Lemmas say what that state machine extracts: when
  each flag is set, which fields end up in the result, and what the overview
  text is.
- `EntityValidation`: `validate_entity`. It covers the required-field
  re-check loop, the exceptions that can interrupt it, and the result records
  of every path. How `jsonschema.validate` ended is an input.

## Model

| member | source | states |
|---|---|---|
| `NameCodec.DirectoryNameShape` | backend/app.py:38-39 | The directory name has no upper-case letter. It is longer than the entity name by the number of upper-case letters after the first character. With underscores dropped, it equals the lower-cased entity name with underscores dropped. Its first character is the lower-cased first character of the name. |
| `NameCodec.EntityRoundTrip` | backend/app.py:30-39 | Converting a name to its directory and back gives the name again exactly when the name has no `_` and does not start with a lower-case letter. `TraceableUnit` and `ABC` come back; `traceableUnit` and `Traceable_Unit` do not. |
| `NameCodec.DirectoryRoundTrip` | backend/app.py:30-39 | A snake_case directory name is found again from the entity name listed for it. Snake case here means: no upper-case letter, no empty segment, and every segment after the first opens with a lower-case letter. |
| `NameCodec.NoUnderscoreInEntityName` | backend/app.py:31 | No entity name derived from a directory contains an underscore. |
| `NameCodec.EntityNameFirst` | backend/app.py:31 | A directory name that does not start with `_` gives an entity name that starts with its first character upper-cased. |
| `Text.JoinSplit` | backend/app.py:31 | Splitting on a one-character separator loses nothing. No part holds the separator, and joining the parts with it gives back the string. |
| `Text.StripSpec` | backend/app.py:94-100 | `strip()` removes only whitespace, from both ends. What it keeps is a contiguous slice that neither starts nor ends with whitespace. |
| `Text.RemoveCharKeeps` | backend/app.py:126 | Removing every backtick keeps every other character exactly as often as the input has it. The function's own contract says no backtick remains. |
| `Ordering.SortStrings` | backend/app.py:33 | `sorted()` returns a permutation of its input, ordered by Python's string order. |
| `Ordering.SortedPermutationUnique` | backend/app.py:33 | Two ordered permutations of the same strings are equal. So the listing does not depend on the order in which the file system yields directories. |
| `EntityCatalog.GetAvailableEntities` | backend/app.py:24-33 | The listing is empty when the schema root does not exist. Otherwise it is sorted and is a permutation of the names collected by the loop. A name is listed exactly when some directory holding a schema file converts to it. |
| `EntityCatalog.CollectedNamesMembers` | backend/app.py:26-32 | A name is collected from the first `k` entries exactly when one of them is a directory with a schema file whose converted name it is. |
| `SchemaLoader.EnvelopeRoundTrip` | backend/app.py:48 | Wrapping a schema in an envelope, whatever other members it has, and unwrapping it gives the schema back. A plain object without a `schema` key comes through unchanged. |
| `SchemaLoader.LoadEntitySchema` | backend/app.py:35-48 | A schema file is looked up under the directory name of the entity. When it is absent, the result is `FileNotFoundError` with "Schema file not found: " and the path. A schema is returned exactly when the file parses to an object, and it is the unwrapped envelope. |
| `DictionaryParser.ParseDictionaryMarkdown` | backend/app.py:79-148 | The parser's loop computes `Parse`. That is the state machine run over every line, with the final overview stripped. |
| `DictionaryParser.ScanLine` | backend/app.py:92-108 | One turn of the loop is one `Step`. The `### Overview` line only opens the overview. A `###` line closes it. Other non-blank lines inside it are appended, stripped and followed by a space. Then come the table checks. |
| `DictionaryParser.TableLine` | backend/app.py:103-143 | The table checks of one turn are one `TableStep`. The open and close tags are substring tests, and the open tag takes precedence. A `<th>` line changes nothing. A `<tr>` line inside the table records a field when its row has at least four cells. |
| `DictionaryParser.ScanRow` | backend/app.py:116-128 | The inner scan returns `RowCells`: the cells of the lines after the `<tr>` line, up to the first line whose stripped text starts with `</tr>`, or to the end of the document. |
| `DictionaryParser.TdCaptureMatches` | backend/app.py:122-123 | The cell pattern matches exactly when some `<td>` is followed by a character other than `<`. The group is then the whole run of such characters after the first such `<td>`, so it is not empty and holds no `<`. |
| `DictionaryParser.RowCellSpec` | backend/app.py:120-127 | A line in a row gives a cell exactly when its stripped text starts with `<td>` and the pattern matches on the raw line. The cell is the group, stripped first and rid of backticks after. |
| `DictionaryParser.RowCellsNoBacktick` | backend/app.py:126 | No cell of a row holds a backtick. |
| `DictionaryParser.InOverviewIff` | backend/app.py:94-98 | The parser is inside the overview exactly when an overview heading has been read and no other line starting with `###` has been read since. |
| `DictionaryParser.InTableIff` | backend/app.py:103-108 | The parser is inside the table exactly when a line holding the open tag has been read, and no line holding the close tag without the open tag since. The overview heading line skips both tests. |
| `DictionaryParser.FieldsKeys` | backend/app.py:110-143 | A name is in the fields exactly when some row read so far defines it. Such a row starts at a `<tr>` line read inside the table, has at least four cells, and its first cell is the name. |
| `DictionaryParser.LastRowWins` | backend/app.py:131-143 | When several rows define the same name, the field is the one built from the last of them. It has the row's type, its `required` mark (`yes`, `required` or `true` after lower-casing), its description, and its fifth cell or `""`. |
| `DictionaryParser.OverviewSection` | backend/app.py:94-146 | Take a document with one overview heading whose section runs to the next `###` line or the end. Its overview is the section's non-blank lines, each stripped and followed by a space, with the whole then stripped. |
| `EntityValidation.CheckRequiredFields` | backend/app.py:172-183 | The loop reports one message per missing, null or empty field it reaches, in order, then the disabled-rules note. A list or dict field stops it with the "unhashable type" error instead of the note. The rules pass exactly when no field it reaches is missing. |
| `EntityValidation.CheckBusinessRules` | backend/app.py:174-183 | Over a loaded schema: the loop's outcome when `required` can be iterated, otherwise rules valid with the single "Business rule check error: " message. |
| `EntityValidation.MissingMessagesExact` | backend/app.py:175-178 | Every missing field gets its message, and every message names a missing field. |
| `EntityValidation.MissingMessagesEmpty` | backend/app.py:176-177 | There are no missing-field messages exactly when no field is missing. |
| `EntityValidation.RulesHoldIff` | backend/app.py:175-181 | The rules pass exactly when the loop reports a single message: the note, or the error of the field that stopped it. |
| `EntityValidation.CompleteDataPasses` | backend/app.py:174-181 | Data with a non-null, non-empty value under every required name passes, and the only message is the note. |
| `EntityValidation.ValidateEntity` | backend/app.py:150-216 | `valid` and `schema_valid` agree, and hold exactly when the schema loads and the data conforms. Every failure has business rules false and one error. The message is "Validation successful" exactly when both `valid` and the business rules hold. Each exception gives its own record. On success: a falsy `rules` gives no errors and valid rules. A truthy `rules` gives the required-field check's outcome, or its error when `required` cannot be iterated. |

## Left out

- The Flask routes, CORS, template rendering and the HTTP status codes (backend/app.py:17-18, 223-285) are web glue.
- The file system is an input. The directory listing, the existence of files and the contents of each schema file are parameters. Paths are plain strings joined with `/`; `pathlib` normalisation is not modelled.
- `jsonschema.validate` belongs to a foreign library. Its outcome is the input `SchemaCheck`: conforming data, a `ValidationError` text, or any other exception text.
- `get_entity_example` and `get_entity_dictionary` (backend/app.py:50-77) are file glue. `get_entity_example` returns the parsed example file, or `{}` when there is none; it never uses the parser. `get_entity_dictionary` returns an `{"error": ...}` record when the dictionary file is missing or cannot be read, and otherwise the parser's result. Beyond the name conversion and the parser, both modelled, they only read files.
- `table_headers` (backend/app.py:110-113) is collected but never used. The model keeps the `<th>` branch, which changes nothing else.
- Regular expressions are modelled only for the `<td>` pattern (backend/app.py:122), as a hand-written scan. The `<th>` pattern (backend/app.py:112) only feeds `table_headers`. `str.split('\n')` is modelled exactly. Python's universal-newline translation on file reads is not.
- Casing and whitespace are those of ASCII. `isupper`, `lower`, `upper`, `capitalize` and `strip` on other Unicode characters are not modelled.
- JSON numbers other than integers (floats) are not modelled.
- JSON objects are maps, so key order is lost. This matters in two places. When `required` is itself an object, Python iterates it by key order; `ValidateEntity` requires that case away, and the meta-schema of every JSON Schema draft rejects such a schema (draft 3 wants a boolean there, later drafts an array). The parser's `fields` (backend/app.py:88, 143) is an insertion-ordered dict in which a redefined name keeps its first position; `Dictionary.fields` is a `map` and does not keep that order.
- Non-object `test_data` is not modelled: `testData` is a map. The route passes whatever JSON the client sent, and a list or string can pass a schema that does not constrain `type`. The loop at backend/app.py:175-177 would then test list or substring membership, and its indexing would raise a `TypeError` reported through backend/app.py:183.
- `ValidateEntity` reads the schema file once. It assumes the second read at backend/app.py:168-169 sees the same file as the first.
- The required-field messages use Python's `str()` of the field for `None`, booleans, integers and strings. Other field types stop the loop with the unhashable error before any message is formatted.
- Three behaviours of backend/app.py that a reader might expect otherwise:
  - A schema violation yields the `str()` of the single `ValidationError` that `jsonschema.validate` raises, its `best_match` among all violations. There are no error categories and no `errors_by_type`.
  - The business-rule check runs when `rules` is truthy, not merely present.
  - The overview keeps each line's inner whitespace and ends each line with a single space before the final `strip()`. It is not otherwise normalised.
