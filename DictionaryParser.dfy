/** `_parse_dictionary_markdown` (app.py:79-148): reads an entity's field
    dictionary, a markdown document with an `### Overview` section and an HTML
    table with one field per `<tr>` row and one cell per `<td>` line.

    `Run` is the line-by-line state machine as a function of the document;
    `ParseDictionaryMarkdown` is the loop itself, proved to compute it; the
    lemmas at the end say what the state machine extracts. */
module DictionaryParser {
  import opened Text

  const OverviewHeading := "### Overview"
  const TableOpen := "<table class=\"data\">"
  const TableClose := "</table>"

  /** One row of the field table. */
  datatype Field = Field(fieldType: string, required: bool, description: string, examples: string)

  /** The parsed document: the overview text and the fields by name. */
  datatype Dictionary = Dictionary(overview: string, fields: map<string, Field>)

  // ---------------------------------------------------------------------------
  // One cell: `re.search(r'<td>([^<]+)', line)`

  /** A `<td>` tag at `p` followed by at least one character other than `<`:
      a place where the pattern matches. */
  predicate CellOpensAt(line: string, p: int) {
    0 <= p && p + 4 < |line| && line[p..p + 4] == "<td>" && line[p + 4] != '<'
  }

  /** The first place at which the pattern matches. */
  predicate IsFirstCellOpen(line: string, p: int) {
    CellOpensAt(line, p) && forall q :: 0 <= q < p ==> !CellOpensAt(line, q)
  }

  /** The end of the run of characters other than `<` that starts at `q`. */
  function RunEnd(line: string, q: nat): (e: nat)
    requires q <= |line|
    ensures q <= e <= |line|
    decreases |line| - q
  {
    if q == |line| || line[q] == '<' then q else RunEnd(line, q + 1)
  }

  lemma {:induction false} RunEndSpec(line: string, q: nat)
    requires q <= |line|
    ensures forall m :: q <= m < RunEnd(line, q) ==> line[m] != '<'
    ensures RunEnd(line, q) == |line| || line[RunEnd(line, q)] == '<'
    decreases |line| - q
  {
    if q < |line| && line[q] != '<' {
      RunEndSpec(line, q + 1);
    }
  }

  /** The first match at or after `p`. */
  function FirstCellOpen(line: string, p: nat): (r: Option<nat>)
    requires p <= |line|
    ensures r.Some? ==> p <= r.value && r.value + 4 < |line|
    decreases |line| - p
  {
    if p + 4 >= |line| then None
    else if CellOpensAt(line, p) then Some(p)
    else FirstCellOpen(line, p + 1)
  }

  lemma {:induction false} FirstCellOpenSpec(line: string, p: nat)
    requires p <= |line|
    ensures FirstCellOpen(line, p).None? ==> forall q :: p <= q ==> !CellOpensAt(line, q)
    ensures FirstCellOpen(line, p).Some? ==>
              CellOpensAt(line, FirstCellOpen(line, p).value)
              && forall q :: p <= q < FirstCellOpen(line, p).value ==> !CellOpensAt(line, q)
    decreases |line| - p
  {
    if p + 4 < |line| && !CellOpensAt(line, p) {
      FirstCellOpenSpec(line, p + 1);
    }
  }

  /** The group the pattern captures, if the pattern matches. */
  function TdCapture(line: string): Option<string> {
    match FirstCellOpen(line, 0)
    case None => None
    case Some(p) => Some(line[p + 4..RunEnd(line, p + 4)])
  }

  /** The pattern matches when some `<td>` is followed by a character other
      than `<`; the group is then the longest run of such characters right
      after the first such `<td>`, so it is not empty and holds no `<`. */
  lemma TdCaptureMatches(line: string)
    ensures TdCapture(line).None? <==> forall q :: !CellOpensAt(line, q)
    ensures TdCapture(line).Some? ==> |TdCapture(line).value| > 0 && '<' !in TdCapture(line).value
    ensures TdCapture(line).Some? ==>
              exists p :: IsFirstCellOpen(line, p) && TdCapture(line).value == line[p + 4..RunEnd(line, p + 4)]
  {
    FirstCellOpenSpec(line, 0);
    match FirstCellOpen(line, 0)
    case None =>
    case Some(p) =>
      RunEndSpec(line, p + 4);
      assert IsFirstCellOpen(line, p);
  }

  /** The value a `<td>` line contributes: the capture, stripped, then rid of
      its backticks. */
  function CellValue(capture: string): (v: string)
    ensures '`' !in v
  {
    RemoveChar(Strip(capture), '`')
  }

  /** The cell a line inside a row contributes, if any. */
  function RowCell(line: string): Option<string> {
    if StartsWith(Strip(line), "<td>") then
      match TdCapture(line)
      case None => None
      case Some(c) => Some(CellValue(c))
    else None
  }

  /** A line inside a row contributes a cell exactly when, once stripped, it
      starts with `<td>` and the pattern matches somewhere on the raw line; the
      cell is then the group after the first match, stripped first and rid of
      its backticks after. */
  lemma RowCellSpec(line: string)
    ensures RowCell(line).Some? <==> StartsWith(Strip(line), "<td>") && exists q :: CellOpensAt(line, q)
    ensures RowCell(line).Some? ==>
              exists p :: IsFirstCellOpen(line, p)
                          && RowCell(line).value == RemoveChar(Strip(line[p + 4..RunEnd(line, p + 4)]), '`')
  {
    TdCaptureMatches(line);
  }

  predicate IsRowEnd(line: string) {
    StartsWith(Strip(line), "</tr>")
  }

  /** The cells of the row whose scan starts at line `j`: collected from every
      line up to the first one that closes a row, or to the end of the
      document. */
  function RowCells(lines: seq<string>, j: nat): (cells: seq<string>)
    requires j <= |lines|
    ensures |cells| <= |lines| - j
    decreases |lines| - j
  {
    if j == |lines| || IsRowEnd(lines[j]) then []
    else
      match RowCell(lines[j])
      case None => RowCells(lines, j + 1)
      case Some(c) => [c] + RowCells(lines, j + 1)
  }

  /** No cell keeps a backtick. */
  lemma {:induction false} RowCellsNoBacktick(lines: seq<string>, j: nat)
    requires j <= |lines|
    ensures forall c :: c in RowCells(lines, j) ==> '`' !in c
    decreases |lines| - j
  {
    if j < |lines| && !IsRowEnd(lines[j]) {
      RowCellsNoBacktick(lines, j + 1);
    }
  }

  /** `field_data[2].lower() in ['yes', 'required', 'true']` */
  predicate IsRequiredMark(s: string) {
    var l := LowerString(s);
    l == "yes" || l == "required" || l == "true"
  }

  /** The field a row of at least four cells describes. */
  function FieldOf(cells: seq<string>): Field
    requires |cells| >= 4
  {
    Field(cells[1], IsRequiredMark(cells[2]), cells[3], if |cells| > 4 then cells[4] else "")
  }

  // ---------------------------------------------------------------------------
  // The state machine

  datatype ScanState = ScanState(inOverview: bool, inTable: bool, overview: string, fields: map<string, Field>)

  const Start := ScanState(false, false, "", map[])

  predicate IsOverviewHeading(line: string) {
    Strip(line) == OverviewHeading
  }

  /** The effect of line `i` on the state: the `### Overview` heading only
      opens the overview; any other line goes through the overview checks and
      then the table checks. */
  function Step(lines: seq<string>, i: nat, st: ScanState): ScanState
    requires i < |lines|
  {
    if IsOverviewHeading(lines[i]) then st.(inOverview := true)
    else TableStep(lines, i, OverviewStep(lines[i], st))
  }

  /** A line starting with `###` closes the overview; inside it, any other
      non-blank line is appended, stripped, with a space after it. */
  function OverviewStep(line: string, st: ScanState): (r: ScanState)
    ensures r.inTable == st.inTable && r.fields == st.fields
  {
    if StartsWith(line, "###") && st.inOverview then st.(inOverview := false)
    else if st.inOverview && Strip(line) != "" then st.(overview := st.overview + Strip(line) + " ")
    else st
  }

  /** Table markers switch the table flag; inside the table a `<tr>` line
      starts a row, which becomes a field if it has at least four cells. */
  function TableStep(lines: seq<string>, i: nat, st: ScanState): (r: ScanState)
    requires i < |lines|
    ensures r.inOverview == st.inOverview && r.overview == st.overview
  {
    var line := lines[i];
    if Contains(line, TableOpen) then st.(inTable := true)
    else if Contains(line, TableClose) then st.(inTable := false)
    else if st.inTable && StartsWith(Strip(line), "<th>") then st
    else if st.inTable && StartsWith(Strip(line), "<tr>") then RowStep(RowCells(lines, i + 1), st)
    else st
  }

  function RowStep(cells: seq<string>, st: ScanState): (r: ScanState)
    ensures r.inOverview == st.inOverview && r.inTable == st.inTable && r.overview == st.overview
  {
    if |cells| >= 4 then st.(fields := st.fields[cells[0] := FieldOf(cells)]) else st
  }

  /** The state once the first `k` lines are read. */
  function Run(lines: seq<string>, k: nat): ScanState
    requires k <= |lines|
    decreases k
  {
    if k == 0 then Start else Step(lines, k - 1, Run(lines, k - 1))
  }

  function Lines(content: string): seq<string> {
    Split(content, '\n')
  }

  /** What the parser returns for a document. */
  function Parse(content: string): Dictionary {
    var lines := Lines(content);
    var st := Run(lines, |lines|);
    Dictionary(Strip(st.overview), st.fields)
  }

  /** The parser as the source runs it: one pass over the lines with the two
      flags, and a forward scan over the lines of every `<tr>` row met inside
      the table. */
  method ParseDictionaryMarkdown(content: string) returns (d: Dictionary)
    ensures d == Parse(content)
  {
    var lines := Lines(content);
    var overview := "";
    var inOverview := false;
    var fields: map<string, Field> := map[];
    var inTable := false;
    for i := 0 to |lines|
      invariant ScanState(inOverview, inTable, overview, fields) == Run(lines, i)
    {
      inOverview, inTable, overview, fields := ScanLine(lines, i, inOverview, inTable, overview, fields);
    }
    d := Dictionary(Strip(overview), fields);
  }

  /** One turn of the parser's loop: the overview checks on line `i`, then
      the table checks, each ending the turn as soon as one applies. */
  method ScanLine(lines: seq<string>, i: nat, inOverview0: bool, inTable0: bool,
                  overview0: string, fields0: map<string, Field>)
    returns (inOverview: bool, inTable: bool, overview: string, fields: map<string, Field>)
    requires i < |lines|
    ensures ScanState(inOverview, inTable, overview, fields)
         == Step(lines, i, ScanState(inOverview0, inTable0, overview0, fields0))
  {
    inOverview, inTable, overview, fields := inOverview0, inTable0, overview0, fields0;
    var line := lines[i];
    var stripped := Strip(line);
    if stripped == OverviewHeading {
      inOverview := true;
      return;
    } else if StartsWith(line, "###") && inOverview {
      inOverview := false;
    } else if inOverview && stripped != "" {
      overview := overview + stripped + " ";
    }
    assert ScanState(inOverview, inTable, overview, fields)
        == OverviewStep(line, ScanState(inOverview0, inTable0, overview0, fields0));
    inTable, fields := TableLine(lines, i, inOverview, inTable, overview, fields);
  }

  /** The table checks of one turn of the loop. */
  method TableLine(lines: seq<string>, i: nat, inOverview: bool, inTable0: bool,
                   overview: string, fields0: map<string, Field>)
    returns (inTable: bool, fields: map<string, Field>)
    requires i < |lines|
    ensures ScanState(inOverview, inTable, overview, fields)
         == TableStep(lines, i, ScanState(inOverview, inTable0, overview, fields0))
  {
    inTable, fields := inTable0, fields0;
    var line := lines[i];
    var stripped := Strip(line);
    if Contains(line, TableOpen) {
      inTable := true;
    } else if Contains(line, TableClose) {
      inTable := false;
    } else if inTable && StartsWith(stripped, "<th>") {
      // the source collects the header cells but never uses them
    } else if inTable && StartsWith(stripped, "<tr>") {
      var fieldData := ScanRow(lines, i + 1);
      if |fieldData| >= 4 {
        var fieldName := fieldData[0];
        var isRequired := LowerString(fieldData[2]) in ["yes", "required", "true"];
        var examples := if |fieldData| > 4 then fieldData[4] else "";
        fields := fields[fieldName := Field(fieldData[1], isRequired, fieldData[3], examples)];
      }
    }
  }

  /** The inner scan over the lines of one row, from `start` to the first line
      that closes a row or to the end of the document. */
  method ScanRow(lines: seq<string>, start: nat) returns (fieldData: seq<string>)
    requires start <= |lines|
    ensures fieldData == RowCells(lines, start)
  {
    fieldData := [];
    var j := start;
    while j < |lines| && !IsRowEnd(lines[j])
      invariant start <= j <= |lines|
      invariant RowCells(lines, start) == fieldData + RowCells(lines, j)
      decreases |lines| - j
    {
      RowCellsStep(lines, j);
      ghost var before := fieldData;
      if StartsWith(Strip(lines[j]), "<td>") {
        var cellMatch := TdCapture(lines[j]);
        if cellMatch.Some? {
          var cellContent := Strip(cellMatch.value);
          cellContent := RemoveChar(cellContent, '`');
          fieldData := fieldData + [cellContent];
          AppendAssoc(before, [cellContent], RowCells(lines, j + 1));
        }
      }
      j := j + 1;
    }
  }

  lemma AppendAssoc<T>(a: seq<T>, b: seq<T>, c: seq<T>)
    ensures a + b + c == a + (b + c)
  {
  }

  lemma RowCellsStep(lines: seq<string>, j: nat)
    requires j < |lines| && !IsRowEnd(lines[j])
    ensures RowCells(lines, j) == match RowCell(lines[j])
                                  case None => RowCells(lines, j + 1)
                                  case Some(c) => [c] + RowCells(lines, j + 1)
  {
  }

  // ---------------------------------------------------------------------------
  // What the state machine extracts

  /** A line that ends the overview: a `###` heading other than the overview's
      own. */
  predicate ClosesOverview(line: string) {
    StartsWith(line, "###") && !IsOverviewHeading(line)
  }

  /** A line that neither ends nor restarts the overview. */
  predicate InSection(line: string) {
    !StartsWith(line, "###") && !IsOverviewHeading(line)
  }

  /** The overview heading at line `h` is still open once `k` lines are read. */
  predicate OverviewOpenSince(lines: seq<string>, h: nat, k: nat)
    requires k <= |lines|
  {
    h < k && IsOverviewHeading(lines[h]) && forall m :: h < m < k ==> !ClosesOverview(lines[m])
  }

  /** What a line inside the overview adds to its text: the line stripped
      and a space, or nothing for a blank line. */
  function Piece(line: string): string {
    var t := Strip(line);
    if t == "" then "" else t + " "
  }

  /** What one line does to the overview flag and text. */
  lemma StepOverview(lines: seq<string>, i: nat)
    requires i < |lines|
    ensures var l, st, st' := lines[i], Run(lines, i), Run(lines, i + 1);
            && st'.inOverview == (IsOverviewHeading(l) || (st.inOverview && !ClosesOverview(l)))
            && st'.overview == if st.inOverview && InSection(l) then st.overview + Piece(l) else st.overview
  {
    var st := Run(lines, i);
    assert Run(lines, i + 1) == Step(lines, i, st);
    assert st.overview + Strip(lines[i]) + " " == st.overview + (Strip(lines[i]) + " ");
  }

  /** The overview flag after `k` lines, line by line: set by the overview
      heading, cleared by any other `###` heading. */
  predicate OverviewFlag(lines: seq<string>, k: nat)
    requires k <= |lines|
  {
    k > 0 && (IsOverviewHeading(lines[k - 1]) || (OverviewFlag(lines, k - 1) && !ClosesOverview(lines[k - 1])))
  }

  lemma {:induction false} RunOverviewFlag(lines: seq<string>, k: nat)
    requires k <= |lines|
    ensures Run(lines, k).inOverview == OverviewFlag(lines, k)
  {
    if k > 0 {
      RunOverviewFlag(lines, k - 1);
      StepOverview(lines, k - 1);
    }
  }

  lemma {:induction false} OverviewFlagIff(lines: seq<string>, k: nat)
    requires k <= |lines|
    ensures OverviewFlag(lines, k) <==> exists h: nat :: OverviewOpenSince(lines, h, k)
  {
    if k > 0 {
      OverviewFlagIff(lines, k - 1);
      if IsOverviewHeading(lines[k - 1]) {
        assert OverviewOpenSince(lines, k - 1, k);
      } else {
        OverviewOpenStep(lines, k - 1, k);
      }
    }
  }

  /** Past a line that is not the overview heading, the heading that keeps
      the overview open is an earlier one, and the line must not close it. */
  lemma OverviewOpenStep(lines: seq<string>, j: nat, k: nat)
    requires k == j + 1 <= |lines| && !IsOverviewHeading(lines[j])
    ensures (exists h: nat :: OverviewOpenSince(lines, h, k))
            <==> !ClosesOverview(lines[j]) && exists h: nat :: OverviewOpenSince(lines, h, j)
  {
    if exists h: nat :: OverviewOpenSince(lines, h, k) {
      var h: nat :| OverviewOpenSince(lines, h, k);
      assert OverviewOpenSince(lines, h, j);
    }
    if !ClosesOverview(lines[j]) && exists h: nat :: OverviewOpenSince(lines, h, j) {
      var h: nat :| OverviewOpenSince(lines, h, j);
      assert OverviewOpenSince(lines, h, k);
    }
  }

  /** The parser is inside the overview exactly when an overview heading has
      been read and no other `###` heading since. */
  lemma InOverviewIff(lines: seq<string>, k: nat)
    requires k <= |lines|
    ensures Run(lines, k).inOverview <==> exists h: nat :: OverviewOpenSince(lines, h, k)
  {
    RunOverviewFlag(lines, k);
    OverviewFlagIff(lines, k);
  }

  /** A line that opens the table: it holds the table tag and is not the
      overview heading, which the parser handles before any table check. */
  predicate OpensTable(line: string) {
    !IsOverviewHeading(line) && Contains(line, TableOpen)
  }

  /** A line that closes the table; the opening tag takes precedence. */
  predicate ClosesTable(line: string) {
    !IsOverviewHeading(line) && !Contains(line, TableOpen) && Contains(line, TableClose)
  }

  /** The table opened at line `h` is still open once `k` lines are read. */
  predicate TableOpenSince(lines: seq<string>, h: nat, k: nat)
    requires k <= |lines|
  {
    h < k && OpensTable(lines[h]) && forall m :: h < m < k ==> !ClosesTable(lines[m])
  }

  /** What one line does to the table flag. */
  lemma StepTable(lines: seq<string>, i: nat)
    requires i < |lines|
    ensures Run(lines, i + 1).inTable
            == (OpensTable(lines[i]) || (Run(lines, i).inTable && !ClosesTable(lines[i])))
  {
    assert Run(lines, i + 1) == Step(lines, i, Run(lines, i));
  }

  /** The table flag after `k` lines, line by line. */
  predicate TableFlag(lines: seq<string>, k: nat)
    requires k <= |lines|
  {
    k > 0 && (OpensTable(lines[k - 1]) || (TableFlag(lines, k - 1) && !ClosesTable(lines[k - 1])))
  }

  lemma {:induction false} RunTableFlag(lines: seq<string>, k: nat)
    requires k <= |lines|
    ensures Run(lines, k).inTable == TableFlag(lines, k)
  {
    if k > 0 {
      RunTableFlag(lines, k - 1);
      StepTable(lines, k - 1);
    }
  }

  lemma {:induction false} TableFlagIff(lines: seq<string>, k: nat)
    requires k <= |lines|
    ensures TableFlag(lines, k) <==> exists h: nat :: TableOpenSince(lines, h, k)
  {
    if k > 0 {
      TableFlagIff(lines, k - 1);
      if OpensTable(lines[k - 1]) {
        assert TableOpenSince(lines, k - 1, k);
      } else {
        TableOpenStep(lines, k - 1, k);
      }
    }
  }

  /** Past a line that does not open a table, the table that is open was
      opened earlier, and the line must not close it. */
  lemma TableOpenStep(lines: seq<string>, j: nat, k: nat)
    requires k == j + 1 <= |lines| && !OpensTable(lines[j])
    ensures (exists h: nat :: TableOpenSince(lines, h, k))
            <==> !ClosesTable(lines[j]) && exists h: nat :: TableOpenSince(lines, h, j)
  {
    if exists h: nat :: TableOpenSince(lines, h, k) {
      var h: nat :| TableOpenSince(lines, h, k);
      assert TableOpenSince(lines, h, j);
    }
    if !ClosesTable(lines[j]) && exists h: nat :: TableOpenSince(lines, h, j) {
      var h: nat :| TableOpenSince(lines, h, j);
      assert TableOpenSince(lines, h, k);
    }
  }

  /** The parser is inside the table exactly when a table has been opened and
      not closed since. */
  lemma InTableIff(lines: seq<string>, k: nat)
    requires k <= |lines|
    ensures Run(lines, k).inTable <==> exists h: nat :: TableOpenSince(lines, h, k)
  {
    RunTableFlag(lines, k);
    TableFlagIff(lines, k);
  }

  /** Line `r` starts a row the parser reads: a `<tr>` line inside the table
      (see `InTableIff`) that is neither the overview heading nor a table tag. */
  predicate IsRowStart(lines: seq<string>, r: nat)
    requires r < |lines|
  {
    var line := lines[r];
    !IsOverviewHeading(line) && !Contains(line, TableOpen) && !Contains(line, TableClose)
    && TableFlag(lines, r) && StartsWith(Strip(line), "<tr>")
  }

  /** A field name and its description. */
  type Entry = (string, Field)

  /** The field that line `r` records, if any: the row it starts has at least
      four cells, and the first one names the field. */
  function RowEntry(lines: seq<string>, r: nat): Option<Entry>
    requires r < |lines|
  {
    var cells := RowCells(lines, r + 1);
    if IsRowStart(lines, r) && |cells| >= 4 then Some((cells[0], FieldOf(cells))) else None
  }

  /** The row starting at line `r` defines the field `name`. */
  predicate DefinesField(lines: seq<string>, r: nat, name: string)
    requires r < |lines|
  {
    RowEntry(lines, r).Some? && RowEntry(lines, r).value.0 == name
  }

  /** The entries of all lines. */
  function Entries(lines: seq<string>): (rows: seq<Option<Entry>>)
    ensures |rows| == |lines|
    ensures forall r :: 0 <= r < |lines| ==> rows[r] == RowEntry(lines, r)
  {
    seq(|lines|, r requires 0 <= r < |lines| => RowEntry(lines, r))
  }

  /** The map built by recording the first `k` entries in order, each one
      replacing any earlier entry for the same name. */
  function Record(rows: seq<Option<Entry>>, k: nat): map<string, Field>
    requires k <= |rows|
  {
    if k == 0 then map[]
    else
      match rows[k - 1]
      case None => Record(rows, k - 1)
      case Some(e) => Record(rows, k - 1)[e.0 := e.1]
  }

  predicate Names(row: Option<Entry>, name: string) {
    row.Some? && row.value.0 == name
  }

  lemma {:induction false} RecordKeys(rows: seq<Option<Entry>>, k: nat, name: string)
    requires k <= |rows|
    ensures name in Record(rows, k) <==> exists r :: 0 <= r < k && Names(rows[r], name)
  {
    if k > 0 {
      RecordKeys(rows, k - 1, name);
      if name in Record(rows, k) && !Names(rows[k - 1], name) {
        var r :| 0 <= r < k - 1 && Names(rows[r], name);
        assert 0 <= r < k && Names(rows[r], name);
      }
      if exists r :: 0 <= r < k && Names(rows[r], name) {
        var r :| 0 <= r < k && Names(rows[r], name);
        if r < k - 1 {
          assert name in Record(rows, k - 1);
        }
      }
    }
  }

  lemma {:induction false} RecordLast(rows: seq<Option<Entry>>, r: nat, k: nat, name: string)
    requires r < k <= |rows|
    requires Names(rows[r], name)
    requires forall r' :: r < r' < k ==> !Names(rows[r'], name)
    ensures name in Record(rows, k) && Record(rows, k)[name] == rows[r].value.1
  {
    if r < k - 1 {
      RecordLast(rows, r, k - 1, name);
    }
  }

  /** Only a row start changes the fields, by recording the field of its row. */
  lemma StepFields(lines: seq<string>, i: nat)
    requires i < |lines|
    ensures Run(lines, i + 1).fields
            == match RowEntry(lines, i)
               case None => Run(lines, i).fields
               case Some(e) => Run(lines, i).fields[e.0 := e.1]
  {
    RunTableFlag(lines, i);
    assert Run(lines, i + 1) == Step(lines, i, Run(lines, i));
    var s := Strip(lines[i]);
    if StartsWith(s, "<tr>") {
      assert s[..4] == "<tr>";
      assert !StartsWith(s, "<th>");
    }
  }

  lemma {:induction false} RunFields(lines: seq<string>, rows: seq<Option<Entry>>, k: nat)
    requires k <= |lines| == |rows|
    requires forall r :: 0 <= r < |lines| ==> rows[r] == RowEntry(lines, r)
    ensures Run(lines, k).fields == Record(rows, k)
  {
    if k > 0 {
      RunFields(lines, rows, k - 1);
      StepFields(lines, k - 1);
      RecordStep(rows, k);
    }
  }

  lemma RecordStep(rows: seq<Option<Entry>>, k: nat)
    requires 0 < k <= |rows|
    ensures Record(rows, k) == match rows[k - 1]
                               case None => Record(rows, k - 1)
                               case Some(e) => Record(rows, k - 1)[e.0 := e.1]
  {
  }

  /** A name is a field of the result exactly when some row read so far
      defines it. */
  lemma FieldsKeys(lines: seq<string>, k: nat, name: string)
    requires k <= |lines|
    ensures name in Run(lines, k).fields <==> exists r :: 0 <= r < k && DefinesField(lines, r, name)
  {
    var rows := Entries(lines);
    RunFields(lines, rows, k);
    RecordKeys(rows, k, name);
    forall r | 0 <= r < k ensures DefinesField(lines, r, name) == Names(rows[r], name) {}
  }

  /** When several rows define the same name, the last one wins. */
  lemma LastRowWins(lines: seq<string>, r: nat, k: nat, name: string)
    requires r < k <= |lines|
    requires DefinesField(lines, r, name)
    requires forall r' :: r < r' < k ==> !DefinesField(lines, r', name)
    ensures |RowCells(lines, r + 1)| >= 4 && RowCells(lines, r + 1)[0] == name
    ensures name in Run(lines, k).fields
    ensures Run(lines, k).fields[name] == FieldOf(RowCells(lines, r + 1))
  {
    var rows := Entries(lines);
    RunFields(lines, rows, k);
    forall r' | r < r' < k ensures !Names(rows[r'], name) {
      assert !DefinesField(lines, r', name);
    }
    RecordLast(rows, r, k, name);
  }

  /** The overview text that lines `lo` to `hi - 1` contribute: every line
      that is not blank, stripped and followed by a space. */
  function Pieces(lines: seq<string>, lo: nat, hi: nat): string
    requires lo <= hi <= |lines|
    decreases hi
  {
    if hi == lo then "" else Pieces(lines, lo, hi - 1) + Piece(lines[hi - 1])
  }

  /** The overview text after `k` lines, line by line. */
  function OverviewAfter(lines: seq<string>, k: nat): string
    requires k <= |lines|
  {
    if k == 0 then ""
    else if OverviewFlag(lines, k - 1) && InSection(lines[k - 1])
    then OverviewAfter(lines, k - 1) + Piece(lines[k - 1])
    else OverviewAfter(lines, k - 1)
  }

  lemma {:induction false} RunOverview(lines: seq<string>, k: nat)
    requires k <= |lines|
    ensures Run(lines, k).overview == OverviewAfter(lines, k)
  {
    if k > 0 {
      RunOverview(lines, k - 1);
      RunOverviewFlag(lines, k - 1);
      StepOverview(lines, k - 1);
    }
  }

  lemma {:induction false} BeforeOverview(lines: seq<string>, h: nat, k: nat)
    requires k <= h < |lines|
    requires forall m :: 0 <= m < h ==> !IsOverviewHeading(lines[m])
    ensures !OverviewFlag(lines, k) && OverviewAfter(lines, k) == ""
  {
    if k > 0 {
      BeforeOverview(lines, h, k - 1);
    }
  }

  lemma {:induction false} InsideOverview(lines: seq<string>, h: nat, k: nat)
    requires h < k <= |lines|
    requires IsOverviewHeading(lines[h])
    requires forall m :: 0 <= m < h ==> !IsOverviewHeading(lines[m])
    requires forall m :: h < m < k ==> InSection(lines[m])
    ensures OverviewFlag(lines, k) && OverviewAfter(lines, k) == Pieces(lines, h + 1, k)
  {
    if k == h + 1 {
      BeforeOverview(lines, h, h);
      assert InSection(lines[h]) == false;
    } else {
      InsideOverview(lines, h, k - 1);
    }
  }

  lemma {:induction false} AfterOverview(lines: seq<string>, c: nat, k: nat)
    requires c <= k <= |lines|
    requires !OverviewFlag(lines, c)
    requires forall m :: c <= m < |lines| ==> !IsOverviewHeading(lines[m])
    ensures !OverviewFlag(lines, k) && OverviewAfter(lines, k) == OverviewAfter(lines, c)
  {
    if k > c {
      AfterOverview(lines, c, k - 1);
    }
  }

  lemma OverviewOfSection(lines: seq<string>, h: nat, c: nat)
    requires h < c <= |lines| && IsOverviewHeading(lines[h])
    requires forall m :: 0 <= m < h ==> !IsOverviewHeading(lines[m])
    requires forall m :: h < m < c ==> InSection(lines[m])
    requires c < |lines| ==> StartsWith(lines[c], "###")
    requires forall m :: c <= m < |lines| ==> !IsOverviewHeading(lines[m])
    ensures OverviewAfter(lines, |lines|) == Pieces(lines, h + 1, c)
  {
    InsideOverview(lines, h, c);
    AfterSection(lines, c);
  }

  /** Once the overview is closed at line `c`, and no overview heading
      follows, its text does not change. */
  lemma AfterSection(lines: seq<string>, c: nat)
    requires c <= |lines|
    requires c < |lines| ==> StartsWith(lines[c], "###")
    requires forall m :: c <= m < |lines| ==> !IsOverviewHeading(lines[m])
    ensures OverviewAfter(lines, |lines|) == OverviewAfter(lines, c)
  {
    if c < |lines| {
      ClosingLine(lines, c);
      AfterOverview(lines, c + 1, |lines|);
    }
  }

  /** A line that closes the overview leaves its text as it was. */
  lemma ClosingLine(lines: seq<string>, c: nat)
    requires c < |lines| && ClosesOverview(lines[c])
    ensures !OverviewFlag(lines, c + 1) && OverviewAfter(lines, c + 1) == OverviewAfter(lines, c)
  {
  }

  /** A document with one overview heading, at line `h`, whose section runs up
      to line `c` (the next `###` heading, or the end): the overview is the
      text of the section's non-blank lines, each stripped, joined by single
      spaces. */
  lemma OverviewSection(content: string, h: nat, c: nat)
    requires var lines := Lines(content);
             h < c <= |lines| && IsOverviewHeading(lines[h])
             && (forall m :: 0 <= m < h ==> !IsOverviewHeading(lines[m]))
             && (forall m :: h < m < c ==> InSection(lines[m]))
             && (c < |lines| ==> StartsWith(lines[c], "###"))
             && (forall m :: c <= m < |lines| ==> !IsOverviewHeading(lines[m]))
    ensures Parse(content).overview == Strip(Pieces(Lines(content), h + 1, c))
  {
    var lines := Lines(content);
    RunOverview(lines, |lines|);
    OverviewOfSection(lines, h, c);
  }
}
