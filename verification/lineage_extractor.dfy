/**
 * `lineage_extractor.py`: choose the stored procedures to analyse, then for
 * each one either skip it (its output file from an earlier run is already
 * there) or ask the language model for its lineage and write the answer,
 * or an error document, to a file named after the row.
 */
module Extractor {
  import opened Wrappers
  import opened Text
  import opened Seqs
  import opened JsonValue
  import opened Utils

  /** One row of the object-definitions table; `index` is its label in the concatenated table. */
  datatype DefinitionRow = DefinitionRow(
    index: nat, schema: string, obj: string, databaseName: string, objectType: string, definition: string)

  const StoredProcedure := "SQL_STORED_PROCEDURE"

  // ---------------------------------------------------------------------------
  // Choosing the rows
  // ---------------------------------------------------------------------------

  /** `query("ObjectType == 'SQL_STORED_PROCEDURE'")` */
  function KeepProcedures(rows: seq<DefinitionRow>): (r: seq<DefinitionRow>)
    ensures forall x :: x in r <==> x in rows && x.objectType == StoredProcedure
  {
    if rows == [] then []
    else (if rows[0].objectType == StoredProcedure then [rows[0]] else []) + KeepProcedures(rows[1..])
  }

  /** Insert `x` into rows sorted by descending `DatabaseName`, after those not below it. */
  function InsertByDatabase(x: DefinitionRow, sorted: seq<DefinitionRow>): seq<DefinitionRow> {
    if sorted == [] then [x]
    else if Below(sorted[0].databaseName, x.databaseName) then [x] + sorted
    else [sorted[0]] + InsertByDatabase(x, sorted[1..])
  }

  /**
   * `sort_values(by="DatabaseName", ascending=False)`. Rows with equal
   * names keep their relative order here; pandas does not promise any.
   */
  function SortByDatabaseDesc(rows: seq<DefinitionRow>): seq<DefinitionRow> {
    if rows == [] then []
    else InsertByDatabase(rows[|rows| - 1], SortByDatabaseDesc(rows[..|rows| - 1]))
  }

  predicate DescendingByDatabase(rows: seq<DefinitionRow>) {
    forall i, j :: 0 <= i < j < |rows| ==> !Below(rows[i].databaseName, rows[j].databaseName)
  }

  lemma BelowAsymmetric(a: string, b: string)
    requires Below(a, b)
    ensures !Below(b, a)
  {
    if Below(b, a) {
      BelowTransitive(a, b, a);
      BelowIrreflexive(a);
    }
  }

  /** A row can head a descending list exactly when no row after it has a greater `DatabaseName`. */
  lemma DescendingCons(y: DefinitionRow, rest: seq<DefinitionRow>)
    ensures DescendingByDatabase([y] + rest) <==>
      DescendingByDatabase(rest) && forall z :: z in rest ==> !Below(y.databaseName, z.databaseName)
  {
    var r := [y] + rest;
    if DescendingByDatabase(r) {
      forall i, j | 0 <= i < j < |rest|
        ensures !Below(rest[i].databaseName, rest[j].databaseName)
      {
        assert rest[i] == r[i + 1] && rest[j] == r[j + 1];
      }
      forall z | z in rest
        ensures !Below(y.databaseName, z.databaseName)
      {
        var k :| 0 <= k < |rest| && rest[k] == z;
        assert r[0] == y && r[k + 1] == z;
      }
    }
    if DescendingByDatabase(rest) && forall z :: z in rest ==> !Below(y.databaseName, z.databaseName) {
      forall i, j | 0 <= i < j < |r|
        ensures !Below(r[i].databaseName, r[j].databaseName)
      {
        assert r[j] == rest[j - 1];
        if i > 0 {
          assert r[i] == rest[i - 1];
        }
      }
    }
  }

  /** Insertion adds `x` and keeps every row. */
  lemma {:induction false} InsertByDatabaseMultiset(x: DefinitionRow, sorted: seq<DefinitionRow>)
    ensures multiset(InsertByDatabase(x, sorted)) == multiset(sorted) + multiset{x}
  {
    if sorted != [] && !Below(sorted[0].databaseName, x.databaseName) {
      InsertByDatabaseMultiset(x, sorted[1..]);
      assert sorted == [sorted[0]] + sorted[1..];
    }
  }

  /** Insertion keeps a list in descending `DatabaseName` order. */
  lemma {:induction false} InsertByDatabaseSorted(x: DefinitionRow, sorted: seq<DefinitionRow>)
    requires DescendingByDatabase(sorted)
    ensures DescendingByDatabase(InsertByDatabase(x, sorted))
  {
    if sorted == [] {
    } else {
      var y, tail := sorted[0], sorted[1..];
      assert sorted == [y] + tail;
      DescendingCons(y, tail);
      if Below(y.databaseName, x.databaseName) {
        forall z | z in sorted
          ensures !Below(x.databaseName, z.databaseName)
        {
          BelowAsymmetric(y.databaseName, x.databaseName);
          if z != y && Below(x.databaseName, z.databaseName) {
            BelowTransitive(y.databaseName, x.databaseName, z.databaseName);
          }
        }
        DescendingCons(x, sorted);
      } else {
        var rest := InsertByDatabase(x, tail);
        InsertByDatabaseSorted(x, tail);
        InsertByDatabaseMultiset(x, tail);
        forall z | z in rest
          ensures !Below(y.databaseName, z.databaseName)
        {
          assert z in multiset(rest);
        }
        DescendingCons(y, rest);
      }
    }
  }

  /** The sort yields the same rows, in descending `DatabaseName` order. */
  lemma {:induction false} SortByDatabaseDescProperties(rows: seq<DefinitionRow>)
    ensures DescendingByDatabase(SortByDatabaseDesc(rows))
    ensures multiset(SortByDatabaseDesc(rows)) == multiset(rows)
  {
    if rows != [] {
      var init := rows[..|rows| - 1];
      SortByDatabaseDescProperties(init);
      InsertByDatabaseSorted(rows[|rows| - 1], SortByDatabaseDesc(init));
      InsertByDatabaseMultiset(rows[|rows| - 1], SortByDatabaseDesc(init));
      assert rows == init + [rows[|rows| - 1]];
    }
  }

  /** The duplicate key: `subset=['Schema', 'Object']`. */
  function RowKey(r: DefinitionRow): (string, string) {
    (r.schema, r.obj)
  }

  /** `query("Schema in @target_schemas")` */
  function KeepSchemas(rows: seq<DefinitionRow>, targets: seq<string>): (r: seq<DefinitionRow>)
    ensures forall x :: x in r <==> x in rows && x.schema in targets
  {
    if rows == [] then []
    else (if rows[0].schema in targets then [rows[0]] else []) + KeepSchemas(rows[1..], targets)
  }

  /** Lines 28-38: procedures only, one row per (schema, object), then the requested schemas. */
  function SelectRows(rows: seq<DefinitionRow>, targets: seq<string>): seq<DefinitionRow> {
    KeepSchemas(DistinctBy(SortByDatabaseDesc(KeepProcedures(rows)), RowKey), targets)
  }

  /** No two rows share a (schema, object) pair. */
  predicate KeysDistinct(rows: seq<DefinitionRow>) {
    forall i, j :: 0 <= i < j < |rows| ==> RowKey(rows[i]) != RowKey(rows[j])
  }

  /** Keys are distinct in `[x] + rest` exactly when they are in `rest` and `x`'s key is not among them. */
  lemma KeysDistinctCons(x: DefinitionRow, rest: seq<DefinitionRow>)
    ensures KeysDistinct([x] + rest) <==>
      KeysDistinct(rest) && forall y :: y in rest ==> RowKey(y) != RowKey(x)
  {
    var r := [x] + rest;
    if KeysDistinct(r) {
      forall i, j | 0 <= i < j < |rest|
        ensures RowKey(rest[i]) != RowKey(rest[j])
      {
        assert rest[i] == r[i + 1] && rest[j] == r[j + 1];
      }
      forall y | y in rest
        ensures RowKey(y) != RowKey(x)
      {
        var k :| 0 <= k < |rest| && rest[k] == y;
        assert r[0] == x && r[k + 1] == y;
      }
    }
    if KeysDistinct(rest) && forall y :: y in rest ==> RowKey(y) != RowKey(x) {
      forall i, j | 0 <= i < j < |r|
        ensures RowKey(r[i]) != RowKey(r[j])
      {
        assert r[j] == rest[j - 1];
        if i > 0 {
          assert r[i] == rest[i - 1];
        }
      }
    }
  }

  lemma {:induction false} KeepSchemasKeepsKeysDistinct(rows: seq<DefinitionRow>, targets: seq<string>)
    requires KeysDistinct(rows)
    ensures KeysDistinct(KeepSchemas(rows, targets))
  {
    if rows != [] {
      var tail := rows[1..];
      assert rows == [rows[0]] + tail;
      KeysDistinctCons(rows[0], tail);
      KeepSchemasKeepsKeysDistinct(tail, targets);
      var rest := KeepSchemas(tail, targets);
      if rows[0].schema in targets {
        KeysDistinctCons(rows[0], rest);
      }
    }
  }

  /** Sorting by `DatabaseName` neither adds nor loses rows. */
  lemma SortKeepsRows(rows: seq<DefinitionRow>, x: DefinitionRow)
    ensures x in SortByDatabaseDesc(rows) <==> x in rows
  {
    SortByDatabaseDescProperties(rows);
    assert x in SortByDatabaseDesc(rows) <==> x in multiset(SortByDatabaseDesc(rows));
  }

  /**
   * Lines 28-38 select only stored procedures of the requested schemas,
   * taken from the input, and each (schema, object) pair at most once.
   */
  lemma SelectRowsSound(rows: seq<DefinitionRow>, targets: seq<string>)
    ensures forall x :: x in SelectRows(rows, targets) ==>
      x in rows && x.objectType == StoredProcedure && x.schema in targets
    ensures KeysDistinct(SelectRows(rows, targets))
  {
    var procs := KeepProcedures(rows);
    var sorted := SortByDatabaseDesc(procs);
    var kept := DistinctBy(sorted, RowKey);
    forall x | x in SelectRows(rows, targets)
      ensures x in rows && x.objectType == StoredProcedure && x.schema in targets
    {
      DistinctByKeeps(sorted, RowKey, x);
      SortKeepsRows(procs, x);
    }
    DistinctByKeysDistinct(sorted, RowKey);
    KeepSchemasKeepsKeysDistinct(kept, targets);
  }

  /** Every (schema, object) pair of a stored procedure in a requested schema is represented. */
  lemma SelectRowsComplete(rows: seq<DefinitionRow>, targets: seq<string>, y: DefinitionRow)
    requires y in rows && y.objectType == StoredProcedure && y.schema in targets
    ensures exists x :: x in SelectRows(rows, targets) && RowKey(x) == RowKey(y)
  {
    var sorted := SortByDatabaseDesc(KeepProcedures(rows));
    SortKeepsRows(KeepProcedures(rows), y);
    DistinctByCovers(sorted, RowKey, y);
    var x :| x in DistinctBy(sorted, RowKey) && RowKey(x) == RowKey(y);
    assert x.schema == y.schema;
    assert x in SelectRows(rows, targets);
  }

  /** The row kept for a pair has a `DatabaseName` that no stored procedure of that pair exceeds. */
  lemma SelectRowsPreferGreatestDatabase(rows: seq<DefinitionRow>, targets: seq<string>, x: DefinitionRow, y: DefinitionRow)
    requires x in SelectRows(rows, targets)
    requires y in rows && y.objectType == StoredProcedure && RowKey(y) == RowKey(x)
    ensures !Below(x.databaseName, y.databaseName)
  {
    var sorted := SortByDatabaseDesc(KeepProcedures(rows));
    var kept := DistinctBy(sorted, RowKey);
    SortByDatabaseDescProperties(KeepProcedures(rows));
    SortKeepsRows(KeepProcedures(rows), y);
    var i :| 0 <= i < |kept| && kept[i] == x;
    DistinctByKeepsFirst(sorted, RowKey, i);
    var f :| 0 <= f < |sorted| && sorted[f] == x && forall j :: 0 <= j < f ==> RowKey(sorted[j]) != RowKey(sorted[f]);
    var j :| 0 <= j < |sorted| && sorted[j] == y;
    if f == j {
      BelowIrreflexive(x.databaseName);
    } else {
      assert f < j;
    }
  }

  /** Pandas index labels are unique: no two rows of the table share an `index`. */
  predicate DistinctIndices(rows: seq<DefinitionRow>) {
    forall i, j :: 0 <= i < j < |rows| ==> rows[i].index != rows[j].index
  }

  /** The selected rows keep the table's labels apart, so each gets its own output file. */
  lemma SelectRowsKeepIndicesDistinct(rows: seq<DefinitionRow>, targets: seq<string>)
    requires DistinctIndices(rows)
    ensures DistinctIndices(SelectRows(rows, targets))
  {
    var sel := SelectRows(rows, targets);
    SelectRowsSound(rows, targets);
    forall i, j | 0 <= i < j < |sel|
      ensures sel[i].index != sel[j].index
    {
      assert sel[i] in sel && sel[j] in sel;
      var a :| 0 <= a < |rows| && rows[a] == sel[i];
      var b :| 0 <= b < |rows| && rows[b] == sel[j];
      assert RowKey(sel[i]) != RowKey(sel[j]);
      assert a != b;
      if a > b {
        assert rows[b].index != rows[a].index;
      }
    }
  }

  // ---------------------------------------------------------------------------
  // The output file name
  // ---------------------------------------------------------------------------

  /** `re.sub(r"[^\w\s-]", "", ...)` keeps word characters, whitespace and `-`. */
  predicate KeptInName(c: char) {
    IsWordChar(c) || IsSpace(c) || c == '-'
  }

  /** Line 69: `{index}--{schema}--{object}` */
  function RawName(index: nat, schema: string, obj: string): string {
    NatToString(index) + "--" + schema + "--" + obj
  }

  /** Lines 71-73: every other character deleted, then stripped, then spaces turned into `_`. */
  function NameStem(raw: string): string {
    ReplaceAll(Strip(Filter(raw, KeptInName)), " ", "_")
  }

  /**
   * The stem holds only characters the filter keeps and no space (each
   * became `_`), and it neither starts nor ends with whitespace.
   */
  lemma NameStemCharacters(raw: string)
    ensures forall i :: 0 <= i < |NameStem(raw)| ==> KeptInName(NameStem(raw)[i]) && NameStem(raw)[i] != ' '
    ensures NameStem(raw) == [] || (!IsSpace(NameStem(raw)[0]) && !IsSpace(NameStem(raw)[|NameStem(raw)| - 1]))
  {
    var s := Strip(Filter(raw, KeptInName));
    StripKeepsAll(Filter(raw, KeptInName), KeptInName);
    ReplaceCharAt(s, ' ', '_');
    var r := NameStem(raw);
    assert IsWordChar('_') && !IsSpace('_');
    forall i | 0 <= i < |r|
      ensures KeptInName(r[i]) && r[i] != ' '
    {
      assert r[i] == if s[i] == ' ' then '_' else s[i];
    }
  }

  /** Lines 69-75: the row's output file name. */
  function OutputFileName(index: nat, schema: string, obj: string): string {
    NameStem(RawName(index, schema, obj)) + ".json"
  }

  /**
   * The name starts with the row label and a `-`, whatever the schema and
   * object are: the label's digits all survive the clean-up.
   */
  lemma OutputFileNameStartsWithIndex(index: nat, schema: string, obj: string)
    returns (rest: string)
    ensures OutputFileName(index, schema, obj) == NatToString(index) + "-" + rest
  {
    var x := StemStartsWithIndex(index, schema, obj);
    var d := NatToString(index);
    rest := x + ".json";
    assert OutputFileName(index, schema, obj) == (d + "-" + x) + ".json";
    ConcatAssoc(d + "-", x, ".json");
  }

  lemma StemStartsWithIndex(index: nat, schema: string, obj: string) returns (x: string)
    ensures NameStem(RawName(index, schema, obj)) == NatToString(index) + "-" + x
  {
    var head := NatToString(index) + "-";
    var tail := "-" + schema + "--" + obj;
    RawNameSplits(index, schema, obj);
    assert head[|head| - 1] == '-';
    CleanNameKeepsHead(head, tail, KeptInName);
    x := ReplaceAll(TrimEnd(Filter(tail, KeptInName)), " ", "_");
  }

  lemma RawNameSplits(index: nat, schema: string, obj: string)
    ensures RawName(index, schema, obj) == (NatToString(index) + "-") + ("-" + schema + "--" + obj)
  {
  }

  /** Rows with different labels are written to different files. */
  lemma OutputFileNamesDistinct(i: nat, schema: string, obj: string, j: nat, schema': string, obj': string)
    requires i != j
    ensures OutputFileName(i, schema, obj) != OutputFileName(j, schema', obj')
  {
    var x := OutputFileNameStartsWithIndex(i, schema, obj);
    var y := OutputFileNameStartsWithIndex(j, schema', obj');
    if OutputFileName(i, schema, obj) == OutputFileName(j, schema', obj') {
      NumberedPrefixInjective(i, x, j, y);
    }
  }

  /**
   * When schema and object are made of word characters only, the file name
   * reads back (as the processed-files scan reads it) to the key of the very
   * row that was written: a later run skips that row.
   */
  lemma OutputFileNameKeyRoundTrip(index: nat, schema: string, obj: string, md5: string -> Digest)
    requires AllWordChars(schema) && AllWordChars(obj)
    ensures KeyOfName(OutputFileName(index, schema, obj), md5) == Some(ObjectKey(schema, obj, md5))
  {
    var d := NatToString(index);
    WordyRawNameIsStem(index, schema, obj);
    assert OutputFileName(index, schema, obj) == d + "--" + schema + "--" + obj + ".json";
    KeyOfNameReadsBack(d, schema, obj, md5);
  }

  /** Every character of `s` is a word character or `-`. */
  predicate WordOrDash(s: string) {
    forall i :: 0 <= i < |s| ==> IsWordChar(s[i]) || s[i] == '-'
  }

  lemma WordOrDashConcat(a: string, b: string)
    requires WordOrDash(a) && WordOrDash(b)
    ensures WordOrDash(a + b)
  {
    forall i | 0 <= i < |a + b|
      ensures IsWordChar((a + b)[i]) || (a + b)[i] == '-'
    {
      if i >= |a| {
        assert (a + b)[i] == b[i - |a|];
      }
    }
  }

  lemma RawNameWordOrDash(index: nat, schema: string, obj: string)
    requires AllWordChars(schema) && AllWordChars(obj)
    ensures WordOrDash(RawName(index, schema, obj))
  {
    var d := NatToString(index);
    assert WordOrDash(d);
    WordOrDashConcat(d, "--");
    WordOrDashConcat(d + "--", schema);
    WordOrDashConcat(d + "--" + schema, "--");
    WordOrDashConcat(d + "--" + schema + "--", obj);
  }

  /** A name made of word characters and `-` is its own stem. */
  lemma WordOrDashIsStem(raw: string)
    requires raw != [] && WordOrDash(raw)
    ensures NameStem(raw) == raw
  {
    FilterKeepsAll(raw, KeptInName);
    StripUnchanged(raw);
    assert Lacks(raw, ' ');
    ReplaceAbsent(raw, " ", "_");
  }

  /** A raw name made of digits, word characters and `-` is its own stem. */
  lemma WordyRawNameIsStem(index: nat, schema: string, obj: string)
    requires AllWordChars(schema) && AllWordChars(obj)
    ensures NameStem(RawName(index, schema, obj)) == RawName(index, schema, obj)
  {
    RawNameWordOrDash(index, schema, obj);
    WordOrDashIsStem(RawName(index, schema, obj));
  }

  // ---------------------------------------------------------------------------
  // Processing one row
  // ---------------------------------------------------------------------------

  /** What `client.generate` does for one prompt: answer with a text, or raise. */
  datatype Reply = Answer(response: string) | Raised

  /** What `process_row` does with one row. */
  datatype RowOutcome =
    | Skipped                                // its key was already processed
    | Written(name: string, doc: Json)       // a document was written to `name`
    | Failed(index: nat, obj: string)        // an exception was caught and reported

  const InvalidJsonMessage := "Invalid JSON from model"

  /**
   * Lines 90-96: the reply parsed as JSON, or, when it does not parse, an
   * object carrying the error message and the raw reply.
   */
  function ResponseDocument(response: string, parse: string -> Option<Json>): (doc: Json)
    ensures parse(response).Some? ==> doc == parse(response).value
    ensures parse(response).None? ==>
      doc.JObject? && doc.fields.Keys == {"error", "raw_response"} &&
      doc.fields["error"] == JString(InvalidJsonMessage) && doc.fields["raw_response"] == JString(response)
  {
    match parse(response)
    case Some(j) => j
    case None => JObject(map["error" := JString(InvalidJsonMessage), "raw_response" := JString(response)])
  }

  /** The row's key, as `get_hash_for_object` computes it. */
  function KeyOfRow(row: DefinitionRow, md5: string -> Digest): Digest {
    ObjectKey(row.schema, row.obj, md5)
  }

  /** Line 83: the prompt for a row is the template around its cleaned definition. */
  function PromptOf(template: string, row: DefinitionRow): string {
    LineagePrompt(template, RobustCleanSql(row.definition))
  }

  /**
   * Lines 50-102. `template` is the prompt file's contents, `None` when it
   * cannot be read (then `get_lineage_prompt` raises before the model is
   * called); `reply` is what the model call does.
   */
  function ProcessRow(row: DefinitionRow, processed: set<Digest>, template: Option<string>,
                      reply: Reply, parse: string -> Option<Json>, md5: string -> Digest): (o: RowOutcome)
    ensures o.Skipped? <==> KeyOfRow(row, md5) in processed
    ensures o.Written? <==> KeyOfRow(row, md5) !in processed && template.Some? && reply.Answer?
    ensures o.Written? ==>
      o.name == OutputFileName(row.index, row.schema, row.obj) && o.doc == ResponseDocument(reply.response, parse)
    ensures o.Failed? ==> o.index == row.index && o.obj == row.obj
  {
    if KeyOfRow(row, md5) in processed then Skipped
    else if template.None? then Failed(row.index, row.obj)
    else match reply
      case Raised => Failed(row.index, row.obj)
      case Answer(response) => Written(OutputFileName(row.index, row.schema, row.obj), ResponseDocument(response, parse))
  }

  /** Whether the model is asked about the row: it is not skipped and the prompt could be built. */
  predicate AsksModel(row: DefinitionRow, processed: set<Digest>, template: Option<string>, md5: string -> Digest) {
    KeyOfRow(row, md5) !in processed && template.Some?
  }

  // ---------------------------------------------------------------------------
  // The whole run
  // ---------------------------------------------------------------------------

  /** Lines 111-112: how many rows' keys are already processed. */
  function CountSkipped(rows: seq<DefinitionRow>, processed: set<Digest>, md5: string -> Digest): (n: nat)
    ensures n <= |rows|
  {
    if rows == [] then 0
    else CountSkipped(rows[..|rows| - 1], processed, md5) + (if KeyOfRow(rows[|rows| - 1], md5) in processed then 1 else 0)
  }

  /** The prompts sent to the model, one per row it is asked about, in row order. */
  function PromptsSent(rows: seq<DefinitionRow>, processed: set<Digest>, template: Option<string>,
                       md5: string -> Digest): seq<string>
  {
    if rows == [] then []
    else
      var last := rows[|rows| - 1];
      PromptsSent(rows[..|rows| - 1], processed, template, md5) +
        (if AsksModel(last, processed, template, md5) then [PromptOf(template.value, last)] else [])
  }

  /** The outcome of every row, each row on its own. */
  function Outcomes(rows: seq<DefinitionRow>, processed: set<Digest>, template: Option<string>,
                    replies: seq<Reply>, parse: string -> Option<Json>, md5: string -> Digest): (os: seq<RowOutcome>)
    requires |replies| == |rows|
    ensures |os| == |rows|
  {
    seq(|rows|, k requires 0 <= k < |rows| => ProcessRow(rows[k], processed, template, replies[k], parse, md5))
  }

  /** The output folder after the outcomes' documents are written, in order. */
  function Persist(folder: map<string, Json>, os: seq<RowOutcome>): map<string, Json> {
    if os == [] then folder
    else
      var before := Persist(folder, os[..|os| - 1]);
      match os[|os| - 1]
      case Written(name, doc) => before[name := doc]
      case _ => before
  }

  /** The three figures `main` prints before it starts. */
  datatype Report = Report(alreadyProcessed: nat, total: nat, willProcess: int)

  lemma PersistSnoc(folder: map<string, Json>, os: seq<RowOutcome>, o: RowOutcome)
    ensures Persist(folder, os + [o]) ==
      if o.Written? then Persist(folder, os)[o.name := o.doc] else Persist(folder, os)
  {
    assert (os + [o])[..|os|] == os;
  }

  lemma PromptsSentSnoc(rows: seq<DefinitionRow>, i: nat, processed: set<Digest>, template: Option<string>,
                        md5: string -> Digest)
    requires i < |rows|
    ensures PromptsSent(rows[..i + 1], processed, template, md5) ==
      PromptsSent(rows[..i], processed, template, md5) +
      (if AsksModel(rows[i], processed, template, md5) then [PromptOf(template.value, rows[i])] else [])
  {
    assert rows[..i + 1][..i] == rows[..i];
  }

  lemma OutcomesSnoc(rows: seq<DefinitionRow>, processed: set<Digest>, template: Option<string>,
                     replies: seq<Reply>, parse: string -> Option<Json>, md5: string -> Digest, i: nat)
    requires |replies| == |rows| && i < |rows|
    ensures Outcomes(rows, processed, template, replies, parse, md5)[..i + 1] ==
      Outcomes(rows, processed, template, replies, parse, md5)[..i] +
      [ProcessRow(rows[i], processed, template, replies[i], parse, md5)]
  {
    var os := Outcomes(rows, processed, template, replies, parse, md5);
    assert os[i] == ProcessRow(rows[i], processed, template, replies[i], parse, md5);
    TakeSnoc(os, i);
  }

  /** Lines 117-125: every row's task, one after the other. */
  method ProcessRows(rows: seq<DefinitionRow>, processed: set<Digest>, folder: map<string, Json>,
                     template: Option<string>, replies: seq<Reply>,
                     parse: string -> Option<Json>, md5: string -> Digest)
    returns (outcomes: seq<RowOutcome>, prompts: seq<string>, folderOut: map<string, Json>)
    requires |replies| == |rows|
    ensures outcomes == Outcomes(rows, processed, template, replies, parse, md5)
    ensures prompts == PromptsSent(rows, processed, template, md5)
    ensures folderOut == Persist(folder, outcomes)
  {
    outcomes, prompts, folderOut := [], [], folder;
    var i := 0;
    while i < |rows|
      invariant 0 <= i <= |rows|
      invariant outcomes == Outcomes(rows, processed, template, replies, parse, md5)[..i]
      invariant prompts == PromptsSent(rows[..i], processed, template, md5)
      invariant folderOut == Persist(folder, outcomes)
    {
      outcomes, prompts, folderOut :=
        ProcessRowAt(rows, i, processed, folder, template, replies, parse, md5, outcomes, prompts, folderOut);
      i := i + 1;
    }
    assert rows[..i] == rows;
  }

  /**
   * Lines 50-102 run for the i-th row: its outcome is recorded, its prompt
   * sent if the model is asked, and its document written if there is one.
   */
  method ProcessRowAt(rows: seq<DefinitionRow>, i: nat, processed: set<Digest>, folder: map<string, Json>,
                      template: Option<string>, replies: seq<Reply>,
                      parse: string -> Option<Json>, md5: string -> Digest,
                      outcomes: seq<RowOutcome>, prompts: seq<string>, folderIn: map<string, Json>)
    returns (outcomes': seq<RowOutcome>, prompts': seq<string>, folderOut: map<string, Json>)
    requires |replies| == |rows| && i < |rows|
    requires outcomes == Outcomes(rows, processed, template, replies, parse, md5)[..i]
    requires prompts == PromptsSent(rows[..i], processed, template, md5)
    requires folderIn == Persist(folder, outcomes)
    ensures outcomes' == Outcomes(rows, processed, template, replies, parse, md5)[..i + 1]
    ensures prompts' == PromptsSent(rows[..i + 1], processed, template, md5)
    ensures folderOut == Persist(folder, outcomes')
  {
    var o := ProcessRow(rows[i], processed, template, replies[i], parse, md5);
    PromptsSentSnoc(rows, i, processed, template, md5);
    prompts' := prompts;
    if AsksModel(rows[i], processed, template, md5) {
      prompts' := prompts + [PromptOf(template.value, rows[i])];
    }
    PersistSnoc(folder, outcomes, o);
    folderOut := folderIn;
    if o.Written? {
      folderOut := folderIn[o.name := o.doc];
    }
    OutcomesSnoc(rows, processed, template, replies, parse, md5, i);
    outcomes' := outcomes + [o];
  }

  /**
   * Lines 107-125. The folder is the output directory, file name to
   * document; `replies[k]` is what the model does for the k-th selected row.
   * The rows are processed one after the other; with at most one request at
   * a time and every row writing its own file, the order does not matter.
   */
  method RunExtraction(table: seq<DefinitionRow>, targets: seq<string>, folder: map<string, Json>,
                       template: Option<string>, replies: seq<Reply>,
                       parse: string -> Option<Json>, md5: string -> Digest)
    returns (report: Report, outcomes: seq<RowOutcome>, prompts: seq<string>, folderOut: map<string, Json>)
    requires |replies| == |SelectRows(table, targets)|
    ensures var rows := SelectRows(table, targets);
      var processed := ProcessedKeys(folder.Keys, md5);
      && report == Report(|processed|, |rows|, |rows| - CountSkipped(rows, processed, md5))
      && outcomes == Outcomes(rows, processed, template, replies, parse, md5)
      && prompts == PromptsSent(rows, processed, template, md5)
      && folderOut == Persist(folder, outcomes)
  {
    var rows := SelectRows(table, targets);
    var processed := BuildProcessedHashes(Some(folder.Keys), md5);
    var skipped := CountSkipped(rows, processed, md5);
    report := Report(|processed|, |rows|, |rows| - skipped);
    outcomes, prompts, folderOut := ProcessRows(rows, processed, folder, template, replies, parse, md5);
  }

  // ---------------------------------------------------------------------------
  // What a run promises
  // ---------------------------------------------------------------------------

  /**
   * The "Will process N out of M" line is exact: when the prompt file can be
   * read, the model is asked about every row that is not skipped, once; when
   * it cannot, the model is never asked.
   */
  lemma {:induction false} PromptsMatchReport(rows: seq<DefinitionRow>, processed: set<Digest>,
                                              template: Option<string>, md5: string -> Digest)
    ensures template.Some? ==> |PromptsSent(rows, processed, template, md5)| == |rows| - CountSkipped(rows, processed, md5)
    ensures template.None? ==> PromptsSent(rows, processed, template, md5) == []
  {
    if rows != [] {
      PromptsMatchReport(rows[..|rows| - 1], processed, template, md5);
    }
  }

  predicate WrittenNamesDistinct(os: seq<RowOutcome>) {
    forall i, j :: 0 <= i < j < |os| && os[i].Written? && os[j].Written? ==> os[i].name != os[j].name
  }

  /** The folder afterwards holds what it held before plus one file per written outcome. */
  lemma {:induction false} PersistKeys(folder: map<string, Json>, os: seq<RowOutcome>, n: string)
    ensures n in Persist(folder, os) <==>
      n in folder || exists k :: 0 <= k < |os| && os[k].Written? && os[k].name == n
  {
    if os != [] {
      var init := os[..|os| - 1];
      PersistKeys(folder, init, n);
      if exists k :: 0 <= k < |init| && init[k].Written? && init[k].name == n {
        var k :| 0 <= k < |init| && init[k].Written? && init[k].name == n;
        assert os[k] == init[k];
      }
      if exists k :: 0 <= k < |os| && os[k].Written? && os[k].name == n {
        var k :| 0 <= k < |os| && os[k].Written? && os[k].name == n;
        if k < |init| {
          assert init[k] == os[k];
        }
      }
    }
  }

  /** With distinct names, each written document is what its file holds at the end. */
  lemma {:induction false} PersistWritten(folder: map<string, Json>, os: seq<RowOutcome>, k: nat)
    requires WrittenNamesDistinct(os) && k < |os| && os[k].Written?
    ensures os[k].name in Persist(folder, os) && Persist(folder, os)[os[k].name] == os[k].doc
  {
    var init := os[..|os| - 1];
    if k < |init| {
      assert init[k] == os[k];
      PersistWritten(folder, init, k);
    }
  }

  /** A file no outcome writes keeps its contents. */
  lemma {:induction false} PersistUntouched(folder: map<string, Json>, os: seq<RowOutcome>, n: string)
    requires n in folder
    requires forall k :: 0 <= k < |os| && os[k].Written? ==> os[k].name != n
    ensures n in Persist(folder, os) && Persist(folder, os)[n] == folder[n]
  {
    if os != [] {
      var init := os[..|os| - 1];
      assert forall k :: 0 <= k < |init| ==> init[k] == os[k];
      PersistUntouched(folder, init, n);
    }
  }

  /** Rows with distinct labels never write to the same file. */
  lemma OutcomesWriteDistinctNames(rows: seq<DefinitionRow>, processed: set<Digest>, template: Option<string>,
                                   replies: seq<Reply>, parse: string -> Option<Json>, md5: string -> Digest)
    requires |replies| == |rows| && DistinctIndices(rows)
    ensures WrittenNamesDistinct(Outcomes(rows, processed, template, replies, parse, md5))
  {
    var os := Outcomes(rows, processed, template, replies, parse, md5);
    forall i, j | 0 <= i < j < |os| && os[i].Written? && os[j].Written?
      ensures os[i].name != os[j].name
    {
      OutputFileNamesDistinct(rows[i].index, rows[i].schema, rows[i].obj, rows[j].index, rows[j].schema, rows[j].obj);
    }
  }

  /**
   * Every row the model answered ends up in its own file, holding the parsed
   * answer or the error document.
   */
  lemma RunKeepsEveryAnswer(rows: seq<DefinitionRow>, folder: map<string, Json>, template: Option<string>,
                            replies: seq<Reply>, parse: string -> Option<Json>, md5: string -> Digest, k: nat)
    requires |replies| == |rows| && DistinctIndices(rows) && k < |rows|
    requires KeyOfRow(rows[k], md5) !in ProcessedKeys(folder.Keys, md5)
    requires template.Some? && replies[k].Answer?
    ensures var name := OutputFileName(rows[k].index, rows[k].schema, rows[k].obj);
      var after := Persist(folder, Outcomes(rows, ProcessedKeys(folder.Keys, md5), template, replies, parse, md5));
      name in after && after[name] == ResponseDocument(replies[k].response, parse)
  {
    var processed := ProcessedKeys(folder.Keys, md5);
    OutcomesWriteDistinctNames(rows, processed, template, replies, parse, md5);
    PersistWritten(folder, Outcomes(rows, processed, template, replies, parse, md5), k);
  }

  /**
   * A file whose name no selected row produces is left as it was: the run
   * only adds or overwrites the rows' own files.
   */
  lemma RunLeavesOtherFiles(rows: seq<DefinitionRow>, folder: map<string, Json>, template: Option<string>,
                            replies: seq<Reply>, parse: string -> Option<Json>, md5: string -> Digest, n: string)
    requires |replies| == |rows| && n in folder
    requires forall k :: 0 <= k < |rows| ==> OutputFileName(rows[k].index, rows[k].schema, rows[k].obj) != n
    ensures var after := Persist(folder, Outcomes(rows, ProcessedKeys(folder.Keys, md5), template, replies, parse, md5));
      n in after && after[n] == folder[n]
  {
    PersistUntouched(folder, Outcomes(rows, ProcessedKeys(folder.Keys, md5), template, replies, parse, md5), n);
  }

  /**
   * Resuming works: a row that was skipped or written, and whose schema and
   * object are word characters only, has its key among those the next run
   * reads off the folder, so the next run skips it.
   */
  lemma RerunSkipsDoneRows(rows: seq<DefinitionRow>, folder: map<string, Json>, template: Option<string>,
                           replies: seq<Reply>, parse: string -> Option<Json>, md5: string -> Digest, k: nat)
    requires |replies| == |rows| && k < |rows|
    requires AllWordChars(rows[k].schema) && AllWordChars(rows[k].obj)
    requires var o := Outcomes(rows, ProcessedKeys(folder.Keys, md5), template, replies, parse, md5)[k];
      o.Skipped? || o.Written?
    ensures var after := Persist(folder, Outcomes(rows, ProcessedKeys(folder.Keys, md5), template, replies, parse, md5));
      KeyOfRow(rows[k], md5) in ProcessedKeys(after.Keys, md5)
  {
    var os := Outcomes(rows, ProcessedKeys(folder.Keys, md5), template, replies, parse, md5);
    var after := Persist(folder, os);
    if os[k].Skipped? {
      forall n | n in folder.Keys
        ensures n in after.Keys
      {
        PersistKeys(folder, os, n);
      }
      ProcessedKeysMonotone(folder.Keys, after.Keys, md5);
    } else {
      var name := os[k].name;
      PersistKeys(folder, os, name);
      OutputFileNameKeyRoundTrip(rows[k].index, rows[k].schema, rows[k].obj, md5);
      assert KeyOfName(name, md5) == Some(KeyOfRow(rows[k], md5));
    }
  }
}
