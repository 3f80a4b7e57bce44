/**
 * `create_sql_views_lineage_json.py`: from the table of view dependencies,
 * write one `{"lineage": [...]}` document per view, named
 * `{n}--{schema}--{view}.json` with the views numbered from 1 in the order
 * of their full names.
 */
module ViewExport {
  import opened Text
  import opened Seqs
  import opened JsonValue
  import opened Wrappers
  import LineageGraph

  /** One row of the dependency table: a dependent object and an object it depends on. */
  datatype DependencyRow = DependencyRow(
    database: string,
    dependentSchema: string, dependentName: string, dependentType: string,
    dependsOnSchema: string, dependsOnName: string, dependsOnType: string)

  const View := "VIEW"

  // ---------------------------------------------------------------------------
  // Choosing the rows (lines 11-15)
  // ---------------------------------------------------------------------------

  /** `df[df["Dependent_Object_Type"] == 'VIEW']` */
  function KeepViews(rows: seq<DependencyRow>): (r: seq<DependencyRow>)
    ensures forall x :: x in r <==> x in rows && x.dependentType == View
  {
    if rows == [] then []
    else (if rows[0].dependentType == View then [rows[0]] else []) + KeepViews(rows[1..])
  }

  /** The six columns `drop_duplicates` compares; the database column is not among them. */
  function Columns(r: DependencyRow): (string, string, string, string, string, string) {
    (r.dependentSchema, r.dependentName, r.dependentType, r.dependsOnSchema, r.dependsOnName, r.dependsOnType)
  }

  /** Lines 11-15: the view rows, the first of each group of rows equal on the six columns. */
  function SelectViewRows(rows: seq<DependencyRow>): seq<DependencyRow> {
    DistinctBy(KeepViews(rows), Columns)
  }

  /**
   * Only view rows of the table are kept, no two agree on the six columns,
   * and every view row of the table has one that agrees with it.
   */
  lemma SelectViewRowsProperties(rows: seq<DependencyRow>)
    ensures forall x :: x in SelectViewRows(rows) ==> x in rows && x.dependentType == View
    ensures forall i, j :: 0 <= i < j < |SelectViewRows(rows)| ==>
      Columns(SelectViewRows(rows)[i]) != Columns(SelectViewRows(rows)[j])
    ensures forall y :: y in rows && y.dependentType == View ==>
      exists x :: x in SelectViewRows(rows) && Columns(x) == Columns(y)
  {
    var views := KeepViews(rows);
    forall x | x in SelectViewRows(rows)
      ensures x in rows && x.dependentType == View
    {
      DistinctByKeeps(views, Columns, x);
    }
    DistinctByKeysDistinct(views, Columns);
    forall y | y in rows && y.dependentType == View
      ensures exists x :: x in SelectViewRows(rows) && Columns(x) == Columns(y)
    {
      DistinctByCovers(views, Columns, y);
    }
  }

  // ---------------------------------------------------------------------------
  // Grouping by target (lines 35-40)
  // ---------------------------------------------------------------------------

  /** `Target_Full`: dependent schema, a dot, dependent object name. */
  function TargetFull(r: DependencyRow): string {
    r.dependentSchema + "." + r.dependentName
  }

  /** `Source_Full`: depended-on schema, a dot, depended-on object name. */
  function SourceFull(r: DependencyRow): string {
    r.dependsOnSchema + "." + r.dependsOnName
  }

  predicate StrictlyAscending(keys: seq<string>) {
    forall i, j :: 0 <= i < j < |keys| ==> Below(keys[i], keys[j])
  }

  /** Insert `t` into ascending distinct keys, unless it is there already. */
  function InsertKey(t: string, keys: seq<string>): seq<string> {
    if keys == [] then [t]
    else if t == keys[0] then keys
    else if Below(t, keys[0]) then [t] + keys
    else [keys[0]] + InsertKey(t, keys[1..])
  }

  lemma {:induction false} InsertKeyProperties(t: string, keys: seq<string>)
    requires StrictlyAscending(keys)
    ensures StrictlyAscending(InsertKey(t, keys))
    ensures forall y :: y in InsertKey(t, keys) <==> y in keys || y == t
  {
    if keys == [] || t == keys[0] {
    } else if Below(t, keys[0]) {
      var r := [t] + keys;
      forall i, j | 0 <= i < j < |r|
        ensures Below(r[i], r[j])
      {
        if i == 0 && j > 1 {
          assert r[j] == keys[j - 1];
          BelowTransitive(t, keys[0], keys[j - 1]);
        }
      }
    } else {
      InsertKeyProperties(t, keys[1..]);
      var rest := InsertKey(t, keys[1..]);
      var r := [keys[0]] + rest;
      assert keys == [keys[0]] + keys[1..];
      BelowTotal(t, keys[0]);
      forall i, j | 0 <= i < j < |r|
        ensures Below(r[i], r[j])
      {
        if i == 0 {
          assert r[j] == rest[j - 1];
          assert r[j] in keys[1..] || r[j] == t;
        }
      }
    }
  }

  /** The keys `df.groupby('Target_Full')` iterates over: each target once, in ascending order. */
  function GroupKeys(rows: seq<DependencyRow>): seq<string> {
    if rows == [] then []
    else InsertKey(TargetFull(rows[|rows| - 1]), GroupKeys(rows[..|rows| - 1]))
  }

  lemma {:induction false} GroupKeysProperties(rows: seq<DependencyRow>)
    ensures StrictlyAscending(GroupKeys(rows))
    ensures forall t :: t in GroupKeys(rows) <==> exists r :: r in rows && TargetFull(r) == t
  {
    if rows != [] {
      var init := rows[..|rows| - 1];
      GroupKeysProperties(init);
      InsertKeyProperties(TargetFull(rows[|rows| - 1]), GroupKeys(init));
      assert rows == init + [rows[|rows| - 1]];
      forall t | t in GroupKeys(rows)
        ensures exists r :: r in rows && TargetFull(r) == t
      {
        if t in GroupKeys(init) {
          var r :| r in init && TargetFull(r) == t;
          assert r in rows;
        }
      }
    }
  }

  /** The rows of one group, in table order. */
  function Group(rows: seq<DependencyRow>, t: string): (g: seq<DependencyRow>)
    ensures forall x :: x in g <==> x in rows && TargetFull(x) == t
  {
    if rows == [] then []
    else (if TargetFull(rows[0]) == t then [rows[0]] else []) + Group(rows[1..], t)
  }

  // ---------------------------------------------------------------------------
  // The document and the file name (lines 42-68)
  // ---------------------------------------------------------------------------

  /** One lineage item: `{"source": Source_Full, "target": Target_Full}`. */
  function Dependency(r: DependencyRow): Json {
    JObject(map["source" := JString(SourceFull(r)), "target" := JString(TargetFull(r))])
  }

  /** The lineage items of a group, one per row, in row order. */
  function Dependencies(group: seq<DependencyRow>): (deps: seq<Json>)
    ensures |deps| == |group|
  {
    seq(|group|, j requires 0 <= j < |group| => Dependency(group[j]))
  }

  function LineageDocument(deps: seq<Json>): Json {
    JObject(map["lineage" := JArray(deps)])
  }

  /** The characters `[<>:"/\\|?*]` matches. */
  predicate IsUnsafe(c: char) {
    c == '<' || c == '>' || c == ':' || c == '"' || c == '/' || c == '\\' || c == '|' || c == '?' || c == '*'
  }

  /** Lines 56-57: every unsafe character becomes `_`, every other one stays where it is. */
  function SafeName(s: string): (r: string)
    ensures |r| == |s|
    ensures forall i :: 0 <= i < |s| ==> (IsUnsafe(s[i]) ==> r[i] == '_') && (!IsUnsafe(s[i]) ==> r[i] == s[i])
  {
    if s == [] then [] else [if IsUnsafe(s[0]) then '_' else s[0]] + SafeName(s[1..])
  }

  /** The sanitised name holds no unsafe character, and sanitising it again changes nothing. */
  lemma SafeNameIsSafe(s: string)
    ensures forall i :: 0 <= i < |SafeName(s)| ==> !IsUnsafe(SafeName(s)[i])
    ensures SafeName(SafeName(s)) == SafeName(s)
  {
    var r := SafeName(s);
    assert forall i :: 0 <= i < |r| ==> SafeName(r)[i] == r[i];
  }

  /** Lines 59-61: `{idx}--{safe_schema}--{safe_object}.json` */
  function ViewFileName(idx: nat, schema: string, obj: string): string {
    NatToString(idx) + "--" + SafeName(schema) + "--" + SafeName(obj) + ".json"
  }

  /** Different numbers give different file names, whatever the schemas and objects. */
  lemma ViewFileNamesDistinct(i: nat, schema: string, obj: string, j: nat, schema': string, obj': string)
    requires i != j
    ensures ViewFileName(i, schema, obj) != ViewFileName(j, schema', obj')
  {
    var x := ViewFileNameSplits(i, schema, obj);
    var y := ViewFileNameSplits(j, schema', obj');
    if ViewFileName(i, schema, obj) == ViewFileName(j, schema', obj') {
      NumberedPrefixInjective(i, x, j, y);
    }
  }

  lemma ViewFileNameSplits(idx: nat, schema: string, obj: string) returns (rest: string)
    ensures ViewFileName(idx, schema, obj) == NatToString(idx) + "-" + rest
  {
    var a, b := SafeName(schema), SafeName(obj);
    rest := "-" + a + "--" + b + ".json";
    NameRegroups(NatToString(idx), a, b);
  }

  lemma NameRegroups(d: string, a: string, b: string)
    ensures d + "--" + a + "--" + b + ".json" == d + "-" + ("-" + a + "--" + b + ".json")
  {
  }

  // ---------------------------------------------------------------------------
  // The export
  // ---------------------------------------------------------------------------

  /** The file of the `idx`-th group: named after the group's first row, holding all its rows. */
  function GroupFile(idx: nat, group: seq<DependencyRow>): (string, Json)
    requires group != []
  {
    (ViewFileName(idx, group[0].dependentSchema, group[0].dependentName), LineageDocument(Dependencies(group)))
  }

  /** Every key of `keys` has a non-empty group of rows in `sel`. */
  predicate GroupsFilled(sel: seq<DependencyRow>, keys: seq<string>) {
    forall i :: 0 <= i < |keys| ==> Group(sel, keys[i]) != []
  }

  lemma GroupsNonEmpty(rows: seq<DependencyRow>)
    ensures GroupsFilled(rows, GroupKeys(rows))
  {
    GroupKeysProperties(rows);
    forall i | 0 <= i < |GroupKeys(rows)|
      ensures Group(rows, GroupKeys(rows)[i]) != []
    {
      var t := GroupKeys(rows)[i];
      assert t in GroupKeys(rows);
      var r :| r in rows && TargetFull(r) == t;
      assert r in Group(rows, t);
    }
  }

  /** The files of the groups of `keys`, in order, numbered from `n`. */
  function GroupFiles(sel: seq<DependencyRow>, keys: seq<string>, n: nat): (files: seq<(string, Json)>)
    requires GroupsFilled(sel, keys)
    ensures |files| == |keys|
  {
    if keys == [] then []
    else
      [GroupFile(n, Group(sel, keys[0]))] + GroupFiles(sel, keys[1..], n + 1)
  }

  lemma GroupFilesCons(sel: seq<DependencyRow>, keys: seq<string>, n: nat)
    requires GroupsFilled(sel, keys) && keys != []
    ensures GroupsFilled(sel, keys[1..])
    ensures GroupFiles(sel, keys, n) == [GroupFile(n, Group(sel, keys[0]))] + GroupFiles(sel, keys[1..], n + 1)
  {
    assert forall i :: 0 <= i < |keys| - 1 ==> keys[1..][i] == keys[i + 1];
  }

  lemma {:induction false} GroupFilesAt(sel: seq<DependencyRow>, keys: seq<string>, n: nat, k: nat)
    requires GroupsFilled(sel, keys) && k < |keys|
    ensures Group(sel, keys[k]) != [] && GroupFiles(sel, keys, n)[k] == GroupFile(n + k, Group(sel, keys[k]))
  {
    GroupFilesCons(sel, keys, n);
    if k > 0 {
      GroupFilesAt(sel, keys[1..], n + 1, k - 1);
      assert keys[1..][k - 1] == keys[k];
    }
  }

  /** Every file the script writes, in the order it writes them, numbered from 1. */
  function ExportedFiles(rows: seq<DependencyRow>): (files: seq<(string, Json)>)
    ensures |files| == |GroupKeys(SelectViewRows(rows))|
  {
    var sel := SelectViewRows(rows);
    GroupsNonEmpty(sel);
    GroupFiles(sel, GroupKeys(sel), 1)
  }

  /** The folder after writing the files in order. */
  function WriteFiles(folder: map<string, Json>, files: seq<(string, Json)>): map<string, Json> {
    if files == [] then folder
    else WriteFiles(folder, files[..|files| - 1])[files[|files| - 1].0 := files[|files| - 1].1]
  }

  /** Lines 48-52: the inner loop appending one item per row of the group. */
  method CollectDependencies(group: seq<DependencyRow>) returns (deps: seq<Json>)
    ensures deps == Dependencies(group)
  {
    deps := [];
    var j := 0;
    while j < |group|
      invariant 0 <= j <= |group|
      invariant deps == Dependencies(group)[..j]
    {
      deps := deps + [Dependency(group[j])];
      j := j + 1;
    }
  }

  lemma WriteFilesSnoc(folder: map<string, Json>, files: seq<(string, Json)>, k: nat)
    requires k < |files|
    ensures WriteFiles(folder, files[..k + 1]) == WriteFiles(folder, files[..k])[files[k].0 := files[k].1]
  {
    assert files[..k + 1][..k] == files[..k];
  }

  /** File k is the file of the (k+1)-th group. */
  lemma ExportedFileAt(rows: seq<DependencyRow>, k: nat) returns (g: seq<DependencyRow>)
    requires k < |ExportedFiles(rows)|
    ensures g == Group(SelectViewRows(rows), GroupKeys(SelectViewRows(rows))[k])
    ensures g != [] && ExportedFiles(rows)[k] == GroupFile(k + 1, g)
  {
    var sel := SelectViewRows(rows);
    GroupsNonEmpty(sel);
    GroupFilesAt(sel, GroupKeys(sel), 1, k);
    g := Group(sel, GroupKeys(sel)[k]);
  }

  /** Writing file k: the file of the (k+1)-th group, named after its first row. */
  lemma ExportStep(rows: seq<DependencyRow>, folder: map<string, Json>, k: nat)
    requires k < |GroupKeys(SelectViewRows(rows))|
    ensures var g := Group(SelectViewRows(rows), GroupKeys(SelectViewRows(rows))[k]);
      && g != []
      && WriteFiles(folder, ExportedFiles(rows)[..k + 1]) ==
         WriteFiles(folder, ExportedFiles(rows)[..k])[ViewFileName(k + 1, g[0].dependentSchema, g[0].dependentName)
           := LineageDocument(Dependencies(g))]
  {
    var _ := ExportedFileAt(rows, k);
    WriteFilesSnoc(folder, ExportedFiles(rows), k);
  }

  /**
   * Lines 11-71, the folder being the output directory (file name to
   * document): select the rows, group them by target and write one file
   * per group.
   */
  method ExportViewLineage(rows: seq<DependencyRow>, folder: map<string, Json>) returns (folderOut: map<string, Json>)
    ensures folderOut == WriteFiles(folder, ExportedFiles(rows))
  {
    var sel := SelectViewRows(rows);
    var keys := GroupKeys(sel);
    GroupsNonEmpty(sel);
    ghost var files := ExportedFiles(rows);
    folderOut := folder;
    for k := 0 to |keys|
      invariant folderOut == WriteFiles(folder, files[..k])
    {
      var group := Group(sel, keys[k]);
      ExportStep(rows, folder, k);
      var deps := CollectDependencies(group);
      var name := ViewFileName(k + 1, group[0].dependentSchema, group[0].dependentName);
      folderOut := folderOut[name := LineageDocument(deps)];
    }
    assert files[..|keys|] == files;
  }

  // ---------------------------------------------------------------------------
  // What the export promises
  // ---------------------------------------------------------------------------

  /** No two files share a name, so no file overwrites another. */
  lemma ExportedNamesDistinct(rows: seq<DependencyRow>)
    ensures forall i, j :: 0 <= i < j < |ExportedFiles(rows)| ==> ExportedFiles(rows)[i].0 != ExportedFiles(rows)[j].0
  {
    var sel := SelectViewRows(rows);
    GroupsNonEmpty(sel);
    forall i, j | 0 <= i < j < |ExportedFiles(rows)|
      ensures ExportedFiles(rows)[i].0 != ExportedFiles(rows)[j].0
    {
      GroupFileNamesDiffer(sel, GroupKeys(sel), 1, i, j);
    }
  }

  /** Files of different groups carry different numbers, hence different names. */
  lemma GroupFileNamesDiffer(sel: seq<DependencyRow>, keys: seq<string>, n: nat, i: nat, j: nat)
    requires GroupsFilled(sel, keys) && i < j < |keys|
    ensures GroupFiles(sel, keys, n)[i].0 != GroupFiles(sel, keys, n)[j].0
  {
    GroupFilesAt(sel, keys, n, i);
    GroupFilesAt(sel, keys, n, j);
    GroupFileNamed(n + i, Group(sel, keys[i]), n + j, Group(sel, keys[j]));
  }

  lemma GroupFileNamed(i: nat, gi: seq<DependencyRow>, j: nat, gj: seq<DependencyRow>)
    requires i != j && gi != [] && gj != []
    ensures GroupFile(i, gi).0 != GroupFile(j, gj).0
  {
    ViewFileNamesDistinct(i, gi[0].dependentSchema, gi[0].dependentName,
                          j, gj[0].dependentSchema, gj[0].dependentName);
  }

  /** With distinct names, the folder ends up holding every file's document under its name. */
  lemma {:induction false} WriteFilesHolds(folder: map<string, Json>, files: seq<(string, Json)>, k: nat)
    requires k < |files|
    requires forall i, j :: 0 <= i < j < |files| ==> files[i].0 != files[j].0
    ensures files[k].0 in WriteFiles(folder, files) && WriteFiles(folder, files)[files[k].0] == files[k].1
  {
    var init := files[..|files| - 1];
    if k < |init| {
      assert init[k] == files[k];
      WriteFilesHolds(folder, init, k);
    }
  }

  /**
   * File k (counting from 0) is for the (k+1)-th target in ascending order;
   * it is named with k+1 and the first row of its group, and its lineage list
   * has one item per row of the group, in order, each from that row's source
   * to the group's target.
   */
  lemma ExportedFileContents(rows: seq<DependencyRow>, k: nat)
    requires k < |ExportedFiles(rows)|
    ensures var sel := SelectViewRows(rows);
      var t := GroupKeys(sel)[k];
      var g := Group(sel, t);
      var file := ExportedFiles(rows)[k];
      && g != []
      && file.0 == ViewFileName(k + 1, g[0].dependentSchema, g[0].dependentName)
      && file.1 == LineageDocument(Dependencies(g))
      && forall j :: 0 <= j < |g| ==>
           Dependencies(g)[j] == JObject(map["source" := JString(SourceFull(g[j])), "target" := JString(t)])
  {
    var sel := SelectViewRows(rows);
    var _ := ExportedFileAt(rows, k);
    var t := GroupKeys(sel)[k];
    var g := Group(sel, t);
    forall j | 0 <= j < |g|
      ensures TargetFull(g[j]) == t
    {
      assert g[j] in g;
    }
  }

  /** `doc` is a lineage document whose list holds `item`. */
  predicate ListsItem(doc: Json, item: Json) {
    doc.JObject? && "lineage" in doc.fields && doc.fields["lineage"].JArray? && item in doc.fields["lineage"].items
  }

  /**
   * Every view row of the table is exported: the file of its target lists an
   * item from its source to its target.
   */
  lemma EveryViewRowExported(rows: seq<DependencyRow>, y: DependencyRow)
    requires y in rows && y.dependentType == View
    ensures exists k :: (0 <= k < |ExportedFiles(rows)| && ListsItem(ExportedFiles(rows)[k].1, Dependency(y)))
  {
    var sel := SelectViewRows(rows);
    var keys := GroupKeys(sel);
    var x := RepresentedBy(rows, y);
    GroupKeysProperties(sel);
    assert x in sel && TargetFull(x) == TargetFull(y);
    assert TargetFull(y) in keys;
    var k :| 0 <= k < |keys| && keys[k] == TargetFull(y);
    var g := Group(sel, TargetFull(y));
    assert x in g;
    var j :| 0 <= j < |g| && g[j] == x;
    assert Dependencies(g)[j] == Dependency(y);
    ExportedFileContents(rows, k);
    assert ListsItem(ExportedFiles(rows)[k].1, Dependency(y));
  }

  lemma RepresentedBy(rows: seq<DependencyRow>, y: DependencyRow) returns (x: DependencyRow)
    requires y in rows && y.dependentType == View
    ensures x in SelectViewRows(rows) && Dependency(x) == Dependency(y) && TargetFull(x) == TargetFull(y)
  {
    DistinctByCovers(KeepViews(rows), Columns, y);
    x :| x in SelectViewRows(rows) && Columns(x) == Columns(y);
  }

  /**
   * The lineage graph builder reads back from file k exactly the edges of
   * its group: one per row, from the row's source to the group's target.
   */
  lemma ExportedEdges(rows: seq<DependencyRow>, k: nat)
    requires k < |ExportedFiles(rows)|
    ensures var sel := SelectViewRows(rows);
      var g := Group(sel, GroupKeys(sel)[k]);
      LineageGraph.FileEdges(Some(ExportedFiles(rows)[k].1)) ==
        seq(|g|, j requires 0 <= j < |g| => (SourceFull(g[j]), GroupKeys(sel)[k]))
  {
    var sel := SelectViewRows(rows);
    var t := GroupKeys(sel)[k];
    var g := Group(sel, t);
    ExportedFileContents(rows, k);
    DependencyItemsEdges(g, t);
  }

  lemma {:induction false} DependencyItemsEdges(g: seq<DependencyRow>, t: string)
    requires forall j :: 0 <= j < |g| ==> TargetFull(g[j]) == t
    ensures LineageGraph.ItemsEdges(Dependencies(g)) == seq(|g|, j requires 0 <= j < |g| => (SourceFull(g[j]), t))
  {
    if g != [] {
      DependencyItemsEdges(g[1..], t);
      assert Dependencies(g)[1..] == Dependencies(g[1..]);
    }
  }
}
