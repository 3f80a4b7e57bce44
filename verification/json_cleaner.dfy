/**
 * `json_cleaner.py`: rewrite every `.json` file of the output folder with
 * the square brackets removed from the `source` and `target` of each
 * lineage item (`[dbo].[Orders]` becomes `dbo.Orders`).
 *
 * The cleaning follows what Python does with each shape of document: a
 * membership test or an index on the wrong type raises, and whether that
 * happens inside the per-item `try` (the item is left as it is and the loop
 * goes on) or outside it (the script stops) decides the outcome.
 */
module JsonCleaner {
  import opened Wrappers
  import opened Text
  import opened JsonValue
  import LineageGraph

  predicate NotBracket(c: char) {
    c != '[' && c != ']'
  }

  /** Lines 26 and 30: `.replace("[", "").replace("]", "")` */
  function StripBrackets(s: string): string {
    ReplaceAll(ReplaceAll(s, "[", ""), "]", "")
  }

  /** Every bracket is deleted and every other character kept, in order. */
  lemma StripBracketsFilters(s: string)
    ensures StripBrackets(s) == Filter(s, NotBracket)
  {
    var noOpen := (c: char) => c != '[';
    var noClose := (c: char) => c != ']';
    ReplaceCharByNothing(s, '[', noOpen);
    ReplaceCharByNothing(Filter(s, noOpen), ']', noClose);
    FilterTwice(s, noOpen, noClose, NotBracket);
  }

  /** A second pass finds no bracket left. */
  lemma StripBracketsIdempotent(s: string)
    ensures StripBrackets(StripBrackets(s)) == StripBrackets(s)
  {
    StripBracketsFilters(s);
    StripBracketsFilters(StripBrackets(s));
    FilterKeepsAll(StripBrackets(s), NotBracket);
  }

  // ---------------------------------------------------------------------------
  // One lineage item (lines 23-32)
  // ---------------------------------------------------------------------------

  /** Clean one field of an object item: `None` when its value is not a string and `.replace` raises. */
  function CleanField(fields: map<string, Json>, key: string): (r: Option<map<string, Json>>)
    ensures r.Some? <==> key !in fields || fields[key].JString?
    ensures r.Some? && key in fields ==> r.value == fields[key := JString(StripBrackets(fields[key].s))]
    ensures r.Some? && key !in fields ==> r.value == fields
  {
    if key !in fields then Some(fields)
    else if fields[key].JString? then Some(fields[key := JString(StripBrackets(fields[key].s))])
    else None
  }

  /**
   * The `try` block for one item. Only an object item can change. On a
   * number, boolean or null `"source" in item` raises; on a string it is a
   * substring test and on a list an element test, and when it holds,
   * `item["source"]` raises (likewise for `target`): either way the
   * exception is caught, or nothing happens, and the item stays as it was.
   * In an object the source is cleaned, then the target; a value that is not
   * a string raises at `.replace`, and what was cleaned before it stays
   * cleaned.
   */
  function CleanItem(item: Json): (r: Json)
    ensures !item.JObject? ==> r == item
    ensures item.JObject? ==> r.JObject? && r.fields.Keys == item.fields.Keys
  {
    if !item.JObject? then item
    else
      var source := CleanField(item.fields, "source");
      if source.None? then item
      else
        var target := CleanField(source.value, "target");
        if target.None? then JObject(source.value) else JObject(target.value)
  }

  /**
   * What the item's cleaning does to each of its fields: fields other than
   * `source` and `target` never change; `source` is bracket-stripped when it
   * is a string; `target` is bracket-stripped when it is a string and the
   * source did not raise before it.
   */
  lemma CleanItemFields(item: Json)
    requires item.JObject?
    ensures var r := CleanItem(item).fields;
      var f := item.fields;
      && (forall k :: k in f && k != "source" && k != "target" ==> r[k] == f[k])
      && ("source" in f && f["source"].JString? ==> r["source"] == JString(StripBrackets(f["source"].s)))
      && ("source" in f && !f["source"].JString? ==> r == f)
      && ("target" in f && f["target"].JString? && ("source" !in f || f["source"].JString?) ==>
            r["target"] == JString(StripBrackets(f["target"].s)))
      && ("target" in f && !f["target"].JString? ==> r["target"] == f["target"])
  {
  }

  /** Cleaning an item twice is cleaning it once. */
  lemma CleanItemIdempotent(item: Json)
    ensures CleanItem(CleanItem(item)) == CleanItem(item)
  {
    if item.JObject? {
      var f := item.fields;
      var r := CleanItem(item).fields;
      CleanItemFields(item);
      if "source" in f && f["source"].JString? {
        StripBracketsIdempotent(f["source"].s);
      }
      if "target" in f && f["target"].JString? && ("source" !in f || f["source"].JString?) {
        StripBracketsIdempotent(f["target"].s);
      }
      CleanItemFields(CleanItem(item));
      assert CleanItem(CleanItem(item)).fields == r;
    }
  }

  /** The lineage list after the loop of lines 22-32: same length, each item cleaned in place. */
  function CleanItems(items: seq<Json>): (r: seq<Json>)
    ensures |r| == |items|
  {
    seq(|items|, k requires 0 <= k < |items| => CleanItem(items[k]))
  }

  /** Lines 22-32: the loop over the lineage list, updating each item where it stands (run by `CleanFile`). */
  method CleanLineageItems(items: seq<Json>) returns (cleaned: seq<Json>)
    ensures cleaned == CleanItems(items)
  {
    cleaned := items;
    var k := 0;
    while k < |cleaned|
      invariant |cleaned| == |items|
      invariant 0 <= k <= |items|
      invariant cleaned[..k] == CleanItems(items)[..k]
      invariant cleaned[k..] == items[k..]
    {
      cleaned := cleaned[k := CleanItem(cleaned[k])];
      k := k + 1;
    }
  }

  // ---------------------------------------------------------------------------
  // One document (lines 21-32)
  // ---------------------------------------------------------------------------

  /**
   * The documents the script stops on: a number, boolean or null at the top
   * (`in` raises), a list holding the string `lineage` or a string containing
   * it (`data["lineage"]` raises), and an object whose `lineage` is a number,
   * boolean or null (iterating it raises).
   */
  predicate StopsOn(data: Json) {
    match data
    case JObject(f) => "lineage" in f && (f["lineage"].JNull? || f["lineage"].JBool? || f["lineage"].JNumber?)
    case JArray(xs) => JString("lineage") in xs
    case JString(s) => Contains(s, "lineage")
    case _ => true
  }

  /**
   * The document written back, or `None` when the script stops on it. The
   * test `"lineage" in data` is a key test on an object, an element test on
   * a list and a substring test on a string, and raises on a number, a
   * boolean or null; when it holds on a list or a string, `data["lineage"]`
   * raises. Iterating over an object (its keys) or a string (its
   * characters) changes nothing; iterating over a number, boolean or null
   * raises. None of these raises is inside the `try`.
   */
  function CleanDocument(data: Json): (r: Option<Json>)
    ensures r.None? <==> StopsOn(data)
    ensures r.Some? && !(data.JObject? && "lineage" in data.fields) ==> r.value == data
    ensures data.JObject? && "lineage" !in data.fields ==> r == Some(data)
  {
    match data
    case JObject(f) =>
      if "lineage" !in f then Some(data)
      else (
        match f["lineage"]
        case JArray(items) => Some(JObject(f["lineage" := JArray(CleanItems(items))]))
        case JObject(_) => Some(data)
        case JString(_) => Some(data)
        case _ => None)
    case JArray(xs) => if JString("lineage") in xs then None else Some(data)
    case JString(s) => if Contains(s, "lineage") then None else Some(data)
    case _ => None
  }

  /** Lines 21-32 on one document read from disk, with the item loop run on its lineage list. */
  method CleanFile(data: Json) returns (r: Option<Json>)
    ensures r == CleanDocument(data)
  {
    match data {
      case JObject(f) =>
        if "lineage" in f && f["lineage"].JArray? {
          var items := CleanLineageItems(f["lineage"].items);
          r := Some(JObject(f["lineage" := JArray(items)]));
        } else if "lineage" in f && (f["lineage"].JObject? || f["lineage"].JString?) {
          r := Some(data);
        } else if "lineage" in f {
          r := None;
        } else {
          r := Some(data);
        }
      case JArray(xs) =>
        r := if JString("lineage") in xs then None else Some(data);
      case JString(s) =>
        r := if Contains(s, "lineage") then None else Some(data);
      case _ =>
        r := None;
    }
  }

  /** A cleaned lineage document keeps its other keys and the number and order of its items. */
  lemma CleanDocumentShape(data: Json)
    requires data.JObject? && "lineage" in data.fields && data.fields["lineage"].JArray?
    ensures CleanDocument(data).Some?
    ensures var r := CleanDocument(data).value;
      && r.JObject? && r.fields.Keys == data.fields.Keys
      && (forall k :: k in data.fields && k != "lineage" ==> r.fields[k] == data.fields[k])
      && r.fields["lineage"].JArray?
      && |r.fields["lineage"].items| == |data.fields["lineage"].items|
      && (forall j :: 0 <= j < |data.fields["lineage"].items| ==>
            r.fields["lineage"].items[j] == CleanItem(data.fields["lineage"].items[j]))
  {
  }

  /** Cleaning a cleaned document changes nothing. */
  lemma CleanDocumentIdempotent(data: Json)
    requires CleanDocument(data).Some?
    ensures CleanDocument(CleanDocument(data).value) == CleanDocument(data)
  {
    if data.JObject? && "lineage" in data.fields && data.fields["lineage"].JArray? {
      var items := data.fields["lineage"].items;
      var once := CleanItems(items);
      forall j | 0 <= j < |items|
        ensures CleanItems(once)[j] == once[j]
      {
        CleanItemIdempotent(items[j]);
      }
      assert CleanItems(once) == once;
      var r := CleanDocument(data).value;
      assert r.fields["lineage"] == JArray(once);
      assert r.fields["lineage" := JArray(once)] == r.fields;
    }
  }

  // ---------------------------------------------------------------------------
  // The folder (lines 8-40)
  // ---------------------------------------------------------------------------

  /** The folder: file name to contents, `None` for a file `json.load` cannot read. */
  type Folder = map<string, Option<Json>>

  /**
   * What the loop does with the names from `names` on, starting from
   * `folder`: the folder at the end, and whether the script stopped on an
   * exception.
   */
  function CleanFrom(folder: Folder, names: seq<string>): (r: (Folder, bool))
    requires forall n :: n in names ==> n in folder
    ensures r.0.Keys == folder.Keys
  {
    if names == [] then (folder, false)
    else
      var n := names[0];
      if !EndsWith(n, ".json") then CleanFrom(folder, names[1..])
      else
        match folder[n]
        case None => (folder, true)
        case Some(data) =>
          match CleanDocument(data)
          case None => (folder, true)
          case Some(cleaned) => CleanFrom(folder[n := Some(cleaned)], names[1..])
  }

  /**
   * The script: nothing happens without the folder; otherwise every `.json`
   * file, in listing order, is read, cleaned and written back, until a file
   * makes it stop. `listing` is what `os.listdir` returns: each entry once.
   */
  method CleanFolder(folder: Option<Folder>, listing: seq<string>) returns (folderOut: Option<Folder>, stopped: bool)
    requires folder.Some? ==> (forall n :: n in listing <==> n in folder.value)
    ensures folder.None? ==> folderOut.None? && !stopped
    ensures folder.Some? ==> folderOut.Some? && (folderOut.value, stopped) == CleanFrom(folder.value, listing)
  {
    if folder.None? {
      return None, false;
    }
    var files := folder.value;
    stopped := false;
    var i := 0;
    while i < |listing|
      invariant 0 <= i <= |listing|
      invariant files.Keys == folder.value.Keys
      invariant CleanFrom(files, listing[i..]) == CleanFrom(folder.value, listing)
    {
      var name := listing[i];
      assert listing[i..][0] == name && listing[i..][1..] == listing[i + 1..];
      if EndsWith(name, ".json") {
        var data := files[name];
        if data.None? {
          stopped := true;
          break;
        }
        var cleaned := CleanFile(data.value);
        if cleaned.None? {
          stopped := true;
          break;
        }
        files := files[name := cleaned];
      }
      i := i + 1;
    }
    if !stopped {
      assert listing[i..] == [];
    }
    folderOut := Some(files);
  }

  /** Files whose names do not end in `.json`, or are not listed, are left as they were. */
  lemma {:induction false} CleanFromKeepsOthers(folder: Folder, names: seq<string>, n: string)
    requires forall m :: m in names ==> m in folder
    requires n in folder && (!EndsWith(n, ".json") || n !in names)
    ensures CleanFrom(folder, names).0[n] == folder[n]
  {
    if names != [] {
      var m := names[0];
      if EndsWith(m, ".json") && folder[m].Some? && CleanDocument(folder[m].value).Some? {
        CleanFromKeepsOthers(folder[m := Some(CleanDocument(folder[m].value).value)], names[1..], n);
      } else if !EndsWith(m, ".json") {
        CleanFromKeepsOthers(folder, names[1..], n);
      }
    }
  }

  /** When the script runs to the end, each listed `.json` file holds its cleaned document. */
  lemma {:induction false} CleanFromCompleted(folder: Folder, names: seq<string>, n: string)
    requires forall m :: m in names ==> m in folder
    requires forall i, j :: 0 <= i < j < |names| ==> names[i] != names[j]
    requires !CleanFrom(folder, names).1
    requires n in names && EndsWith(n, ".json")
    ensures folder[n].Some? && CleanDocument(folder[n].value).Some?
    ensures CleanFrom(folder, names).0[n] == Some(CleanDocument(folder[n].value).value)
  {
    var m := names[0];
    if m == n {
      var f1 := folder[m := Some(CleanDocument(folder[m].value).value)];
      assert forall i :: 0 <= i < |names[1..]| ==> names[1..][i] != n by {
        forall i | 0 <= i < |names[1..]|
          ensures names[1..][i] != n
        {
          assert names[1..][i] == names[i + 1];
        }
      }
      CleanFromKeepsOthers(f1, names[1..], n);
    } else {
      var f1 := if EndsWith(m, ".json") then folder[m := Some(CleanDocument(folder[m].value).value)] else folder;
      assert n in names[1..];
      assert forall i, j :: 0 <= i < j < |names[1..]| ==> names[1..][i] != names[1..][j] by {
        forall i, j | 0 <= i < j < |names[1..]|
          ensures names[1..][i] != names[1..][j]
        {
          assert names[1..][i] == names[i + 1] && names[1..][j] == names[j + 1];
        }
      }
      CleanFromCompleted(f1, names[1..], n);
      assert f1[n] == folder[n];
    }
  }

  /** A folder whose `.json` files are all clean is left as it is, and the script does not stop. */
  lemma {:induction false} CleanFromFixed(folder: Folder, names: seq<string>)
    requires forall m :: m in names ==> m in folder
    requires forall m :: m in names && EndsWith(m, ".json") ==>
      folder[m].Some? && CleanDocument(folder[m].value) == Some(folder[m].value)
    ensures CleanFrom(folder, names) == (folder, false)
  {
    if names != [] {
      var m := names[0];
      if EndsWith(m, ".json") {
        assert folder[m := Some(CleanDocument(folder[m].value).value)] == folder;
      }
      CleanFromFixed(folder, names[1..]);
    }
  }

  /** Running the script a second time, after a run that went to the end, changes nothing. */
  lemma CleanFolderTwice(folder: Folder, listing: seq<string>)
    requires forall n :: n in listing <==> n in folder
    requires forall i, j :: 0 <= i < j < |listing| ==> listing[i] != listing[j]
    requires !CleanFrom(folder, listing).1
    ensures CleanFrom(CleanFrom(folder, listing).0, listing) == (CleanFrom(folder, listing).0, false)
  {
    var once := CleanFrom(folder, listing).0;
    forall m | m in listing && EndsWith(m, ".json")
      ensures once[m].Some? && CleanDocument(once[m].value) == Some(once[m].value)
    {
      CleanFromCompleted(folder, listing, m);
      CleanDocumentIdempotent(folder[m].value);
    }
    CleanFromFixed(once, listing);
  }

  // ---------------------------------------------------------------------------
  // Cleaning and the lineage graph
  // ---------------------------------------------------------------------------

  function StripEdge(e: LineageGraph.Edge): LineageGraph.Edge {
    (StripBrackets(e.0), StripBrackets(e.1))
  }

  /**
   * The graph builder reads from a cleaned list the same edges as from the
   * original one, with the brackets gone from both ends.
   */
  lemma {:induction false} CleanItemsEdges(items: seq<Json>)
    ensures |LineageGraph.ItemsEdges(CleanItems(items))| == |LineageGraph.ItemsEdges(items)|
    ensures forall i :: 0 <= i < |LineageGraph.ItemsEdges(items)| ==>
      LineageGraph.ItemsEdges(CleanItems(items))[i] == StripEdge(LineageGraph.ItemsEdges(items)[i])
  {
    if items != [] {
      var rest := items[1..];
      CleanItemsEdges(rest);
      CleanItemsCons(items);
      var e := LineageGraph.ItemEdge(items[0]);
      CleanItemEdge(items[0]);
      if e.Some? {
        var es, es' := LineageGraph.ItemsEdges(rest), LineageGraph.ItemsEdges(CleanItems(rest));
        assert LineageGraph.ItemsEdges(items) == [e.value] + es;
        assert LineageGraph.ItemsEdges(CleanItems(items)) == [StripEdge(e.value)] + es';
      }
    }
  }

  lemma CleanItemsCons(items: seq<Json>)
    requires items != []
    ensures CleanItems(items) == [CleanItem(items[0])] + CleanItems(items[1..])
  {
    assert CleanItems(items)[1..] == CleanItems(items[1..]);
  }

  /** An item gives an edge after cleaning exactly when it gave one before, with the brackets stripped. */
  lemma CleanItemEdge(item: Json)
    ensures LineageGraph.ItemEdge(CleanItem(item)).Some? == LineageGraph.ItemEdge(item).Some?
    ensures LineageGraph.ItemEdge(item).Some? ==>
      LineageGraph.ItemEdge(CleanItem(item)).value == StripEdge(LineageGraph.ItemEdge(item).value)
  {
    if item.JObject? {
      CleanItemFields(item);
    }
  }

  /** The same holds for a whole document the cleaner writes back. */
  lemma CleanDocumentEdges(data: Json)
    requires CleanDocument(data).Some?
    ensures |LineageGraph.FileEdges(Some(CleanDocument(data).value))| == |LineageGraph.FileEdges(Some(data))|
    ensures forall i :: 0 <= i < |LineageGraph.FileEdges(Some(data))| ==>
      LineageGraph.FileEdges(Some(CleanDocument(data).value))[i] == StripEdge(LineageGraph.FileEdges(Some(data))[i])
  {
    if data.JObject? && "lineage" in data.fields && data.fields["lineage"].JArray? {
      CleanItemsEdges(data.fields["lineage"].items);
    }
  }
}
