/** `path_to_content`: classifying a filesystem entry into the partial
    contents record (in the sense of jupyter server) that the tree exporter
    renders, over an abstract filesystem tree. */
module Contents {
  import opened PathText
  import opened Sorting

  /** A filesystem entry; a directory's children are in `iterdir()` order. */
  datatype Entry = Dir(name: string, children: seq<Entry>) | File(name: string)

  /** The contents dictionary: `type` is the constructor, `name` and `path`
      the fields of the same name, `content` a directory's listing. */
  datatype Content =
    | Directory(name: string, path: string, content: seq<Content>)
    | Notebook(name: string, path: string)

  /** What the exporter's Python code can raise. */
  datatype Failure =
    | TypeError          // indexing None (`None['name']`, `None['content']`)
    | KeyError           // `['content']` on a notebook record
    | RenderFailure(source: string)
    | DotStem(name: string)

  /** The value of a `path_to_content` call: a record, Python's None, or an
      exception. */
  datatype Outcome = Record(record: Content) | NoneResult | Raised(failure: Failure)

  /** The `type` field of a record. */
  function TypeOf(c: Content): string
  {
    if c.Directory? then "directory" else "notebook"
  }

  /** `allowed_content`: the record is a notebook or a directory. */
  predicate AllowedContent(c: Content)
  {
    TypeOf(c) == "notebook" || TypeOf(c) == "directory"
  }

  /** The sort key `lambda i: i['name']`. */
  function NameOf(c: Content): string { c.name }

  predicate IsNotebookName(name: string)
  {
    Suffix(name) == ".ipynb"
  }

  /** The output file name of a notebook: its stem with ".html". */
  function HtmlName(name: string): string
  {
    Stem(name) + ".html"
  }

  /** The parts of `rel.parent` (the parent of "." is "."). */
  function Parent(rel: seq<string>): seq<string>
  {
    if rel == [] then [] else rel[..|rel| - 1]
  }

  /** `path_to_content(path, relative_to)` for the entry `e` found at `path`,
      where `rel` are the parts of `path` below `relative_to`. The children of
      a directory are classified in `iterdir()` order and are NOT filtered:
      the comprehension tests the path, not the result, so a None among them
      reaches the sort key `i['name']`, which raises TypeError. */
  function PathToContent(e: Entry, rel: seq<string>): (o: Outcome)
    ensures o.Raised? ==> e.Dir? && o.failure == TypeError
    ensures o.NoneResult? <==> e.File? && !IsNotebookName(e.name)
    ensures o.Record? && e.File? ==> o.record.Notebook?
    ensures o.Record? && e.Dir? ==> o.record.Directory?
    decreases e
  {
    match e
    case Dir(name, children) =>
      var results := ChildOutcomes(children, rel);
      if !AllRecords(results) then Raised(TypeError)
      else Record(Directory(Stem(name), RelText(rel), SortBy(Records(results), NameOf)))
    case File(name) =>
      if IsNotebookName(name) then
        Record(Notebook(HtmlName(name), Join(Parent(rel) + [HtmlName(name)], '/')))
      else NoneResult
  }

  /** `[path_to_content(subitem, relative_to) for subitem in path.iterdir()]`. */
  function ChildOutcomes(children: seq<Entry>, rel: seq<string>): (r: seq<Outcome>)
    ensures |r| == |children|
    ensures forall i :: 0 <= i < |children| ==> r[i] == PathToContent(children[i], rel + [children[i].name])
    decreases children
  {
    if children == [] then []
    else [PathToContent(children[0], rel + [children[0].name])] + ChildOutcomes(children[1..], rel)
  }

  /** No child came back as None (or raised). */
  predicate AllRecords(results: seq<Outcome>)
  {
    forall i :: 0 <= i < |results| ==> results[i].Record?
  }

  function Records(results: seq<Outcome>): (r: seq<Content>)
    requires AllRecords(results)
    ensures |r| == |results|
    ensures forall i :: 0 <= i < |r| ==> r[i] == results[i].record
  {
    if results == [] then [] else [results[0].record] + Records(results[1..])
  }

  // ---------------------------------------------------------------------------
  // When classification succeeds
  // ---------------------------------------------------------------------------

  /** Every entry below (and including) `e` is a directory or a notebook. */
  predicate Renderable(e: Entry)
    decreases e
  {
    match e
    case File(name) => IsNotebookName(name)
    case Dir(_, children) => forall i :: 0 <= i < |children| ==> Renderable(children[i])
  }

  /** Classification yields a record exactly when every entry of the subtree
      is a directory or a notebook; a directory holding anything else anywhere
      below it raises TypeError, and an other file on its own gives None. */
  lemma {:induction false} RecordIffRenderable(e: Entry, rel: seq<string>)
    ensures PathToContent(e, rel).Record? <==> Renderable(e)
    ensures PathToContent(e, rel) == Raised(TypeError) <==> e.Dir? && !Renderable(e)
    decreases e
  {
    match e
    case File(_) =>
    case Dir(name, children) =>
      var results := ChildOutcomes(children, rel);
      forall i | 0 <= i < |children|
        ensures results[i].Record? <==> Renderable(children[i])
      {
        RecordIffRenderable(children[i], rel + [children[i].name]);
      }
  }

  /** The directory record: its name is the directory's stem, its path the
      directory's path relative to the export root, and its listing holds the
      records of its children sorted ascending by name (notebooks and
      directories interleaved), as a stable permutation of `iterdir()` order. */
  lemma DirectoryRecord(e: Entry, rel: seq<string>)
    requires e.Dir? && Renderable(e)
    ensures PathToContent(e, rel).Record?
    ensures var c := PathToContent(e, rel).record;
      && c.Directory?
      && c.name == Stem(e.name)
      && c.path == RelText(rel)
      && SortedBy(c.content, NameOf)
      && multiset(c.content) == multiset(ChildRecords(e.children, rel))
      && forall k :: WithKey(c.content, NameOf, k) == WithKey(ChildRecords(e.children, rel), NameOf, k)
  {
    RecordIffRenderable(e, rel);
    var results := ChildOutcomes(e.children, rel);
    RecordsOfChildren(e.children, rel);
    SortBySorted(Records(results), NameOf);
    SortByPermutes(Records(results), NameOf);
    forall k
      ensures WithKey(SortBy(Records(results), NameOf), NameOf, k) == WithKey(Records(results), NameOf, k)
    {
      SortByStable(Records(results), NameOf, k);
    }
  }

  /** The records of renderable children, in `iterdir()` order. */
  function ChildRecords(children: seq<Entry>, rel: seq<string>): (r: seq<Content>)
    requires forall i :: 0 <= i < |children| ==> Renderable(children[i])
    ensures |r| == |children|
  {
    if children == [] then []
    else
      RecordIffRenderable(children[0], rel + [children[0].name]);
      [PathToContent(children[0], rel + [children[0].name]).record] + ChildRecords(children[1..], rel)
  }

  lemma {:induction false} RecordsOfChildren(children: seq<Entry>, rel: seq<string>)
    requires forall i :: 0 <= i < |children| ==> Renderable(children[i])
    ensures AllRecords(ChildOutcomes(children, rel))
    ensures Records(ChildOutcomes(children, rel)) == ChildRecords(children, rel)
  {
    var results := ChildOutcomes(children, rel);
    forall i | 0 <= i < |children|
      ensures results[i].Record?
    {
      RecordIffRenderable(children[i], rel + [children[i].name]);
    }
    if children != [] {
      RecordsOfChildren(children[1..], rel);
      assert results[1..] == ChildOutcomes(children[1..], rel);
    }
  }

  /** The notebook record: the name is the stem with ".html", the path the
      notebook's relative parent joined with that name; the output name keeps
      the stem and has suffix ".html". */
  lemma NotebookRecord(name: string, rel: seq<string>)
    requires IsNotebookName(name)
    ensures PathToContent(File(name), rel) == Record(Notebook(HtmlName(name), Join(Parent(rel) + [HtmlName(name)], '/')))
    ensures Stem(HtmlName(name)) == Stem(name) && Suffix(HtmlName(name)) == ".html"
    ensures Stem(name) + ".ipynb" == name
  {
    SuffixShape(name);
    StemSuffix(name);
    StemOfAppended(Stem(name), ".html");
  }

  /** For a notebook at `rel` (its parent's parts, then its own name), the
      source path is recovered from the record's path by swapping the final
      ".html" for ".ipynb", as long as ".html" does not occur earlier in it. */
  lemma SourcePathRecovered(parent: seq<string>, name: string)
    requires IsNotebookName(name)
    requires var p := PathToContent(File(name), parent + [name]).record.path;
      forall i :: 0 <= i < |p| - 5 ==> !OccursAt(p, ".html", i)
    ensures Replace(PathToContent(File(name), parent + [name]).record.path, ".html", ".ipynb") == Join(parent + [name], '/')
  {
    NotebookRecord(name, parent + [name]);
    assert Parent(parent + [name]) == parent;
    var stem := Stem(name);
    var q := Join(parent + [stem], '/');
    JoinExtended(parent, stem, ".html");
    JoinExtended(parent, stem, ".ipynb");
    assert forall i :: 0 <= i < |q| ==> !OccursAt(q + ".html", ".html", i);
    ReplaceFinal(q, ".html", ".ipynb");
  }

  /** Extending the last part of a '/'-join extends the join. */
  lemma JoinExtended(parent: seq<string>, last: string, ext: string)
    ensures Join(parent + [last + ext], '/') == Join(parent + [last], '/') + ext
  {
    JoinSnoc(parent, last + ext);
    JoinSnoc(parent, last);
  }

  lemma {:induction false} JoinSnoc(parts: seq<string>, last: string)
    ensures Join(parts + [last], '/') == if parts == [] then last else Join(parts, '/') + "/" + last
  {
    if |parts| > 1 {
      JoinSnoc(parts[1..], last);
      assert (parts + [last])[1..] == parts[1..] + [last];
    } else if |parts| == 1 {
      assert (parts + [last])[1..] == [last];
    }
  }

  // ---------------------------------------------------------------------------
  // The whole record tree
  // ---------------------------------------------------------------------------

  /** Every directory listing, at every depth, is sorted by name. */
  predicate SortedTree(c: Content)
    decreases c
  {
    match c
    case Notebook(_, _) => true
    case Directory(_, _, content) =>
      SortedBy(content, NameOf) && forall i :: 0 <= i < |content| ==> SortedTree(content[i])
  }

  /** Classification sorts every listing of the tree, not only the top one. */
  lemma {:induction false} RecordTreeSorted(e: Entry, rel: seq<string>)
    requires Renderable(e)
    ensures PathToContent(e, rel).Record? && SortedTree(PathToContent(e, rel).record)
    decreases e
  {
    RecordIffRenderable(e, rel);
    match e
    case File(_) =>
    case Dir(_, children) =>
      DirectoryRecord(e, rel);
      var c := PathToContent(e, rel).record;
      var records := ChildRecords(children, rel);
      forall j | 0 <= j < |c.content|
        ensures SortedTree(c.content[j])
      {
        assert c.content[j] in multiset(records);
        var i := ChildRecordIndex(children, rel, c.content[j]);
        RecordTreeSorted(children[i], rel + [children[i].name]);
      }
  }

  /** Each record in a listing comes from one of the directory's children. */
  lemma {:induction false} ChildRecordIndex(children: seq<Entry>, rel: seq<string>, x: Content) returns (i: nat)
    requires forall i :: 0 <= i < |children| ==> Renderable(children[i])
    requires x in ChildRecords(children, rel)
    ensures i < |children| && PathToContent(children[i], rel + [children[i].name]) == Record(x)
  {
    RecordIffRenderable(children[0], rel + [children[0].name]);
    if PathToContent(children[0], rel + [children[0].name]) == Record(x) {
      i := 0;
    } else {
      var j := ChildRecordIndex(children[1..], rel, x);
      i := j + 1;
    }
  }

  /** The filter `allowed_content` would keep every record of a listing. It
      holds of every `Content` by construction, since a record is a notebook
      or a directory, so this says nothing about classification itself; the
      filter is never called, and the None results it could have removed are
      what make the sort raise. */
  lemma AllowedEverywhere(e: Entry, rel: seq<string>)
    requires e.Dir? && Renderable(e)
    ensures PathToContent(e, rel).Record?
    ensures var c := PathToContent(e, rel).record;
      c.Directory? && forall j :: 0 <= j < |c.content| ==> AllowedContent(c.content[j])
  {
    RecordIffRenderable(e, rel);
    var c := PathToContent(e, rel).record;
    forall j | 0 <= j < |c.content|
      ensures AllowedContent(c.content[j])
    {
      var x := c.content[j];
      assert TypeOf(x) == "directory" || TypeOf(x) == "notebook";
    }
  }

  // ---------------------------------------------------------------------------
  // Counting
  // ---------------------------------------------------------------------------

  /** Directories and notebooks of a filesystem tree. */
  function DirCount(e: Entry): nat
    decreases e
  {
    match e
    case File(_) => 0
    case Dir(_, children) => 1 + DirCountAll(children)
  }

  function DirCountAll(es: seq<Entry>): nat
    decreases es
  {
    if es == [] then 0 else DirCount(es[0]) + DirCountAll(es[1..])
  }

  function NotebookCount(e: Entry): nat
    decreases e
  {
    match e
    case File(name) => if IsNotebookName(name) then 1 else 0
    case Dir(_, children) => NotebookCountAll(children)
  }

  function NotebookCountAll(es: seq<Entry>): nat
    decreases es
  {
    if es == [] then 0 else NotebookCount(es[0]) + NotebookCountAll(es[1..])
  }

  /** Directory and notebook records of a record tree. */
  function DirRecords(c: Content): nat
    decreases c
  {
    match c
    case Notebook(_, _) => 0
    case Directory(_, _, content) => 1 + DirRecordsAll(content)
  }

  function DirRecordsAll(cs: seq<Content>): nat
    decreases cs
  {
    if cs == [] then 0 else DirRecords(cs[0]) + DirRecordsAll(cs[1..])
  }

  function NotebookRecords(c: Content): nat
    decreases c
  {
    match c
    case Notebook(_, _) => 1
    case Directory(_, _, content) => NotebookRecordsAll(content)
  }

  function NotebookRecordsAll(cs: seq<Content>): nat
    decreases cs
  {
    if cs == [] then 0 else NotebookRecords(cs[0]) + NotebookRecordsAll(cs[1..])
  }

  lemma {:induction false} AllIsTotal(cs: seq<Content>)
    ensures DirRecordsAll(cs) == Total(cs, DirRecords)
    ensures NotebookRecordsAll(cs) == Total(cs, NotebookRecords)
  {
    if cs != [] {
      AllIsTotal(cs[1..]);
    }
  }

  /** Classification keeps every directory and every notebook of a
      renderable tree: the record tree has as many directory records as the
      tree has directories, and as many notebook records as notebooks. */
  lemma {:induction false} RecordCounts(e: Entry, rel: seq<string>)
    requires Renderable(e)
    ensures PathToContent(e, rel).Record?
    ensures DirRecords(PathToContent(e, rel).record) == DirCount(e)
    ensures NotebookRecords(PathToContent(e, rel).record) == NotebookCount(e)
    decreases e, 1
  {
    RecordIffRenderable(e, rel);
    match e
    case File(_) =>
    case Dir(_, children) =>
      RecordsOfChildren(children, rel);
      var records := ChildRecords(children, rel);
      var c := PathToContent(e, rel).record;
      assert c.content == SortBy(records, NameOf);
      AllIsTotal(c.content);
      SortByTotal(records, NameOf, DirRecords);
      SortByTotal(records, NameOf, NotebookRecords);
      ChildRecordsCounts(children, rel);
  }

  lemma {:induction false} ChildRecordsCounts(children: seq<Entry>, rel: seq<string>)
    requires forall i :: 0 <= i < |children| ==> Renderable(children[i])
    ensures Total(ChildRecords(children, rel), DirRecords) == DirCountAll(children)
    ensures Total(ChildRecords(children, rel), NotebookRecords) == NotebookCountAll(children)
    decreases children, 0
  {
    if children != [] {
      RecordCounts(children[0], rel + [children[0].name]);
      ChildRecordsCounts(children[1..], rel);
      var r := ChildRecords(children, rel);
      assert r[1..] == ChildRecords(children[1..], rel);
    }
  }
}
