/** `VoiciTreeExporter.generate_contents`: the depth-first stream of output
    pages for a directory tree. The template engine and the notebook exporter
    are outside the model: each artifact records what its page is rendered
    from. */
module Export {
  import opened PathText
  import opened Sorting
  import opened Contents
  import opened Navigation

  datatype Option<T> = None | Some(value: T)

  /** What a page is rendered from: an index page from the contents record
      (or whatever `path_to_content` returned), the page title and the
      breadcrumbs; a notebook page from the notebook's source path. */
  datatype Page =
    | IndexPage(contents: Outcome, pageTitle: string, breadcrumbs: seq<Crumb>)
    | NotebookPage(source: string)

  /** One yielded pair `(output path, page)`. */
  datatype Artifact = Artifact(path: string, page: Page)

  /** Everything the generator yields, in order, and the exception that ends
      it early, if any (earlier artifacts are kept). */
  datatype Stream = Stream(items: seq<Artifact>, failure: Option<Failure>)

  /** The exporter's configuration and collaborators: `base_url`,
      `url_escape`, and whether the notebook exporter succeeds on a source
      path (reading and rendering it). */
  datatype Env = Env(baseUrl: string, escape: string -> string, renders: string -> bool)

  /** `Path('tree') / relative_path / 'index.html'`, where `Path('.')` adds
      nothing. */
  function IndexPath(relText: string): string
  {
    if relText == "." then "tree/index.html" else "tree/" + relText + "/index.html"
  }

  /** `Path('render') / file['path']`. */
  function RenderPath(path: string): string
  {
    "render/" + path
  }

  /** `file['path'].replace('.html', '.ipynb')`: every occurrence. */
  function SourcePath(path: string): string
  {
    Replace(path, ".html", ".ipynb")
  }

  /** The entry named `name` among a directory's entries, if there is one. */
  function Lookup(entries: seq<Entry>, name: string): (r: Option<Entry>)
    ensures r.Some? ==> r.value in entries && r.value.name == name
    ensures r.None? ==> forall i :: 0 <= i < |entries| ==> entries[i].name != name
  {
    if entries == [] then None
    else if entries[0].name == name then Some(entries[0])
    else Lookup(entries[1..], name)
  }

  /** The index artifact of the directory at `Path(root) / rel`: breadcrumbs
      and title come from the raw path string, the output path from the
      relative one. */
  function IndexArtifact(o: Outcome, root: PosixPath, rel: seq<string>, env: Env): Artifact
  {
    var at := Text(Child(root, rel));
    Artifact(IndexPath(RelText(rel)), IndexPage(o, PageTitle(at), Breadcrumbs(at, env.baseUrl, env.escape)))
  }

  function Prepend(a: Artifact, s: Stream): Stream
  {
    Stream([a] + s.items, s.failure)
  }

  function Then(a: Stream, b: Stream): Stream
  {
    Stream(a.items + b.items, b.failure)
  }

  /** A recursive call on a path with no entry: `path_to_content` gives None,
      the index page is still yielded, then `None['content']` raises. */
  function MissingPath(root: PosixPath, rel: seq<string>, env: Env): Stream
  {
    Stream([IndexArtifact(NoneResult, root, rel, env)], Some(TypeError))
  }

  /** `generate_contents(Path(root) / rel, root)` for the entry `e` at that
      path. */
  function Generate(e: Entry, root: PosixPath, rel: seq<string>, env: Env): Stream
    decreases e, 1
  {
    var o := PathToContent(e, rel);
    match o
    case Raised(f) => Stream([], Some(f))
    case NoneResult => Stream([IndexArtifact(o, root, rel, env)], Some(TypeError))
    case Record(c) =>
      if c.Notebook? then Stream([IndexArtifact(o, root, rel, env)], Some(KeyError))
      else Prepend(IndexArtifact(o, root, rel, env), Visit(e, c.content, root, rel, env))
  }

  /** The loop over `contents['content']` of the directory `dir`: a notebook
      is rendered from its rewritten source path; a directory is entered
      through `Path(path) / file['name']`, where the name is the stem. */
  function Visit(dir: Entry, content: seq<Content>, root: PosixPath, rel: seq<string>, env: Env): Stream
    requires dir.Dir?
    decreases dir, 0, |content|
  {
    if content == [] then Stream([], None)
    else
      match content[0]
      case Notebook(_, path) =>
        var source := SourcePath(path);
        if env.renders(source) then
          Prepend(Artifact(RenderPath(path), NotebookPage(source)), Visit(dir, content[1..], root, rel, env))
        else Stream([], Some(RenderFailure(source)))
      case Directory(name, _, _) =>
        if name == "." || name == ".." then Stream([], Some(DotStem(name)))
        else
          var sub := match Lookup(dir.children, name)
            case None => MissingPath(root, rel + [name], env)
            case Some(child) => Generate(child, root, rel + [name], env);
          if sub.failure.Some? then sub else Then(sub, Visit(dir, content[1..], root, rel, env))
  }

  /** `generate_contents(str(root))`: the export of the tree `fs` found at
      `root`, relative to itself. The caller picks `fs` and `root`
      consistently: `fs.name` is the last part of `root` ("" when it has
      none). The root record's name comes from `fs.name`, while the title and
      the breadcrumbs come from `root`. */
  function GenerateContents(fs: Entry, root: PosixPath, env: Env): Stream
  {
    Generate(fs, root, [], env)
  }

  // ---------------------------------------------------------------------------
  // Reference: the pre-order outline of a record tree
  // ---------------------------------------------------------------------------

  /** An index page, or a page rendered from the notebook at `source`. */
  datatype Kind = IndexKind | RenderKind(source: string)

  /** The output paths and kinds of a stream, with the source of each
      rendered page. */
  function Shape(items: seq<Artifact>): (r: seq<(string, Kind)>)
    ensures |r| == |items|
  {
    if items == [] then []
    else
      var kind := match items[0].page
        case IndexPage(_, _, _) => IndexKind
        case NotebookPage(source) => RenderKind(source);
      [(items[0].path, kind)] + Shape(items[1..])
  }

  /** Pre-order over a record tree: a directory's index, then its listing in
      order; each notebook is one page rendered from its rewritten source
      path. */
  function Outline(c: Content): seq<(string, Kind)>
    decreases c
  {
    match c
    case Notebook(_, path) => [(RenderPath(path), RenderKind(SourcePath(path)))]
    case Directory(_, path, content) => [(IndexPath(path), IndexKind)] + OutlineAll(content)
  }

  function OutlineAll(cs: seq<Content>): seq<(string, Kind)>
    decreases cs
  {
    if cs == [] then [] else Outline(cs[0]) + OutlineAll(cs[1..])
  }

  /** A rendered page of the outline is the page of some notebook record
      path `p`: it lies at `render/p` and is rendered from `p` with every
      ".html" replaced. */
  ghost predicate PageOfRecord(x: (string, Kind))
  {
    x.1.RenderKind? ==> exists p :: x == (RenderPath(p), RenderKind(SourcePath(p)))
  }

  lemma {:induction false} OutlinePages(c: Content)
    ensures forall k :: 0 <= k < |Outline(c)| ==> PageOfRecord(Outline(c)[k])
    decreases c, 1
  {
    match c
    case Notebook(_, path) =>
      assert Outline(c)[0] == (RenderPath(path), RenderKind(SourcePath(path)));
    case Directory(_, path, content) =>
      OutlineAllPages(content);
      forall k | 0 <= k < |Outline(c)|
        ensures PageOfRecord(Outline(c)[k])
      {
        if k > 0 {
          assert Outline(c)[k] == OutlineAll(content)[k - 1];
        }
      }
  }

  lemma {:induction false} OutlineAllPages(cs: seq<Content>)
    ensures forall k :: 0 <= k < |OutlineAll(cs)| ==> PageOfRecord(OutlineAll(cs)[k])
    decreases cs, 0
  {
    if cs != [] {
      OutlinePages(cs[0]);
      OutlineAllPages(cs[1..]);
      var a := Outline(cs[0]);
      forall k | 0 <= k < |OutlineAll(cs)|
        ensures PageOfRecord(OutlineAll(cs)[k])
      {
        if k >= |a| {
          assert OutlineAll(cs)[k] == OutlineAll(cs[1..])[k - |a|];
        } else {
          assert OutlineAll(cs)[k] == a[k];
        }
      }
    }
  }

  lemma {:induction false} ShapeAppend(a: seq<Artifact>, b: seq<Artifact>)
    ensures Shape(a + b) == Shape(a) + Shape(b)
  {
    if a != [] {
      ShapeAppend(a[1..], b);
      assert (a + b)[0] == a[0];
      assert (a + b)[1..] == a[1..] + b;
    } else {
      assert a + b == b;
    }
  }

  // ---------------------------------------------------------------------------
  // The stream of a tidy tree
  // ---------------------------------------------------------------------------

  /** A tree in which every name is a valid file name, sibling names are
      distinct, and no directory below the root has a suffix (so its stem is
      its name). */
  predicate Tidy(e: Entry)
    decreases e
  {
    match e
    case File(_) => true
    case Dir(_, children) =>
      && (forall i :: 0 <= i < |children| ==> ValidName(children[i].name))
      && (forall i, j :: 0 <= i < j < |children| ==> children[i].name != children[j].name)
      && (forall i :: 0 <= i < |children| && children[i].Dir? ==> Stem(children[i].name) == children[i].name)
      && (forall i :: 0 <= i < |children| ==> Tidy(children[i]))
  }

  /** The renderer succeeds on every source. */
  ghost predicate RendersAll(env: Env)
  {
    forall s :: env.renders(s)
  }

  lemma {:induction false} LookupFinds(entries: seq<Entry>, i: nat)
    requires i < |entries|
    requires forall j, k :: 0 <= j < k < |entries| ==> entries[j].name != entries[k].name
    ensures Lookup(entries, entries[i].name) == Some(entries[i])
  {
    if i > 0 {
      LookupFinds(entries[1..], i - 1);
    }
  }

  /** What the loop needs of each directory record in a listing: the entry
      reached through its name is the one it was classified from. */
  predicate Reachable(dir: Entry, d: Content, rel: seq<string>)
    requires dir.Dir?
  {
    d.Directory? ==>
      && ValidName(d.name)
      && Lookup(dir.children, d.name).Some?
      && var child := Lookup(dir.children, d.name).value;
         child.Dir? && Tidy(child) && Renderable(child) && PathToContent(child, rel + [d.name]) == Record(d)
  }

  /** Every notebook record in the record tree `c` has a source path that
      renders. */
  predicate SourcesRender(c: Content, env: Env)
    decreases c
  {
    match c
    case Notebook(_, path) => env.renders(SourcePath(path))
    case Directory(_, _, content) => forall j :: 0 <= j < |content| ==> SourcesRender(content[j], env)
  }

  predicate SourcesRenderAll(content: seq<Content>, env: Env)
  {
    forall j :: 0 <= j < |content| ==> SourcesRender(content[j], env)
  }

  lemma SourcesRenderCons(content: seq<Content>, env: Env)
    requires content != []
    ensures SourcesRenderAll(content, env) <==> SourcesRender(content[0], env) && SourcesRenderAll(content[1..], env)
  {
    if SourcesRender(content[0], env) && SourcesRenderAll(content[1..], env) {
      forall j | 0 <= j < |content|
        ensures SourcesRender(content[j], env)
      {
        if j > 0 {
          assert content[j] == content[1..][j - 1];
        }
      }
    }
    if SourcesRenderAll(content, env) {
      forall j | 0 <= j < |content[1..]|
        ensures SourcesRender(content[1..][j], env)
      {
        assert content[1..][j] == content[j + 1];
      }
    }
  }

  /** A renderer that succeeds on every source renders every record tree. */
  lemma {:induction false} RendersAllSources(c: Content, env: Env)
    requires RendersAll(env)
    ensures SourcesRender(c, env)
    decreases c
  {
    match c
    case Notebook(_, _) =>
    case Directory(_, _, content) =>
      forall j | 0 <= j < |content|
        ensures SourcesRender(content[j], env)
      {
        RendersAllSources(content[j], env);
      }
  }

  /** Every rendered page in `o` comes from a source that renders. */
  predicate AllRender(o: seq<(string, Kind)>, env: Env)
  {
    forall k :: 0 <= k < |o| && o[k].1.RenderKind? ==> env.renders(o[k].1.source)
  }

  lemma AllRenderAppend(a: seq<(string, Kind)>, b: seq<(string, Kind)>, env: Env)
    ensures AllRender(a + b, env) <==> AllRender(a, env) && AllRender(b, env)
  {
    if AllRender(a + b, env) {
      forall k | 0 <= k < |a| && a[k].1.RenderKind?
        ensures env.renders(a[k].1.source)
      {
        assert (a + b)[k] == a[k];
      }
      forall k | 0 <= k < |b| && b[k].1.RenderKind?
        ensures env.renders(b[k].1.source)
      {
        assert (a + b)[|a| + k] == b[k];
      }
    }
    if AllRender(a, env) && AllRender(b, env) {
      forall k | 0 <= k < |a + b| && (a + b)[k].1.RenderKind?
        ensures env.renders((a + b)[k].1.source)
      {
        if k >= |a| {
          assert (a + b)[k] == b[k - |a|];
        }
      }
    }
  }

  /** Every notebook of a record tree renders exactly when every page of its
      outline does. */
  lemma {:induction false} SourcesRenderOutline(c: Content, env: Env)
    ensures SourcesRender(c, env) <==> AllRender(Outline(c), env)
    decreases c, 1
  {
    match c
    case Notebook(_, path) =>
      assert Outline(c)[0] == (RenderPath(path), RenderKind(SourcePath(path)));
    case Directory(_, path, content) =>
      SourcesRenderAllOutline(content, env);
      AllRenderAppend([(IndexPath(path), IndexKind)], OutlineAll(content), env);
      assert SourcesRender(c, env) == SourcesRenderAll(content, env);
  }

  lemma {:induction false} SourcesRenderAllOutline(cs: seq<Content>, env: Env)
    ensures SourcesRenderAll(cs, env) <==> AllRender(OutlineAll(cs), env)
    decreases cs, 0
  {
    if cs != [] {
      SourcesRenderCons(cs, env);
      SourcesRenderOutline(cs[0], env);
      SourcesRenderAllOutline(cs[1..], env);
      AllRenderAppend(Outline(cs[0]), OutlineAll(cs[1..]), env);
    }
  }

  /** The stream `s` follows the outline `o`, where `ok` says whether every
      source behind `o` renders: every page it yields was rendered, it ends
      without failure exactly when `ok`, and then it yields exactly `o`;
      otherwise it stops at the first page of `o` whose source does not
      render, with the render failure of that source, after yielding
      everything of `o` before it. */
  predicate Follows(s: Stream, o: seq<(string, Kind)>, ok: bool, env: Env)
  {
    && (s.failure == None <==> ok)
    && AllRender(Shape(s.items), env)
    && (s.failure == None ==> Shape(s.items) == o)
    && (s.failure != None ==>
          && |s.items| < |o|
          && Shape(s.items) == o[..|s.items|]
          && o[|s.items|].1.RenderKind?
          && s.failure.value == RenderFailure(o[|s.items|].1.source)
          && !env.renders(o[|s.items|].1.source))
  }

  lemma FollowsPrepend(a: Artifact, s: Stream, o: seq<(string, Kind)>, ok: bool, env: Env)
    requires Follows(s, o, ok, env) && AllRender(Shape([a]), env)
    ensures Follows(Prepend(a, s), Shape([a]) + o, ok, env)
  {
    ShapeAppend([a], s.items);
    AllRenderAppend(Shape([a]), Shape(s.items), env);
    if s.failure != None {
      var b := Shape([a]);
      var n := |s.items|;
      assert (b + o)[..|b| + n] == b + o[..n];
      assert (b + o)[|b| + n] == o[n];
    }
  }

  lemma FollowsThen(sub: Stream, rest: Stream, o1: seq<(string, Kind)>, o2: seq<(string, Kind)>, ok: bool, env: Env)
    requires Follows(sub, o1, true, env) && Follows(rest, o2, ok, env)
    ensures Follows(Then(sub, rest), o1 + o2, ok, env)
  {
    ShapeAppend(sub.items, rest.items);
    AllRenderAppend(Shape(sub.items), Shape(rest.items), env);
    if rest.failure != None {
      var n := |rest.items|;
      assert (o1 + o2)[..|o1| + n] == o1 + o2[..n];
      assert (o1 + o2)[|o1| + n] == o2[n];
    }
  }

  lemma FollowsFailed(sub: Stream, o1: seq<(string, Kind)>, o2: seq<(string, Kind)>, env: Env)
    requires Follows(sub, o1, false, env)
    ensures Follows(sub, o1 + o2, false, env)
  {
    var n := |sub.items|;
    assert (o1 + o2)[..n] == o1[..n];
    assert (o1 + o2)[n] == o1[n];
  }

  /** For a tidy tree of directories and notebooks, the stream follows the
      pre-order outline of the directory's record tree: it ends without
      failure exactly when every notebook's source renders, and then yields
      the whole outline; otherwise it stops at the first notebook of the
      outline whose source does not render, with the render failure of that
      source, after yielding everything of the outline before it. */
  lemma {:induction false} GenerateFollowsOutline(e: Entry, root: PosixPath, rel: seq<string>, env: Env)
    requires e.Dir? && Tidy(e) && Renderable(e)
    ensures PathToContent(e, rel).Record?
    ensures var c := PathToContent(e, rel).record;
      Follows(Generate(e, root, rel, env), Outline(c), SourcesRender(c, env), env)
    decreases e, 1
  {
    ListingReachable(e, rel);
    var c := PathToContent(e, rel).record;
    VisitFollowsOutline(e, c.content, root, rel, env);
    var a := IndexArtifact(PathToContent(e, rel), root, rel, env);
    var v := Visit(e, c.content, root, rel, env);
    assert Generate(e, root, rel, env) == Prepend(a, v);
    IndexShape(PathToContent(e, rel), root, rel, env);
    FollowsPrepend(a, v, OutlineAll(c.content), SourcesRenderAll(c.content, env), env);
  }

  /** An index artifact lies at the index path of its relative path. */
  lemma IndexShape(o: Outcome, root: PosixPath, rel: seq<string>, env: Env)
    ensures Shape([IndexArtifact(o, root, rel, env)]) == [(IndexPath(RelText(rel)), IndexKind)]
  {
  }

  /** Every directory record in the listing of a tidy renderable directory
      is reached through its name. */
  lemma ListingReachable(e: Entry, rel: seq<string>)
    requires e.Dir? && Tidy(e) && Renderable(e)
    ensures PathToContent(e, rel).Record? && PathToContent(e, rel).record.Directory?
    ensures PathToContent(e, rel).record.path == RelText(rel)
    ensures var c := PathToContent(e, rel).record;
      forall j :: 0 <= j < |c.content| ==> Reachable(e, c.content[j], rel)
  {
    DirectoryRecord(e, rel);
    var c := PathToContent(e, rel).record;
    var records := ChildRecords(e.children, rel);
    forall j | 0 <= j < |c.content|
      ensures Reachable(e, c.content[j], rel)
    {
      var d := c.content[j];
      if d.Directory? {
        assert d in multiset(records);
        var i := ChildRecordIndex(e.children, rel, d);
        var child := e.children[i];
        assert child.Dir?;
        DirectoryRecord(child, rel + [child.name]);
        assert d.name == child.name;
        LookupFinds(e.children, i);
      }
    }
  }

  /** The loop over a listing follows the outline of the listing: each
      notebook's page and each sub-directory's stream, in listing order, up
      to the first source that does not render. */
  lemma {:induction false} VisitFollowsOutline(dir: Entry, content: seq<Content>, root: PosixPath, rel: seq<string>, env: Env)
    requires dir.Dir?
    requires forall j :: 0 <= j < |content| ==> Reachable(dir, content[j], rel)
    ensures Follows(Visit(dir, content, root, rel, env), OutlineAll(content), SourcesRenderAll(content, env), env)
    decreases dir, 0, |content|
  {
    if content != [] {
      var rest := Visit(dir, content[1..], root, rel, env);
      assert forall j :: 0 <= j < |content[1..]| ==> Reachable(dir, content[1..][j], rel) by {
        forall j | 0 <= j < |content[1..]|
          ensures Reachable(dir, content[1..][j], rel)
        {
          assert content[1..][j] == content[j + 1];
        }
      }
      VisitFollowsOutline(dir, content[1..], root, rel, env);
      assert Reachable(dir, content[0], rel);
      if content[0].Notebook? {
        VisitNotebookStep(dir, content, root, rel, env);
      } else {
        var name := content[0].name;
        var child := Lookup(dir.children, name).value;
        GenerateFollowsOutline(child, root, rel + [name], env);
        SourcesRenderCons(content, env);
        FollowsSubdirectory(Generate(child, root, rel + [name], env), Visit(dir, content[1..], root, rel, env),
                            Outline(content[0]), OutlineAll(content[1..]),
                            SourcesRender(content[0], env), SourcesRenderAll(content[1..], env), env);
      }
    }
  }

  /** A notebook at the head of the listing: its page, then the rest of the
      loop, or the render failure of its source. */
  lemma VisitNotebookStep(dir: Entry, content: seq<Content>, root: PosixPath, rel: seq<string>, env: Env)
    requires dir.Dir? && content != [] && content[0].Notebook?
    requires Follows(Visit(dir, content[1..], root, rel, env), OutlineAll(content[1..]), SourcesRenderAll(content[1..], env), env)
    ensures Follows(Visit(dir, content, root, rel, env), OutlineAll(content), SourcesRenderAll(content, env), env)
  {
    SourcesRenderCons(content, env);
    var path := content[0].path;
    var source := SourcePath(path);
    if env.renders(source) {
      FollowsPrepend(Artifact(RenderPath(path), NotebookPage(source)), Visit(dir, content[1..], root, rel, env),
                     OutlineAll(content[1..]), SourcesRenderAll(content[1..], env), env);
    }
  }

  /** A sub-directory's stream `sub` at the head of the listing, then the
      rest of the loop `rest` unless `sub` failed, follows the two outlines
      one after the other. */
  lemma FollowsSubdirectory(sub: Stream, rest: Stream, o1: seq<(string, Kind)>, o2: seq<(string, Kind)>,
                            ok1: bool, ok2: bool, env: Env)
    requires Follows(sub, o1, ok1, env) && Follows(rest, o2, ok2, env)
    ensures Follows(if sub.failure.Some? then sub else Then(sub, rest), o1 + o2, ok1 && ok2, env)
  {
    if sub.failure != None {
      FollowsFailed(sub, o1, o2, env);
    } else {
      FollowsThen(sub, rest, o1, o2, ok2, env);
    }
  }

  // ---------------------------------------------------------------------------
  // Counting the artifacts
  // ---------------------------------------------------------------------------

  /** The number of index pages in `shape` when `index`, of rendered pages
      otherwise. */
  function CountKind(shape: seq<(string, Kind)>, index: bool): nat
  {
    if shape == [] then 0 else (if shape[0].1.IndexKind? == index then 1 else 0) + CountKind(shape[1..], index)
  }

  lemma {:induction false} CountKindAppend(a: seq<(string, Kind)>, b: seq<(string, Kind)>, index: bool)
    ensures CountKind(a + b, index) == CountKind(a, index) + CountKind(b, index)
  {
    if a != [] {
      CountKindAppend(a[1..], b, index);
      assert (a + b)[0] == a[0];
      assert (a + b)[1..] == a[1..] + b;
    } else {
      assert a + b == b;
    }
  }

  /** The outline holds one index per directory record and one rendered page
      per notebook record. */
  lemma {:induction false} OutlineCounts(c: Content)
    ensures CountKind(Outline(c), true) == DirRecords(c)
    ensures CountKind(Outline(c), false) == NotebookRecords(c)
    decreases c, 1
  {
    match c
    case Notebook(_, _) =>
    case Directory(_, path, content) =>
      OutlineAllCounts(content);
      CountKindAppend([(IndexPath(path), IndexKind)], OutlineAll(content), true);
      CountKindAppend([(IndexPath(path), IndexKind)], OutlineAll(content), false);
  }

  lemma {:induction false} OutlineAllCounts(cs: seq<Content>)
    ensures CountKind(OutlineAll(cs), true) == DirRecordsAll(cs)
    ensures CountKind(OutlineAll(cs), false) == NotebookRecordsAll(cs)
    decreases cs, 0
  {
    if cs != [] {
      OutlineCounts(cs[0]);
      OutlineAllCounts(cs[1..]);
      CountKindAppend(Outline(cs[0]), OutlineAll(cs[1..]), true);
      CountKindAppend(Outline(cs[0]), OutlineAll(cs[1..]), false);
    }
  }

  /** For a tidy tree of directories and notebooks whose notebooks all
      render, the export yields one index page per directory of the tree,
      the root's first at "tree/index.html", and one rendered page per
      notebook, in the pre-order of the sorted record tree, and ends without
      failure. */
  lemma ExportIsExhaustive(fs: Entry, root: PosixPath, env: Env)
    requires fs.Dir? && Tidy(fs) && Renderable(fs) && RendersAll(env)
    ensures var s := GenerateContents(fs, root, env);
      && s.failure == None
      && PathToContent(fs, []).Record?
      && SortedTree(PathToContent(fs, []).record)
      && Shape(s.items) == Outline(PathToContent(fs, []).record)
      && CountKind(Shape(s.items), true) == DirCount(fs)
      && CountKind(Shape(s.items), false) == NotebookCount(fs)
      && |s.items| > 0 && s.items[0].path == "tree/index.html" && s.items[0].page.IndexPage?
  {
    GenerateFollowsOutline(fs, root, [], env);
    RecordTreeSorted(fs, []);
    var c := PathToContent(fs, []).record;
    RendersAllSources(c, env);
    OutlineCounts(c);
    RecordCounts(fs, []);
    DirectoryRecord(fs, []);
    assert Outline(c)[0] == (IndexPath("."), IndexKind);
  }

  /** The raw path the recursion enters, `Path(path) / name`, is the
      parent's text followed by "/" and the name, unless the parent's text is
      "." or "/"; `Navigation.BreadcrumbsExtend` then gives its breadcrumbs
      as the parent's and one crumb more. */
  lemma ChildText(root: PosixPath, rel: seq<string>, name: string)
    requires root.parts + rel != []
    ensures Text(Child(root, rel + [name])) == Text(Child(root, rel)) + "/" + name
  {
    var ps := root.parts + rel;
    assert Child(root, rel + [name]).parts == ps + [name];
    JoinSnoc(ps, name);
  }

  // ---------------------------------------------------------------------------
  // How the stream starts and how it stops
  // ---------------------------------------------------------------------------

  /** Unless classification raises, the first artifact is the index of the
      directory itself at `tree/<relative path>/index.html`, rendered from
      the contents record with the title and breadcrumbs of the raw path. */
  lemma IndexComesFirst(e: Entry, root: PosixPath, rel: seq<string>, env: Env)
    requires !PathToContent(e, rel).Raised?
    ensures var s := Generate(e, root, rel, env);
      && |s.items| > 0
      && s.items[0].path == IndexPath(RelText(rel))
      && s.items[0].page == IndexPage(PathToContent(e, rel), PageTitle(Text(Child(root, rel))),
                                      Breadcrumbs(Text(Child(root, rel)), env.baseUrl, env.escape))
  {
  }

  /** A directory holding, anywhere below it, an entry that is neither a
      directory nor a notebook yields nothing at all: classification raises
      TypeError before the first index is yielded. */
  lemma UnfilteredNoneAborts(e: Entry, root: PosixPath, rel: seq<string>, env: Env)
    requires e.Dir? && !Renderable(e)
    ensures Generate(e, root, rel, env) == Stream([], Some(TypeError))
  {
    RecordIffRenderable(e, rel);
  }

  /** A directory record whose name (the stem of the directory's name)
      names no entry of the listed directory stops the loop: the recursion
      yields an index page for the missing path and then raises TypeError,
      so nothing after it in the listing is exported. */
  lemma StemMissStops(dir: Entry, d: Content, rest: seq<Content>, root: PosixPath, rel: seq<string>, env: Env)
    requires dir.Dir? && d.Directory? && d.name != "." && d.name != ".."
    requires Lookup(dir.children, d.name) == None
    ensures Visit(dir, [d] + rest, root, rel, env) == MissingPath(root, rel + [d.name], env)
  {
    assert ([d] + rest)[0] == d;
  }

  /** Example: a README next to a notebook stops the export of the root. */
  lemma ReadmeStopsExport(root: PosixPath, env: Env)
    ensures GenerateContents(Dir("files", [File("nb.ipynb"), File("README.md")]), root, env)
      == Stream([], Some(TypeError))
  {
    var fs := Dir("files", [File("nb.ipynb"), File("README.md")]);
    assert !IsNotebookName("README.md") by {
      LastIndexOfIs("README.md", '.', 6);
      assert Suffix("README.md") == ".md";
    }
    assert !Renderable(fs) by {
      assert fs.children[1] == File("README.md");
    }
    UnfilteredNoneAborts(fs, root, [], env);
  }

  /** A sub-directory whose name has a suffix is listed under its stem; the
      recursion looks for the stem, finds nothing, yields an index page for
      it and raises TypeError. */
  lemma SuffixedDirectoryIsMissed(top: string, name: string, root: PosixPath, env: Env)
    requires Stem(name) != name && Stem(name) != "." && Stem(name) != ".."
    ensures var s := GenerateContents(Dir(top, [Dir(name, [])]), root, env);
      && Shape(s.items) == [("tree/index.html", IndexKind), (IndexPath(RelText([Stem(name)])), IndexKind)]
      && s.failure == Some(TypeError)
  {
    var fs := Dir(top, [Dir(name, [])]);
    var d := Directory(Stem(name), RelText([name]), []);
    SingleListing(top, name);
    StemMissStops(fs, d, [], root, [], env);
    assert [d] + [] == [d];
    var rel := [] + [Stem(name)];
    assert rel == [Stem(name)];
    var m := MissingPath(root, rel, env);
    var a := IndexArtifact(PathToContent(fs, []), root, [], env);
    assert GenerateContents(fs, root, env) == Prepend(a, m);
    assert a.path == "tree/index.html";
    ShapeAppend([a], m.items);
  }

  /** The listing of a directory holding one empty sub-directory. */
  lemma SingleListing(top: string, name: string)
    ensures var o := PathToContent(Dir(top, [Dir(name, [])]), []);
      o.Record? && o.record.content == [Directory(Stem(name), RelText([name]), [])]
  {
    var sub := Dir(name, []);
    var d := Directory(Stem(name), RelText([name]), []);
    assert PathToContent(sub, [] + [name]) == Record(d) by {
      assert [] + [name] == [name];
      assert ChildOutcomes([], [name]) == [];
      assert SortBy(Records([]), NameOf) == [];
    }
    assert ChildOutcomes([sub], []) == [Record(d)];
    assert Records([Record(d)]) == [d];
    assert SortBy([d], NameOf) == [d];
  }

  /** Example: a sub-directory "v1.0" is entered as "v1": the export yields
      the root index and an index at "tree/v1/index.html", then raises
      TypeError. */
  lemma DottedDirectoryIsMissed(root: PosixPath, env: Env)
    ensures var s := GenerateContents(Dir("files", [Dir("v1.0", [])]), root, env);
      && Shape(s.items) == [("tree/index.html", IndexKind), ("tree/v1/index.html", IndexKind)]
      && s.failure == Some(TypeError)
  {
    StemOfV10();
    SuffixedDirectoryIsMissed("files", "v1.0", root, env);
    TreeV1();
  }

  lemma StemOfV10()
    ensures Stem("v1.0") == "v1"
  {
    LastIndexOfIs("v1.0", '.', 2);
    assert "v1.0"[..2] == "v1";
  }

  lemma TreeV1()
    ensures IndexPath(RelText(["v1"])) == "tree/v1/index.html"
  {
    assert Join(["v1"], '/') == "v1";
  }

  /** A notebook named `<stem>.html.ipynb` gets the record path
      `<stem>.html.html`, and the exporter reads it from
      `<stem>.ipynb.ipynb`, not from its own path, because every ".html" is
      replaced. */
  lemma BlanketReplace(stem: string)
    requires forall i :: 0 <= i < |stem| ==> stem[i] != '.'
    ensures var n := stem + ".html.ipynb";
      && PathToContent(File(n), [n]) == Record(Notebook(stem + ".html.html", stem + ".html.html"))
      && SourcePath(stem + ".html.html") == stem + ".ipynb.ipynb"
      && SourcePath(stem + ".html.html") != n
  {
    var n := stem + ".html.ipynb";
    assert n == (stem + ".html") + ".ipynb";
    StemOfAppended(stem + ".html", ".ipynb");
    assert IsNotebookName(n);
    assert HtmlName(n) == stem + ".html.html";
    assert Parent([n]) == [];
    assert Join([] + [stem + ".html.html"], '/') == stem + ".html.html";
    ReplaceBoth(stem);
    assert (stem + ".ipynb.ipynb")[|stem| + 1] != n[|stem| + 1];
  }

  /** Both occurrences of ".html" after a dot-free stem are rewritten. */
  lemma ReplaceBoth(stem: string)
    requires forall i :: 0 <= i < |stem| ==> stem[i] != '.'
    ensures Replace(stem + ".html.html", ".html", ".ipynb") == stem + ".ipynb.ipynb"
  {
    ReplaceTail();
    ReplaceCopies(stem, ".html.html", ".html", ".ipynb");
  }

  lemma ReplaceTail()
    ensures Replace(".html.html", ".html", ".ipynb") == ".ipynb.ipynb"
  {
    ReplaceLast();
    ReplaceRewrites(".html", ".html", ".ipynb");
    assert ".html" + ".html" == ".html.html";
  }

  lemma ReplaceLast()
    ensures Replace(".html", ".html", ".ipynb") == ".ipynb"
  {
    ReplaceRewrites("", ".html", ".ipynb");
    assert ".html" + "" == ".html";
    assert Replace("", ".html", ".ipynb") == "";
  }
}
