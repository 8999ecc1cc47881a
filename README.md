# Voici tree exporter, modelled in Dafny

Voici builds a static JupyterLite-style site from a directory of notebooks.
Its tree exporter (`voici/tree_exporter.py`) walks the directory. It
classifies every entry into a partial jupyter-server "contents" record
(`path_to_content`). It then yields, depth first, one index page per
directory (`tree/<path>/index.html`) and one rendered page per notebook
(`render/<path>.html`). Each index page shows a title
(`generate_page_title`) and breadcrumbs (`generate_breadcrumbs`).

This project models that core and proves properties of it:

- `PathText.dfy`: the library behaviour the core relies on.
  - `str.split` and `str.join`.
  - `str.replace`.
  - `PurePath.stem` and `PurePath.suffix`.
  - Python's string order.
  - `url_path_join`.
  - pathlib paths as parts: `/`, `str()` and `relative_to`.
- `Sorting.dfy`: `sorted(..., key=...)` as a stable insertion sort.
  - The result is ascending.
  - It is a permutation of the input.
  - It is stable.
  - It keeps weighted counts.
- `Contents.dfy`: `path_to_content` and `allowed_content` over an abstract
  filesystem tree (`Entry`).
  - When classification gives a record, None or a TypeError, and why.
  - What the directory and notebook records hold.
  - The record tree is sorted at every depth.
  - It keeps every directory and notebook.
- `Navigation.dfy`: the breadcrumb loop and the page title.
  - The breadcrumb loop is an imperative method, proved against a
    specification function.
  - Lemmas give the shape of the breadcrumbs, the cases of the title and
    worked examples.
- `Export.dfy`: `generate_contents` as a function from a tree to the stream
  of artifacts it yields, plus the exception that ends it, if any.
  - For a tidy tree of directories and notebooks, the stream follows the
    pre-order outline of the sorted record tree. It is the whole outline,
    without failure, exactly when every notebook's source renders; otherwise
    it stops at the first notebook of the outline whose source does not
    render, with the render failure of that source, after yielding
    everything before it. A complete export holds one index per
    directory and one page per notebook.
  - How the stream starts and how it stops. The unfiltered None,
    the recursion through a directory's stem and the blanket `.html`
    replacement are each shown by a lemma.

Every quirk of the code is modelled as written, except the stems "." and
".." and the working directory (see "Left out").

- `path_to_content` leaves None children unfiltered. The comprehension's
  `if subitem is not None` tests the path, not the result. A directory with
  any non-notebook file below it therefore raises in the sort key.
- The recursion enters `Path(path) / file['name']`, where `name` is the
  directory's stem. A directory "v1.0" is entered as "v1".
- The source path of a notebook replaces every ".html" in the record path,
  not only the final one.

Where the code behaves unlike its docstrings or names suggest, the model
follows the code.

## Model

| member | source | states |
|---|---|---|
| PathText.Split | voici/tree_exporter.py:67 | `str(path).split('/')` is never empty and no segment contains '/' |
| PathText.JoinSplit | voici/tree_exporter.py:67 | joining the segments of a split with '/' gives back the string |
| PathText.SplitJoin | voici/tree_exporter.py:67 | splitting the '/'-join of slash-free segments gives back those segments |
| PathText.SplitSnoc | voici/tree_exporter.py:67 | a path extended by "/seg" splits into the path's segments followed by seg |
| PathText.UrlPathJoin | voici/tree_exporter.py:66 | `url_path_join` keeps a leading slash of its first piece and a trailing slash of its last |
| PathText.UrlPathJoinPlain | voici/tree_exporter.py:82 | on slash-free pieces, `url_path_join` is the '/'-join of the non-empty pieces |
| PathText.JoinNonEmptyEmpty | voici/tree_exporter.py:82-83 | the joined title text is empty exactly when every segment is empty |
| PathText.LexLe | voici/tree_exporter.py:25 | Python's `<=` on `str`, code point by code point, which `sorted` compares names with; `PathText.LexLeTotal`, `PathText.LexLeTransitive` and `PathText.LexLeAntisymmetric` state that it is a total order |
| PathText.LexLeTotal | voici/tree_exporter.py:25 | Python's string order compares any two names |
| PathText.LexLeTransitive | voici/tree_exporter.py:25 | Python's string order is transitive |
| PathText.LexLeAntisymmetric | voici/tree_exporter.py:25 | two names ordered both ways are equal |
| PathText.Replace | voici/tree_exporter.py:113 | `str.replace`, rewriting every occurrence left to right; `PathText.ReplaceCopies`, `PathText.ReplaceRewrites` and `PathText.ReplaceFinal` state how it treats a text |
| PathText.ReplaceCopies | voici/tree_exporter.py:113 | `replace` copies a prefix in which the pattern cannot start |
| PathText.ReplaceRewrites | voici/tree_exporter.py:113 | `replace` rewrites an occurrence at the front and continues after it |
| PathText.ReplaceFinal | voici/tree_exporter.py:113 | if the pattern occurs only as the final suffix, `replace` rewrites just that suffix |
| PathText.LastIndexOf | voici/tree_exporter.py:29 | the index found holds the character and no later index does; -1 means the character is absent |
| PathText.Suffix | voici/tree_exporter.py:33 | `PurePath.suffix`, from the last dot unless it is first or last; `PathText.SuffixShape` states its shape |
| PathText.Stem | voici/tree_exporter.py:29 | `PurePath.stem`, the name without the suffix; `PathText.StemSuffix` states that stem and suffix make up the name |
| PathText.StemSuffix | voici/tree_exporter.py:29 | `path.stem + path.suffix` is the name |
| PathText.SuffixShape | voici/tree_exporter.py:33 | a non-empty suffix starts with its only dot and leaves a non-empty stem |
| PathText.StemOfAppended | voici/tree_exporter.py:34 | appending ".html" to a non-empty stem gives a name with that stem and suffix ".html" |
| Sorting.SortBy | voici/tree_exporter.py:25 | `sorted(content, key=...)`; `Sorting.SortBySorted`, `Sorting.SortByPermutes` and `Sorting.SortByStable` state that it is an ascending, stable permutation |
| Sorting.SortBySorted | voici/tree_exporter.py:25 | `sorted(content, key=name)` is ascending by name |
| Sorting.SortByPermutes | voici/tree_exporter.py:25 | `sorted` returns a permutation of its input |
| Sorting.SortByStable | voici/tree_exporter.py:25 | records with equal names keep their `iterdir()` order |
| Sorting.SortByTotal | voici/tree_exporter.py:25 | sorting does not change a weighted count |
| Contents.PathToContent | voici/tree_exporter.py:21-41 | a raise is a TypeError from a directory; None exactly for a file without suffix ".ipynb"; a file's record is a notebook, a directory's a directory |
| Contents.ChildOutcomes | voici/tree_exporter.py:24 | the comprehension over `iterdir()`: one outcome per child, in order, None results kept |
| Contents.AllowedContent | voici/tree_exporter.py:62-63 | `allowed_content`: the type is "notebook" or "directory"; `Contents.AllowedEverywhere` states that it holds of every record, by construction |
| Contents.RecordIffRenderable | voici/tree_exporter.py:23-25 | a record comes back exactly when every entry below is a directory or a notebook; a directory raises TypeError exactly when it holds anything else |
| Contents.DirectoryRecord | voici/tree_exporter.py:23-32 | the directory record is named by the stem and has the relative path; its listing is the children's records, sorted by name, as a stable permutation |
| Contents.NotebookRecord | voici/tree_exporter.py:33-40 | a notebook's record is named stem + ".html" and lies in the relative parent; the stem is kept and the name is recovered by adding ".ipynb" to it |
| Contents.SourcePathRecovered | voici/tree_exporter.py:113 | rewriting ".html" in the record path gives the notebook's own relative path when ".html" occurs nowhere earlier |
| Contents.RecordTreeSorted | voici/tree_exporter.py:23-25 | every listing of the record tree, at every depth, is sorted by name |
| Contents.AllowedEverywhere | voici/tree_exporter.py:62-63 | every record of a listing passes `allowed_content`; this holds of every record by construction |
| Contents.RecordCounts | voici/tree_exporter.py:21-41 | the record tree has one directory record per directory and one notebook record per notebook |
| Navigation.TreeLink | voici/tree_exporter.py:66 | the root crumb's link `url_path_join(base_url, 'voila/tree')`; `Navigation.TreeLinkUnderSlash` gives its value under "/" |
| Navigation.CrumbLink | voici/tree_exporter.py:70-74 | the link of segment i; `Navigation.CrumbLinkPlain` and `Navigation.CrumbLinkUnderSlash` state what it is |
| Navigation.Breadcrumbs | voici/tree_exporter.py:65-76 | the breadcrumbs of a raw path; `Navigation.BreadcrumbsShape` and `Navigation.BreadcrumbsExtend` state their shape and growth |
| Navigation.GenerateBreadcrumbs | voici/tree_exporter.py:65-76 | the loop builds the root crumb followed by one crumb per non-empty segment |
| Navigation.AppendCrumbs | voici/tree_exporter.py:68-75 | the loop appends to the crumbs it starts from exactly one crumb per non-empty segment, in order, each labelled with its segment and linked to that segment's link |
| Navigation.BreadcrumbsShape | voici/tree_exporter.py:65-76 | the root crumb `(url_path_join(base_url, 'voila/tree'), '')` comes first; the labels after it are the non-empty segments in order |
| Navigation.CrumbLabels | voici/tree_exporter.py:68-75 | whatever the links, the labels of the first n segments' crumbs are those segments without the empty ones, in order |
| Navigation.CrumbsPrefixDetermined | voici/tree_exporter.py:68-75 | crumbs are determined by the segments and links up to their own: paths agreeing on a prefix agree on its crumbs |
| Navigation.BreadcrumbsExtend | voici/tree_exporter.py:65-76 | one more segment adds exactly one crumb, for it, after the parent's crumbs |
| Export.ChildText | voici/tree_exporter.py:138 | the raw path the recursion enters is the parent's text, "/" and the name, below a parent other than "." or "/" |
| Navigation.CrumbsSnoc | voici/tree_exporter.py:68-75 | the crumbs of segments `p + [seg]` are those of `p` followed by one crumb for `seg`, linked through all the segments |
| Navigation.CrumbLinkPlain | voici/tree_exporter.py:70-74 | the escaped part of a link is the '/'-join of the non-empty segments up to its own |
| Navigation.TreeLinkUnderSlash | voici/tree_exporter.py:66 | under the base URL "/", the root crumb links to "/voila/tree" |
| Navigation.CrumbLinkUnderSlash | voici/tree_exporter.py:70-74 | under the base URL "/" with no escaping, the crumb of a non-empty segment i links to "/voila/tree/" and the non-empty segments up to i joined with '/' |
| Navigation.TitleParts | voici/tree_exporter.py:79-81 | the segments kept for the title; `Navigation.PageTitleLastTwo` and `Navigation.PageTitleShort` state which |
| Navigation.PageTitle | voici/tree_exporter.py:78-86 | `generate_page_title`; `Navigation.PageTitleCases` states both of its cases |
| Navigation.HomeTitle | voici/tree_exporter.py:86 | `'Voici Home'`; `Navigation.PageTitleCases` states the title is this exactly when every kept segment is empty |
| Navigation.PageTitleCases | voici/tree_exporter.py:78-86 | the title is "Voici Home" exactly when every kept segment is empty, and otherwise the joined segments followed by '/' |
| Navigation.PageTitleLastTwo | voici/tree_exporter.py:80-81 | with more than three segments, only the last two decide the title |
| Navigation.PageTitleShort | voici/tree_exporter.py:78-86 | with three segments or fewer, the title is "Voici Home" when all are empty and otherwise the non-empty segments joined with '/', then '/' |
| Navigation.PageTitleOfEmpty | voici/tree_exporter.py:85-86 | the empty string gets "Voici Home" |
| Navigation.PageTitleOfTwo | voici/tree_exporter.py:78-84 | "x/y" keeps both segments and gets "x/y/" |
| Navigation.PageTitleOfLastTwo | voici/tree_exporter.py:78-84 | a path of more than three segments whose last two are not empty gets "<second to last>/<last>/" |
| Navigation.PageTitleOfFour | voici/tree_exporter.py:80-84 | "a/b/c/d" gets "c/d/" |
| Navigation.PageTitleOfAbsolute | voici/tree_exporter.py:79-84 | "/out/files" keeps all three segments and gets "out/files/" |
| Export.IndexPath | voici/tree_exporter.py:104 | `Path('tree') / relative_path / 'index.html'`, "tree/index.html" for the root; `Export.ExportIsExhaustive` states the root's value |
| Export.RenderPath | voici/tree_exporter.py:134 | `Path('render') / file['path']`; `Export.VisitFollowsOutline` places each page there |
| Export.SourcePath | voici/tree_exporter.py:113 | the source path read for a notebook record; `Contents.SourcePathRecovered` and `Export.BlanketReplace` state when it is the notebook's own path |
| Export.IndexArtifact | voici/tree_exporter.py:99-109 | the index artifact; `Export.IndexComesFirst` states its path, record, title and breadcrumbs |
| Export.Generate | voici/tree_exporter.py:88-139 | `generate_contents` for one entry; `Export.GenerateFollowsOutline` states what it yields |
| Export.Visit | voici/tree_exporter.py:111-139 | the loop over the listing; `Export.VisitFollowsOutline` states what it yields |
| Export.GenerateContents | voici/tree_exporter.py:88-92 | `generate_contents(path)` with `relative_to` left out; `Export.ExportIsExhaustive` states what it yields |
| Export.Lookup | voici/tree_exporter.py:138 | the entry found has the name; when none is found, no entry has it |
| Export.MissingPath | voici/tree_exporter.py:102-111 | for a path with no entry, `path_to_content` gives None, the index page is still yielded and `None['content']` raises TypeError; `Export.StemMissStops` states when the loop reaches it |
| Export.Prepend | voici/tree_exporter.py:104 | one artifact yielded before the rest of a stream: the index before the loop, and a notebook's page (:134) before the rest of the loop; `Export.FollowsPrepend` states that a rendered artifact keeps the stream following its outline |
| Export.Then | voici/tree_exporter.py:138-139 | the sub-generator's items, then the rest of the loop and how it ends; `Export.FollowsSubdirectory` states the two outlines follow one after the other |
| PathText.Text | voici/tree_exporter.py:67 | `str(path)` of the raw path that the breadcrumbs and the title split; `Export.ChildText` states that entering a child adds "/" and its name |
| PathText.RelText | voici/tree_exporter.py:30 | `str(path.relative_to(relative_to))`, "." for the root; `Contents.DirectoryRecord` states it is the directory record's path and `Export.IndexComesFirst` places the index under it |
| PathText.Child | voici/tree_exporter.py:138 | `Path(path) / file['name']`, the recursion's path; `Export.ChildText` states its text |
| Contents.HtmlName | voici/tree_exporter.py:34 | `f"{path.stem}.html"`; `Contents.NotebookRecord` states it is the record's name, keeps the stem, and gives back the notebook's name when ".ipynb" is added to the stem |
| Contents.IsNotebookName | voici/tree_exporter.py:33 | `path.suffix == ".ipynb"`; `Contents.PathToContent` states that a file gives None exactly when its name fails it, and `Contents.RecordIffRenderable` that a tree classifies exactly when every file below passes it |
| Contents.NameOf | voici/tree_exporter.py:25 | the sort key `lambda i: i['name']`; `Contents.DirectoryRecord` and `Contents.RecordTreeSorted` state that every listing is sorted by it |
| Contents.TypeOf | voici/tree_exporter.py:28-37 | the `type` value, "directory" or "notebook", read at :63, :112 and :137; `Contents.AllowedEverywhere` states every record passes `allowed_content` |
| Contents.Parent | voici/tree_exporter.py:39 | `.parent` of the relative path, "." for "."; `Contents.NotebookRecord` states the notebook record lies there |
| Export.LookupFinds | voici/tree_exporter.py:138 | in a listing with distinct names, the lookup of an entry's name finds that entry |
| Export.GenerateFollowsOutline | voici/tree_exporter.py:88-139 | for a tidy tree, every page yielded was rendered; the stream is the whole pre-order outline of its record tree, without failure, exactly when every notebook's source renders; otherwise it stops at the first notebook of the outline whose source does not render, with the render failure of that source, after yielding everything of the outline before it |
| Export.VisitFollowsOutline | voici/tree_exporter.py:111-139 | the loop over a listing yields each notebook's page and each sub-directory's stream in listing order; it stops at the first notebook of that outline whose source does not render, with that source's render failure, after yielding everything before it |
| Export.VisitNotebookStep | voici/tree_exporter.py:112-136 | a notebook at the head of the listing yields its page and then the rest of the loop when its source renders, and otherwise stops at once with the render failure of its own source |
| Export.OutlinePages | voici/tree_exporter.py:113-134 | every rendered page of the outline lies at `render/p` for a notebook record path `p` and is rendered from `p` with every ".html" replaced, so the source in a render failure from `Export.GenerateFollowsOutline` is the rewritten path of the notebook at the cut |
| Export.SourcesRenderOutline | voici/tree_exporter.py:111-136 | every notebook of a record tree renders if and only if every page of its outline is rendered from a source that renders |
| Export.FollowsPrepend | voici/tree_exporter.py:104 | an artifact that was rendered, yielded before a stream that follows an outline, gives a stream that follows that artifact's entry and then the outline, failing at the same notebook |
| Export.FollowsSubdirectory | voici/tree_exporter.py:137-139 | a sub-directory's stream at the head of the listing, followed by the rest of the loop unless it failed, follows the two outlines one after the other and ends cleanly only if both do |
| Export.ExportIsExhaustive | voici/tree_exporter.py:88-139 | the root's index comes first; one index per directory and one page per notebook, in the sorted pre-order; no failure |
| Export.IndexComesFirst | voici/tree_exporter.py:99-109 | unless classification raises, the first artifact is the index at `tree/<relative path>/index.html`, rendered from the record, title and breadcrumbs |
| Export.UnfilteredNoneAborts | voici/tree_exporter.py:24-25 | a directory with any non-notebook file below it yields nothing and raises TypeError |
| Export.StemMissStops | voici/tree_exporter.py:137-139 | a directory whose stem names no sibling entry yields an index for the missing path, then raises TypeError |
| Export.SuffixedDirectoryIsMissed | voici/tree_exporter.py:137-139 | a lone sub-directory whose name has a suffix yields the root index, then an index at the path of its stem, then TypeError |
| Export.ReadmeStopsExport | voici/tree_exporter.py:24-25 | a README.md beside a notebook stops the export before anything is yielded |
| Export.DottedDirectoryIsMissed | voici/tree_exporter.py:137-139 | a sub-directory "v1.0" is entered as "v1": the root index, an index at "tree/v1/index.html", then TypeError |
| Export.BlanketReplace | voici/tree_exporter.py:113 | a notebook `<stem>.html.ipynb` gets the record path `<stem>.html.html` and is read from `<stem>.ipynb.ipynb`, which is not its own path |

## Left out

- `voici/addon.py` and `voici/utils.py` (the command-line app, theme lookup, asset copying) are not part of this model. The root is taken as the normalised text of a `Path`, as the caller passes it.
- The default `path=''` of `generate_contents` is not modelled: the root text is never empty (the empty relative path is "."). `Navigation.PageTitleOfEmpty` gives the title the empty string would get.
- `init_resources`, `jinja2_env.get_template` and `template.render` are not modelled. An index artifact records the values passed to the template, and template errors are not modelled.
- Notebook reading (`nbformat.read`), the cell summary and `VoiciExporter.from_filename` are not modelled. They are one parameter, `Env.renders`, which says whether rendering a source path succeeds. `open` resolves the path against the working directory; the model does not model the working directory.
- Laziness of the generator, the `StringIO` wrappers, and the reassignment of `self.resources` and `self.template` on every call are not modelled. The stream is the finite sequence of yielded pairs plus the exception that ends it. `VoiciTreeExporter` has no state besides configuration, so the model has no class.
- `url_escape` is a parameter, `Env.escape`. jupyter_server is not part of this model. `PathText.UrlPathJoin` follows that library's published definition: strip '/' from each piece, drop empty pieces, join with '/', keep an initial and a final slash.
- `Export.Visit`: a directory whose stem is "." or ".." makes the source re-enter the same directory or its parent. The model stops there with `DotStem` instead of following an unbounded recursion.
- Symbolic links, special files, and filesystem errors during `iterdir` are not modelled. An entry is a directory or a regular file.
- `iterdir()` order is given by the tree, not by a real filesystem.
- `PurePath.stem` and `PurePath.suffix` follow their definition up to Python 3.13: the last dot, unless it is first or last in the name.
- `self.notebook_paths` and `page_config` are not modelled. They are set but never read by the core.
