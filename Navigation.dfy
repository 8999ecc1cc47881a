/** `generate_breadcrumbs` and `generate_page_title` of the tree exporter:
    navigation derived from the raw path string of the page. */
module Navigation {
  import opened PathText

  /** One breadcrumb, the pair `(link, label)`. */
  datatype Crumb = Crumb(link: string, text: string)

  /** `url_path_join(base_url, 'voila/tree')`: the link of the site root. */
  function TreeLink(baseUrl: string): string
  {
    UrlPathJoin([baseUrl, "voila/tree"])
  }

  /** The link of the breadcrumb for segment `i`: segments `0..i` joined, then
      escaped, then put under the tree link; `base_url` is not escaped. */
  function CrumbLink(baseUrl: string, escape: string -> string, parts: seq<string>, i: nat): string
    requires i < |parts|
  {
    UrlPathJoin([baseUrl, "voila/tree", escape(UrlPathJoin(parts[..i + 1]))])
  }

  /** The links of the breadcrumbs of `parts`, by segment index. */
  function Links(baseUrl: string, escape: string -> string, parts: seq<string>): nat -> string
  {
    (i: nat) => if i < |parts| then CrumbLink(baseUrl, escape, parts, i) else ""
  }

  /** The breadcrumbs for the first `n` segments, segment `i` linking to
      `link(i)`: one per non-empty segment. */
  function CrumbsUpTo(link: nat -> string, parts: seq<string>, n: nat): seq<Crumb>
    requires n <= |parts|
  {
    if n == 0 then []
    else
      CrumbsUpTo(link, parts, n - 1)
      + (if parts[n - 1] != "" then [Crumb(link(n - 1), parts[n - 1])] else [])
  }

  /** The breadcrumbs of a path: the root crumb with an empty label, then one
      crumb per non-empty '/'-segment of `str(path)`. */
  function Breadcrumbs(path: string, baseUrl: string, escape: string -> string): seq<Crumb>
  {
    var parts := Split(path, '/');
    [Crumb(TreeLink(baseUrl), "")] + CrumbsUpTo(Links(baseUrl, escape, parts), parts, |parts|)
  }

  /** `generate_breadcrumbs(path)`: the root crumb, then the loop over the
      '/'-segments of the path. */
  method GenerateBreadcrumbs(path: string, baseUrl: string, escape: string -> string) returns (breadcrumbs: seq<Crumb>)
    ensures breadcrumbs == Breadcrumbs(path, baseUrl, escape)
  {
    var parts := Split(path, '/');
    breadcrumbs := AppendCrumbs([Crumb(TreeLink(baseUrl), "")], parts, Links(baseUrl, escape, parts));
  }

  /** The loop of `generate_breadcrumbs`: append to `start` one crumb per
      non-empty segment, linked to `links(i)`; `GenerateBreadcrumbs` passes
      `Links`, the `url_path_join` formula of the loop body. */
  method AppendCrumbs(start: seq<Crumb>, parts: seq<string>, links: nat -> string)
    returns (breadcrumbs: seq<Crumb>)
    ensures breadcrumbs == start + CrumbsUpTo(links, parts, |parts|)
  {
    breadcrumbs := start;
    for i := 0 to |parts|
      invariant breadcrumbs == start + CrumbsUpTo(links, parts, i)
    {
      ghost var before := CrumbsUpTo(links, parts, i);
      if parts[i] != "" {
        var link := links(i);
        AppendAssociates(start, before, [Crumb(link, parts[i])]);
        breadcrumbs := breadcrumbs + [Crumb(link, parts[i])];
      } else {
        assert before + [] == before;
      }
    }
  }

  lemma AppendAssociates<T>(a: seq<T>, b: seq<T>, c: seq<T>)
    ensures a + b + c == a + (b + c)
  {
  }

  function Labels(crumbs: seq<Crumb>): (r: seq<string>)
    ensures |r| == |crumbs|
  {
    if crumbs == [] then [] else [crumbs[0].text] + Labels(crumbs[1..])
  }

  lemma {:induction false} LabelsAppend(a: seq<Crumb>, b: seq<Crumb>)
    ensures Labels(a + b) == Labels(a) + Labels(b)
  {
    if a != [] {
      LabelsAppend(a[1..], b);
      assert (a + b)[0] == a[0];
      assert (a + b)[1..] == a[1..] + b;
    } else {
      assert a + b == b;
    }
  }

  lemma {:induction false} NonEmptySnoc(parts: seq<string>, last: string)
    ensures NonEmpty(parts + [last]) == NonEmpty(parts) + (if last != "" then [last] else [])
  {
    if parts == [] {
      assert [] + [last] == [last];
    } else {
      NonEmptySnoc(parts[1..], last);
      assert (parts + [last])[1..] == parts[1..] + [last];
    }
  }

  /** Whatever the links, the labels of the crumbs for the first `n` segments
      are exactly the non-empty ones among them, in order. */
  lemma {:induction false} CrumbLabels(link: nat -> string, parts: seq<string>, n: nat)
    requires n <= |parts|
    ensures Labels(CrumbsUpTo(link, parts, n)) == NonEmpty(parts[..n])
  {
    if n > 0 {
      CrumbLabels(link, parts, n - 1);
      NonEmptyPrefix(parts, n);
      var prev := CrumbsUpTo(link, parts, n - 1);
      if parts[n - 1] != "" {
        LabelsSnoc(prev, link(n - 1), parts[n - 1]);
      } else {
        assert prev + [] == prev;
      }
    } else {
      assert parts[..0] == [];
    }
  }

  lemma LabelsSnoc(prev: seq<Crumb>, link: string, text: string)
    ensures Labels(prev + [Crumb(link, text)]) == Labels(prev) + [text]
  {
    LabelsAppend(prev, [Crumb(link, text)]);
    assert [Crumb(link, text)][1..] == [];
  }

  /** The non-empty segments among the first `n` are those among the first
      `n - 1`, then segment `n - 1` if it is not empty. */
  lemma NonEmptyPrefix(parts: seq<string>, n: nat)
    requires 0 < n <= |parts|
    ensures parts[n - 1] != "" ==> NonEmpty(parts[..n]) == NonEmpty(parts[..n - 1]) + [parts[n - 1]]
    ensures parts[n - 1] == "" ==> NonEmpty(parts[..n]) == NonEmpty(parts[..n - 1])
  {
    assert parts[..n] == parts[..n - 1] + [parts[n - 1]];
    NonEmptySnoc(parts[..n - 1], parts[n - 1]);
    if parts[n - 1] == "" {
      assert NonEmpty(parts[..n - 1]) + [] == NonEmpty(parts[..n - 1]);
    }
  }

  /** The breadcrumbs start with the root crumb `(url_path_join(base_url,
      'voila/tree'), '')`, and then carry one crumb per non-empty segment,
      labelled with that segment, in order. */
  lemma BreadcrumbsShape(path: string, baseUrl: string, escape: string -> string)
    ensures var b := Breadcrumbs(path, baseUrl, escape);
      && |b| == 1 + |NonEmpty(Split(path, '/'))|
      && b[0] == Crumb(TreeLink(baseUrl), "")
      && Labels(b[1..]) == NonEmpty(Split(path, '/'))
  {
    var parts := Split(path, '/');
    CrumbLabels(Links(baseUrl, escape, parts), parts, |parts|);
    assert parts[..|parts|] == parts;
  }

  /** Crumbs are determined by the segments and links up to their own: two
      paths that agree on their first `n` segments, with links that agree
      there, agree on those crumbs. */
  lemma {:induction false} CrumbsPrefixDetermined(l: nat -> string, m: nat -> string, p: seq<string>, q: seq<string>, n: nat)
    requires n <= |p| && n <= |q| && p[..n] == q[..n]
    requires forall i :: 0 <= i < n ==> l(i) == m(i)
    ensures CrumbsUpTo(l, p, n) == CrumbsUpTo(m, q, n)
  {
    if n > 0 {
      assert p[..n - 1] == q[..n - 1] by {
        assert p[..n - 1] == p[..n][..n - 1];
        assert q[..n - 1] == q[..n][..n - 1];
      }
      CrumbsPrefixDetermined(l, m, p, q, n - 1);
      assert p[n - 1] == p[..n][n - 1] == q[..n][n - 1] == q[n - 1];
    }
  }

  /** Going one non-empty segment further down adds exactly one crumb, for
      that segment, after the crumbs of the path above it. The lemma is about
      the string `path + "/" + seg`; `Export.ChildText` shows that this is
      the raw path the recursion enters below a parent other than "." or "/". */
  lemma BreadcrumbsExtend(path: string, seg: string, baseUrl: string, escape: string -> string)
    requires seg != "" && '/' !in seg
    ensures var parts := Split(path, '/') + [seg];
      Breadcrumbs(path + "/" + seg, baseUrl, escape)
      == Breadcrumbs(path, baseUrl, escape) + [Crumb(CrumbLink(baseUrl, escape, parts, |parts| - 1), seg)]
  {
    SplitSnoc(path, '/', seg);
    CrumbsSnoc(baseUrl, escape, Split(path, '/'), seg);
  }

  /** The crumbs of the segments `p + [seg]` are those of `p` and one more. */
  lemma CrumbsSnoc(baseUrl: string, escape: string -> string, p: seq<string>, seg: string)
    requires seg != ""
    ensures var q := p + [seg];
      CrumbsUpTo(Links(baseUrl, escape, q), q, |q|)
      == CrumbsUpTo(Links(baseUrl, escape, p), p, |p|) + [Crumb(CrumbLink(baseUrl, escape, q, |p|), seg)]
  {
    var q := p + [seg];
    var lq, lp := Links(baseUrl, escape, q), Links(baseUrl, escape, p);
    forall i | 0 <= i < |p|
      ensures lq(i) == lp(i)
    {
      assert q[..i + 1] == p[..i + 1];
    }
    assert q[..|p|] == p[..|p|];
    CrumbsPrefixDetermined(lq, lp, q, p, |p|);
    assert q[|q| - 1] == seg;
    assert lq(|p|) == CrumbLink(baseUrl, escape, q, |p|);
  }

  /** With slash-free segments (as a split gives), the joined part of each
      link is the '/'-join of the non-empty segments `0..i`. */
  lemma CrumbLinkPlain(baseUrl: string, escape: string -> string, path: string, i: nat)
    requires i < |Split(path, '/')|
    ensures var parts := Split(path, '/');
      CrumbLink(baseUrl, escape, parts, i)
      == UrlPathJoin([baseUrl, "voila/tree", escape(Join(NonEmpty(parts[..i + 1]), '/'))])
  {
    var parts := Split(path, '/');
    UrlPathJoinPlain(parts[..i + 1]);
  }

  /** An escape that leaves every character alone (the segments of the
      examples need no escaping). */
  function Verbatim(s: string): string { s }

  /** Under the base URL "/", for segments that need no escaping, the crumb
      of segment `i` links to "/voila/tree/" followed by the non-empty
      segments `0..i` joined with '/'. */
  lemma CrumbLinkUnderSlash(path: string, i: nat)
    requires i < |Split(path, '/')| && Split(path, '/')[i] != ""
    ensures var parts := Split(path, '/');
      CrumbLink("/", Verbatim, parts, i) == "/voila/tree/" + Join(NonEmpty(parts[..i + 1]), '/')
  {
    var parts := Split(path, '/');
    var x := Join(NonEmpty(parts[..i + 1]), '/');
    CrumbLinkPlain("/", Verbatim, path, i);
    assert x != "" && x[0] != '/' && x[|x| - 1] != '/' by {
      JoinedSegmentsPlain(parts, i);
    }
    LinkUnderSlash(x);
  }

  /** The non-empty slash-free segments `0..i`, where segment `i` is not
      empty, join to a non-empty string with no slash at either end. */
  lemma JoinedSegmentsPlain(parts: seq<string>, i: nat)
    requires i < |parts| && parts[i] != ""
    requires forall k :: 0 <= k < |parts| ==> '/' !in parts[k]
    ensures var x := Join(NonEmpty(parts[..i + 1]), '/');
      x != "" && x[0] != '/' && x[|x| - 1] != '/'
  {
    var pre := parts[..i + 1];
    assert pre == parts[..i] + [parts[i]];
    NonEmptySnoc(parts[..i], parts[i]);
    assert forall k :: 0 <= k < |pre| ==> '/' !in pre[k] by {
      forall k | 0 <= k < |pre|
        ensures '/' !in pre[k]
      {
        assert pre[k] == parts[k];
      }
    }
    NonEmptyPlain(pre);
    JoinPlainHead(NonEmpty(pre));
    JoinPlainTail(NonEmpty(pre));
  }

  /** The root crumb under the base URL "/" links to "/voila/tree". */
  lemma TreeLinkUnderSlash()
    ensures TreeLink("/") == "/voila/tree"
  {
    StripConstants();
    StripAllTwo("/", "voila/tree");
    NonEmptyTwo("voila/tree");
    assert Join(["voila/tree"], '/') == "voila/tree";
  }

  /** Under the base URL "/", a segment part without outer slashes is put
      below "/voila/tree/". */
  lemma LinkUnderSlash(x: string)
    requires x != "" && x[0] != '/' && x[|x| - 1] != '/'
    ensures UrlPathJoin(["/", "voila/tree", x]) == "/voila/tree/" + x
  {
    var pieces := ["/", "voila/tree", x];
    StripConstants();
    StripKeeps(x);
    StripAllThree("/", "voila/tree", x);
    var stripped := ["", "voila/tree", x];
    assert NonEmpty(stripped) == ["voila/tree", x] by {
      NonEmptyThree("voila/tree", x);
    }
    var joined := Join(["voila/tree", x], '/');
    assert joined == "voila/tree/" + x by {
      assert ["voila/tree", x][1..] == [x];
      assert Join([x], '/') == x;
      assert "voila/tree" + ['/'] == "voila/tree/";
    }
    assert StartsWithSlash(pieces[0]);
    assert !EndsWithSlash(pieces[2]);
    assert |"/" + joined| > 2;
  }

  lemma StripConstants()
    ensures Strip("/", '/') == ""
    ensures Strip("voila/tree", '/') == "voila/tree"
  {
    assert TrimStart("/", '/') == TrimStart("", '/');
    StripKeeps("voila/tree");
  }

  lemma StripAllTwo(b: string, c: string)
    ensures StripAll([b, c], '/') == [Strip(b, '/'), Strip(c, '/')]
  {
    assert [c][1..] == [];
    assert StripAll([c], '/') == [Strip(c, '/')];
    assert [b, c][1..] == [c];
  }

  lemma StripAllThree(a: string, b: string, c: string)
    ensures StripAll([a, b, c], '/') == [Strip(a, '/'), Strip(b, '/'), Strip(c, '/')]
  {
    StripAllTwo(b, c);
    assert [a, b, c][1..] == [b, c];
  }

  lemma NonEmptyTwo(c: string)
    requires c != ""
    ensures NonEmpty(["", c]) == [c]
  {
    assert [c][1..] == [];
    assert NonEmpty([c]) == [c];
    assert ["", c][1..] == [c];
  }

  lemma NonEmptyThree(b: string, c: string)
    requires b != "" && c != ""
    ensures NonEmpty(["", b, c]) == [b, c]
  {
    assert [c][1..] == [];
    assert NonEmpty([c]) == [c];
    assert [b, c][1..] == [c];
    assert NonEmpty([b, c]) == [b, c];
    assert ["", b, c][1..] == [b, c];
  }

  // ---------------------------------------------------------------------------
  // Page title
  // ---------------------------------------------------------------------------

  const HomeTitle := "Voici Home"

  /** The segments the title is made from: the last two when there are more
      than three, all of them otherwise. */
  function TitleParts(parts: seq<string>): seq<string>
  {
    if |parts| > 3 then parts[|parts| - 2..] else parts
  }

  /** `generate_page_title(path)`. */
  function PageTitle(path: string): string
  {
    var kept := TitleParts(Split(path, '/'));
    var title := UrlPathJoin(kept);
    if title != "" then title + "/" else HomeTitle
  }

  /** The title is "Voici Home" exactly when every kept segment is empty;
      otherwise it is the '/'-join of the non-empty kept segments followed by
      a '/'. */
  lemma PageTitleCases(path: string)
    ensures var kept := TitleParts(Split(path, '/'));
      && (PageTitle(path) == HomeTitle <==> AllEmpty(kept))
      && (PageTitle(path) != HomeTitle ==>
            PageTitle(path) == Join(NonEmpty(kept), '/') + "/" && EndsWithSlash(PageTitle(path)))
  {
    var parts := Split(path, '/');
    var kept := TitleParts(parts);
    assert forall i :: 0 <= i < |kept| ==> '/' !in kept[i] by {
      if |parts| > 3 {
        forall i | 0 <= i < |kept|
          ensures '/' !in kept[i]
        {
          assert kept[i] == parts[|parts| - 2 + i];
        }
      }
    }
    UrlPathJoinPlain(kept);
    JoinNonEmptyEmpty(kept);
    var title := UrlPathJoin(kept);
    if title != "" {
      var t := title + "/";
      assert Join(NonEmpty(kept), '/') != "";
      assert PageTitle(path) == t;
      assert t[|t| - 1] == '/';
      assert HomeTitle[|HomeTitle| - 1] == 'e';
      assert t != HomeTitle;
    } else {
      assert PageTitle(path) == HomeTitle;
    }
  }

  /** With more than three segments only the last two contribute: two such
      paths with the same last two segments get the same title. */
  lemma PageTitleLastTwo(p: string, q: string)
    requires var a, b := Split(p, '/'), Split(q, '/');
      |a| > 3 && |b| > 3 && a[|a| - 2..] == b[|b| - 2..]
    ensures PageTitle(p) == PageTitle(q)
  {
  }

  /** With three segments or fewer, every segment is kept: the title is
      "Voici Home" when all are empty, and otherwise the '/'-join of the
      non-empty ones followed by '/'. */
  lemma PageTitleShort(path: string)
    requires |Split(path, '/')| <= 3
    ensures var parts := Split(path, '/');
      PageTitle(path) == if AllEmpty(parts) then HomeTitle else Join(NonEmpty(parts), '/') + "/"
  {
    var parts := Split(path, '/');
    assert TitleParts(parts) == parts;
    PageTitleCases(path);
  }

  /** The empty string gets the home title. */
  lemma PageTitleOfEmpty()
    ensures PageTitle("") == HomeTitle
  {
    assert StripAll([""], '/') == [""];
  }

  /** "x/y" gives "x/y/". */
  lemma PageTitleOfTwo()
    ensures PageTitle("x/y") == "x/y/"
  {
    SplitJoin(["x", "y"], '/');
    assert Join(["x", "y"], '/') == "x/y";
    UrlPathJoinPlain(["x", "y"]);
    assert NonEmpty(["y"]) == ["y"];
  }

  /** A path of more than three segments whose last two are not empty is
      titled by those two: "<second to last>/<last>/". */
  lemma PageTitleOfLastTwo(path: string)
    requires var parts := Split(path, '/');
      |parts| > 3 && parts[|parts| - 2] != "" && parts[|parts| - 1] != ""
    ensures var parts := Split(path, '/');
      PageTitle(path) == parts[|parts| - 2] + "/" + parts[|parts| - 1] + "/"
  {
    var parts := Split(path, '/');
    var x, y := parts[|parts| - 2], parts[|parts| - 1];
    assert TitleParts(parts) == [x, y];
    UrlPathJoinPair(x, y);
  }

  /** `url_path_join` of two non-empty slash-free pieces puts one '/' between. */
  lemma UrlPathJoinPair(x: string, y: string)
    requires x != "" && y != "" && '/' !in x && '/' !in y
    ensures UrlPathJoin([x, y]) == x + "/" + y
  {
    UrlPathJoinPlain([x, y]);
    assert [x, y][1..] == [y];
    assert NonEmpty([y]) == [y];
    assert NonEmpty([x, y]) == [x, y];
    assert Join([y], '/') == y;
  }

  /** "a/b/c/d" keeps only its last two segments: "c/d/". */
  lemma PageTitleOfFour()
    ensures PageTitle("a/b/c/d") == "c/d/"
  {
    var parts := ["a", "b", "c", "d"];
    SplitJoin(parts, '/');
    assert Join(parts, '/') == "a/b/c/d";
    PageTitleOfLastTwo("a/b/c/d");
  }

  /** An absolute export root such as "/out/files" splits into three parts
      (the first empty), all kept: "out/files/". */
  lemma PageTitleOfAbsolute()
    ensures PageTitle("/out/files") == "out/files/"
  {
    var parts := ["", "out", "files"];
    SplitAbsoluteExample();
    assert TitleParts(parts) == parts;
    JoinOutFiles();
    assert PageTitle("/out/files") == UrlPathJoin(parts) + "/";
  }

  lemma SplitAbsoluteExample()
    ensures Split("/out/files", '/') == ["", "out", "files"]
  {
    var parts := ["", "out", "files"];
    SplitJoin(parts, '/');
    assert Join(["files"], '/') == "files";
    assert Join(["out", "files"], '/') == "out/files";
    assert Join(parts, '/') == "/out/files";
  }

  lemma JoinOutFiles()
    ensures UrlPathJoin(["", "out", "files"]) == "out/files"
  {
    var parts := ["", "out", "files"];
    UrlPathJoinPlain(parts);
    assert NonEmpty(["files"]) == ["files"];
    assert NonEmpty(["out", "files"]) == ["out", "files"];
    assert NonEmpty(parts) == ["out", "files"];
    assert Join(["out", "files"], '/') == "out/files";
  }
}
