/** String and path helpers with the behaviour of the Python library calls the
    tree exporter relies on: `str.split`, `str.join`, `str.strip`,
    `str.replace`, string ordering, `PurePath.stem` / `PurePath.suffix`,
    `str()` of a normalised path, and `url_path_join`. */
module PathText {

  // ---------------------------------------------------------------------------
  // str.split(sep) and sep.join(parts)
  // ---------------------------------------------------------------------------

  /** `s.split(sep)` for a one-character separator: never empty, and no part
      contains the separator. */
  function Split(s: string, sep: char): (parts: seq<string>)
    ensures |parts| >= 1
    ensures forall i :: 0 <= i < |parts| ==> sep !in parts[i]
  {
    if s == [] then [""]
    else
      var rest := Split(s[1..], sep);
      if s[0] == sep then [""] + rest
      else [[s[0]] + rest[0]] + rest[1..]
  }

  /** `sep.join(parts)`. */
  function Join(parts: seq<string>, sep: char): string
  {
    if |parts| == 0 then ""
    else if |parts| == 1 then parts[0]
    else parts[0] + [sep] + Join(parts[1..], sep)
  }

  /** Splitting and joining again gives back the original string. */
  lemma {:induction false} JoinSplit(s: string, sep: char)
    ensures Join(Split(s, sep), sep) == s
  {
    if s != [] {
      var rest := Split(s[1..], sep);
      JoinSplit(s[1..], sep);
      if s[0] == sep {
        assert Split(s, sep) == [""] + rest;
        assert s == [sep] + s[1..];
      } else {
        var parts := Split(s, sep);
        assert parts == [[s[0]] + rest[0]] + rest[1..];
        if |rest| == 1 {
          assert s == [s[0]] + rest[0];
        } else {
          assert Join(rest, sep) == rest[0] + [sep] + Join(rest[1..], sep);
          assert parts[1..] == rest[1..];
        }
      }
    }
  }

  /** A string without the separator splits into itself. */
  lemma {:induction false} SplitPlain(a: string, sep: char)
    requires sep !in a
    ensures Split(a, sep) == [a]
  {
    if a != [] {
      SplitPlain(a[1..], sep);
      assert [a[0]] + a[1..] == a;
    }
  }

  /** Splitting `a + sep + b`, where `a` has no separator, puts `a` first. */
  lemma {:induction false} SplitCons(a: string, sep: char, b: string)
    requires sep !in a
    ensures Split(a + [sep] + b, sep) == [a] + Split(b, sep)
  {
    if a == [] {
      assert [sep] + b == a + [sep] + b;
      assert ([sep] + b)[1..] == b;
    } else {
      assert (a + [sep] + b)[1..] == a[1..] + [sep] + b;
      SplitCons(a[1..], sep, b);
      assert [a[0]] + a[1..] == a;
    }
  }

  /** Joining parts that do not contain the separator and splitting again
      gives back the parts. */
  lemma {:induction false} SplitJoin(parts: seq<string>, sep: char)
    requires |parts| >= 1
    requires forall i :: 0 <= i < |parts| ==> sep !in parts[i]
    ensures Split(Join(parts, sep), sep) == parts
  {
    if |parts| == 1 {
      SplitPlain(parts[0], sep);
    } else {
      SplitJoin(parts[1..], sep);
      SplitCons(parts[0], sep, Join(parts[1..], sep));
      assert [parts[0]] + parts[1..] == parts;
    }
  }

  /** Appending one more separator-free part to a string appends it to the
      split. */
  lemma {:induction false} SplitSnoc(s: string, sep: char, b: string)
    requires sep !in b
    ensures Split(s + [sep] + b, sep) == Split(s, sep) + [b]
  {
    if s == [] {
      SplitCons([], sep, b);
      SplitPlain(b, sep);
      assert [] + [sep] + b == [sep] + b;
    } else {
      var t := s + [sep] + b;
      assert t[1..] == s[1..] + [sep] + b;
      SplitSnoc(s[1..], sep, b);
      var rest := Split(s[1..], sep);
      if s[0] != sep {
        assert (rest + [b])[0] == rest[0];
        assert (rest + [b])[1..] == rest[1..] + [b];
      }
    }
  }

  // ---------------------------------------------------------------------------
  // Filtering empty strings, str.strip("/")
  // ---------------------------------------------------------------------------

  /** The parts that are not empty, in order. */
  function NonEmpty(parts: seq<string>): seq<string>
  {
    if parts == [] then []
    else (if parts[0] != "" then [parts[0]] else []) + NonEmpty(parts[1..])
  }

  function TrimStart(s: string, c: char): string
  {
    if |s| > 0 && s[0] == c then TrimStart(s[1..], c) else s
  }

  function TrimEnd(s: string, c: char): string
  {
    if |s| > 0 && s[|s| - 1] == c then TrimEnd(s[..|s| - 1], c) else s
  }

  /** `s.strip(c)` for a single character. */
  function Strip(s: string, c: char): string
  {
    TrimEnd(TrimStart(s, c), c)
  }

  function StripAll(pieces: seq<string>, c: char): (r: seq<string>)
    ensures |r| == |pieces|
  {
    if pieces == [] then [] else [Strip(pieces[0], c)] + StripAll(pieces[1..], c)
  }

  /** Pieces without a slash are left alone by `strip('/')`. */
  lemma {:induction false} StripAllPlain(pieces: seq<string>)
    requires forall i :: 0 <= i < |pieces| ==> '/' !in pieces[i]
    ensures StripAll(pieces, '/') == pieces
  {
    if pieces != [] {
      StripAllPlain(pieces[1..]);
      var p := pieces[0];
      assert '/' !in p;
      assert TrimStart(p, '/') == p;
      assert TrimEnd(p, '/') == p;
    }
  }

  // ---------------------------------------------------------------------------
  // url_path_join (jupyter_server.utils)
  // ---------------------------------------------------------------------------

  predicate StartsWithSlash(s: string) { |s| > 0 && s[0] == '/' }

  predicate EndsWithSlash(s: string) { |s| > 0 && s[|s| - 1] == '/' }

  /** `url_path_join(*pieces)`: strip slashes from every piece, drop the empty
      ones, join with '/', and keep a leading slash of the first piece and a
      trailing slash of the last one; "//" collapses to "/". */
  function UrlPathJoin(pieces: seq<string>): (r: string)
    requires |pieces| > 0
    ensures StartsWithSlash(pieces[0]) ==> StartsWithSlash(r)
    ensures EndsWithSlash(pieces[|pieces| - 1]) ==> EndsWithSlash(r)
  {
    var joined := Join(NonEmpty(StripAll(pieces, '/')), '/');
    var withInitial := if StartsWithSlash(pieces[0]) then "/" + joined else joined;
    var withFinal := if EndsWithSlash(pieces[|pieces| - 1]) then withInitial + "/" else withInitial;
    if withFinal == "//" then "/" else withFinal
  }

  /** For pieces that contain no slash (the parts of a split path),
      url_path_join is the '/'-join of the non-empty pieces. */
  lemma UrlPathJoinPlain(pieces: seq<string>)
    requires |pieces| > 0
    requires forall i :: 0 <= i < |pieces| ==> '/' !in pieces[i]
    ensures UrlPathJoin(pieces) == Join(NonEmpty(pieces), '/')
  {
    StripAllPlain(pieces);
    var joined := Join(NonEmpty(pieces), '/');
    assert !StartsWithSlash(pieces[0]) by {
      assert '/' !in pieces[0];
    }
    assert !EndsWithSlash(pieces[|pieces| - 1]) by {
      assert '/' !in pieces[|pieces| - 1];
    }
    NonEmptyPlain(pieces);
    JoinPlainHead(NonEmpty(pieces));
    assert joined != "//";
  }

  /** The non-empty parts of slash-free parts are non-empty and slash-free. */
  lemma {:induction false} NonEmptyPlain(parts: seq<string>)
    requires forall i :: 0 <= i < |parts| ==> '/' !in parts[i]
    ensures forall i :: 0 <= i < |NonEmpty(parts)| ==> NonEmpty(parts)[i] != "" && '/' !in NonEmpty(parts)[i]
  {
    if parts != [] {
      NonEmptyPlain(parts[1..]);
      assert '/' !in parts[0];
    }
  }

  /** A '/'-join of non-empty slash-free parts does not start with a slash. */
  lemma JoinPlainHead(parts: seq<string>)
    requires forall i :: 0 <= i < |parts| ==> parts[i] != "" && '/' !in parts[i]
    ensures !StartsWithSlash(Join(parts, '/'))
  {
    if |parts| > 1 {
      assert parts[0] != "" && '/' !in parts[0];
      assert (parts[0] + "/" + Join(parts[1..], '/'))[0] == parts[0][0];
    } else if |parts| == 1 {
      assert '/' !in parts[0];
    }
  }

  /** A '/'-join of some non-empty slash-free parts is non-empty and does
      not end with a slash. */
  lemma {:induction false} JoinPlainTail(parts: seq<string>)
    requires |parts| > 0
    requires forall i :: 0 <= i < |parts| ==> parts[i] != "" && '/' !in parts[i]
    ensures Join(parts, '/') != "" && !EndsWithSlash(Join(parts, '/'))
  {
    if |parts| == 1 {
      var p := parts[0];
      assert p != "" && '/' !in p;
      assert p[|p| - 1] in p;
    } else {
      assert forall i :: 0 <= i < |parts[1..]| ==> parts[1..][i] == parts[i + 1];
      JoinPlainTail(parts[1..]);
      var t := Join(parts[1..], '/');
      var j := parts[0] + "/" + t;
      assert j[|j| - 1] == t[|t| - 1];
    }
  }

  /** A string without a slash at either end is left alone by `strip('/')`. */
  lemma StripKeeps(x: string)
    requires x != "" && x[0] != '/' && x[|x| - 1] != '/'
    ensures Strip(x, '/') == x
  {
    assert TrimStart(x, '/') == x;
  }

  /** Every part is the empty string. */
  predicate AllEmpty(parts: seq<string>)
  {
    forall i :: 0 <= i < |parts| ==> parts[i] == ""
  }

  /** The '/'-join of non-empty parts is empty exactly when there are none. */
  lemma {:induction false} JoinNonEmptyEmpty(parts: seq<string>)
    ensures Join(NonEmpty(parts), '/') == "" <==> AllEmpty(parts)
  {
    if parts != [] {
      JoinNonEmptyEmpty(parts[1..]);
      var rest := NonEmpty(parts[1..]);
      if parts[0] != "" {
        assert NonEmpty(parts) == [parts[0]] + rest;
        if |rest| > 0 {
          assert Join([parts[0]] + rest, '/') == parts[0] + "/" + Join(rest, '/');
        }
      } else {
        assert NonEmpty(parts) == rest;
        assert forall i :: 1 <= i < |parts| ==> parts[i] == parts[1..][i - 1];
      }
    }
  }

  // ---------------------------------------------------------------------------
  // Python string ordering
  // ---------------------------------------------------------------------------

  /** `a <= b` on Python strings: lexicographic by code point. */
  predicate LexLe(a: string, b: string)
  {
    |a| == 0 || (|b| > 0 && (a[0] < b[0] || (a[0] == b[0] && LexLe(a[1..], b[1..]))))
  }

  lemma {:induction false} LexLeTotal(a: string, b: string)
    ensures LexLe(a, b) || LexLe(b, a)
  {
    if |a| > 0 && |b| > 0 && a[0] == b[0] {
      LexLeTotal(a[1..], b[1..]);
    }
  }

  lemma {:induction false} LexLeTransitive(a: string, b: string, c: string)
    requires LexLe(a, b) && LexLe(b, c)
    ensures LexLe(a, c)
  {
    if |a| > 0 && a[0] == b[0] && b[0] == c[0] {
      LexLeTransitive(a[1..], b[1..], c[1..]);
    }
  }

  lemma {:induction false} LexLeAntisymmetric(a: string, b: string)
    requires LexLe(a, b) && LexLe(b, a)
    ensures a == b
  {
    if |a| > 0 {
      LexLeAntisymmetric(a[1..], b[1..]);
      assert a == [a[0]] + a[1..];
      assert b == [b[0]] + b[1..];
    }
  }

  // ---------------------------------------------------------------------------
  // str.replace
  // ---------------------------------------------------------------------------

  /** `s.replace(pat, rep)`: every non-overlapping occurrence of `pat`, from
      left to right, is replaced. */
  function Replace(s: string, pat: string, rep: string): string
    requires |pat| > 0
    decreases |s|
  {
    if pat <= s then rep + Replace(s[|pat|..], pat, rep)
    else if s == [] then []
    else [s[0]] + Replace(s[1..], pat, rep)
  }

  /** `pat` occurs in `s` starting at index `i`. */
  predicate OccursAt(s: string, pat: string, i: nat)
    requires i <= |s|
  {
    pat <= s[i..]
  }

  /** A prefix none of whose characters starts the pattern is copied. */
  lemma {:induction false} ReplaceCopies(p: string, t: string, pat: string, rep: string)
    requires |pat| > 0
    requires forall i :: 0 <= i < |p| ==> p[i] != pat[0]
    ensures Replace(p + t, pat, rep) == p + Replace(t, pat, rep)
    decreases |p|
  {
    if p == [] {
      assert p + t == t;
    } else {
      var s := p + t;
      var u := p[1..] + t;
      assert s[0] == p[0];
      assert !(pat <= s);
      assert s[1..] == u;
      assert Replace(s, pat, rep) == [s[0]] + Replace(u, pat, rep);
      ReplaceCopies(p[1..], t, pat, rep);
      assert [p[0]] + p[1..] == p;
    }
  }

  /** An occurrence at the front is rewritten. */
  lemma ReplaceRewrites(t: string, pat: string, rep: string)
    requires |pat| > 0
    ensures Replace(pat + t, pat, rep) == rep + Replace(t, pat, rep)
  {
    assert (pat + t)[|pat|..] == t;
  }

  /** Replacing a pattern that occurs only as the final suffix rewrites just
      that suffix. */
  lemma {:induction false} ReplaceFinal(p: string, pat: string, rep: string)
    requires |pat| > 0
    requires forall i :: 0 <= i < |p| ==> !OccursAt(p + pat, pat, i)
    ensures Replace(p + pat, pat, rep) == p + rep
  {
    var s := p + pat;
    if p == [] {
      assert s == pat;
      assert pat <= s;
      assert s[|pat|..] == [];
    } else {
      assert !OccursAt(s, pat, 0);
      assert s[0..] == s;
      assert !(pat <= s);
      var t := p[1..] + pat;
      assert s[1..] == t;
      forall i | 0 <= i < |p[1..]|
        ensures !OccursAt(t, pat, i)
      {
        assert t[i..] == s[i + 1..];
        assert !OccursAt(s, pat, i + 1);
      }
      assert s != [];
      assert Replace(s, pat, rep) == [s[0]] + Replace(t, pat, rep);
      ReplaceFinal(p[1..], pat, rep);
      assert [p[0]] + p[1..] == p;
    }
  }

  // ---------------------------------------------------------------------------
  // PurePath.stem and PurePath.suffix
  // ---------------------------------------------------------------------------

  /** `s.rfind(c)`: the last index of `c`, or -1. */
  function LastIndexOf(s: string, c: char): (i: int)
    ensures -1 <= i < |s|
    ensures i >= 0 ==> s[i] == c && forall j :: i < j < |s| ==> s[j] != c
    ensures i == -1 ==> c !in s
  {
    if |s| == 0 then -1
    else if s[|s| - 1] == c then |s| - 1
    else LastIndexOf(s[..|s| - 1], c)
  }

  /** `PurePath(name).suffix`: from the last dot, if that dot is neither the
      first nor the last character; otherwise empty. */
  function Suffix(name: string): string
  {
    var i := LastIndexOf(name, '.');
    if 0 < i < |name| - 1 then name[i..] else ""
  }

  /** `PurePath(name).stem`: the name without its suffix. */
  function Stem(name: string): string
  {
    var i := LastIndexOf(name, '.');
    if 0 < i < |name| - 1 then name[..i] else name
  }

  /** Stem and suffix split a name in two. */
  lemma StemSuffix(name: string)
    ensures Stem(name) + Suffix(name) == name
  {
  }

  /** A name with a suffix has a non-empty stem and a suffix starting with a
      dot and containing no other dot. */
  lemma SuffixShape(name: string)
    requires Suffix(name) != ""
    ensures Stem(name) != "" && |Suffix(name)| >= 2
    ensures Suffix(name)[0] == '.' && '.' !in Suffix(name)[1..]
  {
    var i := LastIndexOf(name, '.');
    assert Suffix(name) == name[i..];
    forall k | 0 <= k < |name[i..][1..]|
      ensures name[i..][1..][k] != '.'
    {
      assert name[i..][1..][k] == name[i + 1 + k];
    }
  }

  /** Appending a dot-suffix `ext` to a non-empty stem gives a name whose stem
      is that stem and whose suffix is `ext`. */
  lemma {:induction false} StemOfAppended(stem: string, ext: string)
    requires stem != "" && |ext| >= 2 && ext[0] == '.' && '.' !in ext[1..]
    ensures Stem(stem + ext) == stem && Suffix(stem + ext) == ext
  {
    var name := stem + ext;
    var i := |stem|;
    assert name[i] == '.';
    forall j | i < j < |name|
      ensures name[j] != '.'
    {
      assert name[j] == ext[1..][j - i - 1];
    }
    LastIndexOfIs(name, '.', i);
    assert name[..i] == stem;
    assert name[i..] == ext;
  }

  lemma {:induction false} LastIndexOfIs(s: string, c: char, i: int)
    requires 0 <= i < |s| && s[i] == c
    requires forall j :: i < j < |s| ==> s[j] != c
    ensures LastIndexOf(s, c) == i
  {
    if i < |s| - 1 {
      var t := s[..|s| - 1];
      assert t[i] == c;
      LastIndexOfIs(t, c, i);
    }
  }

  // ---------------------------------------------------------------------------
  // Normalised pathlib paths
  // ---------------------------------------------------------------------------

  /** A path as pathlib keeps it after parsing: absolute or not, and its
      parts. pathlib's parsing leaves no part empty, none containing '/' and
      none equal to "."; the model takes the parts as given and does not
      enforce this. */
  datatype PosixPath = PosixPath(absolute: bool, parts: seq<string>)

  predicate ValidName(n: string)
  {
    n != "" && '/' !in n && n != "." && n != ".."
  }

  /** `p / name` for each name of `names` in turn. */
  function Child(p: PosixPath, names: seq<string>): PosixPath
  {
    PosixPath(p.absolute, p.parts + names)
  }

  /** `str(p)`. */
  function Text(p: PosixPath): string
  {
    if p.absolute then "/" + Join(p.parts, '/')
    else if p.parts == [] then "."
    else Join(p.parts, '/')
  }

  /** `str(path.relative_to(base))`, given the parts `rel` below `base`. */
  function RelText(rel: seq<string>): string
  {
    if rel == [] then "." else Join(rel, '/')
  }
}
