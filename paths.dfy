/** Slash-separated relative paths as the `relative_path` crate reads them, and the
    `file_name` of `std::path` on such strings. A path is split on `/`, empty pieces are
    dropped, `.` is the current directory and `..` the parent directory. */
module Paths {
  import opened Wrappers
  import opened Text

  /** The non-empty pieces of `parts`, in order. */
  function NonEmpty(parts: seq<string>): (r: seq<string>)
    ensures forall i :: 0 <= i < |r| ==> r[i] != "" && r[i] in parts
    ensures (forall i :: 0 <= i < |parts| ==> parts[i] != "") ==> r == parts
  {
    if |parts| == 0 then []
    else
      var init := NonEmpty(parts[..|parts| - 1]);
      var last := parts[|parts| - 1];
      if last == "" then init else init + [last]
  }

  lemma {:induction false} NonEmptyAppend(a: seq<string>, b: seq<string>)
    ensures NonEmpty(a + b) == NonEmpty(a) + NonEmpty(b)
  {
    if |b| > 0 {
      assert (a + b)[..|a + b| - 1] == a + b[..|b| - 1];
      NonEmptyAppend(a, b[..|b| - 1]);
    } else {
      assert a + b == a;
    }
  }

  /** `RelativePath::components`, each component as its string. */
  function Components(s: string): seq<string>
  {
    NonEmpty(Split(s, '/'))
  }

  /** A component naming a file or directory: not empty, no separator, not `.` or `..`. */
  predicate IsName(c: string)
  {
    c != "" && c != "." && c != ".." && '/' !in c
  }

  /** The last component that is not `.`; `None` when it is `..` or there is none. */
  function LastName(cs: seq<string>): (r: Option<string>)
    ensures r.Some? ==> r.value in cs && r.value != "." && r.value != ".."
  {
    if |cs| == 0 then None
    else if cs[|cs| - 1] == "." then LastName(cs[..|cs| - 1])
    else if cs[|cs| - 1] == ".." then None
    else Some(cs[|cs| - 1])
  }

  /** `file_name()`, for `RelativePath` and for `std::path::Path` on these strings. */
  function FileName(s: string): Option<string>
  {
    LastName(Components(s))
  }

  function DropTrailingDots(cs: seq<string>): (r: seq<string>)
    ensures |r| <= |cs| && r == cs[..|r|]
    ensures |r| > 0 ==> r[|r| - 1] != "."
  {
    if |cs| > 0 && cs[|cs| - 1] == "." then DropTrailingDots(cs[..|cs| - 1]) else cs
  }

  /** The components of `parent()`: `None` for the empty path; otherwise trailing `.`
      components are popped together with the one before them. */
  function ParentComponents(s: string): (r: Option<seq<string>>)
    ensures r.None? <==> s == ""
  {
    if s == "" then None
    else
      var cs := DropTrailingDots(Components(s));
      Some(if |cs| == 0 then [] else cs[..|cs| - 1])
  }

  /** `RelativePath::join`: one leading separator of `other` is dropped, and a separator
      is inserted when `base` is non-empty and does not already end in one. */
  function RelJoin(base: string, other: string): (r: string)
    ensures base == "" ==> r == (if other != [] && other[0] == '/' then other[1..] else other)
    ensures other == "" ==> r == (if base != [] && base[|base| - 1] != '/' then base + "/" else base)
  {
    var tail := if |other| > 0 && other[0] == '/' then other[1..] else other;
    if |base| > 0 && base[|base| - 1] != '/' then base + "/" + tail else base + tail
  }

  /** The directory path `c1/c2/.../cn/` of a chain of names; `""` for no names. */
  function DirOf(cs: seq<string>): (r: string)
    ensures r == "" || r[|r| - 1] == '/'
    ensures |r| >= |cs|
  {
    if |cs| == 0 then "" else DirOf(cs[..|cs| - 1]) + cs[|cs| - 1] + "/"
  }

  lemma SplitNameSlash(c: string)
    requires IsName(c)
    ensures Split(c + "/", '/') == [c, ""]
  {
    assert c + "/" == c + "/" + "";
    SplitAfter(c, '/', "");
    SplitNoSep("", '/');
  }

  /** A directory path splits into its components and one empty piece at the end. */
  lemma SplitDirPath(p: string)
    requires p != "" && p[|p| - 1] == '/'
    ensures Split(p, '/') == Split(p[..|p| - 1], '/') + [""]
  {
    var q := p[..|p| - 1];
    assert p == q + "/" + "";
    SplitAround(q, '/', "");
    SplitNoSep("", '/');
  }

  lemma NonEmptyNameThenEmpty(c: string)
    requires c != ""
    ensures NonEmpty([c, ""]) == [c] && NonEmpty([""]) == []
  {
    assert [c, ""][..1] == [c];
    assert [c][..0] == [];
  }

  /** The components of a directory path followed by one more name and a separator. */
  lemma ComponentsOfChild(p: string, c: string)
    requires p == "" || p[|p| - 1] == '/'
    requires IsName(c)
    ensures Components(p + c + "/") == Components(p) + [c]
  {
    SplitNameSlash(c);
    NonEmptyNameThenEmpty(c);
    SplitNoSep("", '/');
    if p == "" {
      assert p + c + "/" == c + "/";
    } else {
      var q := p[..|p| - 1];
      assert p + c + "/" == q + "/" + (c + "/");
      SplitAround(q, '/', c + "/");
      SplitDirPath(p);
      NonEmptyAppend(Split(q, '/'), [c, ""]);
      NonEmptyAppend(Split(q, '/'), [""]);
    }
  }

  /** The file name of that child path is the name that was added. */
  lemma FileNameOfChild(p: string, c: string)
    requires p == "" || p[|p| - 1] == '/'
    requires IsName(c)
    ensures FileName(p + c + "/") == Some(c)
  {
    ComponentsOfChild(p, c);
    var cs := Components(p) + [c];
    assert cs[|cs| - 1] == c;
  }

  lemma JoinNonEmpty(cs: seq<string>, x: string)
    requires x != ""
    ensures Join(cs + [x], '/') != ""
  {
    if |cs| == 0 {
      assert cs + [x] == [x];
    } else {
      JoinSnoc(cs, '/', x);
    }
  }

  /** Names joined by `/` split back into those names, none of them empty. */
  lemma ComponentsOfJoin(parts: seq<string>)
    requires |parts| >= 1
    requires forall i :: 0 <= i < |parts| ==> IsName(parts[i])
    ensures Components(Join(parts, '/')) == parts
  {
    SplitJoin(parts, '/');
    assert forall i :: 0 <= i < |parts| ==> parts[i] != "";
  }

  /** A path written as names joined by `/` has exactly those names as components. */
  lemma ComponentsOfNames(cs: seq<string>, x: string)
    requires forall i :: 0 <= i < |cs| ==> IsName(cs[i])
    requires IsName(x)
    ensures Components(Join(cs + [x], '/')) == cs + [x]
  {
    var parts := cs + [x];
    forall i | 0 <= i < |parts|
      ensures IsName(parts[i])
    {
      if i < |cs| { assert parts[i] == cs[i]; } else { assert parts[i] == x; }
    }
    ComponentsOfJoin(parts);
  }

  /** Its parent holds all but the last name and its file name is the last. */
  lemma ParentOfNames(cs: seq<string>, x: string)
    requires forall i :: 0 <= i < |cs| ==> IsName(cs[i])
    requires IsName(x)
    ensures ParentComponents(Join(cs + [x], '/')) == Some(cs)
    ensures FileName(Join(cs + [x], '/')) == Some(x)
  {
    ComponentsOfNames(cs, x);
    JoinNonEmpty(cs, x);
    var parts := cs + [x];
    assert parts[|parts| - 1] == x;
    assert DropTrailingDots(parts) == parts;
    assert parts[..|parts| - 1] == cs;
  }

  /** A directory path made only of names, each followed by `/` (`a/b/c/`), or `""`. */
  predicate CleanDir(s: string)
    decreases |s|
  {
    s == "" ||
    match IndexOf(s, '/')
    case None => false
    case Some(i) => IsName(s[..i]) && CleanDir(s[i + 1..])
  }

  lemma {:induction false} CleanEndsDir(s: string)
    requires CleanDir(s)
    ensures s == "" || s[|s| - 1] == '/'
    decreases |s|
  {
    if s != "" {
      var i := IndexOf(s, '/').value;
      CleanEndsDir(s[i + 1..]);
    }
  }

  /** A name, a separator and a clean directory path make a clean directory path. */
  lemma CleanCons(x: string, rest: string)
    requires IsName(x) && CleanDir(rest)
    ensures CleanDir(x + "/" + rest)
  {
    var s := x + "/" + rest;
    IndexOfAfter(x, '/', rest);
    assert s[..|x|] == x;
    assert s[|x| + 1..] == rest;
  }

  lemma Regroup(head: string, rest: string, x: string)
    ensures (head + "/" + rest) + x + "/" == head + "/" + (rest + x + "/")
  {
  }

  /** One more name and separator keep a clean directory path clean. */
  lemma {:induction false} CleanAppend(p: string, x: string)
    requires CleanDir(p) && IsName(x)
    ensures CleanDir(p + x + "/")
    decreases |p|
  {
    if p == "" {
      CleanCons(x, "");
      assert p + x + "/" == x + "/" + "";
    } else {
      var i := IndexOf(p, '/').value;
      var head, rest := p[..i], p[i + 1..];
      assert IsName(head) && CleanDir(rest);
      assert p == head + "/" + rest;
      var t := rest + x + "/";
      CleanAppend(rest, x);
      CleanCons(head, t);
      Regroup(head, rest, x);
    }
  }

  /** What follows a clean directory path inside a clean directory path is clean. */
  lemma {:induction false} CleanSuffix(a: string, b: string)
    requires CleanDir(a) && CleanDir(a + b)
    ensures CleanDir(b)
    decreases |a|
  {
    if a == "" {
      assert a + b == b;
    } else {
      var i := IndexOf(a, '/').value;
      IndexOfPrefix(a, '/', b, i);
      assert (a + b)[i + 1..] == a[i + 1..] + b;
      CleanSuffix(a[i + 1..], b);
    }
  }

  /** The directory path of a chain of names is clean. */
  lemma {:induction false} DirOfClean(cs: seq<string>)
    requires forall i :: 0 <= i < |cs| ==> IsName(cs[i])
    ensures CleanDir(DirOf(cs))
  {
    if |cs| > 0 {
      DirOfClean(cs[..|cs| - 1]);
      CleanAppend(DirOf(cs[..|cs| - 1]), cs[|cs| - 1]);
    }
  }
}
