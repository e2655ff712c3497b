/** The in-memory directory tree of the virtual filesystem (`DirTreeNode` in
    oosikle-lib/src/facadefs.rs): cursor lookup by path, file-name search in one
    directory or the whole subtree, and flattening into (path, record) pairs. */
module DirTree {
  import opened Wrappers
  import opened AssocList
  import opened Paths
  import opened Db

  /** One directory: its full virtual path, its files keyed by file name and its
      subdirectories keyed by their last path segment. Both maps are `HashMap`s in the
      source; here they are association lists whose order stands for iteration order. */
  datatype DirTreeNode = DirTreeNode(
    dirpath: string,
    files: AList<string, FileRecord>,
    subdirs: AList<string, DirTreeNode>)

  /** What `get_at_path` points at. */
  datatype Cursor = Dir(node: DirTreeNode) | File(file: FileRecord)

  /** A glob matcher: `globMatch(pattern, s)`. The matching library is not modelled, so
      every operation that matches takes the matcher as a parameter. */
  type Matcher = (string, string) -> bool

  /** `DirTreeNode::new`: a directory with no files and no subdirectories. */
  function NewNode(dirpath: string): (n: DirTreeNode)
    ensures n.dirpath == dirpath
    ensures forall k :: Lookup(n.files, k).None? && Lookup(n.subdirs, k).None?
  {
    DirTreeNode(dirpath, [], [])
  }

  lemma ChildSmaller(node: DirTreeNode, i: nat)
    requires i < |node.subdirs|
    ensures node.subdirs[i].1 < node
  {
    assert node.subdirs[i] in node.subdirs;
  }

  // ---------------------------------------------------------------------------
  // Cursor lookup

  /** The directory reached from `node` by looking up each of `comps` in turn in the
      subdirectory map; `None` as soon as one is missing. */
  function Walk(node: DirTreeNode, comps: seq<string>): (r: Option<DirTreeNode>)
    ensures comps == [] ==> r == Some(node)
  {
    if |comps| == 0 then Some(node)
    else
      match Walk(node, comps[..|comps| - 1])
      case None => None
      case Some(d) => Lookup(d.subdirs, comps[|comps| - 1])
  }

  /** The precondition of `get_at_path`: a non-empty path must have a file name, else
      the source panics ("FacadeFS paths should not end in '...'"). */
  predicate LookupPathOk(path: string)
  {
    path == "" || FileName(path).Some?
  }

  /** What `get_at_path` resolves `path` to. */
  function Resolve(node: DirTreeNode, path: string): (r: Option<Cursor>)
    requires LookupPathOk(path)
    ensures path == "" ==> r == None
    ensures path != "" && Walk(node, ParentComponents(path).value).None? ==> r == None
    ensures r.Some? && r.value.File? ==>
      var d := Walk(node, ParentComponents(path).value);
      d.Some? && Lookup(d.value.files, FileName(path).value) == Some(r.value.file)
    ensures r.Some? && r.value.Dir? ==>
      var d := Walk(node, ParentComponents(path).value);
      d.Some? && Lookup(d.value.files, FileName(path).value).None? &&
      Lookup(d.value.subdirs, FileName(path).value) == Some(r.value.node)
    ensures r.None? && path != "" && Walk(node, ParentComponents(path).value).Some? ==>
      var d := Walk(node, ParentComponents(path).value).value;
      Lookup(d.files, FileName(path).value).None? && Lookup(d.subdirs, FileName(path).value).None?
  {
    match ParentComponents(path)
    case None => None
    case Some(comps) =>
      var name := FileName(path).value;
      match Walk(node, comps)
      case None => None
      case Some(d) =>
        match Lookup(d.files, name)
        case Some(f) => Some(File(f))
        case None =>
          match Lookup(d.subdirs, name)
          case Some(s) => Some(Dir(s))
          case None => None
  }

  /** `get_at_path`: walks the parent components one by one, then looks the file name up
      among the files and then among the subdirectories of the directory reached. */
  method GetAtPath(node: DirTreeNode, path: string) returns (r: Option<Cursor>)
    requires LookupPathOk(path)
    ensures r == Resolve(node, path)
  {
    var parent := ParentComponents(path);
    if parent.None? {
      return None;
    }
    var comps := parent.value;
    var pathEnd := FileName(path).value;
    var targetDir: Option<DirTreeNode> := Some(node);
    for i := 0 to |comps|
      invariant targetDir == Walk(node, comps[..i])
    {
      assert comps[..i + 1][..i] == comps[..i];
      if targetDir.Some? {
        targetDir := Lookup(targetDir.value.subdirs, comps[i]);
      }
    }
    assert comps[..|comps|] == comps;
    if targetDir.None? {
      return None;
    }
    var finalDir := targetDir.value;
    var theFile := Lookup(finalDir.files, pathEnd);
    if theFile.Some? {
      r := Some(File(theFile.value));
    } else {
      var theDir := Lookup(finalDir.subdirs, pathEnd);
      if theDir.Some? {
        r := Some(Dir(theDir.value));
      } else {
        r := None;
      }
    }
  }

  // ---------------------------------------------------------------------------
  // The reference enumeration of a tree's files

  /** One file of a tree: the `dirpath`s of the nodes from the root down to the file's
      directory, the key it is stored under, and the record. */
  datatype Entry = Entry(dirs: seq<string>, name: string, file: FileRecord)

  function LocalEntries(node: DirTreeNode): (r: seq<Entry>)
    ensures |r| == |node.files|
  {
    seq(|node.files|, i requires 0 <= i < |node.files| =>
      Entry([node.dirpath], node.files[i].0, node.files[i].1))
  }

  /** Entries of a subtree seen from one level up: the parent's `dirpath` goes first. */
  function Nest(d: string, es: seq<Entry>): (r: seq<Entry>)
    ensures |r| == |es|
  {
    seq(|es|, i requires 0 <= i < |es| => es[i].(dirs := [d] + es[i].dirs))
  }

  /** Every file of the tree, depth first: the node's own files, then each subtree's in
      subdirectory order. */
  function Entries(node: DirTreeNode): seq<Entry>
    decreases node, 1
  {
    LocalEntries(node) + SubEntries(node, |node.subdirs|)
  }

  function SubEntries(node: DirTreeNode, k: nat): seq<Entry>
    requires k <= |node.subdirs|
    decreases node, 0, k
  {
    if k == 0 then []
    else
      ChildSmaller(node, k - 1);
      SubEntries(node, k - 1) + Nest(node.dirpath, Entries(node.subdirs[k - 1].1))
  }

  // ---------------------------------------------------------------------------
  // Search by file name

  /** The records among `files` whose key matches `pattern`, in order. */
  function MatchingFiles(files: AList<string, FileRecord>, globMatch: Matcher, pattern: string): (r: seq<FileRecord>)
    ensures |r| <= |files|
    ensures forall f :: f in r <==> exists i :: 0 <= i < |files| && files[i].1 == f && globMatch(pattern, files[i].0)
  {
    if |files| == 0 then []
    else
      var init := files[..|files| - 1];
      var last := files[|files| - 1];
      var prev := MatchingFiles(init, globMatch, pattern);
      assert forall i :: 0 <= i < |init| ==> init[i] == files[i];
      if globMatch(pattern, last.0) then prev + [last.1] else prev
  }

  /** `do_get_files_with_names_matching_pattern`: pushes the matching files of this
      node onto `accum`. */
  method DoSearch(node: DirTreeNode, globMatch: Matcher, pattern: string, accum: seq<FileRecord>)
    returns (out: seq<FileRecord>)
    ensures out == accum + MatchingFiles(node.files, globMatch, pattern)
  {
    out := accum;
    for i := 0 to |node.files|
      invariant out == accum + MatchingFiles(node.files[..i], globMatch, pattern)
    {
      assert node.files[..i + 1][..i] == node.files[..i];
      if globMatch(pattern, node.files[i].0) {
        out := out + [node.files[i].1];
      }
    }
    assert node.files[..|node.files|] == node.files;
  }

  /** `search_files_with_names_matching_pattern`: this directory only, no descent. */
  method Search(node: DirTreeNode, globMatch: Matcher, pattern: string) returns (r: seq<FileRecord>)
    ensures r == MatchingFiles(node.files, globMatch, pattern)
    ensures |r| <= |node.files|
    ensures forall f :: f in r <==>
      exists i :: 0 <= i < |node.files| && node.files[i].1 == f && globMatch(pattern, node.files[i].0)
  {
    r := DoSearch(node, globMatch, pattern, []);
  }

  /** The matching files of the whole subtree, in the order the recursive search visits. */
  function SearchTree(node: DirTreeNode, globMatch: Matcher, pattern: string): seq<FileRecord>
    decreases node, 1
  {
    MatchingFiles(node.files, globMatch, pattern) + SearchSubtrees(node, |node.subdirs|, globMatch, pattern)
  }

  function SearchSubtrees(node: DirTreeNode, k: nat, globMatch: Matcher, pattern: string): seq<FileRecord>
    requires k <= |node.subdirs|
    decreases node, 0, k
  {
    if k == 0 then []
    else
      ChildSmaller(node, k - 1);
      SearchSubtrees(node, k - 1, globMatch, pattern) + SearchTree(node.subdirs[k - 1].1, globMatch, pattern)
  }

  /** `do_get_files_with_names_matching_pattern_recursive`. */
  method DoSearchRecursive(node: DirTreeNode, globMatch: Matcher, pattern: string, accum: seq<FileRecord>)
    returns (out: seq<FileRecord>)
    ensures out == accum + SearchTree(node, globMatch, pattern)
    decreases node
  {
    out := DoSearch(node, globMatch, pattern, accum);
    for i := 0 to |node.subdirs|
      invariant out == accum + MatchingFiles(node.files, globMatch, pattern) + SearchSubtrees(node, i, globMatch, pattern)
    {
      ChildSmaller(node, i);
      out := DoSearchRecursive(node.subdirs[i].1, globMatch, pattern, out);
    }
  }

  /** The records of the entries whose name matches. */
  function NamedMatches(es: seq<Entry>, globMatch: Matcher, pattern: string): (r: seq<FileRecord>)
    ensures |r| <= |es|
  {
    if |es| == 0 then []
    else
      var prev := NamedMatches(es[..|es| - 1], globMatch, pattern);
      var last := es[|es| - 1];
      if globMatch(pattern, last.name) then prev + [last.file] else prev
  }

  /** `search_files_with_names_matching_pattern_recursive`: the directory's own matches
      come first, followed by those of every file of the subtree whose name matches. */
  method SearchRecursive(node: DirTreeNode, globMatch: Matcher, pattern: string) returns (r: seq<FileRecord>)
    ensures MatchingFiles(node.files, globMatch, pattern) <= r
    ensures r == NamedMatches(Entries(node), globMatch, pattern)
  {
    r := DoSearchRecursive(node, globMatch, pattern, []);
    SearchTreeIsNamedMatches(node, globMatch, pattern);
  }

  lemma {:induction false} NamedMatchesAppend(a: seq<Entry>, b: seq<Entry>, globMatch: Matcher, pattern: string)
    ensures NamedMatches(a + b, globMatch, pattern) == NamedMatches(a, globMatch, pattern) + NamedMatches(b, globMatch, pattern)
    decreases |b|
  {
    if |b| == 0 {
      assert a + b == a;
    } else {
      assert (a + b)[..|a + b| - 1] == a + b[..|b| - 1];
      NamedMatchesAppend(a, b[..|b| - 1], globMatch, pattern);
    }
  }

  lemma {:induction false} NamedMatchesNest(d: string, es: seq<Entry>, globMatch: Matcher, pattern: string)
    ensures NamedMatches(Nest(d, es), globMatch, pattern) == NamedMatches(es, globMatch, pattern)
  {
    if |es| > 0 {
      assert Nest(d, es)[..|es| - 1] == Nest(d, es[..|es| - 1]);
      NamedMatchesNest(d, es[..|es| - 1], globMatch, pattern);
    }
  }

  lemma {:induction false} NamedMatchesLocal(node: DirTreeNode, k: nat, globMatch: Matcher, pattern: string)
    requires k <= |node.files|
    ensures NamedMatches(LocalEntries(node)[..k], globMatch, pattern) == MatchingFiles(node.files[..k], globMatch, pattern)
  {
    if k > 0 {
      assert LocalEntries(node)[..k][..k - 1] == LocalEntries(node)[..k - 1];
      assert node.files[..k][..k - 1] == node.files[..k - 1];
      NamedMatchesLocal(node, k - 1, globMatch, pattern);
    }
  }

  /** The recursive search finds exactly the files of the whole tree whose names match,
      in traversal order. */
  lemma {:induction false} SearchTreeIsNamedMatches(node: DirTreeNode, globMatch: Matcher, pattern: string)
    ensures SearchTree(node, globMatch, pattern) == NamedMatches(Entries(node), globMatch, pattern)
    decreases node, 1
  {
    NamedMatchesAppend(LocalEntries(node), SubEntries(node, |node.subdirs|), globMatch, pattern);
    NamedMatchesLocal(node, |node.files|, globMatch, pattern);
    assert LocalEntries(node)[..|node.files|] == LocalEntries(node);
    assert node.files[..|node.files|] == node.files;
    SubtreesAreNamedMatches(node, |node.subdirs|, globMatch, pattern);
  }

  lemma {:induction false} SubtreesAreNamedMatches(node: DirTreeNode, k: nat, globMatch: Matcher, pattern: string)
    requires k <= |node.subdirs|
    ensures SearchSubtrees(node, k, globMatch, pattern) == NamedMatches(SubEntries(node, k), globMatch, pattern)
    decreases node, 0, k
  {
    if k > 0 {
      ChildSmaller(node, k - 1);
      var child := node.subdirs[k - 1].1;
      SubtreesAreNamedMatches(node, k - 1, globMatch, pattern);
      SearchTreeIsNamedMatches(child, globMatch, pattern);
      NamedMatchesNest(node.dirpath, Entries(child), globMatch, pattern);
      NamedMatchesAppend(SubEntries(node, k - 1), Nest(node.dirpath, Entries(child)), globMatch, pattern);
    }
  }

  // ---------------------------------------------------------------------------
  // Flatten and glob

  /** The files of one directory with their paths under `here`. */
  function PlacedFiles(here: string, files: AList<string, FileRecord>): (r: seq<(string, FileRecord)>)
    ensures |r| == |files|
  {
    seq(|files|, i requires 0 <= i < |files| => (RelJoin(here, files[i].0), files[i].1))
  }

  /** What `do_flatten` appends for `node` under `prefix`: the node's path is its
      `dirpath` joined onto `prefix`, its files are placed under that path, and its
      subtrees are flattened with that path as their prefix. */
  function FlattenFrom(prefix: string, node: DirTreeNode): seq<(string, FileRecord)>
    decreases node, 1
  {
    var here := RelJoin(prefix, node.dirpath);
    PlacedFiles(here, node.files) + FlattenSubtrees(here, node, |node.subdirs|)
  }

  function FlattenSubtrees(here: string, node: DirTreeNode, k: nat): seq<(string, FileRecord)>
    requires k <= |node.subdirs|
    decreases node, 0, k
  {
    if k == 0 then []
    else
      ChildSmaller(node, k - 1);
      FlattenSubtrees(here, node, k - 1) + FlattenFrom(here, node.subdirs[k - 1].1)
  }

  /** `do_flatten`. */
  method DoFlatten(node: DirTreeNode, prefix: string, accum: seq<(string, FileRecord)>)
    returns (out: seq<(string, FileRecord)>)
    ensures out == accum + FlattenFrom(prefix, node)
    decreases node
  {
    var thisPath := RelJoin(prefix, node.dirpath);
    out := accum;
    for i := 0 to |node.files|
      invariant out == accum + PlacedFiles(thisPath, node.files[..i])
    {
      assert PlacedFiles(thisPath, node.files[..i + 1]) ==
             PlacedFiles(thisPath, node.files[..i]) + [(RelJoin(thisPath, node.files[i].0), node.files[i].1)];
      out := out + [(RelJoin(thisPath, node.files[i].0), node.files[i].1)];
    }
    assert node.files[..|node.files|] == node.files;
    for i := 0 to |node.subdirs|
      invariant out == accum + PlacedFiles(thisPath, node.files) + FlattenSubtrees(thisPath, node, i)
    {
      ChildSmaller(node, i);
      out := DoFlatten(node.subdirs[i].1, thisPath, out);
    }
  }

  /** The path of an entry when the walk starts at `prefix`: every `dirpath` on the way
      down is joined on in turn, then the file name. */
  function Chain(prefix: string, dirs: seq<string>): string
    decreases |dirs|
  {
    if |dirs| == 0 then prefix else Chain(RelJoin(prefix, dirs[0]), dirs[1..])
  }

  function PathOf(prefix: string, e: Entry): string
  {
    RelJoin(Chain(prefix, e.dirs), e.name)
  }

  function Placed(prefix: string, es: seq<Entry>): (r: seq<(string, FileRecord)>)
    ensures |r| == |es|
  {
    seq(|es|, i requires 0 <= i < |es| => (PathOf(prefix, es[i]), es[i].file))
  }

  /** `flatten`: one pair per file of the tree, in traversal order, whose path joins the
      `dirpath` of every node from this one down to the file's directory and then the
      file name. */
  method Flatten(node: DirTreeNode) returns (r: seq<(string, FileRecord)>)
    ensures |r| == |Entries(node)|
    ensures r == Placed("", Entries(node))
  {
    r := DoFlatten(node, "", []);
    FlattenIsPlaced("", node);
  }

  lemma PlacedAppend(prefix: string, a: seq<Entry>, b: seq<Entry>)
    ensures Placed(prefix, a + b) == Placed(prefix, a) + Placed(prefix, b)
  {
  }

  lemma PlacedNest(prefix: string, d: string, es: seq<Entry>)
    ensures Placed(prefix, Nest(d, es)) == Placed(RelJoin(prefix, d), es)
  {
    forall i | 0 <= i < |es|
      ensures Placed(prefix, Nest(d, es))[i] == Placed(RelJoin(prefix, d), es)[i]
    {
      assert ([d] + es[i].dirs)[1..] == es[i].dirs;
    }
  }

  /** The recursive flatten places every entry of the reference enumeration at its
      chained path. */
  lemma {:induction false} FlattenIsPlaced(prefix: string, node: DirTreeNode)
    ensures FlattenFrom(prefix, node) == Placed(prefix, Entries(node))
    decreases node, 1
  {
    var here := RelJoin(prefix, node.dirpath);
    PlacedAppend(prefix, LocalEntries(node), SubEntries(node, |node.subdirs|));
    assert Placed(prefix, LocalEntries(node)) == PlacedFiles(here, node.files) by {
      forall i | 0 <= i < |node.files|
        ensures Placed(prefix, LocalEntries(node))[i] == PlacedFiles(here, node.files)[i]
      {
        assert LocalEntries(node)[i].dirs == [node.dirpath];
        assert Chain(prefix, [node.dirpath]) == Chain(here, []);
      }
    }
    FlattenSubtreesArePlaced(prefix, node, |node.subdirs|);
  }

  lemma {:induction false} FlattenSubtreesArePlaced(prefix: string, node: DirTreeNode, k: nat)
    requires k <= |node.subdirs|
    ensures FlattenSubtrees(RelJoin(prefix, node.dirpath), node, k) == Placed(prefix, SubEntries(node, k))
    decreases node, 0, k
  {
    if k > 0 {
      ChildSmaller(node, k - 1);
      var child := node.subdirs[k - 1].1;
      var here := RelJoin(prefix, node.dirpath);
      FlattenSubtreesArePlaced(prefix, node, k - 1);
      FlattenIsPlaced(here, child);
      PlacedNest(prefix, node.dirpath, Entries(child));
      PlacedAppend(prefix, SubEntries(node, k - 1), Nest(node.dirpath, Entries(child)));
    }
  }

  /** The pairs whose path matches `pattern`, in order. */
  function FilterPaths(pairs: seq<(string, FileRecord)>, globMatch: Matcher, pattern: string): (r: seq<(string, FileRecord)>)
    ensures |r| <= |pairs| && multiset(r) <= multiset(pairs)
    ensures forall e :: e in r <==> e in pairs && globMatch(pattern, e.0)
  {
    if |pairs| == 0 then []
    else
      var init := pairs[..|pairs| - 1];
      var last := pairs[|pairs| - 1];
      assert pairs == init + [last];
      var prev := FilterPaths(init, globMatch, pattern);
      if globMatch(pattern, last.0) then prev + [last] else prev
  }

  /** `idx` lists exactly the positions of `pairs` whose key matches `pattern`, in
      increasing order: the positions a filter that keeps order and copies picks. */
  predicate MatchIndices(pairs: seq<(string, FileRecord)>, globMatch: Matcher, pattern: string, idx: seq<int>)
  {
    (forall k :: 0 <= k < |idx| ==> 0 <= idx[k] < |pairs| && globMatch(pattern, pairs[idx[k]].0)) &&
    (forall k, l :: 0 <= k < l < |idx| ==> idx[k] < idx[l]) &&
    (forall i :: 0 <= i < |pairs| && globMatch(pattern, pairs[i].0) ==> i in idx)
  }

  /** `r` is the pairs at the positions `idx`, in that order. */
  predicate PicksAt(pairs: seq<(string, FileRecord)>, idx: seq<int>, r: seq<(string, FileRecord)>)
  {
    |idx| == |r| && forall k :: 0 <= k < |idx| ==> 0 <= idx[k] < |pairs| && r[k] == pairs[idx[k]]
  }

  lemma {:induction false} FilterPathsIndices(pairs: seq<(string, FileRecord)>, globMatch: Matcher, pattern: string)
    returns (idx: seq<int>)
    ensures MatchIndices(pairs, globMatch, pattern, idx)
    ensures PicksAt(pairs, idx, FilterPaths(pairs, globMatch, pattern))
  {
    if |pairs| == 0 {
      idx := [];
    } else {
      var init := pairs[..|pairs| - 1];
      var last := pairs[|pairs| - 1];
      assert pairs == init + [last];
      var prev := FilterPathsIndices(init, globMatch, pattern);
      if globMatch(pattern, last.0) {
        idx := prev + [|pairs| - 1];
        MatchIndicesSnoc(init, last, globMatch, pattern, prev, FilterPaths(init, globMatch, pattern));
      } else {
        idx := prev;
        MatchIndicesSkip(init, last, globMatch, pattern, prev, FilterPaths(init, globMatch, pattern));
      }
    }
  }

  lemma MatchIndicesSnoc(init: seq<(string, FileRecord)>, last: (string, FileRecord), globMatch: Matcher, pattern: string,
                         idx: seq<int>, r: seq<(string, FileRecord)>)
    requires MatchIndices(init, globMatch, pattern, idx) && PicksAt(init, idx, r) && globMatch(pattern, last.0)
    ensures MatchIndices(init + [last], globMatch, pattern, idx + [|init|])
    ensures PicksAt(init + [last], idx + [|init|], r + [last])
  {
    var pairs, idx' := init + [last], idx + [|init|];
    forall k | 0 <= k < |idx'|
      ensures 0 <= idx'[k] < |pairs| && globMatch(pattern, pairs[idx'[k]].0)
    {
      if k < |idx| { assert idx'[k] == idx[k] && pairs[idx[k]] == init[idx[k]]; }
    }
    forall i | 0 <= i < |pairs| && globMatch(pattern, pairs[i].0)
      ensures i in idx'
    {
      if i < |init| { assert pairs[i] == init[i] && i in idx; }
      else { assert idx'[|idx|] == i; }
    }
    forall k | 0 <= k < |idx'|
      ensures (r + [last])[k] == pairs[idx'[k]]
    {
      if k < |idx| { assert idx'[k] == idx[k] && pairs[idx[k]] == init[idx[k]]; }
    }
  }

  lemma MatchIndicesSkip(init: seq<(string, FileRecord)>, last: (string, FileRecord), globMatch: Matcher, pattern: string,
                         idx: seq<int>, r: seq<(string, FileRecord)>)
    requires MatchIndices(init, globMatch, pattern, idx) && PicksAt(init, idx, r) && !globMatch(pattern, last.0)
    ensures MatchIndices(init + [last], globMatch, pattern, idx)
    ensures PicksAt(init + [last], idx, r)
  {
    var pairs := init + [last];
    forall k | 0 <= k < |idx|
      ensures 0 <= idx[k] < |pairs| && globMatch(pattern, pairs[idx[k]].0) && r[k] == pairs[idx[k]]
    {
      assert pairs[idx[k]] == init[idx[k]];
    }
    forall i | 0 <= i < |pairs| && globMatch(pattern, pairs[i].0)
      ensures i in idx
    {
      assert pairs[i] == init[i];
    }
  }

  /** The filter keeps each matching pair at its place: the result is the pairs at the
      matching positions, in increasing order, each position once. */
  lemma FilterPathsSelects(pairs: seq<(string, FileRecord)>, globMatch: Matcher, pattern: string)
    ensures var r := FilterPaths(pairs, globMatch, pattern);
      exists idx :: MatchIndices(pairs, globMatch, pattern, idx) && PicksAt(pairs, idx, r)
  {
    var idx := FilterPathsIndices(pairs, globMatch, pattern);
  }

  /** Each matching pair is kept exactly as often as it occurs, every other pair never. */
  lemma {:induction false} FilterPathsCounts(pairs: seq<(string, FileRecord)>, globMatch: Matcher, pattern: string)
    ensures forall e ::
      multiset(FilterPaths(pairs, globMatch, pattern))[e] == if globMatch(pattern, e.0) then multiset(pairs)[e] else 0
  {
    if |pairs| > 0 {
      var init := pairs[..|pairs| - 1];
      var last := pairs[|pairs| - 1];
      assert pairs == init + [last];
      FilterPathsCounts(init, globMatch, pattern);
    }
  }

  /** Matching by file name keeps the records of the pairs the same filter keeps. */
  lemma {:induction false} MatchingFilesIsFilter(files: AList<string, FileRecord>, globMatch: Matcher, pattern: string)
    ensures var r := MatchingFiles(files, globMatch, pattern);
      var kept := FilterPaths(files, globMatch, pattern);
      |r| == |kept| && forall k :: 0 <= k < |r| ==> r[k] == kept[k].1
  {
    if |files| > 0 {
      MatchingFilesIsFilter(files[..|files| - 1], globMatch, pattern);
    }
  }

  /** `search_files_with_names_matching_pattern` returns the records at exactly the
      matching positions, in order, each once. */
  lemma MatchingFilesSelects(files: AList<string, FileRecord>, globMatch: Matcher, pattern: string)
    ensures var r := MatchingFiles(files, globMatch, pattern);
      exists idx :: MatchIndices(files, globMatch, pattern, idx) && |idx| == |r| &&
        forall k :: 0 <= k < |idx| ==> r[k] == files[idx[k]].1
  {
    MatchingFilesIsFilter(files, globMatch, pattern);
    var idx := FilterPathsIndices(files, globMatch, pattern);
  }

  /** `glob`: the flattened pairs whose full path (not just the file name) matches. */
  function Glob(node: DirTreeNode, globMatch: Matcher, pattern: string): (r: seq<(string, FileRecord)>)
  {
    FilterPaths(FlattenFrom("", node), globMatch, pattern)
  }

  /** `glob` keeps exactly the flattened pairs whose path matches, each no more often
      than `flatten` emits it; a pattern that matches every path keeps them all. */
  lemma GlobIsFilteredFlatten(node: DirTreeNode, globMatch: Matcher, pattern: string)
    ensures var fl := FlattenFrom("", node);
      var r := Glob(node, globMatch, pattern);
      |r| <= |fl| && multiset(r) <= multiset(fl) &&
      (forall e :: e in r <==> e in fl && globMatch(pattern, e.0)) &&
      (forall e :: multiset(r)[e] == if globMatch(pattern, e.0) then multiset(fl)[e] else 0) &&
      (exists idx :: MatchIndices(fl, globMatch, pattern, idx) && PicksAt(fl, idx, r)) &&
      ((forall s :: globMatch(pattern, s)) ==> r == fl)
  {
    FilterPathsCounts(FlattenFrom("", node), globMatch, pattern);
    FilterPathsSelects(FlattenFrom("", node), globMatch, pattern);
    if forall s :: globMatch(pattern, s) {
      FilterAll(FlattenFrom("", node), globMatch, pattern);
    }
  }

  lemma {:induction false} FilterAll(pairs: seq<(string, FileRecord)>, globMatch: Matcher, pattern: string)
    requires forall s :: globMatch(pattern, s)
    ensures FilterPaths(pairs, globMatch, pattern) == pairs
  {
    if |pairs| > 0 {
      FilterAll(pairs[..|pairs| - 1], globMatch, pattern);
    }
  }
}
