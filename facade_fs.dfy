/** The query side of the virtual filesystem (`FacadeFS` in oosikle-lib/src/facadefs.rs):
    the two store queries and the recursive construction of a `DirTreeNode`. The store
    is the `Files` table, a sequence of records; each query the source dispatches to
    the database thread is a plain function of that sequence here. */
module FacadeFs {
  import opened Wrappers
  import opened Text
  import opened Seqs
  import opened AssocList
  import opened Paths
  import opened Db
  import opened DirTree

  type Store = seq<FileRecord>

  // ---------------------------------------------------------------------------
  // Queries

  /** `get_files_at` (GET_FILES_IN_DIR_SQL): the records whose vfs path is exactly `p`,
      in store order. */
  function GetFilesAt(store: Store, p: string): seq<FileRecord>
  {
    if |store| == 0 then []
    else
      var last := store[|store| - 1];
      GetFilesAt(store[..|store| - 1], p) + (if last.fileVfsPath == p then [last] else [])
  }

  /** Each record at exactly `p` comes back as often as it is stored, and no other. */
  lemma {:induction false} GetFilesAtCounts(store: Store, p: string)
    ensures forall f ::
      multiset(GetFilesAt(store, p))[f] == if f.fileVfsPath == p then multiset(store)[f] else 0
  {
    if |store| > 0 {
      var init := store[..|store| - 1];
      var last := store[|store| - 1];
      assert store == init + [last];
      GetFilesAtCounts(init, p);
    }
  }

  /** The rows GET_DIRS_IN_DIR_SQL looks at: `path LIKE p%` and `path != p`. */
  predicate Below(path: string, p: string)
  {
    p <= path && path != p
  }

  /** The `foldername` column for a stored path under `p`: the path up to and including
      the first `/` after `p`, or `p` itself when no `/` follows. */
  function FolderName(path: string, p: string): string
    requires p <= path
  {
    match IndexOf(path[|p|..], '/')
    case Some(j) => path[..|p| + j + 1]
    case None => path[..|p|]
  }

  /** `c` is the folder name of some stored row below `p`. */
  ghost predicate IsFolderAt(store: Store, p: string, c: string)
  {
    exists i :: 0 <= i < |store| && Below(store[i].fileVfsPath, p) && c == FolderName(store[i].fileVfsPath, p)
  }

  /** The `foldername` column of every row below `p`, in store order, repeats kept. */
  function FolderNames(store: Store, p: string): seq<string>
  {
    if |store| == 0 then []
    else
      var last := store[|store| - 1];
      var prev := FolderNames(store[..|store| - 1], p);
      if Below(last.fileVfsPath, p) then prev + [FolderName(last.fileVfsPath, p)] else prev
  }

  lemma IsFolderAtSnoc(store: Store, p: string, c: string)
    requires |store| > 0
    ensures var last := store[|store| - 1];
      IsFolderAt(store, p, c) <==>
      IsFolderAt(store[..|store| - 1], p, c) || (Below(last.fileVfsPath, p) && c == FolderName(last.fileVfsPath, p))
  {
    var init := store[..|store| - 1];
    if IsFolderAt(store, p, c) {
      var i :| 0 <= i < |store| && Below(store[i].fileVfsPath, p) && c == FolderName(store[i].fileVfsPath, p);
      if i < |init| {
        assert init[i] == store[i];
      }
    }
    if IsFolderAt(init, p, c) {
      var i :| 0 <= i < |init| && Below(init[i].fileVfsPath, p) && c == FolderName(init[i].fileVfsPath, p);
      assert store[i] == init[i];
    }
  }

  lemma {:induction false} FolderNamesMembers(store: Store, p: string)
    ensures forall c :: c in FolderNames(store, p) <==> IsFolderAt(store, p, c)
  {
    if |store| > 0 {
      FolderNamesMembers(store[..|store| - 1], p);
      forall c ensures c in FolderNames(store, p) <==> IsFolderAt(store, p, c) {
        IsFolderAtSnoc(store, p, c);
      }
    }
  }

  /** `get_directories_at` (GET_DIRS_IN_DIR_SQL with `select distinct`): each folder name
      once. */
  function GetDirectoriesAt(store: Store, p: string): seq<string>
  {
    Dedup(FolderNames(store, p))
  }

  /** The folders listed under `p` are exactly the folder names of rows below `p`, each
      once. */
  lemma GetDirectoriesAtMembers(store: Store, p: string)
    ensures NoDups(GetDirectoriesAt(store, p))
    ensures forall c :: c in GetDirectoriesAt(store, p) <==> IsFolderAt(store, p, c)
  {
    FolderNamesMembers(store, p);
  }

  predicate EndsDir(s: string)
  {
    s == "" || s[|s| - 1] == '/'
  }

  /** Every stored vfs path names a directory: it is empty or ends in `/`. Without this
      a stored path can make `p` its own subdirectory and tree building never ends. */
  predicate Sound(store: Store)
  {
    forall i :: 0 <= i < |store| ==> EndsDir(store[i].fileVfsPath)
  }

  function MaxLen(store: Store): (r: nat)
    ensures forall i :: 0 <= i < |store| ==> |store[i].fileVfsPath| <= r
  {
    if |store| == 0 then 0
    else
      var m := MaxLen(store[..|store| - 1]);
      var l := |store[|store| - 1].fileVfsPath|;
      assert forall i :: 0 <= i < |store| - 1 ==> store[i] == store[..|store| - 1][i];
      if l > m then l else m
  }

  lemma FolderNameShape(path: string, p: string, c: string)
    requires Below(path, p) && EndsDir(path)
    requires c == FolderName(path, p)
    ensures p <= c <= path && |p| < |c| && c[|c| - 1] == '/' && '/' !in c[|p|..|c| - 1]
  {
    assert |path| > |p|;
    assert path != "" && path[|path| - 1] == '/';
    var u := path[|p|..];
    assert u[|u| - 1] == '/';
    var j := IndexOf(u, '/').value;
    assert c == path[..|p| + j + 1];
    assert c[|p|..|c| - 1] == u[..j];
  }

  /** In a sound store every folder under `p` extends `p` and is a prefix of a stored
      path, so it is no longer than the longest one. */
  lemma FolderBounds(store: Store, p: string, c: string)
    requires Sound(store)
    requires IsFolderAt(store, p, c)
    ensures p <= c && |p| < |c| <= MaxLen(store)
    ensures exists i :: 0 <= i < |store| && c <= store[i].fileVfsPath
  {
    var i :| 0 <= i < |store| && Below(store[i].fileVfsPath, p) && c == FolderName(store[i].fileVfsPath, p);
    FolderNameShape(store[i].fileVfsPath, p, c);
  }

  /** In a sound store every folder under `p` is `p`, one more segment free of `/`, and
      a `/`. */
  lemma FolderSegment(store: Store, p: string, c: string)
    requires Sound(store)
    requires IsFolderAt(store, p, c)
    ensures |p| < |c| && c[|c| - 1] == '/' && '/' !in c[|p|..|c| - 1]
  {
    var i :| 0 <= i < |store| && Below(store[i].fileVfsPath, p) && c == FolderName(store[i].fileVfsPath, p);
    FolderNameShape(store[i].fileVfsPath, p, c);
  }

  /** Every path in `cs` is longer than `p` and no longer than the longest stored path:
      the measure that makes tree building terminate. */
  predicate AllLonger(store: Store, p: string, cs: seq<string>)
  {
    forall c :: c in cs ==> |p| < |c| <= MaxLen(store)
  }

  lemma AllLongerPrefix(store: Store, p: string, cs: seq<string>, i: nat)
    requires AllLonger(store, p, cs) && i <= |cs|
    ensures AllLonger(store, p, cs[..i])
  {
    assert forall c :: c in cs[..i] ==> c in cs;
  }

  lemma FoldersLonger(store: Store, p: string)
    requires Sound(store)
    ensures AllLonger(store, p, GetDirectoriesAt(store, p))
  {
    GetDirectoriesAtMembers(store, p);
    forall c | c in GetDirectoriesAt(store, p) ensures |p| < |c| <= MaxLen(store) {
      FolderBounds(store, p, c);
    }
  }

  // ---------------------------------------------------------------------------
  // Tree building

  /** The key a subdirectory is stored under: `Path::file_name` of its path. Where that
      is `None` the source panics on `unwrap`; the model uses the empty key there. */
  function SubdirKey(c: string): string
  {
    match FileName(c)
    case Some(n) => n
    case None => ""
  }

  function FileEntries(files: seq<FileRecord>): (r: seq<(string, FileRecord)>)
    ensures |r| == |files|
    ensures forall i :: 0 <= i < |files| ==> r[i] == (files[i].fileName, files[i])
  {
    seq(|files|, i requires 0 <= i < |files| => (files[i].fileName, files[i]))
  }

  /** The tree `get_dir_tree_at(p)` builds: the files at `p` inserted by name, then every
      folder under `p` built the same way and inserted under its key. */
  function Tree(store: Store, p: string): DirTreeNode
    requires Sound(store)
    decreases MaxLen(store) - |p|, 1
  {
    var dirs := GetDirectoriesAt(store, p);
    FoldersLonger(store, p);
    DirTreeNode(p, FromSeq(FileEntries(GetFilesAt(store, p))), FromSeq(ChildEntries(store, p, dirs)))
  }

  function ChildEntries(store: Store, p: string, cs: seq<string>): (r: seq<(string, DirTreeNode)>)
    requires Sound(store)
    requires AllLonger(store, p, cs)
    ensures |r| == |cs|
    decreases MaxLen(store) - |p|, 0, |cs|
  {
    if |cs| == 0 then []
    else
      var init := cs[..|cs| - 1];
      var last := cs[|cs| - 1];
      AllLongerPrefix(store, p, cs, |cs| - 1);
      ChildEntries(store, p, init) + [(SubdirKey(last), Tree(store, last))]
  }

  lemma {:induction false} ChildEntryAt(store: Store, p: string, cs: seq<string>, i: nat)
    requires Sound(store)
    requires AllLonger(store, p, cs)
    requires i < |cs|
    ensures ChildEntries(store, p, cs)[i] == (SubdirKey(cs[i]), Tree(store, cs[i]))
  {
    var init := cs[..|cs| - 1];
    AllLongerPrefix(store, p, cs, |cs| - 1);
    if i < |cs| - 1 {
      ChildEntryAt(store, p, init, i);
    }
  }

  lemma FilesStep(files: seq<FileRecord>, i: nat)
    requires i < |files|
    ensures FromSeq(FileEntries(files[..i + 1])) ==
            Insert(FromSeq(FileEntries(files[..i])), files[i].fileName, files[i])
  {
    assert FileEntries(files[..i + 1]) == FileEntries(files[..i]) + [(files[i].fileName, files[i])];
    FromSeqSnoc(FileEntries(files[..i]), files[i].fileName, files[i]);
  }

  lemma ChildStep(store: Store, p: string, cs: seq<string>, i: nat)
    requires Sound(store)
    requires AllLonger(store, p, cs)
    requires i < |cs|
    ensures AllLonger(store, p, cs[..i]) && AllLonger(store, p, cs[..i + 1])
    ensures FromSeq(ChildEntries(store, p, cs[..i + 1])) ==
            Insert(FromSeq(ChildEntries(store, p, cs[..i])), SubdirKey(cs[i]), Tree(store, cs[i]))
  {
    AllLongerPrefix(store, p, cs, i);
    AllLongerPrefix(store, p, cs, i + 1);
    assert cs[..i + 1][..i] == cs[..i];
    assert ChildEntries(store, p, cs[..i + 1]) ==
           ChildEntries(store, p, cs[..i]) + [(SubdirKey(cs[i]), Tree(store, cs[i]))];
    FromSeqSnoc(ChildEntries(store, p, cs[..i]), SubdirKey(cs[i]), Tree(store, cs[i]));
  }

  /** `get_dir_tree_at`. */
  method GetDirTreeAt(store: Store, p: string) returns (node: DirTreeNode)
    requires Sound(store)
    ensures node == Tree(store, p)
    decreases MaxLen(store) - |p|
  {
    node := NewNode(p);
    var files := GetFilesAt(store, p);
    for i := 0 to |files|
      invariant node == DirTreeNode(p, FromSeq(FileEntries(files[..i])), [])
    {
      FilesStep(files, i);
      node := node.(files := Insert(node.files, files[i].fileName, files[i]));
    }
    assert files[..|files|] == files;
    var folderPaths := GetDirectoriesAt(store, p);
    FoldersLonger(store, p);
    AllLongerPrefix(store, p, folderPaths, 0);
    for i := 0 to |folderPaths|
      invariant AllLonger(store, p, folderPaths[..i])
      invariant node == DirTreeNode(p, FromSeq(FileEntries(files)), FromSeq(ChildEntries(store, p, folderPaths[..i])))
    {
      assert folderPaths[i] in folderPaths;
      var childNode := GetDirTreeAt(store, folderPaths[i]);
      var filePart := SubdirKey(folderPaths[i]);
      ChildStep(store, p, folderPaths, i);
      node := node.(subdirs := Insert(node.subdirs, filePart, childNode));
    }
    assert folderPaths[..|folderPaths|] == folderPaths;
  }

  // ---------------------------------------------------------------------------
  // The built tree against the store

  /** The record kept under the name `k` at `p`: the last stored record at `p` with that
      file name, as a run of `HashMap::insert` calls leaves it. */
  function LastAt(store: Store, p: string, k: string): (r: Option<FileRecord>)
    ensures r.Some? ==> r.value in store && r.value.fileVfsPath == p && r.value.fileName == k
    ensures r.None? ==> forall f :: f in store ==> !(f.fileVfsPath == p && f.fileName == k)
  {
    if |store| == 0 then None
    else
      var init := store[..|store| - 1];
      var last := store[|store| - 1];
      assert store == init + [last];
      if last.fileVfsPath == p && last.fileName == k then Some(last) else LastAt(init, p, k)
  }

  lemma {:induction false} FilesLastAt(store: Store, p: string, k: string)
    ensures LastValue(FileEntries(GetFilesAt(store, p)), k) == LastAt(store, p, k)
  {
    if |store| > 0 {
      var init := store[..|store| - 1];
      var last := store[|store| - 1];
      var before := GetFilesAt(init, p);
      FilesLastAt(init, p, k);
      if last.fileVfsPath == p {
        assert FileEntries(before + [last]) == FileEntries(before) + [(last.fileName, last)];
        LastValueSnoc(FileEntries(before), last.fileName, last, k);
      } else {
        assert GetFilesAt(store, p) == before;
      }
    }
  }

  /** The node built for `p` has path `p`, and under each name the last record stored at
      `p` with that name. */
  lemma TreeFiles(store: Store, p: string)
    requires Sound(store)
    ensures Tree(store, p).dirpath == p
    ensures DistinctKeys(Tree(store, p).files)
    ensures forall k :: Lookup(Tree(store, p).files, k) == LastAt(store, p, k)
  {
    FromSeqLookup(FileEntries(GetFilesAt(store, p)));
    forall k ensures Lookup(Tree(store, p).files, k) == LastAt(store, p, k) {
      FilesLastAt(store, p, k);
    }
  }

  /** The subdirectory keys of the node built for `p` are the keys of the folders under
      `p`; each holds the tree built for one such folder. */
  lemma TreeSubdirKey(store: Store, p: string, k: string)
    requires Sound(store)
    ensures DistinctKeys(Tree(store, p).subdirs)
    ensures Lookup(Tree(store, p).subdirs, k).Some? <==>
      exists c :: c in GetDirectoriesAt(store, p) && SubdirKey(c) == k
    ensures Lookup(Tree(store, p).subdirs, k).Some? ==>
      exists c :: c in GetDirectoriesAt(store, p) && SubdirKey(c) == k &&
                  Lookup(Tree(store, p).subdirs, k).value == Tree(store, c)
  {
    var dirs := GetDirectoriesAt(store, p);
    FoldersLonger(store, p);
    var es := ChildEntries(store, p, dirs);
    assert Tree(store, p).subdirs == FromSeq(es);
    FromSeqFind(es, k);
    var r := Lookup(FromSeq(es), k);
    if r.Some? {
      var j :| 0 <= j < |es| && es[j] == (k, r.value);
      ChildEntryAt(store, p, dirs, j);
      var c := dirs[j];
      assert c in dirs && SubdirKey(c) == k && r.value == Tree(store, c);
    } else if c :| c in dirs && SubdirKey(c) == k {
      var i :| 0 <= i < |dirs| && dirs[i] == c;
      ChildEntryAt(store, p, dirs, i);
      assert false;
    }
  }

  /** Some stored record lives in directory `d` or below it. */
  ghost predicate DirExists(store: Store, d: string)
  {
    exists i :: 0 <= i < |store| && d <= store[i].fileVfsPath
  }

  /** Every stored vfs path is a clean directory path: names, each followed by `/`. */
  predicate CleanStore(store: Store)
  {
    Sound(store) && forall i :: 0 <= i < |store| ==> CleanDir(store[i].fileVfsPath)
  }

  lemma FolderNamePrefix(path: string, p: string)
    requires p <= path
    ensures FolderName(path, p) <= path
  {
  }

  /** A stored path inside `d` + `x` + `/` has that folder name under `d`. */
  lemma FolderOfDescendant(path: string, d: string, x: string)
    requires '/' !in x && d + x + "/" <= path
    ensures Below(path, d) && FolderName(path, d) == d + x + "/"
  {
    var c := d + x + "/";
    assert path[..|c|] == c;
    var u := path[|d|..];
    assert u[..|x|] == c[|d|..|d| + |x|] == x;
    assert u[|x|] == c[|d| + |x|] == '/';
    IndexOfFirst(u, '/', |x|);
  }

  /** `d` + `x` + `/` is listed under `d` exactly when something is stored in it or
      below it. */
  lemma FolderIffExists(store: Store, d: string, x: string)
    requires '/' !in x
    ensures IsFolderAt(store, d, d + x + "/") <==> DirExists(store, d + x + "/")
  {
    var c := d + x + "/";
    if IsFolderAt(store, d, c) {
      var i :| 0 <= i < |store| && Below(store[i].fileVfsPath, d) && c == FolderName(store[i].fileVfsPath, d);
      FolderNamePrefix(store[i].fileVfsPath, d);
    }
    if DirExists(store, c) {
      var i :| 0 <= i < |store| && c <= store[i].fileVfsPath;
      FolderOfDescendant(store[i].fileVfsPath, d, x);
    }
  }

  /** Under a clean directory `p`, a clean path's folder name is `p`, one name `y` and
      `/`. */
  lemma CleanFolderName(path: string, p: string) returns (y: string)
    requires CleanDir(p) && CleanDir(path) && Below(path, p)
    ensures IsName(y) && FolderName(path, p) == p + y + "/"
  {
    var u := path[|p|..];
    assert path == p + u;
    CleanSuffix(p, u);
    var j := IndexOf(u, '/').value;
    y := u[..j];
    assert IsName(y);
    FolderNameAt(path, p, j);
    CutAfterSegment(path, p, u, j);
  }

  lemma FolderNameAt(path: string, p: string, j: nat)
    requires p <= path && IndexOf(path[|p|..], '/') == Some(j)
    ensures FolderName(path, p) == path[..|p| + j + 1]
  {
  }

  lemma CutAfterSegment(path: string, p: string, u: string, j: nat)
    requires path == p + u && j < |u| && u[j] == '/'
    ensures path[..|p| + j + 1] == p + u[..j] + "/"
  {
  }

  /** In a clean store, a folder under a clean directory `p` is `p`, one name `y` and
      `/`. */
  lemma FolderClean(store: Store, p: string, c: string) returns (y: string)
    requires CleanStore(store) && CleanDir(p)
    requires IsFolderAt(store, p, c)
    ensures IsName(y) && c == p + y + "/"
  {
    var i :| 0 <= i < |store| && Below(store[i].fileVfsPath, p) && c == FolderName(store[i].fileVfsPath, p);
    y := CleanFolderName(store[i].fileVfsPath, p);
  }

  /** In a clean store the subdirectory of a clean directory `p` under the name `x` is
      the tree built for `p` + `x` + `/`, and it is there exactly when something is
      stored in that directory or below it. */
  lemma TreeChild(store: Store, p: string, x: string)
    requires CleanStore(store) && CleanDir(p) && IsName(x)
    ensures Lookup(Tree(store, p).subdirs, x) ==
      if DirExists(store, p + x + "/") then Some(Tree(store, p + x + "/")) else None
  {
    var c := p + x + "/";
    var dirs := GetDirectoriesAt(store, p);
    TreeSubdirKey(store, p, x);
    GetDirectoriesAtMembers(store, p);
    FolderIffExists(store, p, x);
    CleanEndsDir(p);
    FileNameOfChild(p, x);
    var r := Lookup(Tree(store, p).subdirs, x);
    if r.Some? {
      var c' :| c' in dirs && SubdirKey(c') == x && r.value == Tree(store, c');
      var y := FolderClean(store, p, c');
      FileNameOfChild(p, y);
      assert c' == c;
    }
  }

  lemma DirExistsParent(store: Store, d: string, e: string)
    ensures DirExists(store, d + e) ==> DirExists(store, d)
  {
    if DirExists(store, d + e) {
      var i :| 0 <= i < |store| && d + e <= store[i].fileVfsPath;
      assert d <= store[i].fileVfsPath;
    }
  }

  /** Walking a chain of names down the tree built at the root of a clean store reaches
      the tree built for their directory, exactly when that directory holds something. */
  lemma {:induction false} WalkBuilt(store: Store, cs: seq<string>)
    requires CleanStore(store)
    requires forall i :: 0 <= i < |cs| ==> IsName(cs[i])
    ensures Walk(Tree(store, ""), cs) ==
      if |cs| == 0 || DirExists(store, DirOf(cs)) then Some(Tree(store, DirOf(cs))) else None
  {
    if |cs| > 0 {
      var init := cs[..|cs| - 1];
      var x := cs[|cs| - 1];
      var d := DirOf(init);
      assert DirOf(cs) == d + x + "/";
      WalkBuilt(store, init);
      if |init| == 0 || DirExists(store, d) {
        DirOfClean(init);
        TreeChild(store, d, x);
      } else {
        DirExistsParent(store, d, x + "/");
        assert d + (x + "/") == DirOf(cs);
      }
    }
  }

  /** `get_at_path` on the tree built at the root of a clean store, for a path written
      as names joined by `/`: `None` when the parent directory holds nothing; otherwise
      the last record stored there under the file name, else the subdirectory of that
      name when it holds something, else `None`. */
  lemma ResolveBuilt(store: Store, cs: seq<string>, x: string)
    requires CleanStore(store)
    requires forall i :: 0 <= i < |cs| ==> IsName(cs[i])
    requires IsName(x)
    ensures LookupPathOk(Join(cs + [x], '/'))
    ensures Resolve(Tree(store, ""), Join(cs + [x], '/')) ==
      var d := DirOf(cs);
      if |cs| > 0 && !DirExists(store, d) then None
      else match LastAt(store, d, x)
        case Some(f) => Some(File(f))
        case None =>
          if DirExists(store, d + x + "/") then Some(Dir(Tree(store, d + x + "/"))) else None
  {
    ParentOfNames(cs, x);
    WalkBuilt(store, cs);
    var d := DirOf(cs);
    if |cs| == 0 || DirExists(store, d) {
      DirOfClean(cs);
      TreeFiles(store, d);
      TreeChild(store, d, x);
    }
  }
}
