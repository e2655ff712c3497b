/** The directory import manifest and the record container built from it
    (src/lua_api/importer/mod.rs). A `PathBuf` of the manifest is kept as the sequence
    of its components; an item (`RelativePathBuf`) as its `/`-separated text. Everything
    the container needs from the disk (canonical path, metadata, hash) comes from a
    probe passed in as a parameter. */
module Importer {
  import opened Wrappers
  import opened Text
  import opened Numeric
  import opened Paths
  import opened Db
  import opened FacadeFs

  /** The components of a filesystem path. */
  type PathComps = seq<string>

  datatype DirImportManifest = DirImportManifest(rootDir: PathComps, items: seq<string>)

  // ---------------------------------------------------------------------------
  // Building a manifest by hand

  /** `DirImportManifest::new`: a manifest over `rootDir` with no items. */
  function New(rootDir: PathComps): DirImportManifest
  {
    DirImportManifest(rootDir, [])
  }

  /** `add_relative_file`: one more item at the end. */
  function AddRelativeFile(m: DirImportManifest, file: string): DirImportManifest
  {
    m.(items := m.items + [file])
  }

  /** `add_relative_file` applied to each of `files` in turn. */
  function AddEach(m: DirImportManifest, files: seq<string>): DirImportManifest
  {
    if |files| == 0 then m else AddRelativeFile(AddEach(m, files[..|files| - 1]), files[|files| - 1])
  }

  /** Adding files one at a time appends all of them, in order, and keeps the root. */
  lemma {:induction false} AddEachAppends(m: DirImportManifest, files: seq<string>)
    ensures AddEach(m, files).rootDir == m.rootDir
    ensures AddEach(m, files).items == m.items + files
  {
    if |files| > 0 {
      var init := files[..|files| - 1];
      AddEachAppends(m, init);
      assert files == init + [files[|files| - 1]];
    }
  }

  /** `add_relative_files`: a loop pushing every file onto the items. */
  method AddRelativeFiles(m: DirImportManifest, files: seq<string>) returns (r: DirImportManifest)
    ensures r == AddEach(m, files)
    ensures r.rootDir == m.rootDir && r.items == m.items + files
  {
    r := m;
    for i := 0 to |files|
      invariant r == AddEach(m, files[..i])
    {
      assert files[..i + 1][..i] == files[..i];
      r := r.(items := r.items + [files[i]]);
    }
    assert files[..|files|] == files;
    AddEachAppends(m, files);
  }

  // ---------------------------------------------------------------------------
  // The common root of a list of paths

  /** `root` is a component prefix of every path. */
  predicate PrefixOfAll(paths: seq<PathComps>, root: PathComps)
  {
    forall i :: 0 <= i < |paths| ==> root <= paths[i]
  }

  /** The scan stops at depth `d`: some path has no component there, or its component
      there differs from the first path's. */
  predicate StopsAt(paths: seq<PathComps>, d: nat)
  {
    exists i :: 0 <= i < |paths| && (d >= |paths[i]| || d >= |paths[0]| || paths[i][d] != paths[0][d])
  }

  /** `root` is the longest common component prefix of `paths`. */
  predicate IsCommonRoot(paths: seq<PathComps>, root: PathComps)
  {
    PrefixOfAll(paths, root) && StopsAt(paths, |root|)
  }

  /** Every common prefix of the paths is a prefix of the common root. */
  lemma CommonRootLongest(paths: seq<PathComps>, root: PathComps, q: PathComps)
    requires IsCommonRoot(paths, root) && PrefixOfAll(paths, q)
    ensures q <= root
  {
    var i :| 0 <= i < |paths| && (|root| >= |paths[i]| || |root| >= |paths[0]| || paths[i][|root|] != paths[0][|root|]);
    assert q <= paths[i] && q <= paths[0] && root <= paths[0];
    if |q| > |root| {
      assert false;
    }
    assert q == paths[0][..|q|];
  }

  /** There is only one common root. */
  lemma CommonRootUnique(paths: seq<PathComps>, r1: PathComps, r2: PathComps)
    requires IsCommonRoot(paths, r1) && IsCommonRoot(paths, r2)
    ensures r1 == r2
  {
    CommonRootLongest(paths, r1, r2);
    CommonRootLongest(paths, r2, r1);
  }

  /** The items of a manifest over `root`: each path relative to the root, written with
      `/`, in input order; paths that are the root itself give `""` and are dropped. */
  function RelativeItems(paths: seq<PathComps>, root: PathComps): seq<string>
    requires PrefixOfAll(paths, root)
  {
    if |paths| == 0 then []
    else
      var prev := RelativeItems(paths[..|paths| - 1], root);
      var rel := Join(paths[|paths| - 1][|root|..], '/');
      if rel == "" then prev else prev + [rel]
  }

  /** `create_manifest_from_path_vec`: walk the components depth by depth, comparing
      every path with the first, until one path runs out or differs; the components
      passed become the root. An empty path list reaches `last_comp.unwrap()` on `None`
      and panics, hence the precondition. */
  method CreateManifestFromPathVec(paths: seq<PathComps>) returns (m: DirImportManifest)
    requires |paths| > 0
    ensures IsCommonRoot(paths, m.rootDir)
    ensures m.items == RelativeItems(paths, m.rootDir)
  {
    var root: PathComps := [];
    var depth: nat := 0;
    var hasFound := false;
    while true
      invariant depth == |root| && PrefixOfAll(paths, root)
      invariant !hasFound
      decreases |paths[0]| - depth
    {
      var lastComp: Option<string> := None;
      var j := 0;
      while j < |paths|
        invariant 0 <= j <= |paths|
        invariant !hasFound && j == 0 ==> lastComp == None
        invariant !hasFound && j > 0 ==> depth < |paths[0]| && lastComp == Some(paths[0][depth])
        invariant !hasFound ==> forall k :: 0 <= k < j ==>
          depth < |paths[k]| && depth < |paths[0]| && paths[k][depth] == paths[0][depth]
        invariant hasFound ==> StopsAt(paths, depth)
      {
        var current: Option<string> := if depth < |paths[j]| then Some(paths[j][depth]) else None;
        if current == None {
          hasFound := true;
          break;
        } else if lastComp == None {
          lastComp := current;
        } else if lastComp != current {
          hasFound := true;
          break;
        }
        j := j + 1;
      }
      if hasFound {
        break;
      }
      depth := depth + 1;
      root := root + [lastComp.value];
    }
    m := DirImportManifest(root, RelativeItems(paths, root));
  }

  /** Identical inputs have themselves as root and give no items. */
  lemma AllSameRoot(paths: seq<PathComps>)
    requires |paths| > 0
    requires forall i :: 0 <= i < |paths| ==> paths[i] == paths[0]
    ensures IsCommonRoot(paths, paths[0])
    ensures RelativeItems(paths, paths[0]) == []
  {
    RelativeItemsOfRoots(paths, paths[0]);
  }

  lemma {:induction false} RelativeItemsOfRoots(paths: seq<PathComps>, root: PathComps)
    requires forall i :: 0 <= i < |paths| ==> paths[i] == root
    ensures PrefixOfAll(paths, root)
    ensures RelativeItems(paths, root) == []
  {
    if |paths| > 0 {
      RelativeItemsOfRoots(paths[..|paths| - 1], root);
      assert paths[|paths| - 1][|root|..] == [];
    }
  }

  /** A component as `Path::components` yields it after the leading prefix, root or
      `.` of a path: not empty and free of the separator. */
  predicate IsSegment(c: string)
  {
    c != "" && '/' !in c
  }

  /** The components after `root` are segments; the root's own components (a leading
      `/`, `.` or drive prefix among them) are not constrained. */
  predicate SegmentsAfter(paths: seq<PathComps>, root: PathComps)
  {
    forall i, j :: 0 <= i < |paths| && |root| <= j < |paths[i]| ==> IsSegment(paths[i][j])
  }

  lemma JoinSegmentsNonEmpty(cs: seq<string>)
    requires |cs| > 0 && IsSegment(cs[|cs| - 1])
    ensures Join(cs, '/') != ""
  {
    JoinNonEmpty(cs[..|cs| - 1], cs[|cs| - 1]);
    assert cs[..|cs| - 1] + [cs[|cs| - 1]] == cs;
  }

  /** One path relative to a root it starts with: empty only for the root itself, and
      otherwise splitting it at `/` gives back the components after the root. */
  lemma RelativeItemOf(p: PathComps, root: PathComps)
    requires root <= p
    requires forall j :: |root| <= j < |p| ==> IsSegment(p[j])
    ensures Join(p[|root|..], '/') == "" <==> p == root
    ensures p != root ==> p == root + Split(Join(p[|root|..], '/'), '/')
  {
    var tail := p[|root|..];
    assert p == root + tail;
    if |tail| > 0 {
      assert forall j :: 0 <= j < |tail| ==> IsSegment(tail[j]) by {
        forall j | 0 <= j < |tail| ensures IsSegment(tail[j]) {
          assert tail[j] == p[|root| + j];
        }
      }
      JoinSegmentsNonEmpty(tail);
      SplitJoin(tail, '/');
    }
  }

  /** A path under the `./`-relative root of `tests_creates_from_dir_on_disk`: its item
      is `sub/a.png`, which splits back into the components after the root. */
  lemma DotRootItem(root: PathComps, p: PathComps)
    requires root == [".", "src", "testing_data", "import_test"]
    requires p == root + ["sub", "a.png"]
    ensures Join(p[|root|..], '/') != ""
    ensures p == root + Split(Join(p[|root|..], '/'), '/')
  {
    assert p[|root|..] == ["sub", "a.png"];
    RelativeItemOf(p, root);
  }

  /** Every item, split at `/` and put after the root, is one of the input paths. */
  lemma {:induction false} RelativeItemsFrom(paths: seq<PathComps>, root: PathComps)
    requires PrefixOfAll(paths, root) && SegmentsAfter(paths, root)
    ensures forall k :: 0 <= k < |RelativeItems(paths, root)| ==>
      exists i :: 0 <= i < |paths| && paths[i] == root + Split(RelativeItems(paths, root)[k], '/')
  {
    if |paths| > 0 {
      var init := paths[..|paths| - 1];
      var p := paths[|paths| - 1];
      var items := RelativeItems(paths, root);
      var prev := RelativeItems(init, root);
      assert forall i :: 0 <= i < |init| ==> init[i] == paths[i];
      RelativeItemsFrom(init, root);
      RelativeItemOf(p, root);
      forall k | 0 <= k < |items|
        ensures exists i :: 0 <= i < |paths| && paths[i] == root + Split(items[k], '/')
      {
        if k < |prev| {
          var i :| 0 <= i < |init| && init[i] == root + Split(prev[k], '/');
          assert items[k] == prev[k];
          assert paths[i] == root + Split(items[k], '/');
        } else {
          assert items[k] == Join(p[|root|..], '/');
          assert paths[|paths| - 1] == root + Split(items[k], '/');
        }
      }
    } else {
      assert RelativeItems(paths, root) == [];
    }
  }

  /** Every input path longer than the root has its relative form among the items. */
  lemma {:induction false} RelativeItemsCover(paths: seq<PathComps>, root: PathComps)
    requires PrefixOfAll(paths, root) && SegmentsAfter(paths, root)
    ensures forall i :: 0 <= i < |paths| && |paths[i]| > |root| ==>
      Join(paths[i][|root|..], '/') in RelativeItems(paths, root)
  {
    if |paths| > 0 {
      var init := paths[..|paths| - 1];
      var p := paths[|paths| - 1];
      assert forall i :: 0 <= i < |init| ==> init[i] == paths[i];
      RelativeItemsCover(init, root);
      RelativeItemOf(p, root);
    }
  }

  /** The six paths of `tests_making_manifest_from_path_vec`. */
  function TestPaths(): seq<PathComps>
  {
    [["c:", "media", "videogame", "pico8", "thing1.png"],
     ["c:", "media", "videogame", "pico8", "thing1.png"],
     ["c:", "media", "videogame", "pico8", "thing2.png"],
     ["c:", "media", "videogame", "pico8", "thing3.png"],
     ["c:", "media", "videogame", "snes", "echo.sns"],
     ["c:", "media", "videogame", "mastersystem", "thing1.png"]]
  }

  /** Their root is `c:/media/videogame`, whatever manifest the scan returns. */
  lemma TestRoot(root: PathComps)
    requires IsCommonRoot(TestPaths(), root)
    ensures root == ["c:", "media", "videogame"]
  {
    var paths := TestPaths();
    var expected := ["c:", "media", "videogame"];
    assert paths[4][3] != paths[0][3];
    assert IsCommonRoot(paths, expected);
    CommonRootUnique(paths, root, expected);
  }

  // ---------------------------------------------------------------------------
  // The record container

  /** What the disk says about an item once `to_path`, `canonicalize` and `is_file`
      succeed: the canonical file name and parent directory, the hash when hashing
      succeeds, and the size (0 when the file cannot be opened or has no metadata). */
  datatype DiskFile = DiskFile(fileName: string, dirPath: string, hash: Option<string>, sizeBytes: U64)

  /** The probe: `None` when the item under the root is not an existing file. */
  type Probe = (PathComps, string) -> Option<DiskFile>

  datatype InboundFileRecordContainer = InboundFileRecordContainer(
    rootDir: PathComps,
    importSessionId: string,
    records: seq<FileRecord>)

  /** The extension tag: what follows the first `.` of the file name (`split_once`),
      or `""` when there is none. */
  function ExtensionTag(fileName: string): string
  {
    match IndexOf(fileName, '.')
    case Some(i) => fileName[i + 1..]
    case None => ""
  }

  /** A name without `.` has an empty tag; a stem without `.`, a `.` and any text give
      that text back. */
  lemma ExtensionTagOf(stem: string, ext: string)
    requires '.' !in stem
    ensures ExtensionTag(stem) == ""
    ensures ExtensionTag(stem + "." + ext) == ext
  {
    IndexOfAfter(stem, '.', ext);
    assert (stem + "." + ext)[|stem| + 1..] == ext;
  }

  /** The vfs path as `construct_container` writes it: the parent of the session id
      joined with the item, with no trailing `/`. */
  function VfsPathAsWritten(session: string, item: string): string
    requires RelJoin(session, item) != ""
  {
    Join(ParentComponents(RelJoin(session, item)).value, '/')
  }

  /** The vfs path as the directory queries need it: the same parent, as a directory
      path ending in `/`. */
  function VfsPath(session: string, item: string): string
    requires RelJoin(session, item) != ""
  {
    DirOf(ParentComponents(RelJoin(session, item)).value)
  }

  /** The record built for one probed item. */
  function MakeRecord(session: string, item: string, d: DiskFile): FileRecord
    requires RelJoin(session, item) != ""
  {
    FileRecord(
      fileUuid := "",
      fileName := d.fileName,
      fileSizeBytes := d.sizeBytes,
      fileHash := if d.hash.Some? then d.hash.value else "",
      fileDirPath := d.dirPath,
      fileExtensionTag := ExtensionTag(d.fileName),
      fileEncoding := "",
      mediaTypeOverrideId := None,
      fileDeleted := false,
      fileReadOnly := false,
      fileVfsPath := VfsPath(session, item))
  }

  /** `parent().unwrap()` panics on an empty joined path; only probed items reach it. */
  predicate Joinable(root: PathComps, items: seq<string>, session: string, probe: Probe)
  {
    forall k :: 0 <= k < |items| && probe(root, items[k]).Some? ==> RelJoin(session, items[k]) != ""
  }

  /** The records of the items that are files, in item order. */
  function Records(root: PathComps, items: seq<string>, session: string, probe: Probe): seq<FileRecord>
    requires Joinable(root, items, session, probe)
  {
    if |items| == 0 then []
    else
      var init := items[..|items| - 1];
      var item := items[|items| - 1];
      assert forall k :: 0 <= k < |init| ==> init[k] == items[k];
      var prev := Records(root, init, session, probe);
      match probe(root, item)
      case None => prev
      case Some(d) => prev + [MakeRecord(session, item, d)]
  }

  /** `construct_container`. */
  function ConstructContainer(m: DirImportManifest, session: string, probe: Probe): InboundFileRecordContainer
    requires Joinable(m.rootDir, m.items, session, probe)
  {
    InboundFileRecordContainer(m.rootDir, session, Records(m.rootDir, m.items, session, probe))
  }

  /** `f` is the record built for one of `items` that is a file. */
  predicate FromProbedItem(root: PathComps, items: seq<string>, session: string, probe: Probe, f: FileRecord)
    requires Joinable(root, items, session, probe)
  {
    exists k :: 0 <= k < |items| && probe(root, items[k]).Some? &&
      f == MakeRecord(session, items[k], probe(root, items[k]).value)
  }

  /** Each record comes from an item that is a file, no item gives more than one record,
      and when every item is a file there is one record per item. */
  lemma {:induction false} RecordsFromItems(root: PathComps, items: seq<string>, session: string, probe: Probe)
    requires Joinable(root, items, session, probe)
    ensures |Records(root, items, session, probe)| <= |items|
    ensures (forall k :: 0 <= k < |items| ==> probe(root, items[k]).Some?) ==>
      |Records(root, items, session, probe)| == |items|
    ensures forall j :: 0 <= j < |Records(root, items, session, probe)| ==>
      FromProbedItem(root, items, session, probe, Records(root, items, session, probe)[j])
  {
    if |items| > 0 {
      var init := items[..|items| - 1];
      var last := |items| - 1;
      assert forall k :: 0 <= k < |init| ==> init[k] == items[k];
      RecordsFromItems(root, init, session, probe);
      var r := Records(root, items, session, probe);
      var prev := Records(root, init, session, probe);
      forall j | 0 <= j < |r|
        ensures FromProbedItem(root, items, session, probe, r[j])
      {
        if j < |prev| {
          assert FromProbedItem(root, init, session, probe, prev[j]);
          var k :| 0 <= k < |init| && probe(root, init[k]).Some? &&
            prev[j] == MakeRecord(session, init[k], probe(root, init[k]).value);
          assert r[j] == prev[j] && init[k] == items[k];
        } else {
          assert r[j] == MakeRecord(session, items[last], probe(root, items[last]).value);
        }
      }
    }
  }

  /** The container keeps the manifest's root and the session id; its records come from
      the probed items with no id, not read-only, not deleted, no encoding and no media
      type override, their extension tag taken from their file name; and every vfs path
      is a directory path, so the store they make is one the directory queries accept. */
  lemma ConstructContainerShape(m: DirImportManifest, session: string, probe: Probe)
    requires Joinable(m.rootDir, m.items, session, probe)
    ensures ConstructContainer(m, session, probe).rootDir == m.rootDir
    ensures ConstructContainer(m, session, probe).importSessionId == session
    ensures forall j :: 0 <= j < |ConstructContainer(m, session, probe).records| ==>
      var f := ConstructContainer(m, session, probe).records[j];
      f.fileUuid == "" && !f.fileReadOnly && !f.fileDeleted && f.fileEncoding == "" &&
      f.mediaTypeOverrideId == None && f.fileExtensionTag == ExtensionTag(f.fileName)
    ensures Sound(ConstructContainer(m, session, probe).records)
  {
    var rs := Records(m.rootDir, m.items, session, probe);
    assert rs == ConstructContainer(m, session, probe).records;
    RecordsFromItems(m.rootDir, m.items, session, probe);
    forall j | 0 <= j < |rs|
      ensures EndsDir(rs[j].fileVfsPath)
    {
      assert FromProbedItem(m.rootDir, m.items, session, probe, rs[j]);
      var k :| 0 <= k < |m.items| && probe(m.rootDir, m.items[k]).Some? &&
        rs[j] == MakeRecord(session, m.items[k], probe(m.rootDir, m.items[k]).value);
    }
  }

  /** A sequence of names. */
  predicate AllNames(cs: seq<string>)
  {
    forall i :: 0 <= i < |cs| ==> IsName(cs[i])
  }

  /** A directory path built from the parent of a path of names is clean. */
  lemma VfsPathClean(session: string, item: string)
    requires RelJoin(session, item) != ""
    requires AllNames(Components(RelJoin(session, item)))
    ensures CleanDir(VfsPath(session, item))
  {
    var cs := Components(RelJoin(session, item));
    var d := DropTrailingDots(cs);
    var parent := ParentComponents(RelJoin(session, item)).value;
    assert parent == if |d| == 0 then [] else d[..|d| - 1];
    assert forall i :: 0 <= i < |parent| ==> parent[i] == cs[i];
    DirOfClean(parent);
  }

  /** When every probed item, joined to the session id, is a path of names, the records
      form a clean store, the kind on which a tree built by `get_dir_tree_at` answers
      `get_at_path` as `FacadeFs.ResolveBuilt` states. */
  lemma ConstructContainerClean(m: DirImportManifest, session: string, probe: Probe)
    requires Joinable(m.rootDir, m.items, session, probe)
    requires forall k :: 0 <= k < |m.items| && probe(m.rootDir, m.items[k]).Some? ==>
      AllNames(Components(RelJoin(session, m.items[k])))
    ensures CleanStore(ConstructContainer(m, session, probe).records)
  {
    var rs := Records(m.rootDir, m.items, session, probe);
    assert rs == ConstructContainer(m, session, probe).records;
    ConstructContainerShape(m, session, probe);
    RecordsFromItems(m.rootDir, m.items, session, probe);
    forall j | 0 <= j < |rs|
      ensures CleanDir(rs[j].fileVfsPath)
    {
      assert FromProbedItem(m.rootDir, m.items, session, probe, rs[j]);
      var k :| 0 <= k < |m.items| && probe(m.rootDir, m.items[k]).Some? &&
        rs[j] == MakeRecord(session, m.items[k], probe(m.rootDir, m.items[k]).value);
      VfsPathClean(session, m.items[k]);
    }
  }

  // ---------------------------------------------------------------------------
  // The vfs path as written

  /** For a session id that is a single name and an item that is a file name, the vfs path
      `construct_container` writes is the session id itself, without the trailing `/` that
      `get_directories_at` relies on; the corrected path is the session directory. */
  lemma VfsPathOfName(s: string, x: string)
    requires IsName(s) && IsName(x)
    ensures RelJoin(s, x) != ""
    ensures VfsPathAsWritten(s, x) == s
    ensures VfsPath(s, x) == s + "/"
  {
    assert RelJoin(s, x) == s + "/" + x;
    assert Join([s, x], '/') == s + "/" + x by {
      assert [s, x][1..] == [x];
    }
    assert [s] + [x] == [s, x];
    ParentOfNames([s], x);
    assert DirOf([s]) == DirOf([]) + s + "/";
  }

  /** A store holding a record whose vfs path is a single name is not sound, and the
      directory query at the root lists the root itself among its subdirectories: the
      recursion of `get_dir_tree_at("")` calls itself with the same path. */
  lemma NameRecordLoops(f: FileRecord)
    requires IsName(f.fileVfsPath)
    ensures !Sound([f])
    ensures "" in GetDirectoriesAt([f], "")
  {
    var path := f.fileVfsPath;
    var store := [f];
    assert !EndsDir(store[0].fileVfsPath) by {
      assert path[|path| - 1] in path;
    }
    assert path[0..] == path;
    assert Below(store[0].fileVfsPath, "") && "" == FolderName(store[0].fileVfsPath, "");
    GetDirectoriesAtMembers(store, "");
  }
}
