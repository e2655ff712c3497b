/** How a Lua plugin is named after the place of its entry point below the plugin root,
    and which directory entries plugin discovery admits (src/lua_api/plugin.rs).
    A panic of the source (`expect` on `None` or `Err`) is an `Err` carrying the panic
    message. */
module Plugin {
  import opened Wrappers
  import opened Text

  /** The components of a filesystem path. */
  type PathComps = seq<string>

  datatype UnparsedLuaPlugin = UnparsedLuaPlugin(
    name: string,
    namespace: string,
    entryPoint: PathComps,
    scriptContents: string)

  /** `strip_prefix(plugin_root)` followed by its `expect`. */
  function StripPrefix(entry: PathComps, root: PathComps): Result<PathComps>
  {
    if root <= entry then Ok(entry[|root|..]) else Err("{entry_point} is not a child of {plugin_root}")
  }

  /** Stripping succeeds exactly below the root and gives what follows the root. */
  lemma StripPrefixBelow(entry: PathComps, root: PathComps)
    ensures StripPrefix(entry, root).Ok? <==> root <= entry
    ensures StripPrefix(entry, root).Ok? ==> root + StripPrefix(entry, root).value == entry
    ensures StripPrefix(root + entry, root) == Ok(entry)
  {
    assert (root + entry)[|root|..] == entry;
    if root <= entry {
      assert entry == root + entry[|root|..];
    }
  }

  /** The fully qualified plugin string: the components joined with `.` (`reduce`); no
      component at all is the "Empty canon path" panic. */
  function Fqpn(comps: PathComps): Result<string>
  {
    if |comps| == 0 then Err("Empty canon path") else Ok(Join(comps, '.'))
  }

  /** The `.`-separated pieces of all the components, one after another. */
  function SplitAll(comps: PathComps, sep: char): seq<string>
  {
    if |comps| == 0 then [] else Split(comps[0], sep) + SplitAll(comps[1..], sep)
  }

  /** The pieces of the qualified string are the pieces of its components, in order: a
      directory `a` and a file `b.plugin.lua` give `a`, `b`, `plugin`, `lua`. */
  lemma {:induction false} FqpnPieces(comps: PathComps)
    requires |comps| > 0
    ensures Fqpn(comps).Ok?
    ensures Split(Fqpn(comps).value, '.') == SplitAll(comps, '.')
  {
    if |comps| == 1 {
      assert comps[1..] == [];
    } else {
      FqpnPieces(comps[1..]);
      SplitAround(comps[0], '.', Join(comps[1..], '.'));
    }
  }

  datatype PluginName = PluginName(name: string, namespace: string)

  /** `rsplitn(4, '.')` skipping the extension and `plugin`: the next piece is the name
      ("Failed to get plugin name" when there is none) and the one after it, if any, the
      namespace. */
  function NameOf(fqpn: string): Result<PluginName>
  {
    var pieces := RSplitN(fqpn, 4, '.');
    if |pieces| < 3 then Err("Failed to get plugin name")
    else Ok(PluginName(pieces[2], if |pieces| == 4 then pieces[3] else ""))
  }

  /** With `F` the `.`-separated pieces: fewer than three pieces fail; otherwise the name
      is the third piece from the right and the namespace all pieces before it, joined
      back with `.` (so it may hold dots), or empty when there are exactly three. */
  lemma NameOfPieces(fqpn: string)
    ensures NameOf(fqpn).Err? <==> |Split(fqpn, '.')| < 3
    ensures NameOf(fqpn).Ok? ==>
      var f := Split(fqpn, '.');
      NameOf(fqpn).value.name == f[|f| - 3] &&
      NameOf(fqpn).value.namespace == (if |f| == 3 then "" else Join(f[..|f| - 3], '.'))
  {
    var f, r := RSplitNSplit(fqpn, 4, '.');
    if |f| == 3 {
      assert f[..1] == [f[0]];
    }
  }

  /** `UnparsedLuaPlugin::new`: `canonical` is the canonicalised entry point and
      `contents` the script text read from it; the record keeps the entry point as
      given. */
  function New(entryPoint: PathComps, canonical: PathComps, root: PathComps, contents: string): Result<UnparsedLuaPlugin>
  {
    match StripPrefix(canonical, root)
    case Err(e) => Err(e)
    case Ok(rel) =>
      match Fqpn(rel)
      case Err(e) => Err(e)
      case Ok(fqpn) =>
        match NameOf(fqpn)
        case Err(e) => Err(e)
        case Ok(n) => Ok(UnparsedLuaPlugin(n.name, n.namespace, entryPoint, contents))
  }

  /** A plugin is made exactly when the canonical path lies below the root with at least
      one component and three pieces; its name and namespace are those of the qualified
      string, and the entry point and contents are kept. */
  lemma NewNamed(entryPoint: PathComps, canonical: PathComps, root: PathComps, contents: string)
    ensures New(entryPoint, canonical, root, contents).Ok? <==>
      root <= canonical && |canonical| > |root| &&
      |Split(Join(canonical[|root|..], '.'), '.')| >= 3
    ensures New(entryPoint, canonical, root, contents).Ok? ==>
      var p := New(entryPoint, canonical, root, contents).value;
      var n := NameOf(Join(canonical[|root|..], '.')).value;
      p.name == n.name && p.namespace == n.namespace &&
      p.entryPoint == entryPoint && p.scriptContents == contents
  {
    if root <= canonical && |canonical| > |root| {
      NameOfPieces(Join(canonical[|root|..], '.'));
    }
  }

  /** `full_name`: the name, preceded by the namespace and a `.` when there is one. */
  function FullName(p: UnparsedLuaPlugin): string
  {
    if p.namespace == "" then p.name else p.namespace + "." + p.name
  }

  /** The full name is the qualified string without its last two pieces (extension and
      `plugin`), unless an empty namespace hides leading empty pieces. */
  lemma FullNameDropsTwo(fqpn: string, entryPoint: PathComps, contents: string)
    requires NameOf(fqpn).Ok?
    requires var f := Split(fqpn, '.'); |f| == 3 || NameOf(fqpn).value.namespace != ""
    ensures var n, f := NameOf(fqpn).value, Split(fqpn, '.');
      FullName(UnparsedLuaPlugin(n.name, n.namespace, entryPoint, contents)) == Join(f[..|f| - 2], '.')
  {
    var f := Split(fqpn, '.');
    NameOfPieces(fqpn);
    if |f| == 3 {
      assert f[..1] == [f[0]];
    } else {
      var front := f[..|f| - 3];
      JoinSnoc(front, '.', f[|f| - 3]);
      assert front + [f[|f| - 3]] == f[..|f| - 2];
    }
  }

  /** The `custom_filter` of `discover_plugins`: directories are always walked; a file is
      admitted when exactly one of "it sits directly in the root" and "it is called
      plugin.lua, in any ASCII case" holds. */
  predicate Admits(isDir: bool, depth: nat, fileName: string)
  {
    isDir || ((depth == 1) != EqIgnoreAsciiCase(fileName, "plugin.lua"))
  }

  /** Whether a file is admitted depends on its name only up to ASCII case: two names
      equal ignoring ASCII case are admitted or refused together, at every depth. */
  lemma AdmitsIgnoresCase(depth: nat, a: string, b: string)
    requires EqIgnoreAsciiCase(a, b)
    ensures Admits(false, depth, a) == Admits(false, depth, b)
  {
    if EqIgnoreAsciiCase(a, "plugin.lua") {
      assert forall i :: 0 <= i < |b| ==> AsciiLower(b[i]) == AsciiLower(a[i]);
    }
  }

  /** The comparison ignores ASCII case only: `PLUGIN.LUA` deep in the tree is admitted,
      `plugin.lua` directly in the root is not, and `foo.plugin.lua` directly in the
      root is. */
  lemma AdmitsExamples()
    ensures Admits(false, 2, "PLUGIN.LUA")
    ensures !Admits(false, 1, "plugin.lua")
    ensures Admits(false, 1, "foo.plugin.lua")
  {
    var upper := "PLUGIN.LUA";
    forall i | 0 <= i < |upper| ensures AsciiLower(upper[i]) == AsciiLower("plugin.lua"[i]) {
    }
  }
}
