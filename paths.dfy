/**
 * Path strings of the file organizer: how `find_folder_by_path`
 * (app.py:80-106) turns a path such as "/root/docs/2024" into a folder of
 * the tree, and the guard that refuses deleting the folder "root" from
 * the root path (app.py:259-261).
 */
module Paths {
  import opened Wrappers
  import opened Text
  import opened FileTree
  import opened Locations

  /** A name that survives a trip through a path string: non-empty and without "/". */
  predicate PathSafe(name: string)
  {
    name != [] && '/' !in name
  }

  /** `[s for s in parts if s]`. */
  function DropEmpty(parts: seq<string>): (r: seq<string>)
    ensures |r| <= |parts|
    ensures forall i :: 0 <= i < |r| ==> r[i] != [] && r[i] in parts
  {
    if parts == [] then []
    else (if parts[0] == [] then [] else [parts[0]]) + DropEmpty(parts[1..])
  }

  /** Dropping empty pieces from pieces none of which is empty changes nothing. */
  lemma {:induction false} DropEmptyNone(parts: seq<string>)
    requires forall i :: 0 <= i < |parts| ==> parts[i] != []
    ensures DropEmpty(parts) == parts
    decreases |parts|
  {
    if parts != [] {
      DropEmptyNone(parts[1..]);
      assert [parts[0]] + parts[1..] == parts;
    }
  }

  /**
   * The segments `find_folder_by_path` walks: the non-empty pieces of a
   * path that starts with "/root", just ["root"] for "root", and None for
   * any other path.
   */
  function Segments(path: string): Option<seq<string>>
  {
    if "/root" <= path then Some(DropEmpty(Split(path, '/')))
    else if path == "root" then Some(["root"])
    else None
  }

  /**
   * The child names `find_folder_by_path` follows from the root folder,
   * or None when the path is refused before the walk: it neither starts
   * with "/root" nor is "root", or its first segment is not exactly "root".
   */
  function ParsePath(path: string): (r: Option<seq<string>>)
    ensures r.Some? ==> "/root" <= path || path == "root"
    ensures r.Some? ==> forall i :: 0 <= i < |r.value| ==> r.value[i] != [] && '/' !in r.value[i]
  {
    match Segments(path)
    case None => None
    case Some(segs) =>
      if segs == [] || segs[0] != "root" then None
      else
        assert forall i :: 0 <= i < |segs| ==> segs[i] in Split(path, '/') || path == "root";
        Some(segs[1..])
  }

  /** The folder `find_folder_by_path(path)` returns in the tree `root`. */
  function Resolve(root: Folder, path: string): Option<Folder>
  {
    match ParsePath(path)
    case None => None
    case Some(loc) => Lookup(root, loc)
  }

  /** `find_folder_by_path` (app.py:80-106): walk the segments after "root" one child at a time. */
  method FindFolderByPath(root: Folder, path: string) returns (r: Option<Folder>)
    ensures r == Resolve(root, path)
  {
    var segments: seq<string>;
    if "/root" <= path {
      segments := DropEmpty(Split(path, '/'));
    } else if path == "root" {
      segments := ["root"];
    } else {
      return None;
    }
    assert Segments(path) == Some(segments);
    if segments == [] || segments[0] != "root" {
      return None;
    }
    assert Resolve(root, path) == Lookup(root, segments[1..]);
    var current := root;
    for k := 1 to |segments|
      invariant Lookup(root, segments[1..]) == Lookup(current, segments[k..])
    {
      assert segments[k..][1..] == segments[k + 1..];
      var next := GetFolderByName(current, segments[k]);
      if next.None? {
        return None;
      }
      current := next.value;
    }
    return Some(current);
  }

  /** The first piece of a join is a prefix of it. */
  lemma JoinHead(parts: seq<string>, sep: char)
    requires |parts| >= 1
    ensures parts[0] <= Join(parts, sep)
  {
  }

  /** Splitting a string that starts with a run of non-separators puts that run at the front of the first piece. */
  lemma {:induction false} SplitFirst(p: string, t: string, sep: char)
    requires sep !in p
    ensures Split(p + t, sep)[0] == p + Split(t, sep)[0]
    decreases |p|
  {
    if p != [] {
      SplitFirst(p[1..], t, sep);
      var s := p + t;
      assert s[1..] == p[1..] + t;
      assert s[0] == p[0] != sep;
      assert Split(s, sep)[0] == [s[0]] + Split(s[1..], sep)[0];
      assert [p[0]] + (p[1..] + Split(t, sep)[0]) == p + Split(t, sep)[0];
    } else {
      assert p + t == t;
    }
  }

  /**
   * A path that starts with "/root" is accepted exactly when the first
   * segment is "root" itself: the path is "/root" or goes on with "/"
   * ("/rootx/a" is refused).
   */
  lemma StartsWithRoot(path: string)
    requires "/root" <= path
    ensures ParsePath(path).Some? <==> |path| == 5 || path[5] == '/'
  {
    var t := path[5..];
    assert path == "/" + ("root" + t);
    assert Split(path, '/') == [[]] + Split("root" + t, '/');
    SplitFirst("root", t, '/');
    var first := Split("root" + t, '/')[0];
    assert DropEmpty(Split(path, '/')) == DropEmpty(Split("root" + t, '/'));
    assert DropEmpty(Split(path, '/'))[0] == first;
    if t != [] && t[0] != '/' {
      assert first[4] == t[0];
    }
  }

  /** A path that neither starts with "/root" nor is "root" (such as "root/a") resolves to nothing. */
  lemma OtherPathsRefused(path: string)
    requires !("/root" <= path) && path != "root"
    ensures ParsePath(path) == None
  {
  }

  /** The path of a folder below the root, as a join. */
  lemma RootedPath(loc: seq<string>)
    ensures GetPath(["root"] + loc) == Join(["", "root"] + loc, '/')
    ensures "/root" <= GetPath(["root"] + loc)
  {
    var parts := ["", "root"] + loc;
    RootParts(loc);
    GetPathJoin(["root"] + loc);
    assert parts[1..] == ["root"] + loc;
    JoinHead(["root"] + loc, '/');
  }

  /** The pieces of a rooted path: an empty one, "root", then the names below the root. */
  lemma RootParts(loc: seq<string>)
    ensures [""] + (["root"] + loc) == ["", "root"] + loc
  {
  }

  /** A leading empty piece is dropped. */
  lemma DropLeadingEmpty(parts: seq<string>)
    ensures DropEmpty([""] + parts) == DropEmpty(parts)
  {
    assert ([""] + parts)[1..] == parts;
  }

  /** Path-safe names, with the leading empty piece and "root" before them, contain no "/". */
  lemma RootPartsSafe(loc: seq<string>)
    requires forall i :: 0 <= i < |loc| ==> PathSafe(loc[i])
    ensures forall i :: 0 <= i < |["", "root"] + loc| ==> '/' !in (["", "root"] + loc)[i]
  {
    var parts := ["", "root"] + loc;
    forall i | 0 <= i < |parts|
      ensures '/' !in parts[i]
    {
      if i >= 2 {
        assert parts[i] == loc[i - 2];
      }
    }
  }

  /**
   * `get_path` and `find_folder_by_path` are inverse: the path of the
   * folder at `loc`, built from path-safe names, leads back to `loc`.
   */
  lemma ResolveGetPath(loc: seq<string>)
    requires forall i :: 0 <= i < |loc| ==> PathSafe(loc[i])
    ensures ParsePath(GetPath(["root"] + loc)) == Some(loc)
  {
    var names := ["root"] + loc;
    var p := GetPath(names);
    SplitRootedPath(loc);
    DropLeadingEmpty(names);
    RootedNamesNonEmpty(loc);
    DropEmptyNone(names);
    assert Segments(p) == Some(names);
    assert names[0] == "root" && names[1..] == loc;
  }

  /** The path of a folder below the root splits back into its pieces. */
  lemma SplitRootedPath(loc: seq<string>)
    requires forall i :: 0 <= i < |loc| ==> PathSafe(loc[i])
    ensures "/root" <= GetPath(["root"] + loc)
    ensures Split(GetPath(["root"] + loc), '/') == [""] + (["root"] + loc)
  {
    RootParts(loc);
    RootedPath(loc);
    RootPartsSafe(loc);
    SplitJoin(["", "root"] + loc, '/');
  }

  /** "root" followed by path-safe names: no piece is empty. */
  lemma RootedNamesNonEmpty(loc: seq<string>)
    requires forall i :: 0 <= i < |loc| ==> PathSafe(loc[i])
    ensures forall i :: 0 <= i < |["root"] + loc| ==> (["root"] + loc)[i] != []
  {
    var names := ["root"] + loc;
    forall i | 0 <= i < |names|
      ensures names[i] != []
    {
      if i > 0 {
        assert names[i] == loc[i - 1];
      }
    }
  }

  /** Both spellings of the root path resolve to the root folder. */
  lemma RootPaths(root: Folder)
    ensures Resolve(root, "root") == Some(root)
    ensures Resolve(root, "/root") == Some(root)
  {
    GuardedSpellings();
  }

  /**
   * The guard of `delete_folder` (app.py:259-261): refuse the folder name
   * "root" when the parent path is spelled exactly "/root" or "root".
   */
  predicate RootGuard(folderName: string, parentPath: string)
  {
    folderName == "root" && (parentPath == "/root" || parentPath == "root")
  }

  /** "/root/" splits into an empty piece, "root" and an empty piece, and so resolves to the root. */
  lemma TrailingSlashRoot()
    ensures ParsePath("/root/") == Some([])
  {
    SplitAfterPiece("root", '/', "");
    assert "root" + ['/'] + "" == "root/";
    SplitAfterPiece("", '/', "root/");
    assert "" + ['/'] + "root/" == "/root/";
    assert Split("", '/') == [""];
    var parts: seq<string> := ["", "root", ""];
    assert Split("/root/", '/') == parts;
    assert parts[1..] == ["root", ""] && parts[1..][1..] == [""] && parts[1..][1..][1..] == [];
    assert DropEmpty(parts) == ["root"];
    assert Segments("/root/") == Some(["root"]);
  }

  /** The two spellings the guard tests both resolve to the root folder. */
  lemma GuardedSpellings()
    ensures ParsePath("/root") == Some([]) && ParsePath("root") == Some([])
  {
    ResolveGetPath([]);
    assert GetPath(["root"]) == "/root";
    assert "root"[0] != '/';
    assert Segments("root") == Some(["root"]);
    assert ["root"][1..] == [];
  }

  /**
   * What the guard refuses is always a child named "root" of the root
   * folder: the root folder itself is no folder's child, so the guard
   * never stands between a request and the root.  And the guard reads the
   * path's spelling: "/root/" resolves to the root as well, yet passes.
   */
  lemma RootGuardScope(folderName: string, parentPath: string)
    ensures RootGuard(folderName, parentPath) ==> ParsePath(parentPath) == Some([]) && folderName == "root"
    ensures ParsePath("/root/") == Some([]) && !RootGuard("root", "/root/")
  {
    GuardedSpellings();
    TrailingSlashRoot();
    assert "/root/" != "/root" && "/root/" != "root";
  }
}
