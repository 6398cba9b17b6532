/**
 * Restoring from the recycle bin (app.py:452-530): where a deleted item
 * goes back to, and how a folder snapshot is rebuilt into folders and
 * files by `restore_folder_recursive`.
 */
module Restore {
  import opened Wrappers
  import opened Text
  import opened Sorting
  import opened FileTree
  import opened Paths

  /**
   * The file rebuilt from a snapshot record (app.py:497-504, 512-519): the
   * record has no content, so the content is empty; a missing creation
   * date becomes the clock reading `now`.
   */
  function MakeFile(d: FileDict, now: string): File
  {
    NewFile(d.name, "", d.author, d.createdDate, d.tags, d.fileType, now)
  }

  /** A dated file comes back from its record with everything but its content. */
  lemma MakeFileRoundTrip(f: File, d: FileDict, now: string)
    ensures f.createdDate != [] ==> MakeFile(FileToDict(f), now) == f.(content := [])
    ensures d.createdDate != [] ==> FileToDict(MakeFile(d, now)) == d
    ensures now != [] ==> MakeFile(d, now).createdDate != []
  {
  }

  /** Add the files of `ds` one after the other, each skipped when its name is taken (app.py:512-521). */
  function AddFiles(f: Folder, ds: seq<FileDict>, now: string): (r: Folder)
    ensures r.name == f.name && r.children == f.children
    decreases |ds|
  {
    if ds == [] then f
    else
      var g := AddFiles(f, ds[..|ds| - 1], now);
      match AddFile(g, MakeFile(ds[|ds| - 1], now))
      case None => g
      case Some(h) => h
  }

  /**
   * `restore_folder_recursive(target, d)` (app.py:508-524): refused when
   * `target` already has a child of that name, else `target` with the
   * rebuilt folder as its last child.
   */
  function RestoreInto(target: Folder, d: FolderDict, now: string): (r: Option<Folder>)
    ensures r.None? <==> d.name in Names(target.children, FolderName)
    ensures r.Some? ==> r.value.name == target.name && r.value.files == target.files &&
                        r.value.children == target.children + [Build(d, now)]
    decreases d, |d.children| + 2
  {
    if GetFolderByName(target, d.name).Some? then None
    else Some(target.(children := target.children + [Build(d, now)]))
  }

  /** The folder rebuilt from a snapshot: a new folder, its files, then each child snapshot in turn. */
  function Build(d: FolderDict, now: string): (r: Folder)
    ensures r.name == d.name
    decreases d, |d.children| + 1
  {
    AddChildren(AddFiles(Folder(d.name, [], []), d.files, now), d, |d.children|, now)
  }

  /** Restore the first `k` child snapshots of `d` into `f`, skipping any whose name is taken. */
  function AddChildren(f: Folder, d: FolderDict, k: nat, now: string): (r: Folder)
    requires k <= |d.children|
    ensures r.name == f.name && r.files == f.files
    decreases d, k
  {
    if k == 0 then f
    else
      var g := AddChildren(f, d, k - 1, now);
      match RestoreInto(g, d.children[k - 1], now)
      case None => g
      case Some(h) => h
  }

  /**
   * `restore_folder_recursive` as the source runs it: add the folder, add
   * its files one by one, then restore each child snapshot into it.
   */
  method RestoreFolderRecursive(target: Folder, d: FolderDict, now: string) returns (r: Option<Folder>)
    ensures r == RestoreInto(target, d, now)
    decreases d, |d.children| + 2
  {
    if GetFolderByName(target, d.name).Some? {
      return None;
    }
    var newFolder := RestoreFiles(Folder(d.name, [], []), d.files, now);
    ghost var base := newFolder;
    for k := 0 to |d.children|
      invariant newFolder == AddChildren(base, d, k, now)
    {
      var restored := RestoreFolderRecursive(newFolder, d.children[k], now);
      if restored.Some? {
        newFolder := restored.value;
      }
    }
    return Some(target.(children := target.children + [newFolder]));
  }

  /** The file loop of `restore_folder_recursive` (app.py:512-521). */
  method RestoreFiles(f: Folder, ds: seq<FileDict>, now: string) returns (r: Folder)
    ensures r == AddFiles(f, ds, now)
  {
    r := f;
    for k := 0 to |ds|
      invariant r == AddFiles(f, ds[..k], now)
    {
      assert ds[..k + 1][..k] == ds[..k];
      var added := AddFile(r, MakeFile(ds[k], now));
      if added.Some? {
        r := added.value;
      }
    }
    assert ds[..|ds|] == ds;
  }

  /** The files rebuilt from the records `ds`, in order. */
  function MakeFiles(ds: seq<FileDict>, now: string): (fs: seq<File>)
    ensures |fs| == |ds| && forall i :: 0 <= i < |ds| ==> fs[i] == MakeFile(ds[i], now)
  {
    seq(|ds|, i requires 0 <= i < |ds| => MakeFile(ds[i], now))
  }

  /** Into a folder without files, records with distinct names all go in, in order. */
  lemma {:induction false} AddFilesFresh(n: string, cs: seq<Folder>, ds: seq<FileDict>, now: string)
    requires DistinctKeys(ds, FileDictName)
    ensures AddFiles(Folder(n, cs, []), ds, now) == Folder(n, cs, MakeFiles(ds, now))
    decreases |ds|
  {
    if ds != [] {
      var init := ds[..|ds| - 1];
      assert DistinctKeys(init, FileDictName);
      AddFilesFresh(n, cs, init, now);
      var g := Folder(n, cs, MakeFiles(init, now));
      var x := MakeFile(ds[|ds| - 1], now);
      assert x.name !in Names(g.files, FileName);
      assert MakeFiles(init, now) + [x] == MakeFiles(ds, now);
    }
  }

  /** The folders rebuilt from the first `k` child snapshots of `d`. */
  function Builds(d: FolderDict, k: nat, now: string): (fs: seq<Folder>)
    requires k <= |d.children|
    ensures |fs| == k && forall i :: 0 <= i < k ==> fs[i] == Build(d.children[i], now)
  {
    seq(k, i requires 0 <= i < k => Build(d.children[i], now))
  }

  lemma BuildsSnoc(d: FolderDict, k: nat, now: string)
    requires 0 < k <= |d.children|
    ensures Builds(d, k - 1, now) + [Build(d.children[k - 1], now)] == Builds(d, k, now)
  {
    var a, b := Builds(d, k - 1, now) + [Build(d.children[k - 1], now)], Builds(d, k, now);
    forall i | 0 <= i < k
      ensures a[i] == b[i]
    {
    }
  }

  /** The folders rebuilt from the first `k` child snapshots keep their snapshots' names. */
  lemma BuildsNames(d: FolderDict, k: nat, now: string)
    requires k < |d.children| && DistinctKeys(d.children, FolderDictName)
    ensures d.children[k].name !in Names(Builds(d, k, now), FolderName)
  {
    var bs := Builds(d, k, now);
    forall j | 0 <= j < k
      ensures Names(bs, FolderName)[j] != d.children[k].name
    {
      assert bs[j].name == d.children[j].name;
      assert Names(d.children, FolderDictName)[j] == d.children[j].name;
      assert Names(d.children, FolderDictName)[k] == d.children[k].name;
    }
  }

  /** Into a folder without children, child snapshots with distinct names all go in, in order. */
  lemma {:induction false} AddChildrenFresh(n: string, fs: seq<File>, d: FolderDict, k: nat, now: string)
    requires k <= |d.children| && DistinctKeys(d.children, FolderDictName)
    ensures AddChildren(Folder(n, [], fs), d, k, now) == Folder(n, Builds(d, k, now), fs)
    decreases k
  {
    if k > 0 {
      AddChildrenFresh(n, fs, d, k - 1, now);
      var g := Folder(n, Builds(d, k - 1, now), fs);
      var c := d.children[k - 1];
      var r := RestoreInto(g, c, now);
      assert r.Some? by {
        BuildsNames(d, k - 1, now);
      }
      assert AddChildren(Folder(n, [], fs), d, k, now) == r.value;
      BuildsSnoc(d, k, now);
      assert r.value == Folder(n, Builds(d, k, now), fs);
    }
  }

  /**
   * A canonical folder record, with every file dated, is rebuilt into a
   * well-formed folder whose `to_dict` is that record again.
   */
  lemma {:induction false} BuildRoundTrip(d: FolderDict, now: string)
    requires Canonical(d)
    ensures ToDict(Build(d, now)) == d
    decreases d
  {
    AddFilesFresh(d.name, [], d.files, now);
    AddChildrenFresh(d.name, MakeFiles(d.files, now), d, |d.children|, now);
    var g := Build(d, now);
    assert g == Folder(d.name, Builds(d, |d.children|, now), MakeFiles(d.files, now));
    forall i | 0 <= i < |d.children|
      ensures ChildDicts(g)[i] == d.children[i]
    {
      BuildRoundTrip(d.children[i], now);
    }
    assert ChildDicts(g) == d.children;
    assert FileDicts(g.files) == d.files;
    SortOfSorted(d.children, FolderDictName);
    SortOfSorted(d.files, FileDictName);
  }

  /** Appending a well-formed child under a new name keeps a folder well-formed. */
  lemma AppendChildValid(f: Folder, c: Folder)
    requires Valid(f) && Valid(c) && c.name !in Names(f.children, FolderName)
    ensures Valid(f.(children := f.children + [c]))
  {
    var g := f.(children := f.children + [c]);
    forall i, j | 0 <= i < j < |g.children|
      ensures g.children[i].name != g.children[j].name
    {
      if j == |f.children| {
        assert Names(f.children, FolderName)[i] == f.children[i].name;
      }
    }
  }

  /** Adding the files of `ds` keeps a folder well-formed, given a clock reading. */
  lemma {:induction false} AddFilesValid(f: Folder, ds: seq<FileDict>, now: string)
    requires Valid(f) && now != []
    ensures Valid(AddFiles(f, ds, now))
    decreases |ds|
  {
    if ds != [] {
      var g := AddFiles(f, ds[..|ds| - 1], now);
      AddFilesValid(f, ds[..|ds| - 1], now);
      AddFileSpec(g, MakeFile(ds[|ds| - 1], now), "");
    }
  }

  /** Whatever the snapshot, the rebuilt folder is well-formed: duplicate names are skipped. */
  lemma {:induction false} BuildValid(d: FolderDict, now: string)
    requires now != []
    ensures Valid(Build(d, now))
    decreases d, |d.children| + 1
  {
    AddFilesValid(Folder(d.name, [], []), d.files, now);
    AddChildrenValid(AddFiles(Folder(d.name, [], []), d.files, now), d, |d.children|, now);
  }

  lemma {:induction false} AddChildrenValid(f: Folder, d: FolderDict, k: nat, now: string)
    requires k <= |d.children| && Valid(f) && now != []
    ensures Valid(AddChildren(f, d, k, now))
    decreases d, k
  {
    if k > 0 {
      var g := AddChildren(f, d, k - 1, now);
      AddChildrenValid(f, d, k - 1, now);
      var c := d.children[k - 1];
      if RestoreInto(g, c, now).Some? {
        BuildValid(c, now);
        AppendChildValid(g, Build(c, now));
      }
    }
  }

  /**
   * Where a deleted item goes back to (app.py:471-481), from the path it
   * was deleted from: with more than two "/"-pieces, the path without its
   * last piece; with two, "root" when the second is "root" (refused for an
   * item named "root") and "/root" otherwise; with fewer, nowhere.
   */
  function RestoreParent(originalPath: string, itemName: string): Option<string>
  {
    var parts := Split(originalPath, '/');
    if |parts| > 2 then Some(Join(parts[..|parts| - 1], '/'))
    else if |parts| == 2 && parts[1] == "root" then (if itemName == "root" then None else Some("root"))
    else if |parts| == 2 then Some("/root")
    else None
  }

  /** A path without "/" has a single piece: restore refuses it. */
  lemma RestoreParentNoSlash(originalPath: string, itemName: string)
    requires '/' !in originalPath
    ensures RestoreParent(originalPath, itemName) == None
  {
    SplitNoSep(originalPath, '/');
  }

  /**
   * A path of two pieces, "/" and a name without "/": the parent is "root"
   * for "/root" (refused for an item named "root") and "/root" otherwise.
   */
  lemma RestoreParentTwoPieces(top: string, itemName: string)
    requires '/' !in top
    ensures RestoreParent("/" + top, itemName) ==
              if top == "root" then (if itemName == "root" then None else Some("root")) else Some("/root")
  {
    SplitAfterPiece("", '/', top);
    SplitNoSep(top, '/');
    assert "" + ['/'] + top == "/" + top;
  }

  /** The parent derived from the path of an item below the root is the path of the folder it was in. */
  lemma RestoreParentOfChild(loc: seq<string>, name: string)
    requires forall i :: 0 <= i < |loc| ==> PathSafe(loc[i])
    requires PathSafe(name)
    ensures RestoreParent(GetPath(["root"] + loc + [name]), name) == Some(GetPath(["root"] + loc))
  {
    RestoreParentOfPath(loc, name, name);
  }

  /** The same, whatever name the bin entry records for the item. */
  lemma RestoreParentOfPath(loc: seq<string>, name: string, itemName: string)
    requires forall i :: 0 <= i < |loc| ==> PathSafe(loc[i])
    requires PathSafe(name)
    ensures RestoreParent(GetPath(["root"] + loc + [name]), itemName) == Some(GetPath(["root"] + loc))
  {
    var parts := [""] + (["root"] + (loc + [name]));
    ItemPathSplit(loc, name);
    FolderPathJoin(loc, name);
    RestoreParentDeep(GetPath(["root"] + loc + [name]), itemName, parts);
  }

  /**
   * An item whose name holds "/" (`add_folder` and `add_file` accept such
   * names) is restored one level too deep: into the folder named after the
   * name's first piece, below the folder it was deleted from.
   */
  lemma SlashNameRestoredBelow(loc: seq<string>, a: string, b: string)
    requires forall i :: 0 <= i < |loc| ==> PathSafe(loc[i])
    requires PathSafe(a) && PathSafe(b)
    ensures RestoreParent(GetPath(["root"] + loc + [a + "/" + b]), a + "/" + b) == Some(GetPath(["root"] + loc + [a]))
  {
    SlashNamePath(["root"] + loc, a, b);
    SafeSnoc(loc, a);
    RestoreParentOfPath(loc + [a], b, a + "/" + b);
    SnocAssoc(loc, a, b);
  }

  /** The names down to `b` in a folder `a` of the folder at `loc`. */
  lemma SnocAssoc(loc: seq<string>, a: string, b: string)
    ensures ["root"] + (loc + [a]) == ["root"] + loc + [a]
    ensures ["root"] + (loc + [a]) + [b] == ["root"] + loc + [a] + [b]
  {
  }

  /** A name "a/b" spells the same path as a folder "a" holding "b". */
  lemma SlashNamePath(names: seq<string>, a: string, b: string)
    requires |names| >= 1
    ensures GetPath(names + [a + "/" + b]) == GetPath(names + [a] + [b])
  {
    GetPathSnoc(names, a + "/" + b);
    GetPathSnoc(names, a);
    GetPathSnoc(names + [a], b);
  }

  /** The path of an item below the root splits into an empty piece, "root", the folder names and its name. */
  lemma ItemPathSplit(loc: seq<string>, name: string)
    requires forall i :: 0 <= i < |loc| ==> PathSafe(loc[i])
    requires PathSafe(name)
    ensures Split(GetPath(["root"] + loc + [name]), '/') == [""] + (["root"] + (loc + [name]))
  {
    SafeSnoc(loc, name);
    RootSnoc(loc, name);
    SplitRootedPath(loc + [name]);
  }

  /** The names down to an item: "root", the folder names, then its own. */
  lemma RootSnoc(loc: seq<string>, name: string)
    ensures ["root"] + loc + [name] == ["root"] + (loc + [name])
  {
  }

  /** Those pieces without the last one join into the path of the folder. */
  lemma FolderPathJoin(loc: seq<string>, name: string)
    ensures var parts := [""] + (["root"] + (loc + [name]));
            Join(parts[..|parts| - 1], '/') == GetPath(["root"] + loc)
  {
    var parts := [""] + (["root"] + (loc + [name]));
    PartsSnoc(loc, name);
    assert parts[..|parts| - 1] == [""] + (["root"] + loc);
    RootedPath(loc);
    RootParts(loc);
  }

  /** The pieces of the path of an item are those of its folder's path, then its name. */
  lemma PartsSnoc(loc: seq<string>, name: string)
    ensures [""] + (["root"] + (loc + [name])) == ([""] + (["root"] + loc)) + [name]
  {
  }

  /** A path of more than two pieces goes back to the path without its last piece. */
  lemma RestoreParentDeep(originalPath: string, itemName: string, parts: seq<string>)
    requires Split(originalPath, '/') == parts && |parts| > 2
    ensures RestoreParent(originalPath, itemName) == Some(Join(parts[..|parts| - 1], '/'))
  {
  }

  /** Path-safe names with one more path-safe name after them. */
  lemma SafeSnoc(loc: seq<string>, name: string)
    requires forall i :: 0 <= i < |loc| ==> PathSafe(loc[i])
    requires PathSafe(name)
    ensures forall i :: 0 <= i < |loc + [name]| ==> PathSafe((loc + [name])[i])
  {
  }
}
