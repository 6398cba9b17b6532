/**
 * The folder tree of the file organizer (utils/structures.py, classes File
 * and Folder) as values.  A folder holds its child folders in the order
 * they were added (the `children_folders` dict) and its files (the
 * folder's hash table, whose contents the HashIndex module models; here
 * they are a sequence in the order they were added, not in slot order).
 * A folder is addressed by the names on the way
 * to it from the root, which stands for the source's parent pointers.
 */
module FileTree {
  import opened Wrappers
  import opened Text
  import opened Sorting

  /** A file and its metadata (utils/structures.py:6-19). */
  datatype File = File(name: string, content: string, author: string, createdDate: string,
                       tags: seq<string>, fileType: string)

  /** The record `File.to_dict` produces: every field but `content` ("type": "file" is the constructor). */
  datatype FileDict = FileDict(name: string, author: string, createdDate: string, tags: seq<string>,
                               fileType: string)

  /** The record `Folder.to_dict` produces ("type": "folder" is the constructor). */
  datatype FolderDict = FolderDict(name: string, children: seq<FolderDict>, files: seq<FileDict>)

  /** What the recycle bin keeps of a deleted item. */
  datatype Snapshot = FileSnap(file: FileDict) | FolderSnap(folder: FolderDict)
  {
    function Name(): string
    {
      match this
      case FileSnap(d) => d.name
      case FolderSnap(d) => d.name
    }
  }

  /** A folder: its name, its child folders in insertion order, and its files. */
  datatype Folder = Folder(name: string, children: seq<Folder>, files: seq<File>)

  /** The outcome of `delete_folder` / `delete_file`: the new parent, the snapshot and the full path. */
  datatype Deletion = Deleted(parent: Folder, snapshot: Snapshot, fullPath: string) | Missing

  function FolderName(f: Folder): string { f.name }
  function FileName(f: File): string { f.name }
  function FolderDictName(d: FolderDict): string { d.name }
  function FileDictName(d: FileDict): string { d.name }

  /**
   * `File(name, content, author, created_date, tags, file_type)`; `now`
   * stands for `datetime.now().isoformat()`, used when no creation date is
   * given.
   */
  function NewFile(name: string, content: string, author: string, createdDate: string, tags: seq<string>,
                   fileType: string, now: string): (f: File)
    ensures f.name == name && f.content == content && f.author == author && f.tags == tags && f.fileType == fileType
    ensures f.createdDate == (if createdDate == [] then now else createdDate)
    ensures f.createdDate != [] <== createdDate != [] || now != []
  {
    File(name, content, author, if createdDate == [] then now else createdDate, tags, fileType)
  }

  /** `File.to_dict` (utils/structures.py:21-33). */
  function FileToDict(f: File): FileDict
  {
    FileDict(f.name, f.author, f.createdDate, f.tags, f.fileType)
  }

  /** `h` applied to every element of `xs`. */
  function Map<A, B>(xs: seq<A>, h: A -> B): (ys: seq<B>)
    ensures |ys| == |xs| && forall i :: 0 <= i < |xs| ==> ys[i] == h(xs[i])
  {
    seq(|xs|, i requires 0 <= i < |xs| => h(xs[i]))
  }

  /** The keys of `xs`, in order. */
  function Names<T>(xs: seq<T>, key: T -> string): (ns: seq<string>)
    ensures |ns| == |xs| && forall i :: 0 <= i < |xs| ==> ns[i] == key(xs[i])
  {
    Map(xs, key)
  }

  /** The position of the first element of `xs` whose key is `name`, if any. */
  function IndexOf<T>(xs: seq<T>, key: T -> string, name: string): (r: Option<nat>)
    ensures r.Some? ==> r.value < |xs| && key(xs[r.value]) == name &&
                        forall j :: 0 <= j < r.value ==> key(xs[j]) != name
    ensures r.None? <==> name !in Names(xs, key)
  {
    if xs == [] then None
    else if key(xs[0]) == name then Some(0)
    else
      match IndexOf(xs[1..], key, name)
      case None =>
        assert Names(xs, key) == [key(xs[0])] + Names(xs[1..], key);
        None
      case Some(i) => Some(i + 1)
  }

  /** In a sequence without repeated keys, the element named `name` sits at `IndexOf`. */
  lemma IndexOfDistinct<T>(xs: seq<T>, key: T -> string, i: nat)
    requires DistinctKeys(xs, key) && i < |xs|
    ensures IndexOf(xs, key, key(xs[i])) == Some(i)
  {
    var r := IndexOf(xs, key, key(xs[i]));
    assert key(xs[i]) in Names(xs, key);
  }

  /** `s` without its element at `i`. */
  function RemoveAt<T>(s: seq<T>, i: nat): (r: seq<T>)
    requires i < |s|
    ensures |r| == |s| - 1
    ensures forall j :: 0 <= j < i ==> r[j] == s[j]
    ensures forall j :: i <= j < |r| ==> r[j] == s[j + 1]
  {
    s[..i] + s[i + 1..]
  }

  /** Removing one element of a sequence removes it from its multiset. */
  lemma RemoveAtMultiset<T>(s: seq<T>, i: nat)
    requires i < |s|
    ensures multiset(RemoveAt(s, i)) + multiset{s[i]} == multiset(s)
  {
    assert s == s[..i] + [s[i]] + s[i + 1..];
  }

  /**
   * The well-formedness the source keeps: no two child folders and no two
   * files of a folder share a name, and every file has a creation date.
   */
  ghost predicate Valid(f: Folder)
    decreases f
  {
    DistinctKeys(f.children, FolderName) && DistinctKeys(f.files, FileName) &&
    (forall i :: 0 <= i < |f.files| ==> f.files[i].createdDate != []) &&
    forall i :: 0 <= i < |f.children| ==> Valid(f.children[i])
  }

  /** The first element of `xs` whose key is `name`, if any: a name-keyed lookup. */
  function Find<T>(xs: seq<T>, key: T -> string, name: string): (r: Option<T>)
    ensures r.Some? ==> r.value in xs && key(r.value) == name
    ensures r.None? <==> name !in Names(xs, key)
  {
    match IndexOf(xs, key, name)
    case None => None
    case Some(i) => Some(xs[i])
  }

  /** Appending an element changes no lookup of another name, and finds the new one when it is new. */
  lemma FindAppend<T>(xs: seq<T>, x: T, key: T -> string, name: string)
    ensures name != key(x) ==> Find(xs + [x], key, name) == Find(xs, key, name)
    ensures name == key(x) && name !in Names(xs, key) ==> Find(xs + [x], key, name) == Some(x)
  {
    var ys := xs + [x];
    var a := IndexOf(xs, key, name);
    if a.Some? {
      assert ys[a.value] == xs[a.value];
      IndexOfFirst(ys, key, name, a.value);
    } else if name == key(x) {
      forall j | 0 <= j < |xs|
        ensures key(ys[j]) != name
      {
        assert Names(xs, key)[j] == key(xs[j]);
      }
      IndexOfFirst(ys, key, name, |xs|);
    }
  }

  /** The first position whose key is `name` is what `IndexOf` finds. */
  lemma IndexOfFirst<T>(xs: seq<T>, key: T -> string, name: string, k: nat)
    requires k < |xs| && key(xs[k]) == name
    requires forall j :: 0 <= j < k ==> key(xs[j]) != name
    ensures IndexOf(xs, key, name) == Some(k)
  {
    assert Names(xs, key)[k] == name;
  }

  /** Appending an element with a new key keeps the keys distinct. */
  lemma AppendDistinct<T>(xs: seq<T>, x: T, key: T -> string)
    requires DistinctKeys(xs, key) && key(x) !in Names(xs, key)
    ensures DistinctKeys(xs + [x], key)
  {
    var ys := xs + [x];
    forall i, j | 0 <= i < j < |ys|
      ensures key(ys[i]) != key(ys[j])
    {
      if j == |xs| {
        assert Names(xs, key)[i] == key(xs[i]);
      }
    }
  }

  /** In a sequence without repeated keys, the element with the key of `xs[i]` is `xs[i]`. */
  lemma FindDistinct<T>(xs: seq<T>, key: T -> string, i: nat)
    requires DistinctKeys(xs, key) && i < |xs|
    ensures Find(xs, key, key(xs[i])) == Some(xs[i])
  {
    assert Names(xs, key)[i] == key(xs[i]);
  }

  /** Removing one element of a sequence without repeated keys keeps every other lookup. */
  lemma FindRemoveAt<T>(xs: seq<T>, key: T -> string, i: nat, name: string)
    requires DistinctKeys(xs, key) && i < |xs|
    ensures DistinctKeys(RemoveAt(xs, i), key)
    ensures name == key(xs[i]) ==> Find(RemoveAt(xs, i), key, name) == None
    ensures name != key(xs[i]) ==> Find(RemoveAt(xs, i), key, name) == Find(xs, key, name)
  {
    var ys := RemoveAt(xs, i);
    RemoveAtDistinct(xs, key, i);
    if name != key(xs[i]) && name in Names(xs, key) {
      var j :| 0 <= j < |xs| && Names(xs, key)[j] == name;
      var k := if j < i then j else j - 1;
      assert ys[k] == xs[j];
      assert Names(ys, key)[k] == name;
    }
    if name in Names(ys, key) {
      var j :| 0 <= j < |ys| && Names(ys, key)[j] == name;
      var k := if j < i then j else j + 1;
      assert ys[j] == xs[k] && k != i;
      FindDistinct(ys, key, j);
      FindDistinct(xs, key, k);
    }
  }

  /** Removing one element keeps the keys distinct. */
  lemma RemoveAtDistinct<T>(xs: seq<T>, key: T -> string, i: nat)
    requires DistinctKeys(xs, key) && i < |xs|
    ensures DistinctKeys(RemoveAt(xs, i), key)
  {
    var ys := RemoveAt(xs, i);
    forall a, b | 0 <= a < b < |ys|
      ensures key(ys[a]) != key(ys[b])
    {
      var a', b' := if a < i then a else a + 1, if b < i then b else b + 1;
      assert ys[a] == xs[a'] && ys[b] == xs[b'] && a' < b';
    }
  }

  /** `get_folder_by_name` (utils/structures.py:200-204). */
  function GetFolderByName(f: Folder, name: string): Option<Folder>
  {
    Find(f.children, FolderName, name)
  }

  /** `get_file_by_name`, the hash table's `search` (utils/structures.py:236-240). */
  function GetFileByName(f: Folder, name: string): Option<File>
  {
    Find(f.files, FileName, name)
  }

  /**
   * `add_folder` (utils/structures.py:189-198): the parent with a new
   * empty child folder at the end, or None when the name is taken.
   */
  function AddFolder(f: Folder, name: string): Option<Folder>
  {
    if GetFolderByName(f, name).Some? then None
    else Some(f.(children := f.children + [Folder(name, [], [])]))
  }

  /**
   * `add_file` (utils/structures.py:226-234): the parent holding the new
   * file too, or None when a file of that name is already there.
   */
  function AddFile(f: Folder, file: File): Option<Folder>
  {
    if GetFileByName(f, file.name).Some? then None
    else Some(f.(files := f.files + [file]))
  }

  /**
   * `remove_folder_by_name` (utils/structures.py:206-211): the parent
   * without the child, and the child (`pop(name, None)`).
   */
  function RemoveFolderByName(f: Folder, name: string): (Folder, Option<Folder>)
  {
    match IndexOf(f.children, FolderName, name)
    case None => (f, None)
    case Some(i) => (f.(children := RemoveAt(f.children, i)), Some(f.children[i]))
  }

  /**
   * `remove_file_by_name` (utils/structures.py:242-247), the hash table's
   * `delete`: the parent without the file, and the file.
   */
  function RemoveFileByName(f: Folder, name: string): (Folder, Option<File>)
  {
    match IndexOf(f.files, FileName, name)
    case None => (f, None)
    case Some(i) => (f.(files := RemoveAt(f.files, i)), Some(f.files[i]))
  }

  /** Adding a folder: refused iff the name is taken; otherwise that name finds a new empty folder and nothing else changes. */
  lemma AddFolderSpec(f: Folder, name: string, other: string)
    ensures AddFolder(f, name).None? <==> name in Names(f.children, FolderName)
    ensures AddFolder(f, name).Some? ==>
              var g := AddFolder(f, name).value;
              g.name == f.name && g.files == f.files &&
              GetFolderByName(g, name) == Some(Folder(name, [], [])) &&
              (other != name ==> GetFolderByName(g, other) == GetFolderByName(f, other)) &&
              (Valid(f) ==> Valid(g))
  {
    var x := Folder(name, [], []);
    FindAppend(f.children, x, FolderName, name);
    FindAppend(f.children, x, FolderName, other);
    if AddFolder(f, name).Some? && Valid(f) {
      AddFolderValid(f, name);
    }
  }

  /** A new empty child with a fresh name keeps a folder well-formed. */
  lemma AddFolderValid(f: Folder, name: string)
    requires Valid(f) && AddFolder(f, name).Some?
    ensures Valid(AddFolder(f, name).value)
  {
    var x := Folder(name, [], []);
    var g := AddFolder(f, name).value;
    assert g.children == f.children + [x];
    AppendDistinct(f.children, x, FolderName);
    assert Valid(x);
    assert forall i :: 0 <= i < |f.children| ==> g.children[i] == f.children[i];
  }

  /** Adding a file: refused iff the name is taken; otherwise that name finds the file and nothing else changes. */
  lemma AddFileSpec(f: Folder, file: File, other: string)
    ensures AddFile(f, file).None? <==> file.name in Names(f.files, FileName)
    ensures AddFile(f, file).Some? ==>
              var g := AddFile(f, file).value;
              g.name == f.name && g.children == f.children &&
              GetFileByName(g, file.name) == Some(file) &&
              (other != file.name ==> GetFileByName(g, other) == GetFileByName(f, other)) &&
              (Valid(f) && file.createdDate != [] ==> Valid(g))
  {
    FindAppend(f.files, file, FileName, file.name);
    FindAppend(f.files, file, FileName, other);
    if AddFile(f, file).Some? {
      var g := AddFile(f, file).value;
      assert g.files == f.files + [file];
      if Valid(f) && file.createdDate != [] {
        AppendDistinct(f.files, file, FileName);
      }
    }
  }

  /**
   * Removing a folder by name returns the child of that name, if any; the
   * name then finds nothing, every other name finds what it found before,
   * the files are untouched and well-formedness is kept.
   */
  lemma RemoveFolderSpec(f: Folder, name: string, other: string)
    requires Valid(f)
    ensures RemoveFolderByName(f, name).1 == GetFolderByName(f, name)
    ensures var (g, c) := RemoveFolderByName(f, name);
            (c.None? ==> g == f) &&
            (c.Some? ==> g.name == f.name && g.files == f.files && Valid(g) &&
                         GetFolderByName(g, name) == None &&
                         (other != name ==> GetFolderByName(g, other) == GetFolderByName(f, other)) &&
                         multiset(g.children) + multiset{c.value} == multiset(f.children))
  {
    var r := IndexOf(f.children, FolderName, name);
    if r.Some? {
      var i := r.value;
      FindRemoveAt(f.children, FolderName, i, name);
      FindRemoveAt(f.children, FolderName, i, other);
      RemoveAtMultiset(f.children, i);
      RemoveChildValid(f, i);
    }
  }

  /** Taking out a child keeps a folder well-formed. */
  lemma RemoveChildValid(f: Folder, i: nat)
    requires Valid(f) && i < |f.children|
    ensures Valid(f.(children := RemoveAt(f.children, i)))
  {
    var g := f.(children := RemoveAt(f.children, i));
    RemoveAtDistinct(f.children, FolderName, i);
    forall j | 0 <= j < |g.children|
      ensures Valid(g.children[j])
    {
      assert g.children[j] == f.children[if j < i then j else j + 1];
    }
  }

  /** Taking out a file keeps a folder well-formed. */
  lemma RemoveFileValid(f: Folder, i: nat)
    requires Valid(f) && i < |f.files|
    ensures Valid(f.(files := RemoveAt(f.files, i)))
  {
    var g := f.(files := RemoveAt(f.files, i));
    RemoveAtDistinct(f.files, FileName, i);
    forall j | 0 <= j < |g.files|
      ensures g.files[j].createdDate != []
    {
      assert g.files[j] == f.files[if j < i then j else j + 1];
    }
  }

  /**
   * Removing a file by name returns the file of that name, if any; the
   * name then finds nothing, every other name finds what it found before,
   * the child folders are untouched and well-formedness is kept.
   */
  lemma RemoveFileSpec(f: Folder, name: string, other: string)
    requires Valid(f)
    ensures RemoveFileByName(f, name).1 == GetFileByName(f, name)
    ensures var (g, d) := RemoveFileByName(f, name);
            (d.None? ==> g == f) &&
            (d.Some? ==> g.name == f.name && g.children == f.children && Valid(g) &&
                         GetFileByName(g, name) == None &&
                         (other != name ==> GetFileByName(g, other) == GetFileByName(f, other)) &&
                         multiset(g.files) + multiset{d.value} == multiset(f.files))
  {
    var r := IndexOf(f.files, FileName, name);
    if r.Some? {
      var i := r.value;
      FindRemoveAt(f.files, FileName, i, name);
      FindRemoveAt(f.files, FileName, i, other);
      RemoveAtMultiset(f.files, i);
      RemoveFileValid(f, i);
    }
  }

  /**
   * `get_path` (utils/structures.py:181-187) of the folder reached by
   * the names `path` from the root: "/" before every name.
   */
  function GetPath(path: seq<string>): string
    requires |path| >= 1
  {
    if |path| == 1 then "/" + path[0]
    else GetPath(path[..|path| - 1]) + "/" + path[|path| - 1]
  }

  /** The path of an item is its folder's path, "/" and its name. */
  lemma GetPathSnoc(path: seq<string>, name: string)
    requires |path| >= 1
    ensures GetPath(path + [name]) == GetPath(path) + "/" + name
  {
    assert (path + [name])[..|path|] == path;
  }

  /** The path is the names joined by "/" after a leading "/". */
  lemma {:induction false} GetPathJoin(path: seq<string>)
    requires |path| >= 1
    ensures GetPath(path) == Join([""] + path, '/')
    decreases |path|
  {
    if |path| > 1 {
      var init := path[..|path| - 1];
      GetPathJoin(init);
      JoinSnoc([""] + init, path[|path| - 1], '/');
      assert [""] + init + [path[|path| - 1]] == [""] + path;
    }
  }

  /** Joining with one more piece at the end. */
  lemma {:induction false} JoinSnoc(parts: seq<string>, last: string, sep: char)
    requires |parts| >= 1
    ensures Join(parts + [last], sep) == Join(parts, sep) + [sep] + last
    decreases |parts|
  {
    if |parts| > 1 {
      JoinSnoc(parts[1..], last, sep);
      assert (parts + [last])[1..] == parts[1..] + [last];
    }
  }

  /**
   * `delete_folder` (utils/structures.py:213-224) on the folder at `path`:
   * the parent without the child, the child's `to_dict` and its path.
   */
  function DeleteFolder(f: Folder, path: seq<string>, name: string): Deletion
    requires |path| >= 1
  {
    match RemoveFolderByName(f, name)
    case (_, None) => Missing
    case (g, Some(c)) => Deleted(g, FolderSnap(ToDict(c)), GetPath(path + [c.name]))
  }

  /**
   * `delete_file` (utils/structures.py:249-259) on the folder at `path`:
   * the parent without the file, the file's `to_dict` and its path.
   */
  function DeleteFile(f: Folder, path: seq<string>, name: string): Deletion
    requires |path| >= 1
  {
    match RemoveFileByName(f, name)
    case (_, None) => Missing
    case (g, Some(d)) => Deleted(g, FileSnap(FileToDict(d)), GetPath(path) + "/" + d.name)
  }

  /**
   * `delete_folder` finds nothing to delete exactly when no child has the
   * name; otherwise the parent loses exactly that child and the bin gets
   * the child's `to_dict` and its path, the parent's path and its name.
   */
  lemma DeleteFolderSpec(f: Folder, path: seq<string>, name: string, other: string)
    requires Valid(f) && |path| >= 1
    ensures DeleteFolder(f, path, name).Missing? <==> GetFolderByName(f, name).None?
    ensures DeleteFolder(f, path, name).Deleted? ==>
              var c := GetFolderByName(f, name).value;
              var del := DeleteFolder(f, path, name);
              c.name == name &&
              del.snapshot == FolderSnap(ToDict(c)) && del.fullPath == GetPath(path + [name]) &&
              del.parent.name == f.name && del.parent.files == f.files && Valid(del.parent) &&
              GetFolderByName(del.parent, name).None? &&
              (other != name ==> GetFolderByName(del.parent, other) == GetFolderByName(f, other))
  {
    RemoveFolderSpec(f, name, other);
  }

  /**
   * `delete_file` finds nothing to delete exactly when no file has the
   * name; otherwise the folder loses exactly that file and the bin gets
   * its record and the path "<folder path>/<name>".
   */
  lemma DeleteFileSpec(f: Folder, path: seq<string>, name: string, other: string)
    requires Valid(f) && |path| >= 1
    ensures DeleteFile(f, path, name).Missing? <==> GetFileByName(f, name).None?
    ensures DeleteFile(f, path, name).Deleted? ==>
              var d := GetFileByName(f, name).value;
              var del := DeleteFile(f, path, name);
              d.name == name &&
              del.snapshot == FileSnap(FileToDict(d)) && del.fullPath == GetPath(path) + "/" + name &&
              del.parent.name == f.name && del.parent.children == f.children && Valid(del.parent) &&
              GetFileByName(del.parent, name).None? &&
              (other != name ==> GetFileByName(del.parent, other) == GetFileByName(f, other))
  {
    RemoveFileSpec(f, name, other);
  }

  /** `get_sorted_files_by_name` (utils/structures.py:261-267). */
  function SortedFilesByName(f: Folder): seq<File>
  {
    SortBy(f.files, FileName)
  }

  /** `Folder.to_dict` (utils/structures.py:269-281): children and files each sorted by name. */
  function ToDict(f: Folder): FolderDict
    decreases f, 1
  {
    FolderDict(f.name, SortBy(ChildDicts(f), FolderDictName), SortBy(FileDicts(f.files), FileDictName))
  }

  /** The `to_dict` of every child folder, in the children's order. */
  function ChildDicts(f: Folder): (ds: seq<FolderDict>)
    ensures |ds| == |f.children|
    ensures forall i :: 0 <= i < |ds| ==> ds[i].name == f.children[i].name
    decreases f, 0
  {
    seq(|f.children|, i requires 0 <= i < |f.children| => ToDict(f.children[i]))
  }

  /** The `to_dict` of every file, in order. */
  function FileDicts(fs: seq<File>): (ds: seq<FileDict>)
    ensures |ds| == |fs| && forall i :: 0 <= i < |fs| ==> ds[i] == FileToDict(fs[i])
  {
    seq(|fs|, i requires 0 <= i < |fs| => FileToDict(fs[i]))
  }

  /** `get_sorted_files_by_name` is a name-ascending permutation of the folder's files. */
  lemma SortedFilesSpec(f: Folder)
    ensures SortedBy(SortedFilesByName(f), FileName)
    ensures multiset(SortedFilesByName(f)) == multiset(f.files)
  {
    SortSorted(f.files, FileName);
  }

  /**
   * A folder record in the form `to_dict` gives it: children and files in
   * name order without repeated names, every file dated, all the way down.
   */
  ghost predicate Canonical(d: FolderDict)
    decreases d
  {
    SortedBy(d.children, FolderDictName) && DistinctKeys(d.children, FolderDictName) &&
    SortedBy(d.files, FileDictName) && DistinctKeys(d.files, FileDictName) &&
    (forall i :: 0 <= i < |d.files| ==> d.files[i].createdDate != []) &&
    forall i :: 0 <= i < |d.children| ==> Canonical(d.children[i])
  }

  /** Sorting canonical records gives canonical records. */
  lemma SortKeepsCanonical(cs: seq<FolderDict>)
    requires forall k :: 0 <= k < |cs| ==> Canonical(cs[k])
    ensures forall k :: 0 <= k < |SortBy(cs, FolderDictName)| ==> Canonical(SortBy(cs, FolderDictName)[k])
  {
    var ss := SortBy(cs, FolderDictName);
    forall k | 0 <= k < |ss|
      ensures Canonical(ss[k])
    {
      assert ss[k] in multiset(cs);
      var j :| 0 <= j < |cs| && cs[j] == ss[k];
    }
  }

  /** Sorting dated file records gives dated file records. */
  lemma SortKeepsDated(fs: seq<FileDict>)
    requires forall k :: 0 <= k < |fs| ==> fs[k].createdDate != []
    ensures forall k :: 0 <= k < |SortBy(fs, FileDictName)| ==> SortBy(fs, FileDictName)[k].createdDate != []
  {
    var ss := SortBy(fs, FileDictName);
    forall k | 0 <= k < |ss|
      ensures ss[k].createdDate != []
    {
      assert ss[k] in multiset(fs);
      var j :| 0 <= j < |fs| && fs[j] == ss[k];
    }
  }

  /** The `to_dict` of a well-formed folder is canonical and carries the folder's name. */
  lemma {:induction false} ToDictCanonical(f: Folder)
    requires Valid(f)
    ensures ToDict(f).name == f.name && Canonical(ToDict(f))
    decreases f
  {
    var cs := ChildDicts(f);
    var fs := FileDicts(f.files);
    forall k | 0 <= k < |cs|
      ensures Canonical(cs[k])
    {
      ToDictCanonical(f.children[k]);
    }
    SortKeepsCanonical(cs);
    SortKeepsDated(fs);
    SortSorted(cs, FolderDictName);
    SortSorted(fs, FileDictName);
    assert DistinctKeys(cs, FolderDictName);
    assert DistinctKeys(fs, FileDictName);
    SortDistinct(cs, FolderDictName);
    SortDistinct(fs, FileDictName);
  }

  /** Taking an element out and appending one with the same image permutes the images. */
  lemma MapReplace<A, B>(xs: seq<A>, i: nat, y: A, h: A -> B)
    requires i < |xs| && h(y) == h(xs[i])
    ensures multiset(Map(RemoveAt(xs, i) + [y], h)) == multiset(Map(xs, h))
  {
    var ds := Map(xs, h);
    assert Map(RemoveAt(xs, i) + [y], h) == RemoveAt(ds, i) + [ds[i]];
    RemoveAtMultiset(ds, i);
  }

  /** The children's records are `to_dict` mapped over the children. */
  lemma ChildDictsMap(f: Folder)
    ensures ChildDicts(f) == Map(f.children, ToDict)
  {
  }

  /** Replacing a child by a folder with the same `to_dict` leaves the parent's `to_dict` unchanged. */
  lemma ReplaceInPlaceToDict(f: Folder, i: nat, c: Folder)
    requires i < |f.children| && ToDict(c) == ToDict(f.children[i])
    ensures ToDict(f.(children := f.children[i := c])) == ToDict(f)
  {
    var g := f.(children := f.children[i := c]);
    ChildDictsMap(f);
    ChildDictsMap(g);
    assert Map(g.children, ToDict) == Map(f.children, ToDict);
  }

  /**
   * Taking a child out and appending, at the end, a folder with the same
   * `to_dict` leaves the parent's `to_dict` unchanged: the records are
   * sorted by name, so the new position does not show.
   */
  lemma ReplaceChildToDict(f: Folder, i: nat, c: Folder)
    requires i < |f.children| && ToDict(c) == ToDict(f.children[i]) && DistinctKeys(f.children, FolderName)
    ensures ToDict(f.(children := RemoveAt(f.children, i) + [c])) == ToDict(f)
  {
    var g := f.(children := RemoveAt(f.children, i) + [c]);
    MapReplace(f.children, i, c, ToDict);
    ChildDictsMap(f);
    ChildDictsMap(g);
    ToDictPermuted(f, g);
  }

  /** `to_dict` sorts, so it sees the children's records only up to order. */
  lemma ToDictPermuted(f: Folder, g: Folder)
    requires f.name == g.name && f.files == g.files && DistinctKeys(f.children, FolderName)
    requires multiset(ChildDicts(f)) == multiset(ChildDicts(g))
    ensures ToDict(f) == ToDict(g)
  {
    SortDistinct(ChildDicts(f), FolderDictName);
    SortCanonical(ChildDicts(f), ChildDicts(g), FolderDictName);
  }

  /** The same for a file: a file with the same record appended in place of one taken out. */
  lemma ReplaceFileToDict(f: Folder, i: nat, d: File)
    requires i < |f.files| && FileToDict(d) == FileToDict(f.files[i]) && DistinctKeys(f.files, FileName)
    ensures ToDict(f.(files := RemoveAt(f.files, i) + [d])) == ToDict(f)
  {
    var g := f.(files := RemoveAt(f.files, i) + [d]);
    var ds := FileDicts(f.files);
    assert FileDicts(g.files) == RemoveAt(ds, i) + [ds[i]];
    RemoveAtMultiset(ds, i);
    SortDistinct(ds, FileDictName);
    SortCanonical(ds, FileDicts(g.files), FileDictName);
    assert ChildDicts(g) == ChildDicts(f);
  }
}
