/**
 * The routes of the web application that change the folder tree and the
 * recycle bin (app.py): `create_folder`, `delete_folder`, `add_file`, `delete_file`,
 * `restore_from_recycle_bin`, `permanent_delete_item` and
 * `empty_recycle_bin`.  Each route is a step function from the state (the
 * tree under the root folder and the bin's entries) to an outcome and a
 * new state; the class `FileSystem` holds that state in fields and runs
 * each route step by step, proved equal to its step function.
 */
module App {
  import opened Wrappers
  import opened Text
  import opened FileTree
  import opened Locations
  import opened Paths
  import opened Metadata
  import opened RecycleBins
  import opened Restore

  /** The HTTP status a route answers with: 200/201, 400, 403, 404 or 409. */
  datatype Outcome = Done | BadRequest | Forbidden | NotFound | Conflict

  /** The module-level `root_folder` and the entries of `recycle_bin`. */
  datatype State = State(root: Folder, bin: seq<BinItem>)

  datatype Response = Response(outcome: Outcome, state: State)

  /** The state the application starts in (app.py:24-27). */
  function Initial(): State
  {
    State(Folder("root", [], []), [])
  }

  /** The state every route keeps: a well-formed tree whose root folder is named "root". */
  ghost predicate Good(s: State)
  {
    Valid(s.root) && s.root.name == "root"
  }

  /**
   * `create_folder` (app.py:213-240): both fields required, the parent
   * looked up by path, refused when it already has a child of that name.
   */
  function CreateFolderStep(s: State, folderName: string, parentPath: string): (r: Response)
    ensures r.outcome == BadRequest <==> folderName == [] || parentPath == []
    ensures r.outcome != Forbidden
    ensures folderName != [] && parentPath != [] ==>
              (r.outcome == NotFound <==> Resolve(s.root, parentPath).None?) &&
              (r.outcome == Conflict <==>
                 Resolve(s.root, parentPath).Some? &&
                 GetFolderByName(Resolve(s.root, parentPath).value, folderName).Some?)
    ensures r.outcome != Done ==> r.state == s
    ensures r.state.bin == s.bin
    ensures r.outcome == Done ==>
              ParsePath(parentPath).Some? &&
              var loc := ParsePath(parentPath).value;
              Lookup(s.root, loc).Some? && AddFolder(Lookup(s.root, loc).value, folderName).Some? &&
              r.state.root == Update(s.root, loc, AddFolder(Lookup(s.root, loc).value, folderName).value) &&
              Lookup(r.state.root, loc).Some? &&
              GetFolderByName(Lookup(r.state.root, loc).value, folderName) == Some(Folder(folderName, [], []))
  {
    if folderName == [] || parentPath == [] then Response(BadRequest, s)
    else
      match ParsePath(parentPath)
      case None => Response(NotFound, s)
      case Some(loc) =>
        match Lookup(s.root, loc)
        case None => Response(NotFound, s)
        case Some(p) =>
          match AddFolder(p, folderName)
          case None => Response(Conflict, s)
          case Some(p') =>
            AddFolderSpec(p, folderName, "");
            LookupName(s.root, loc);
            LookupUpdate(s.root, loc, p');
            Response(Done, State(Update(s.root, loc, p'), s.bin))
  }

  /**
   * A successful `create_folder` changes the tree only at the parent: every
   * location that neither runs through the parent nor leads to it is as it was.
   */
  lemma CreateFolderElsewhere(s: State, folderName: string, parentPath: string, other: seq<string>)
    requires CreateFolderStep(s, folderName, parentPath).outcome == Done
    ensures var loc := ParsePath(parentPath).value;
            !(loc <= other) && !(other <= loc) ==>
              Lookup(CreateFolderStep(s, folderName, parentPath).state.root, other) == Lookup(s.root, other)
  {
    var loc := ParsePath(parentPath).value;
    var p := Lookup(s.root, loc).value;
    if !(loc <= other) && !(other <= loc) {
      LookupName(s.root, loc);
      UpdateElsewhere(s.root, loc, AddFolder(p, folderName).value, other);
    }
  }

  /**
   * `delete_folder` (app.py:244-280): both fields required, the root guard,
   * the parent looked up by path, then the child moved to the bin.
   */
  function DeleteFolderStep(s: State, folderName: string, parentPath: string): (r: Response)
    ensures r.outcome == BadRequest <==> folderName == [] || parentPath == []
    ensures r.outcome == Forbidden <==> folderName != [] && parentPath != [] && RootGuard(folderName, parentPath)
    ensures r.outcome != Conflict
    ensures folderName != [] && parentPath != [] && !RootGuard(folderName, parentPath) ==>
              (r.outcome == Done <==>
                 Resolve(s.root, parentPath).Some? &&
                 GetFolderByName(Resolve(s.root, parentPath).value, folderName).Some?)
    ensures r.outcome != Done ==> r.state == s
    ensures r.outcome == Done ==>
              |r.state.bin| == |s.bin| + 1 && r.state.bin[..|s.bin|] == s.bin &&
              r.state.bin[|s.bin|].data == FolderSnap(ToDict(GetFolderByName(Resolve(s.root, parentPath).value, folderName).value))
    ensures r.outcome == Done ==>
              ParsePath(parentPath).Some? &&
              var loc := ParsePath(parentPath).value;
              Lookup(s.root, loc).Some? &&
              r.state.root == Update(s.root, loc, RemoveFolderByName(Lookup(s.root, loc).value, folderName).0) &&
              r.state.bin[|s.bin|].originalPath == GetPath([s.root.name] + loc + [folderName])
  {
    if folderName == [] || parentPath == [] then Response(BadRequest, s)
    else if RootGuard(folderName, parentPath) then Response(Forbidden, s)
    else
      match ParsePath(parentPath)
      case None => Response(NotFound, s)
      case Some(loc) =>
        match Lookup(s.root, loc)
        case None => Response(NotFound, s)
        case Some(p) =>
          match FileTree.DeleteFolder(p, [s.root.name] + loc, folderName)
          case Missing => Response(NotFound, s)
          case Deleted(g, snap, path) =>
            assert (s.bin + [BinItem(path, snap)])[..|s.bin|] == s.bin;
            Response(Done, State(Update(s.root, loc, g), s.bin + [BinItem(path, snap)]))
  }

  /** `delete_file` (app.py:318-350): as `delete_folder`, without the root guard. */
  function DeleteFileStep(s: State, fileName: string, parentPath: string): (r: Response)
    ensures r.outcome == BadRequest <==> fileName == [] || parentPath == []
    ensures r.outcome != Forbidden && r.outcome != Conflict
    ensures fileName != [] && parentPath != [] ==>
              (r.outcome == Done <==>
                 Resolve(s.root, parentPath).Some? &&
                 GetFileByName(Resolve(s.root, parentPath).value, fileName).Some?)
    ensures r.outcome != Done ==> r.state == s
    ensures r.outcome == Done ==>
              |r.state.bin| == |s.bin| + 1 && r.state.bin[..|s.bin|] == s.bin &&
              r.state.bin[|s.bin|].data == FileSnap(FileToDict(GetFileByName(Resolve(s.root, parentPath).value, fileName).value))
    ensures r.outcome == Done ==>
              ParsePath(parentPath).Some? &&
              var loc := ParsePath(parentPath).value;
              Lookup(s.root, loc).Some? &&
              r.state.root == Update(s.root, loc, RemoveFileByName(Lookup(s.root, loc).value, fileName).0) &&
              r.state.bin[|s.bin|].originalPath == GetPath([s.root.name] + loc) + "/" + fileName
  {
    if fileName == [] || parentPath == [] then Response(BadRequest, s)
    else
      match ParsePath(parentPath)
      case None => Response(NotFound, s)
      case Some(loc) =>
        match Lookup(s.root, loc)
        case None => Response(NotFound, s)
        case Some(p) =>
          match FileTree.DeleteFile(p, [s.root.name] + loc, fileName)
          case Missing => Response(NotFound, s)
          case Deleted(g, snap, path) =>
            assert (s.bin + [BinItem(path, snap)])[..|s.bin|] == s.bin;
            Response(Done, State(Update(s.root, loc, g), s.bin + [BinItem(path, snap)]))
  }

  /**
   * The file `add_file` creates (app.py:287-294, 306): no content, the
   * tags and the file type normalised, dated `now`.
   */
  function NewUpload(fileName: string, author: string, tags: string, fileType: string, now: string): (f: File)
    ensures f.name == fileName && f.content == [] && f.author == author && f.createdDate == now
    ensures f.tags == ParseTags(tags) && f.fileType == NormaliseFileType(fileType)
  {
    NewFile(fileName, "", author, "", ParseTags(tags), NormaliseFileType(fileType), now)
  }

  /**
   * `add_file` (app.py:284-314): the tags and the file type normalised
   * (lines 293-294), a new file without content dated `now`, refused when
   * the parent already has a file of that name.
   */
  function AddFileStep(s: State, fileName: string, parentPath: string, author: string,
                       tags: string, fileType: string, now: string): (r: Response)
    ensures r.outcome == BadRequest <==> fileName == [] || parentPath == []
    ensures r.outcome != Forbidden
    ensures fileName != [] && parentPath != [] ==>
              (r.outcome == NotFound <==> Resolve(s.root, parentPath).None?) &&
              (r.outcome == Conflict <==>
                 Resolve(s.root, parentPath).Some? &&
                 GetFileByName(Resolve(s.root, parentPath).value, fileName).Some?)
    ensures r.outcome != Done ==> r.state == s
    ensures r.state.bin == s.bin
  {
    var file := NewUpload(fileName, author, tags, fileType, now);
    if fileName == [] || parentPath == [] then Response(BadRequest, s)
    else
      match ParsePath(parentPath)
      case None => Response(NotFound, s)
      case Some(loc) =>
        match Lookup(s.root, loc)
        case None => Response(NotFound, s)
        case Some(p) =>
          match FileTree.AddFile(p, file)
          case None => Response(Conflict, s)
          case Some(p') => Response(Done, State(Update(s.root, loc, p'), s.bin))
  }

  /** `add_file` succeeds with the parent replaced by the parent holding the new file. */
  lemma AddFileDone(s: State, fileName: string, parentPath: string, author: string,
                    tags: string, fileType: string, now: string)
    requires fileName != [] && parentPath != [] && Resolve(s.root, parentPath).Some?
    requires var file := NewUpload(fileName, author, tags, fileType, now);
             FileTree.AddFile(Resolve(s.root, parentPath).value, file).Some?
    ensures var file := NewUpload(fileName, author, tags, fileType, now);
            var loc := ParsePath(parentPath).value;
            AddFileStep(s, fileName, parentPath, author, tags, fileType, now) ==
              Response(Done, State(Update(s.root, loc, FileTree.AddFile(Resolve(s.root, parentPath).value, file).value), s.bin))
  {
  }

  /** The parent path a bin entry is restored into (app.py:466-481). */
  function ParentOf(item: BinItem): Option<string>
  {
    RestoreParent(item.originalPath, item.data.Name())
  }

  /**
   * `restore_from_recycle_bin` (app.py:452-534): the entry at the index,
   * its parent path derived from the path it was deleted from, a conflict
   * when the parent already holds an item of the same kind and name, else
   * the item rebuilt into the parent and the entry taken out of the bin.
   */
  function RestoreStep(s: State, index: Option<int>, now: string): (r: Response)
    ensures r.outcome == BadRequest <==>
              index.None? || (ItemAt(s.bin, index.value).Some? && ParentOf(ItemAt(s.bin, index.value).value).None?)
    ensures r.outcome == NotFound <==>
              index.Some? &&
              (ItemAt(s.bin, index.value).None? ||
               (ParentOf(ItemAt(s.bin, index.value).value).Some? &&
                Resolve(s.root, ParentOf(ItemAt(s.bin, index.value).value).value).None?))
    ensures r.outcome != Forbidden
    ensures r.outcome == Conflict <==>
              index.Some? && ItemAt(s.bin, index.value).Some? &&
              var item := ItemAt(s.bin, index.value).value;
              ParentOf(item).Some? && Resolve(s.root, ParentOf(item).value).Some? &&
              var p := Resolve(s.root, ParentOf(item).value).value;
              match item.data
              case FileSnap(d) => GetFileByName(p, d.name).Some?
              case FolderSnap(d) => GetFolderByName(p, d.name).Some?
    ensures r.outcome != Done ==> r.state == s
    ensures r.outcome == Done ==> index.Some? && ItemAt(s.bin, index.value).Some? &&
                                  r.state.bin == Without(s.bin, index.value)
  {
    match index
    case None => Response(BadRequest, s)
    case Some(i) =>
      match ItemAt(s.bin, i)
      case None => Response(NotFound, s)
      case Some(item) =>
        match ParentOf(item)
        case None => Response(BadRequest, s)
        case Some(parentPath) =>
          match ParsePath(parentPath)
          case None => Response(NotFound, s)
          case Some(loc) =>
            match Lookup(s.root, loc)
            case None => Response(NotFound, s)
            case Some(p) =>
              match item.data
              case FileSnap(d) =>
                (match FileTree.AddFile(p, MakeFile(d, now))
                 case None => Response(Conflict, s)
                 case Some(p') => Response(Done, State(Update(s.root, loc, p'), Without(s.bin, i))))
              case FolderSnap(d) =>
                (match RestoreInto(p, d, now)
                 case None => Response(Conflict, s)
                 case Some(p') => Response(Done, State(Update(s.root, loc, p'), Without(s.bin, i))))
  }

  /**
   * The parent after a bin entry is put back into it (app.py:496-524): a
   * file rebuilt from its record, or a folder rebuilt from its snapshot as
   * the last child; None when the parent already holds an item of that
   * kind and name.
   */
  function RestoreItem(p: Folder, data: Snapshot, now: string): (r: Option<Folder>)
    ensures r.Some? ==> r.value.name == p.name
    ensures data.FileSnap? ==>
              (r.None? <==> data.file.name in Names(p.files, FileName)) &&
              (r.Some? ==> r.value.children == p.children &&
                           GetFileByName(r.value, data.file.name) == Some(MakeFile(data.file, now)))
    ensures data.FolderSnap? ==>
              (r.None? <==> data.folder.name in Names(p.children, FolderName)) &&
              (r.Some? ==> r.value.files == p.files && r.value.children == p.children + [Build(data.folder, now)])
  {
    match data
    case FileSnap(d) =>
      AddFileSpec(p, MakeFile(d, now), "");
      FileTree.AddFile(p, MakeFile(d, now))
    case FolderSnap(d) => RestoreInto(p, d, now)
  }

  /**
   * A successful restore puts the entry's item into the folder its parent
   * path names, as `RestoreItem` says, and leaves every location that
   * neither runs through that folder nor leads to it as it was.
   */
  lemma RestoreDone(s: State, i: int, now: string, other: seq<string>)
    requires RestoreStep(s, Some(i), now).outcome == Done
    ensures ItemAt(s.bin, i).Some? && ParentOf(ItemAt(s.bin, i).value).Some?
    ensures var item := ItemAt(s.bin, i).value;
            ParsePath(ParentOf(item).value).Some? &&
            var loc := ParsePath(ParentOf(item).value).value;
            var root' := RestoreStep(s, Some(i), now).state.root;
            Lookup(s.root, loc).Some? && RestoreItem(Lookup(s.root, loc).value, item.data, now).Some? &&
            root' == Update(s.root, loc, RestoreItem(Lookup(s.root, loc).value, item.data, now).value) &&
            Lookup(root', loc) == RestoreItem(Lookup(s.root, loc).value, item.data, now) &&
            (!(loc <= other) && !(other <= loc) ==> Lookup(root', other) == Lookup(s.root, other))
  {
    var item := ItemAt(s.bin, i).value;
    var loc := ParsePath(ParentOf(item).value).value;
    var p := Lookup(s.root, loc).value;
    var p' := RestoreItem(p, item.data, now).value;
    LookupName(s.root, loc);
    LookupUpdate(s.root, loc, p');
    if !(loc <= other) && !(other <= loc) {
      UpdateElsewhere(s.root, loc, p', other);
    }
  }

  /** `permanent_delete_item` (app.py:538-555): the entry dropped; the tree is never touched. */
  function PermanentDeleteStep(s: State, index: Option<int>): (r: Response)
    ensures r.state.root == s.root
    ensures r.outcome == BadRequest <==> index.None?
    ensures r.outcome == Done <==> index.Some? && ItemAt(s.bin, index.value).Some?
    ensures r.outcome == NotFound <==> index.Some? && ItemAt(s.bin, index.value).None?
    ensures r.outcome == Done ==> r.state.bin == Without(s.bin, index.value) && |r.state.bin| == |s.bin| - 1
    ensures r.outcome != Done ==> r.state == s
  {
    match index
    case None => Response(BadRequest, s)
    case Some(i) =>
      if ItemAt(s.bin, i).None? then Response(NotFound, s)
      else Response(Done, s.(bin := Without(s.bin, i)))
  }

  /** `empty_recycle_bin` (app.py:559-566): every entry gone, the tree untouched. */
  function EmptyBinStep(s: State): (r: Response)
    ensures r.outcome == Done && r.state.root == s.root && r.state.bin == []
  {
    Response(Done, s.(bin := []))
  }

  /** Replacing the folder at a location of a good tree by a well-formed folder of the same name keeps it good. */
  lemma ReplaceGood(s: State, loc: seq<string>, g: Folder)
    requires Good(s) && Lookup(s.root, loc).Some? && Valid(g) && g.name == Lookup(s.root, loc).value.name
    ensures Good(State(Update(s.root, loc, g), s.bin))
  {
    UpdateValid(s.root, loc, g);
    LookupName(s.root, loc);
  }

  /** `create_folder` keeps the tree well-formed and the root named "root". */
  lemma CreateFolderGood(s: State, folderName: string, parentPath: string)
    requires Good(s)
    ensures Good(CreateFolderStep(s, folderName, parentPath).state)
  {
    if CreateFolderStep(s, folderName, parentPath).outcome == Done {
      var loc := ParsePath(parentPath).value;
      var p := Lookup(s.root, loc).value;
      LookupValid(s.root, loc);
      AddFolderSpec(p, folderName, "");
      ReplaceGood(s, loc, AddFolder(p, folderName).value);
    }
  }

  /** `delete_folder` keeps the tree well-formed and the root named "root". */
  lemma DeleteFolderGood(s: State, folderName: string, parentPath: string)
    requires Good(s)
    ensures Good(DeleteFolderStep(s, folderName, parentPath).state)
  {
    if DeleteFolderStep(s, folderName, parentPath).outcome == Done {
      var loc := ParsePath(parentPath).value;
      var p := Lookup(s.root, loc).value;
      LookupValid(s.root, loc);
      RemoveFolderSpec(p, folderName, "");
      ReplaceGood(s, loc, RemoveFolderByName(p, folderName).0);
    }
  }

  /** `delete_file` keeps the tree well-formed and the root named "root". */
  lemma DeleteFileGood(s: State, fileName: string, parentPath: string)
    requires Good(s)
    ensures Good(DeleteFileStep(s, fileName, parentPath).state)
  {
    if DeleteFileStep(s, fileName, parentPath).outcome == Done {
      var loc := ParsePath(parentPath).value;
      var p := Lookup(s.root, loc).value;
      LookupValid(s.root, loc);
      RemoveFileSpec(p, fileName, "");
      ReplaceGood(s, loc, RemoveFileByName(p, fileName).0);
    }
  }

  /** `add_file` keeps the tree well-formed, given a clock reading to date the new file with. */
  lemma AddFileGood(s: State, fileName: string, parentPath: string, author: string,
                    tags: string, fileType: string, now: string)
    requires Good(s) && now != []
    ensures Good(AddFileStep(s, fileName, parentPath, author, tags, fileType, now).state)
  {
    if AddFileStep(s, fileName, parentPath, author, tags, fileType, now).outcome == Done {
      var file := NewUpload(fileName, author, tags, fileType, now);
      var loc := ParsePath(parentPath).value;
      var p := Lookup(s.root, loc).value;
      LookupValid(s.root, loc);
      AddFileSpec(p, file, "");
      ReplaceGood(s, loc, FileTree.AddFile(p, file).value);
    }
  }

  /**
   * Restoring keeps the tree well-formed whatever the bin holds: a file
   * comes back dated and a rebuilt folder skips every duplicate name.
   */
  lemma RestoreGood(s: State, index: Option<int>, now: string)
    requires Good(s) && now != []
    ensures Good(RestoreStep(s, index, now).state)
  {
    if RestoreStep(s, index, now).outcome == Done {
      var item := ItemAt(s.bin, index.value).value;
      var loc := ParsePath(ParentOf(item).value).value;
      var p := Lookup(s.root, loc).value;
      LookupValid(s.root, loc);
      match item.data
      case FileSnap(d) =>
        AddFileSpec(p, MakeFile(d, now), "");
        ReplaceGood(s, loc, FileTree.AddFile(p, MakeFile(d, now)).value);
      case FolderSnap(d) =>
        BuildValid(d, now);
        AppendChildValid(p, Build(d, now));
        ReplaceGood(s, loc, RestoreInto(p, d, now).value);
    }
  }

  /** A request to one of the routes, with its form fields. */
  datatype Request =
    | CreateFolderRequest(folderName: string, parentPath: string)
    | DeleteFolderRequest(folderName: string, parentPath: string)
    | AddFileRequest(fileName: string, parentPath: string, author: string, tags: string, fileType: string)
    | DeleteFileRequest(fileName: string, parentPath: string)
    | RestoreRequest(index: Option<int>)
    | PermanentDeleteRequest(index: Option<int>)
    | EmptyBinRequest

  /** The route a request goes to; `now` is the clock reading while it is served. */
  function Run(s: State, req: Request, now: string): Response
  {
    match req
    case CreateFolderRequest(n, p) => CreateFolderStep(s, n, p)
    case DeleteFolderRequest(n, p) => DeleteFolderStep(s, n, p)
    case AddFileRequest(n, p, a, t, ft) => AddFileStep(s, n, p, a, t, ft, now)
    case DeleteFileRequest(n, p) => DeleteFileStep(s, n, p)
    case RestoreRequest(i) => RestoreStep(s, i, now)
    case PermanentDeleteRequest(i) => PermanentDeleteStep(s, i)
    case EmptyBinRequest => EmptyBinStep(s)
  }

  /** The state after serving `reqs` in order from `s`, the `k`-th at clock reading `clock[k]`. */
  function RunAll(s: State, reqs: seq<Request>, clock: seq<string>): State
    requires |clock| == |reqs|
    decreases |reqs|
  {
    if reqs == [] then s
    else RunAll(Run(s, reqs[0], clock[0]).state, reqs[1..], clock[1..])
  }

  /** Every route keeps the state good. */
  lemma RunGood(s: State, req: Request, now: string)
    requires Good(s) && now != []
    ensures Good(Run(s, req, now).state)
  {
    match req
    case CreateFolderRequest(n, p) => CreateFolderGood(s, n, p);
    case DeleteFolderRequest(n, p) => DeleteFolderGood(s, n, p);
    case AddFileRequest(n, p, a, t, ft) => AddFileGood(s, n, p, a, t, ft, now);
    case DeleteFileRequest(n, p) => DeleteFileGood(s, n, p);
    case RestoreRequest(i) => RestoreGood(s, i, now);
    case PermanentDeleteRequest(i) =>
    case EmptyBinRequest =>
  }

  /**
   * Whatever requests arrive, the tree stays well-formed and its root is
   * the folder "root": no two siblings share a name, every file is dated.
   */
  lemma ReachableGood(reqs: seq<Request>, clock: seq<string>)
    requires |clock| == |reqs| && forall k :: 0 <= k < |clock| ==> clock[k] != []
    ensures Good(RunAll(Initial(), reqs, clock))
  {
    RunAllGood(Initial(), reqs, clock);
  }

  /** Serving requests one after the other from a good state keeps it good. */
  lemma {:induction false} RunAllGood(s: State, reqs: seq<Request>, clock: seq<string>)
    requires Good(s) && |clock| == |reqs| && forall k :: 0 <= k < |clock| ==> clock[k] != []
    ensures Good(RunAll(s, reqs, clock))
    decreases |reqs|
  {
    if reqs != [] {
      RunGood(s, reqs[0], clock[0]);
      RunAllGood(Run(s, reqs[0], clock[0]).state, reqs[1..], clock[1..]);
    }
  }

  /**
   * `delete_folder` on a child of the folder at `loc`, whatever spelling
   * of that folder's path the request gives: the child leaves, its
   * snapshot enters the bin under the path `get_path` gives it.
   */
  lemma DeleteFolderState(s: State, loc: seq<string>, name: string, parentPath: string)
    requires Lookup(s.root, loc).Some? && GetFolderByName(Lookup(s.root, loc).value, name).Some?
    requires ParsePath(parentPath) == Some(loc) && name != []
    requires !RootGuard(name, parentPath)
    ensures var p := Lookup(s.root, loc).value;
            var i := IndexOf(p.children, FolderName, name).value;
            DeleteFolderStep(s, name, parentPath) ==
              Response(Done, State(Update(s.root, loc, p.(children := RemoveAt(p.children, i))),
                                   s.bin + [BinItem(GetPath([s.root.name] + loc + [name]), FolderSnap(ToDict(p.children[i])))]))
  {
  }

  /** `p` with the child named `name` taken out and `b` appended at the end. */
  function FolderBack(p: Folder, name: string, b: Folder): Folder
    requires GetFolderByName(p, name).Some?
  {
    p.(children := RemoveAt(p.children, IndexOf(p.children, FolderName, name).value) + [b])
  }

  /** The entry a folder's deletion appended, restored: the rebuilt folder goes back at the end of its parent, the entry leaves the bin. */
  lemma RestoreFolderState(s: State, loc: seq<string>, name: string, now: string)
    requires Valid(s.root) && s.root.name == "root"
    requires forall i :: 0 <= i < |loc| ==> PathSafe(loc[i])
    requires PathSafe(name)
    requires Lookup(s.root, loc).Some? && GetFolderByName(Lookup(s.root, loc).value, name).Some?
    ensures var p := Lookup(s.root, loc).value;
            var c := GetFolderByName(p, name).value;
            var g := p.(children := RemoveAt(p.children, IndexOf(p.children, FolderName, name).value));
            var item := BinItem(GetPath(["root"] + loc + [name]), FolderSnap(ToDict(c)));
            RestoreStep(State(Update(s.root, loc, g), s.bin + [item]), Some(|s.bin|), now) ==
              Response(Done, State(Update(s.root, loc, FolderBack(p, name, Build(ToDict(c), now))), s.bin))
  {
    var p := Lookup(s.root, loc).value;
    var i := IndexOf(p.children, FolderName, name).value;
    var c := p.children[i];
    var g := p.(children := RemoveAt(p.children, i));
    var p' := g.(children := g.children + [Build(ToDict(c), now)]);
    var item := BinItem(GetPath(["root"] + loc + [name]), FolderSnap(ToDict(c)));
    LookupValid(s.root, loc);
    FindDistinct(p.children, FolderName, i);
    ToDictCanonical(c);
    AddThenRemoveLast(s.bin, item);
    RestoreParentOfChild(loc, name);
    ResolveGetPath(loc);
    LookupName(s.root, loc);
    LookupUpdate(s.root, loc, g);
    FindRemoveAt(p.children, FolderName, i, name);
    assert RestoreInto(g, ToDict(c), now) == Some(p');
    UpdateTwice(s.root, loc, g, p');
  }

  /**
   * Putting back, at the end, a folder with the same `to_dict` as the
   * child named `name` leaves the `to_dict` of the whole tree unchanged.
   */
  lemma FolderBackToDict(root: Folder, loc: seq<string>, name: string, b: Folder)
    requires Valid(root) && Lookup(root, loc).Some? && GetFolderByName(Lookup(root, loc).value, name).Some?
    requires ToDict(b) == ToDict(GetFolderByName(Lookup(root, loc).value, name).value)
    ensures ToDict(Update(root, loc, FolderBack(Lookup(root, loc).value, name, b))) == ToDict(root)
  {
    var p := Lookup(root, loc).value;
    var i := IndexOf(p.children, FolderName, name).value;
    LookupValid(root, loc);
    FindDistinct(p.children, FolderName, i);
    ReplaceChildToDict(p, i, b);
    ToDictUpdate(root, loc, FolderBack(p, name, b));
  }

  /** After the child named `name` is put back as `b`, the folder at `loc` finds `b` by that name. */
  lemma FolderBackFound(root: Folder, loc: seq<string>, name: string, b: Folder)
    requires Valid(root) && Lookup(root, loc).Some? && GetFolderByName(Lookup(root, loc).value, name).Some?
    requires b.name == name
    ensures var p' := FolderBack(Lookup(root, loc).value, name, b);
            Lookup(Update(root, loc, p'), loc) == Some(p') && GetFolderByName(p', name) == Some(b)
  {
    var p := Lookup(root, loc).value;
    var i := IndexOf(p.children, FolderName, name).value;
    var g := p.(children := RemoveAt(p.children, i));
    LookupValid(root, loc);
    LookupUpdate(root, loc, FolderBack(p, name, b));
    FindRemoveAt(p.children, FolderName, i, name);
    FindAppend(g.children, b, FolderName, name);
  }

  /**
   * Deleting a folder and then restoring the bin entry that made gives
   * back the bin as it was and puts the folder, rebuilt from its
   * snapshot, back as the last child of its parent.  It needs names that
   * survive a path string and a request the root guard lets through; the
   * request may spell the parent's path any way that resolves to it
   * ("root", "/root/a/", or the `get_path` form, which `ResolveGetPath`
   * shows resolves).
   */
  lemma DeleteThenRestoreFolder(s: State, loc: seq<string>, name: string, parentPath: string, now: string)
    requires Good(s)
    requires forall i :: 0 <= i < |loc| ==> PathSafe(loc[i])
    requires PathSafe(name) && ParsePath(parentPath) == Some(loc) && !RootGuard(name, parentPath)
    requires Lookup(s.root, loc).Some? && GetFolderByName(Lookup(s.root, loc).value, name).Some?
    ensures var r1 := DeleteFolderStep(s, name, parentPath);
            var r2 := RestoreStep(r1.state, Some(|s.bin|), now);
            var p := Lookup(s.root, loc).value;
            r1.outcome == Done && r2.outcome == Done && r2.state.bin == s.bin &&
            r2.state.root == Update(s.root, loc, FolderBack(p, name, Build(ToDict(GetFolderByName(p, name).value), now)))
  {
    var p := Lookup(s.root, loc).value;
    var i := IndexOf(p.children, FolderName, name).value;
    assert GetFolderByName(p, name) == Some(p.children[i]) by {
      LookupValid(s.root, loc);
      FindDistinct(p.children, FolderName, i);
    }
    DeleteFolderState(s, loc, name, parentPath);
    RestoreFolderState(s, loc, name, now);
  }

  /**
   * So a folder's delete and restore give back the tree as `to_dict` sees
   * it; the folder's name finds the rebuilt folder in its parent, and the
   * rebuilt folder's own `to_dict` is the deleted folder's (its files lose
   * their content, which the snapshot does not keep).
   */
  lemma DeleteThenRestoreFolderToDict(s: State, loc: seq<string>, name: string, parentPath: string, now: string)
    requires Good(s)
    requires forall i :: 0 <= i < |loc| ==> PathSafe(loc[i])
    requires PathSafe(name) && ParsePath(parentPath) == Some(loc) && !RootGuard(name, parentPath)
    requires Lookup(s.root, loc).Some? && GetFolderByName(Lookup(s.root, loc).value, name).Some?
    ensures var r2 := RestoreStep(DeleteFolderStep(s, name, parentPath).state, Some(|s.bin|), now);
            var c := GetFolderByName(Lookup(s.root, loc).value, name).value;
            ToDict(r2.state.root) == ToDict(s.root) &&
            Lookup(r2.state.root, loc).Some? &&
            GetFolderByName(Lookup(r2.state.root, loc).value, name) == Some(Build(ToDict(c), now)) &&
            ToDict(Build(ToDict(c), now)) == ToDict(c)
  {
    DeleteThenRestoreFolder(s, loc, name, parentPath, now);
    var c := GetFolderByName(Lookup(s.root, loc).value, name).value;
    var b := Build(ToDict(c), now);
    assert Valid(c) by {
      LookupValid(s.root, loc);
      assert c in Lookup(s.root, loc).value.children;
    }
    ToDictCanonical(c);
    BuildRoundTrip(ToDict(c), now);
    FolderBackToDict(s.root, loc, name, b);
    FolderBackFound(s.root, loc, name, b);
  }

  /**
   * `delete_file` on a file of the folder at `loc`, whatever spelling of
   * that folder's path the request gives: the file leaves, its record
   * enters the bin under the folder's `get_path` path and its name.
   */
  lemma DeleteFileState(s: State, loc: seq<string>, name: string, parentPath: string)
    requires Lookup(s.root, loc).Some? && GetFileByName(Lookup(s.root, loc).value, name).Some?
    requires ParsePath(parentPath) == Some(loc) && name != []
    ensures var p := Lookup(s.root, loc).value;
            var i := IndexOf(p.files, FileName, name).value;
            DeleteFileStep(s, name, parentPath) ==
              Response(Done, State(Update(s.root, loc, p.(files := RemoveAt(p.files, i))),
                                   s.bin + [BinItem(GetPath([s.root.name] + loc) + "/" + name, FileSnap(FileToDict(p.files[i])))]))
  {
  }

  /** `p` with the file named `name` taken out and `e` appended at the end. */
  function FileBack(p: Folder, name: string, e: File): Folder
    requires GetFileByName(p, name).Some?
  {
    p.(files := RemoveAt(p.files, IndexOf(p.files, FileName, name).value) + [e])
  }

  /**
   * Putting back, at the end, a file with the same record as the one
   * named `name` leaves the `to_dict` of the whole tree unchanged.
   */
  lemma FileBackToDict(root: Folder, loc: seq<string>, name: string, e: File)
    requires Valid(root) && Lookup(root, loc).Some? && GetFileByName(Lookup(root, loc).value, name).Some?
    requires FileToDict(e) == FileToDict(GetFileByName(Lookup(root, loc).value, name).value)
    ensures ToDict(Update(root, loc, FileBack(Lookup(root, loc).value, name, e))) == ToDict(root)
  {
    var p := Lookup(root, loc).value;
    var i := IndexOf(p.files, FileName, name).value;
    LookupValid(root, loc);
    FindDistinct(p.files, FileName, i);
    ReplaceFileToDict(p, i, e);
    ToDictUpdate(root, loc, FileBack(p, name, e));
  }

  /** After the file named `name` is put back as `e`, the folder at `loc` finds `e` by that name. */
  lemma FileBackFound(root: Folder, loc: seq<string>, name: string, e: File)
    requires Valid(root) && Lookup(root, loc).Some? && GetFileByName(Lookup(root, loc).value, name).Some?
    requires e.name == name
    ensures var p' := FileBack(Lookup(root, loc).value, name, e);
            Lookup(Update(root, loc, p'), loc) == Some(p') && GetFileByName(p', name) == Some(e)
  {
    var p := Lookup(root, loc).value;
    var i := IndexOf(p.files, FileName, name).value;
    var g := p.(files := RemoveAt(p.files, i));
    LookupValid(root, loc);
    LookupUpdate(root, loc, FileBack(p, name, e));
    FindRemoveAt(p.files, FileName, i, name);
    FindAppend(g.files, e, FileName, name);
  }

  /** The entry a file's deletion appended, restored: the file goes back at the end of its folder, the entry leaves the bin. */
  lemma RestoreFileState(s: State, loc: seq<string>, name: string, now: string)
    requires Valid(s.root) && s.root.name == "root"
    requires forall i :: 0 <= i < |loc| ==> PathSafe(loc[i])
    requires PathSafe(name)
    requires Lookup(s.root, loc).Some? && GetFileByName(Lookup(s.root, loc).value, name).Some?
    ensures var p := Lookup(s.root, loc).value;
            var d := GetFileByName(p, name).value;
            var g := p.(files := RemoveAt(p.files, IndexOf(p.files, FileName, name).value));
            var item := BinItem(GetPath(["root"] + loc) + "/" + name, FileSnap(FileToDict(d)));
            RestoreStep(State(Update(s.root, loc, g), s.bin + [item]), Some(|s.bin|), now) ==
              Response(Done, State(Update(s.root, loc, FileBack(p, name, d.(content := []))), s.bin))
  {
    var p := Lookup(s.root, loc).value;
    var i := IndexOf(p.files, FileName, name).value;
    var d := p.files[i];
    var g := p.(files := RemoveAt(p.files, i));
    var e := d.(content := []);
    var p' := g.(files := g.files + [e]);
    var item := BinItem(GetPath(["root"] + loc) + "/" + name, FileSnap(FileToDict(d)));
    LookupValid(s.root, loc);
    FindDistinct(p.files, FileName, i);
    AddThenRemoveLast(s.bin, item);
    GetPathSnoc(["root"] + loc, name);
    RestoreParentOfChild(loc, name);
    ResolveGetPath(loc);
    LookupName(s.root, loc);
    LookupUpdate(s.root, loc, g);
    MakeFileRoundTrip(d, FileToDict(d), now);
    FindRemoveAt(p.files, FileName, i, name);
    assert FileTree.AddFile(g, MakeFile(FileToDict(d), now)) == Some(p');
    UpdateTwice(s.root, loc, g, p');
  }

  /**
   * Deleting a file and then restoring the bin entry that made gives
   * back the bin as it was and puts the file back, at the end of its
   * folder's files, with every field but its content, which the snapshot
   * does not keep.  The request may spell the folder's path any way that
   * resolves to it.
   */
  lemma DeleteThenRestoreFile(s: State, loc: seq<string>, name: string, parentPath: string, now: string)
    requires Good(s)
    requires forall i :: 0 <= i < |loc| ==> PathSafe(loc[i])
    requires PathSafe(name) && ParsePath(parentPath) == Some(loc)
    requires Lookup(s.root, loc).Some? && GetFileByName(Lookup(s.root, loc).value, name).Some?
    ensures var r1 := DeleteFileStep(s, name, parentPath);
            var r2 := RestoreStep(r1.state, Some(|s.bin|), now);
            var p := Lookup(s.root, loc).value;
            r1.outcome == Done && r2.outcome == Done && r2.state.bin == s.bin &&
            r2.state.root == Update(s.root, loc, FileBack(p, name, GetFileByName(p, name).value.(content := [])))
  {
    var p := Lookup(s.root, loc).value;
    var i := IndexOf(p.files, FileName, name).value;
    assert GetFileByName(p, name) == Some(p.files[i]) by {
      LookupValid(s.root, loc);
      FindDistinct(p.files, FileName, i);
    }
    DeleteFileState(s, loc, name, parentPath);
    RestoreFileState(s, loc, name, now);
  }

  /**
   * So a file's delete and restore give back the tree as `to_dict` sees
   * it, and the file's name finds the restored file in its folder.
   */
  lemma DeleteThenRestoreFileToDict(s: State, loc: seq<string>, name: string, parentPath: string, now: string)
    requires Good(s)
    requires forall i :: 0 <= i < |loc| ==> PathSafe(loc[i])
    requires PathSafe(name) && ParsePath(parentPath) == Some(loc)
    requires Lookup(s.root, loc).Some? && GetFileByName(Lookup(s.root, loc).value, name).Some?
    ensures var r2 := RestoreStep(DeleteFileStep(s, name, parentPath).state, Some(|s.bin|), now);
            var d := GetFileByName(Lookup(s.root, loc).value, name).value;
            ToDict(r2.state.root) == ToDict(s.root) &&
            Lookup(r2.state.root, loc).Some? &&
            GetFileByName(Lookup(r2.state.root, loc).value, name) == Some(d.(content := []))
  {
    DeleteThenRestoreFile(s, loc, name, parentPath, now);
    var d := GetFileByName(Lookup(s.root, loc).value, name).value;
    FileBackToDict(s.root, loc, name, d.(content := []));
    FileBackFound(s.root, loc, name, d.(content := []));
  }

  /**
   * The application's state as the source keeps it: the module-level root
   * folder, replaced along a location wherever the source mutates a folder
   * object in place, and the recycle bin object (app.py:24-27).  Each
   * method runs one route step by step and is proved to answer and change
   * the state exactly as its step function says.
   */
  class FileSystem {
    var root: Folder
    const bin: RecycleBin

    constructor()
      ensures Current() == Initial() && fresh(bin)
    {
      root := Folder("root", [], []);
      bin := new RecycleBin();
    }

    /** The state the fields hold. */
    function Current(): State
      reads this, bin
    {
      State(root, bin.items)
    }

    /** `create_folder` (app.py:213-240). */
    method CreateFolder(folderName: string, parentPath: string) returns (outcome: Outcome)
      modifies this
      ensures Response(outcome, State(root, bin.items)) == CreateFolderStep(State(old(root), bin.items), folderName, parentPath)
    {
      if folderName == [] || parentPath == [] {
        return BadRequest;
      }
      var parent := FindFolderByPath(root, parentPath);
      if parent.None? {
        return NotFound;
      }
      var loc := ParsePath(parentPath).value;
      assert Lookup(root, loc) == parent;
      var added := AddFolder(parent.value, folderName);
      if added.None? {
        return Conflict;
      }
      root := Update(root, loc, added.value);
      return Done;
    }

    /** `delete_folder` (app.py:244-280). */
    method DeleteFolder(folderName: string, parentPath: string) returns (outcome: Outcome)
      modifies this, bin
      ensures Response(outcome, Current()) == DeleteFolderStep(old(Current()), folderName, parentPath)
    {
      if folderName == [] || parentPath == [] {
        return BadRequest;
      }
      if folderName == "root" && (parentPath == "/root" || parentPath == "root") {
        return Forbidden;
      }
      var parent := FindFolderByPath(root, parentPath);
      if parent.None? {
        return NotFound;
      }
      var loc := ParsePath(parentPath).value;
      match FileTree.DeleteFolder(parent.value, [root.name] + loc, folderName)
      case Missing =>
        return NotFound;
      case Deleted(g, snap, path) =>
        bin.AddItem(path, snap);
        root := Update(root, loc, g);
        return Done;
    }

    /** `add_file` (app.py:284-314), dating the new file with the clock reading `now`. */
    method AddFile(fileName: string, parentPath: string, author: string, tags: string, fileType: string,
                   now: string) returns (outcome: Outcome)
      modifies this
      ensures Response(outcome, State(root, bin.items)) == AddFileStep(State(old(root), bin.items), fileName, parentPath, author, tags, fileType, now)
    {
      ghost var before := State(root, bin.items);
      if fileName == [] || parentPath == [] {
        return BadRequest;
      }
      var parent := FindFolderByPath(root, parentPath);
      if parent.None? {
        return NotFound;
      }
      var loc := ParsePath(parentPath).value;
      assert Lookup(root, loc) == parent;
      var file := NewUpload(fileName, author, tags, fileType, now);
      var added := FileTree.AddFile(parent.value, file);
      if added.None? {
        return Conflict;
      }
      AddFileDone(before, fileName, parentPath, author, tags, fileType, now);
      root := Update(root, loc, added.value);
      return Done;
    }

    /** `delete_file` (app.py:318-350). */
    method DeleteFile(fileName: string, parentPath: string) returns (outcome: Outcome)
      modifies this, bin
      ensures Response(outcome, Current()) == DeleteFileStep(old(Current()), fileName, parentPath)
    {
      if fileName == [] || parentPath == [] {
        return BadRequest;
      }
      var parent := FindFolderByPath(root, parentPath);
      if parent.None? {
        return NotFound;
      }
      var loc := ParsePath(parentPath).value;
      match FileTree.DeleteFile(parent.value, [root.name] + loc, fileName)
      case Missing =>
        return NotFound;
      case Deleted(g, snap, path) =>
        bin.AddItem(path, snap);
        root := Update(root, loc, g);
        return Done;
    }

    /**
     * `restore_from_recycle_bin` (app.py:452-534): the entry, its parent
     * path, the conflict checks, the rebuild, then `remove_item`.
     */
    method RestoreFromRecycleBin(index: Option<int>, now: string) returns (outcome: Outcome)
      modifies this, bin
      ensures Response(outcome, Current()) == RestoreStep(old(Current()), index, now)
    {
      if index.None? {
        return BadRequest;
      }
      var item := bin.GetItem(index.value);
      if item.None? {
        return NotFound;
      }
      var parentPath := RestoreParent(item.value.originalPath, item.value.data.Name());
      if parentPath.None? {
        return BadRequest;
      }
      var parent := FindFolderByPath(root, parentPath.value);
      if parent.None? {
        return NotFound;
      }
      var loc := ParsePath(parentPath.value).value;
      if item.value.data.FileSnap? {
        var d := item.value.data.file;
        if GetFileByName(parent.value, d.name).Some? {
          return Conflict;
        }
        var added := FileTree.AddFile(parent.value, MakeFile(d, now));
        root := Update(root, loc, added.value);
      } else {
        var d := item.value.data.folder;
        if GetFolderByName(parent.value, d.name).Some? {
          return Conflict;
        }
        var restored := RestoreFolderRecursive(parent.value, d, now);
        root := Update(root, loc, restored.value);
      }
      var _ := bin.RemoveItem(index.value);
      return Done;
    }

    /** `permanent_delete_item` (app.py:538-555). */
    method PermanentDeleteItem(index: Option<int>) returns (outcome: Outcome)
      modifies bin
      ensures Response(outcome, Current()) == PermanentDeleteStep(old(Current()), index)
    {
      if index.None? {
        return BadRequest;
      }
      var deleted := bin.RemoveItem(index.value);
      if deleted.None? {
        return NotFound;
      }
      return Done;
    }

    /** `empty_recycle_bin` (app.py:559-566). */
    method EmptyRecycleBin() returns (outcome: Outcome)
      modifies bin
      ensures Response(outcome, Current()) == EmptyBinStep(old(Current()))
    {
      bin.Clear();
      return Done;
    }
  }
}
