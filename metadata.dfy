/**
 * File metadata as the web layer handles it: the tag list typed as one
 * comma-separated string and the lower-cased file type of a new file
 * (app.py:293-294), and the search by metadata over the whole tree
 * (app.py:386-414).
 */
module Metadata {
  import opened Text
  import opened FileTree
  import opened Traversal

  /** `[p.strip() for p in pieces if p.strip()]`. */
  function StrippedPieces(pieces: seq<string>): seq<string>
  {
    if pieces == [] then []
    else (if Strip(pieces[0]) == [] then [] else [Strip(pieces[0])]) + StrippedPieces(pieces[1..])
  }

  /** The tags of a new file: the comma-separated pieces, stripped, empty ones dropped (app.py:293). */
  function ParseTags(raw: string): seq<string>
  {
    StrippedPieces(Split(raw, ','))
  }

  /** The file type of a new file, lower-cased (app.py:294). */
  function NormaliseFileType(fileType: string): string
  {
    LowerStr(fileType)
  }

  /** The stripped form of a piece without commas has no comma either. */
  lemma StripKeeps(p: string, c: char)
    requires c !in p
    ensures c !in Strip(p) && Strip(Strip(p)) == Strip(p)
  {
    var i, j := StripSlice(p);
    StripIdempotent(p);
  }

  /**
   * A tag is kept exactly when it is the non-empty stripped form of one of
   * the pieces; so no kept tag is empty, none has surrounding whitespace.
   */
  lemma {:induction false} StrippedPiecesSpec(pieces: seq<string>, t: string)
    ensures t in StrippedPieces(pieces) <==> t != [] && exists i :: 0 <= i < |pieces| && Strip(pieces[i]) == t
    decreases |pieces|
  {
    if pieces != [] {
      StrippedPiecesSpec(pieces[1..], t);
      if exists i :: 0 <= i < |pieces[1..]| && Strip(pieces[1..][i]) == t {
        var i :| 0 <= i < |pieces[1..]| && Strip(pieces[1..][i]) == t;
        assert Strip(pieces[i + 1]) == t;
      }
      if exists i :: 0 <= i < |pieces| && Strip(pieces[i]) == t {
        var i :| 0 <= i < |pieces| && Strip(pieces[i]) == t;
        if i > 0 {
          assert Strip(pieces[1..][i - 1]) == t;
        }
      }
    }
  }

  /** No tag of a new file is empty, has a comma, or has whitespace at either end. */
  lemma ParseTagsClean(raw: string, t: string)
    requires t in ParseTags(raw)
    ensures t != [] && ',' !in t && Strip(t) == t
  {
    var pieces := Split(raw, ',');
    StrippedPiecesSpec(pieces, t);
    var i :| 0 <= i < |pieces| && Strip(pieces[i]) == t;
    StripKeeps(pieces[i], ',');
  }

  /** The search criteria, as `search_by_metadata` prepares them. */
  datatype Query = Query(name: string, author: string, tags: seq<string>, fileType: string)

  function LowerAll(ts: seq<string>): (r: seq<string>)
    ensures |r| == |ts|
  {
    seq(|ts|, i requires 0 <= i < |ts| => LowerStr(ts[i]))
  }

  /** The criteria from the request: everything lower-cased, the tags parsed like a new file's (app.py:390-394). */
  function QueryOf(name: string, author: string, tags: string, fileType: string): Query
  {
    Query(LowerStr(name), LowerStr(author), LowerAll(ParseTags(tags)), LowerStr(fileType))
  }

  /**
   * The match test of `search_by_metadata` (app.py:400-414): each
   * non-empty criterion must hold, name and author as substrings, the
   * file type exactly, and every searched tag among the file's tags, all
   * after lower-casing.
   */
  predicate Matches(q: Query, f: File)
  {
    (q.name == [] || Contains(q.name, LowerStr(f.name))) &&
    (q.author == [] || Contains(q.author, LowerStr(f.author))) &&
    (q.fileType == [] || q.fileType == LowerStr(f.fileType)) &&
    (q.tags == [] || forall i :: 0 <= i < |q.tags| ==> q.tags[i] in LowerAll(f.tags))
  }

  /** The records of the files of `fs` that match, in order. */
  function Selected(q: Query, fs: seq<File>): seq<FileDict>
  {
    if fs == [] then []
    else Selected(q, fs[..|fs| - 1]) + (if Matches(q, fs[|fs| - 1]) then [FileToDict(fs[|fs| - 1])] else [])
  }

  /** A record is selected exactly when it is the record of a matching file. */
  lemma {:induction false} SelectedSpec(q: Query, fs: seq<File>, d: FileDict)
    ensures d in Selected(q, fs) <==> exists i :: 0 <= i < |fs| && Matches(q, fs[i]) && FileToDict(fs[i]) == d
    decreases |fs|
  {
    if fs != [] {
      var init := fs[..|fs| - 1];
      SelectedSpec(q, init, d);
      if exists i :: 0 <= i < |init| && Matches(q, init[i]) && FileToDict(init[i]) == d {
        var i :| 0 <= i < |init| && Matches(q, init[i]) && FileToDict(init[i]) == d;
        assert fs[i] == init[i];
      }
      if exists i :: 0 <= i < |fs| && Matches(q, fs[i]) && FileToDict(fs[i]) == d {
        var i :| 0 <= i < |fs| && Matches(q, fs[i]) && FileToDict(fs[i]) == d;
        if i < |init| {
          assert init[i] == fs[i];
        }
      }
    }
  }

  /** Without criteria every file of the tree matches. */
  lemma EmptyQueryMatchesAll(f: File)
    ensures QueryOf("", "", "", "") == Query([], [], [], [])
    ensures Matches(QueryOf("", "", "", ""), f)
  {
    assert Split("", ',') == [[]];
    assert Strip([]) == [];
  }

  /** Searching for one more tag can only drop files. */
  lemma MoreTagsNarrow(q: Query, t: string, f: File)
    requires Matches(q.(tags := q.tags + [t]), f)
    ensures Matches(q, f)
  {
    var q' := q.(tags := q.tags + [t]);
    forall i | 0 <= i < |q.tags|
      ensures q.tags[i] in LowerAll(f.tags)
    {
      assert q'.tags[i] == q.tags[i];
    }
  }

  /** The case of the file's metadata does not matter: matching sees only its lower-cased form. */
  lemma MatchIgnoresCase(q: Query, f: File)
    ensures Matches(q, f) <==>
            Matches(q, f.(name := LowerStr(f.name), author := LowerStr(f.author),
                          fileType := LowerStr(f.fileType), tags := LowerAll(f.tags)))
  {
    LowerIdempotent(f.name);
    LowerIdempotent(f.author);
    LowerIdempotent(f.fileType);
    forall i | 0 <= i < |f.tags|
      ensures LowerAll(LowerAll(f.tags))[i] == LowerAll(f.tags)[i]
    {
      LowerIdempotent(f.tags[i]);
    }
    assert LowerAll(LowerAll(f.tags)) == LowerAll(f.tags);
  }

  /** The case of the typed criteria does not matter either. */
  lemma QueryIgnoresCase(name: string, author: string, tags: string, fileType: string)
    ensures QueryOf(LowerStr(name), LowerStr(author), tags, LowerStr(fileType)) == QueryOf(name, author, tags, fileType)
  {
    LowerIdempotent(name);
    LowerIdempotent(author);
    LowerIdempotent(fileType);
  }

  /** The match test on one file, criterion by criterion (app.py:400-411). */
  method MatchFile(q: Query, f: File) returns (isMatch: bool)
    ensures isMatch == Matches(q, f)
  {
    isMatch := true;
    if q.name != [] && !Contains(q.name, LowerStr(f.name)) {
      isMatch := false;
    }
    if q.author != [] && !Contains(q.author, LowerStr(f.author)) {
      isMatch := false;
    }
    if q.fileType != [] && q.fileType != LowerStr(f.fileType) {
      isMatch := false;
    }
    if q.tags != [] {
      var lowered := LowerAll(f.tags);
      if !(forall i | 0 <= i < |q.tags| :: q.tags[i] in lowered) {
        isMatch := false;
      }
    }
  }

  /** The loop of `search_by_metadata` over the collected files (app.py:399-439). */
  method SelectMatching(q: Query, allFiles: seq<File>) returns (results: seq<FileDict>)
    ensures results == Selected(q, allFiles)
  {
    results := [];
    for k := 0 to |allFiles|
      invariant results == Selected(q, allFiles[..k])
    {
      var isMatch := MatchFile(q, allFiles[k]);
      assert allFiles[..k + 1][..k] == allFiles[..k];
      if isMatch {
        results := results + [FileToDict(allFiles[k])];
      }
    }
    assert allFiles[..|allFiles|] == allFiles;
  }

  /**
   * `search_by_metadata` (app.py:386-439): collect every file of the tree
   * with the breadth-first walk and keep the record of each that matches.
   */
  method SearchByMetadata(root: Folder, name: string, author: string, tags: string, fileType: string)
    returns (results: seq<FileDict>)
    ensures results == Selected(QueryOf(name, author, tags, fileType), FilesOf(BfsOrder([root])))
  {
    var q := QueryOf(name, author, tags, fileType);
    var allFiles, _ := TraverseAndCollect(root);
    results := SelectMatching(q, allFiles);
  }
}
