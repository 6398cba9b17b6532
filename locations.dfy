/**
 * Addressing a folder of the tree by the child names on the way to it
 * from the root.  This stands for the source's object references: where
 * the Python code holds a `Folder` object and mutates it in place, the
 * model holds its location and rebuilds the tree along that location.
 */
module Locations {
  import opened Wrappers
  import opened FileTree

  /** The folder reached from `f` by following the child names `loc`, if every step exists. */
  function Lookup(f: Folder, loc: seq<string>): Option<Folder>
    decreases |loc|
  {
    if loc == [] then Some(f)
    else
      match GetFolderByName(f, loc[0])
      case None => None
      case Some(c) => Lookup(c, loc[1..])
  }

  /** `f` with the folder at `loc` replaced by `g`. */
  function Update(f: Folder, loc: seq<string>, g: Folder): (r: Folder)
    requires Lookup(f, loc).Some?
    ensures loc != [] ==> r.name == f.name && r.files == f.files
    decreases |loc|
  {
    if loc == [] then g
    else
      var i := IndexOf(f.children, FolderName, loc[0]).value;
      f.(children := f.children[i := Update(f.children[i], loc[1..], g)])
  }

  /** Lookups by name depend only on the names. */
  lemma IndexOfSameKeys<T>(xs: seq<T>, ys: seq<T>, key: T -> string, name: string)
    requires |xs| == |ys| && forall j :: 0 <= j < |xs| ==> key(xs[j]) == key(ys[j])
    ensures IndexOf(xs, key, name) == IndexOf(ys, key, name)
  {
    assert Names(xs, key) == Names(ys, key);
  }

  /** A non-empty location ends at a folder carrying its last name. */
  lemma {:induction false} LookupName(f: Folder, loc: seq<string>)
    requires Lookup(f, loc).Some?
    ensures Lookup(f, loc).value.name == if loc == [] then f.name else loc[|loc| - 1]
    decreases |loc|
  {
    if loc != [] {
      var c := GetFolderByName(f, loc[0]).value;
      LookupName(c, loc[1..]);
    }
  }

  /** After replacing the folder at `loc` by one of the same name, `loc` finds the replacement. */
  lemma {:induction false} LookupUpdate(f: Folder, loc: seq<string>, g: Folder)
    requires Lookup(f, loc).Some? && g.name == Lookup(f, loc).value.name
    ensures Lookup(Update(f, loc, g), loc) == Some(g)
    decreases |loc|
  {
    if loc != [] {
      var i := IndexOf(f.children, FolderName, loc[0]).value;
      var c := f.children[i];
      var c' := Update(c, loc[1..], g);
      LookupUpdate(c, loc[1..], g);
      var cs := f.children[i := c'];
      IndexOfSameKeys(f.children, cs, FolderName, loc[0]);
    }
  }

  /**
   * One level of a replacement: the child on the way to `loc` is replaced
   * below it, and every other child name finds what it found before.
   */
  lemma UpdateStep(f: Folder, loc: seq<string>, g: Folder, name: string)
    requires loc != [] && Lookup(f, loc).Some? && g.name == Lookup(f, loc).value.name
    ensures GetFolderByName(Update(f, loc, g), name) ==
              if name == loc[0] then Some(Update(GetFolderByName(f, loc[0]).value, loc[1..], g))
              else GetFolderByName(f, name)
  {
    var i := IndexOf(f.children, FolderName, loc[0]).value;
    var c := f.children[i];
    var c' := Update(c, loc[1..], g);
    assert c'.name == c.name;
    var cs := f.children[i := c'];
    IndexOfSameKeys(f.children, cs, FolderName, name);
  }

  /**
   * Replacing the folder at `loc` by one of the same name leaves every
   * location that neither runs through `loc` nor leads to it as it was.
   */
  lemma {:induction false} UpdateElsewhere(f: Folder, loc: seq<string>, g: Folder, other: seq<string>)
    requires Lookup(f, loc).Some? && g.name == Lookup(f, loc).value.name
    requires !(loc <= other) && !(other <= loc)
    ensures Lookup(Update(f, loc, g), other) == Lookup(f, other)
    decreases |loc|
  {
    UpdateStep(f, loc, g, other[0]);
    if other[0] == loc[0] {
      assert loc == [loc[0]] + loc[1..] && other == [other[0]] + other[1..];
      UpdateElsewhere(GetFolderByName(f, loc[0]).value, loc[1..], g, other[1..]);
    }
  }

  /** Below `loc`, the tree after the replacement is the replacement's subtree. */
  lemma UpdateBelow(f: Folder, loc: seq<string>, g: Folder, rest: seq<string>)
    requires Lookup(f, loc).Some? && g.name == Lookup(f, loc).value.name
    ensures Lookup(Update(f, loc, g), loc + rest) == Lookup(g, rest)
  {
    LookupUpdate(f, loc, g);
    LookupAppend(Update(f, loc, g), loc, rest);
  }

  /** Walking `loc + rest` is walking `loc`, then `rest` from where it ends. */
  lemma {:induction false} LookupAppend(f: Folder, loc: seq<string>, rest: seq<string>)
    requires Lookup(f, loc).Some?
    ensures Lookup(f, loc + rest) == Lookup(Lookup(f, loc).value, rest)
    decreases |loc|
  {
    if loc == [] {
      assert loc + rest == rest;
    } else {
      var c := GetFolderByName(f, loc[0]).value;
      assert (loc + rest)[1..] == loc[1..] + rest;
      LookupAppend(c, loc[1..], rest);
    }
  }

  /** Putting back the folder that is already there changes nothing. */
  lemma {:induction false} UpdateSelf(f: Folder, loc: seq<string>)
    requires Lookup(f, loc).Some?
    ensures Update(f, loc, Lookup(f, loc).value) == f
    decreases |loc|
  {
    if loc != [] {
      var i := IndexOf(f.children, FolderName, loc[0]).value;
      UpdateSelf(f.children[i], loc[1..]);
      assert f.children[i := f.children[i]] == f.children;
    }
  }

  /** A second replacement at the same location overrides the first. */
  lemma {:induction false} UpdateTwice(f: Folder, loc: seq<string>, g: Folder, h: Folder)
    requires Lookup(f, loc).Some? && g.name == Lookup(f, loc).value.name
    ensures Lookup(Update(f, loc, g), loc).Some?
    ensures Update(Update(f, loc, g), loc, h) == Update(f, loc, h)
    decreases |loc|
  {
    LookupUpdate(f, loc, g);
    if loc != [] {
      var i := IndexOf(f.children, FolderName, loc[0]).value;
      var c := f.children[i];
      var cs := f.children[i := Update(c, loc[1..], g)];
      IndexOfSameKeys(f.children, cs, FolderName, loc[0]);
      UpdateTwice(c, loc[1..], g, h);
      assert cs[i := Update(cs[i], loc[1..], h)] == f.children[i := Update(c, loc[1..], h)];
    }
  }

  /** Replacing a folder by one with the same `to_dict` leaves the `to_dict` of the whole tree unchanged. */
  lemma {:induction false} ToDictUpdate(f: Folder, loc: seq<string>, g: Folder)
    requires Lookup(f, loc).Some? && ToDict(g) == ToDict(Lookup(f, loc).value)
    ensures ToDict(Update(f, loc, g)) == ToDict(f)
    decreases |loc|
  {
    if loc != [] {
      var i := IndexOf(f.children, FolderName, loc[0]).value;
      var c := f.children[i];
      ToDictUpdate(c, loc[1..], g);
      ReplaceInPlaceToDict(f, i, Update(c, loc[1..], g));
    }
  }

  /** The folder at a location of a well-formed tree is well-formed. */
  lemma {:induction false} LookupValid(f: Folder, loc: seq<string>)
    requires Valid(f) && Lookup(f, loc).Some?
    ensures Valid(Lookup(f, loc).value)
    decreases |loc|
  {
    if loc != [] {
      var c := GetFolderByName(f, loc[0]).value;
      var i :| 0 <= i < |f.children| && f.children[i] == c;
      LookupValid(c, loc[1..]);
    }
  }

  /** Replacing a folder by a well-formed one of the same name keeps the tree well-formed. */
  lemma {:induction false} UpdateValid(f: Folder, loc: seq<string>, g: Folder)
    requires Valid(f) && Lookup(f, loc).Some? && Valid(g) && g.name == Lookup(f, loc).value.name
    ensures Valid(Update(f, loc, g))
    decreases |loc|
  {
    if loc != [] {
      var i := IndexOf(f.children, FolderName, loc[0]).value;
      var c := f.children[i];
      LookupName(c, loc[1..]);
      UpdateValid(c, loc[1..], g);
    }
  }
}
