/**
 * The two standalone helpers of utils/structures.py: the binary search
 * over a name-sorted list of files (lines 312-334) and the breadth-first
 * walk that collects every folder and file below a folder (lines 336-353).
 */
module Traversal {
  import opened Wrappers
  import opened Text
  import opened Sorting
  import opened FileTree

  /**
   * `binary_search_files`: on a list sorted by name, a file with the
   * target name if there is one, None otherwise; every index it reads is
   * in range.
   */
  method BinarySearchFiles(sortedFiles: seq<File>, target: string) returns (r: Option<File>)
    requires SortedBy(sortedFiles, FileName)
    ensures r.Some? ==> r.value in sortedFiles && r.value.name == target
    ensures r.None? <==> target !in Names(sortedFiles, FileName)
  {
    var low, high := 0, |sortedFiles| - 1;
    while low <= high
      invariant 0 <= low <= high + 1 <= |sortedFiles|
      invariant forall i :: 0 <= i < low ==> LexLess(sortedFiles[i].name, target)
      invariant forall i :: high < i < |sortedFiles| ==> LexLess(target, sortedFiles[i].name)
      decreases high - low
    {
      var mid := (low + high) / 2;
      var midName := sortedFiles[mid].name;
      if midName == target {
        return Some(sortedFiles[mid]);
      } else if LexLess(midName, target) {
        forall i | 0 <= i <= mid
          ensures LexLess(sortedFiles[i].name, target)
        {
          if i < mid {
            LexLeLess(sortedFiles[i].name, midName, target);
          }
        }
        low := mid + 1;
      } else {
        LexTotal(midName, target);
        forall i | mid <= i < |sortedFiles|
          ensures LexLess(target, sortedFiles[i].name)
        {
          if mid < i {
            LexLessLe(target, midName, sortedFiles[i].name);
          }
        }
        high := mid - 1;
      }
    }
    forall i | 0 <= i < |sortedFiles|
      ensures Names(sortedFiles, FileName)[i] != target
    {
      if sortedFiles[i].name == target {
        LexIrreflexive(target);
      }
    }
    return None;
  }

  /** `f` followed by every folder below it, each subtree in turn. */
  function Subtree(f: Folder): (r: seq<Folder>)
    ensures |r| >= 1 && r[0] == f
    decreases f, |f.children| + 1
  {
    [f] + SubtreesFrom(f, 0)
  }

  /** The subtrees of the children of `f` from the `i`-th on, one after the other. */
  function SubtreesFrom(f: Folder, i: nat): seq<Folder>
    requires i <= |f.children|
    decreases f, |f.children| - i
  {
    if i == |f.children| then [] else Subtree(f.children[i]) + SubtreesFrom(f, i + 1)
  }

  /** The subtrees of the folders of `q`, one after the other. */
  function Subtrees(q: seq<Folder>): seq<Folder>
  {
    if q == [] then [] else Subtree(q[0]) + Subtrees(q[1..])
  }

  lemma {:induction false} SubtreesAppend(a: seq<Folder>, b: seq<Folder>)
    ensures Subtrees(a + b) == Subtrees(a) + Subtrees(b)
    decreases |a|
  {
    if a != [] {
      SubtreesAppend(a[1..], b);
      assert (a + b)[1..] == a[1..] + b;
      assert (a + b)[0] == a[0];
    } else {
      assert a + b == b;
    }
  }

  lemma {:induction false} SubtreesFromChildren(f: Folder, i: nat)
    requires i <= |f.children|
    ensures SubtreesFrom(f, i) == Subtrees(f.children[i..])
    decreases |f.children| - i
  {
    if i < |f.children| {
      SubtreesFromChildren(f, i + 1);
      assert f.children[i..][1..] == f.children[i + 1..];
    }
  }

  /**
   * Taking the first folder off the queue and queueing its children
   * leaves the same folders below the queue, the first one aside.
   */
  lemma Unfold(q: seq<Folder>)
    requires q != []
    ensures |Subtrees(q)| == 1 + |Subtrees(q[1..] + q[0].children)|
    ensures multiset(Subtrees(q)) == multiset{q[0]} + multiset(Subtrees(q[1..] + q[0].children))
  {
    UnfoldShape(q);
  }

  /** The shape behind `Unfold`: the subtrees of the queue before and after one step. */
  lemma UnfoldShape(q: seq<Folder>)
    requires q != []
    ensures Subtrees(q) == [q[0]] + Subtrees(q[0].children) + Subtrees(q[1..])
    ensures Subtrees(q[1..] + q[0].children) == Subtrees(q[1..]) + Subtrees(q[0].children)
  {
    var ch := q[0].children;
    SubtreesFromChildren(q[0], 0);
    assert ch[0..] == ch;
    SubtreesAppend(q[1..], ch);
  }

  /**
   * The order in which the walk visits the folders of queue `q`: the
   * first, then the walk of the rest with its children queued at the end.
   */
  function BfsOrder(q: seq<Folder>): seq<Folder>
    decreases |Subtrees(q)|
  {
    if q == [] then []
    else
      Unfold(q);
      [q[0]] + BfsOrder(q[1..] + q[0].children)
  }

  /** The files of the folders `fs`, folder by folder. */
  function FilesOf(fs: seq<Folder>): seq<File>
  {
    if fs == [] then [] else fs[0].files + FilesOf(fs[1..])
  }

  lemma {:induction false} FilesOfAppend(a: seq<Folder>, b: seq<Folder>)
    ensures FilesOf(a + b) == FilesOf(a) + FilesOf(b)
    decreases |a|
  {
    if a != [] {
      FilesOfAppend(a[1..], b);
      assert (a + b)[1..] == a[1..] + b;
      assert (a + b)[0] == a[0];
    } else {
      assert a + b == b;
    }
  }

  /** One step of the walk: the front folder is visited next. */
  lemma BfsStep(visited: seq<Folder>, q: seq<Folder>)
    requires q != []
    ensures visited + BfsOrder(q) == (visited + [q[0]]) + BfsOrder(q[1..] + q[0].children)
  {
  }

  /** What one turn of the walk's loop keeps: the order still ahead, the files gathered, a shrinking queue. */
  lemma CollectStep(visited: seq<Folder>, q: seq<Folder>)
    requires q != []
    ensures visited + BfsOrder(q) == (visited + [q[0]]) + BfsOrder(q[1..] + q[0].children)
    ensures FilesOf(visited + [q[0]]) == FilesOf(visited) + q[0].files
    ensures |Subtrees(q[1..] + q[0].children)| < |Subtrees(q)|
  {
    Unfold(q);
    BfsStep(visited, q);
    FilesOfAppend(visited, [q[0]]);
    assert FilesOf([q[0]]) == q[0].files + FilesOf([]);
  }

  /** Queue the children one at a time, in order (utils/structures.py:351-352). */
  method Enqueue(queue: seq<Folder>, children: seq<Folder>) returns (r: seq<Folder>)
    ensures r == queue + children
  {
    r := queue;
    for k := 0 to |children|
      invariant r == queue + children[..k]
    {
      r := r + [children[k]];
    }
    assert children[..|children|] == children;
  }

  /**
   * `traverse_and_collect_all_items`: pop the front of the queue, record
   * it and its files, queue its children.
   */
  method TraverseAndCollect(start: Folder) returns (allFiles: seq<File>, allFolders: seq<Folder>)
    ensures allFolders == BfsOrder([start]) && allFolders[0] == start
    ensures allFiles == FilesOf(allFolders)
  {
    allFiles, allFolders := [], [];
    var queue := [start];
    while queue != []
      invariant allFolders + BfsOrder(queue) == BfsOrder([start])
      invariant allFiles == FilesOf(allFolders)
      invariant allFolders == [] ==> queue == [start]
      invariant allFolders != [] ==> allFolders[0] == start
      decreases |Subtrees(queue)|
    {
      var current := queue[0];
      CollectStep(allFolders, queue);
      allFolders := allFolders + [current];
      allFiles := allFiles + current.files;
      queue := Enqueue(queue[1..], current.children);
    }
  }

  /** The walk visits every folder of the subtree, each as often as it occurs there. */
  lemma {:induction false} BfsVisitsSubtrees(q: seq<Folder>)
    ensures multiset(BfsOrder(q)) == multiset(Subtrees(q))
    decreases |Subtrees(q)|
  {
    if q != [] {
      Unfold(q);
      BfsVisitsSubtrees(q[1..] + q[0].children);
    }
  }

  /** The folders collected from `start` are exactly the folders of its subtree. */
  lemma TraversalCollectsSubtree(start: Folder)
    ensures multiset(BfsOrder([start])) == multiset(Subtree(start))
  {
    BfsVisitsSubtrees([start]);
    assert [start][1..] == [];
    assert Subtrees([start]) == Subtree(start) + [];
  }

  /** The files collected are the files of every folder of the subtree, each as often as it occurs there. */
  lemma {:induction false} BfsCollectsFiles(q: seq<Folder>)
    ensures multiset(FilesOf(BfsOrder(q))) == multiset(FilesOf(Subtrees(q)))
    decreases |Subtrees(q)|
  {
    if q != [] {
      var rest, ch := q[1..], q[0].children;
      Unfold(q);
      UnfoldShape(q);
      BfsCollectsFiles(rest + ch);
      assert BfsOrder(q) == [q[0]] + BfsOrder(rest + ch);
      FilesOfAppend([q[0]], BfsOrder(rest + ch));
      FilesOfAppend(Subtrees(rest), Subtrees(ch));
      FilesOfAppend([q[0]] + Subtrees(ch), Subtrees(rest));
      FilesOfAppend([q[0]], Subtrees(ch));
    }
  }

  /** The files collected from `start` are the files of every folder of its subtree. */
  lemma TraversalCollectsFiles(start: Folder)
    ensures multiset(FilesOf(BfsOrder([start]))) == multiset(FilesOf(Subtree(start)))
  {
    BfsCollectsFiles([start]);
    assert [start][1..] == [];
    assert Subtrees([start]) == Subtree(start) + [];
    assert Subtrees([start]) == Subtree(start);
  }
}
