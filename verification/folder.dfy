/**
 * Recursive folder removal (`deleteFolder`) over a directory tree. The result
 * is the sequence of `delete()` calls it issues, each as a path relative to
 * the folder it was given; `[]` is that folder itself.
 */
module Folder {

  datatype Node = File | Dir(entries: seq<Entry>)
  datatype Entry = Entry(name: string, node: Node)

  type Path = seq<string>

  /** Real directories: names are distinct within each directory, at every depth. */
  predicate WellFormed(n: Node) {
    match n
    case File => true
    case Dir(es) =>
      (forall i, j :: 0 <= i < j < |es| ==> es[i].name != es[j].name)
      && forall i :: 0 <= i < |es| ==> WellFormed(es[i].node)
  }

  /** `p` names an entry of the tree rooted at `n` (`[]` names `n` itself). */
  predicate Contains(n: Node, p: Path)
    decreases p
  {
    p == [] || (n.Dir? && exists i :: 0 <= i < |n.entries| && n.entries[i].name == p[0] && Contains(n.entries[i].node, p[1..]))
  }

  predicate StrictPrefix(a: Path, b: Path) {
    |a| < |b| && a == b[..|a|]
  }

  function Under(name: string, ps: seq<Path>): (r: seq<Path>)
    ensures |r| == |ps|
    ensures forall i :: 0 <= i < |ps| ==> r[i] == [name] + ps[i]
  {
    seq(|ps|, i requires 0 <= i < |ps| => [name] + ps[i])
  }

  /** A non-directory is left alone; a directory has its entries removed, then itself. */
  function DeleteFolder(n: Node): (r: seq<Path>)
    ensures n.File? ==> r == []
    ensures n.Dir? ==> |r| > 0 && r[|r| - 1] == []
  {
    match n
    case File => []
    case Dir(es) => DeleteEntries(es) + [[]]
  }

  /** The loop over `listFiles()`, in listing order: every deletion lies strictly inside the folder. */
  function DeleteEntries(es: seq<Entry>): (r: seq<Path>)
    ensures forall i :: 0 <= i < |r| ==> r[i] != []
  {
    if es == [] then [] else DeleteEntry(es[0]) + DeleteEntries(es[1..])
  }

  /** One loop step: recurse into a directory, delete a file; every deletion lies under the entry's name. */
  function DeleteEntry(e: Entry): (r: seq<Path>)
    ensures |r| > 0 && r[|r| - 1] == [e.name]
    ensures forall i :: 0 <= i < |r| ==> r[i] != [] && r[i][0] == e.name
  {
    if e.node.Dir? then Under(e.name, DeleteFolder(e.node)) else [[e.name]]
  }

  /** Each path is deleted before every one of its ancestors. */
  predicate ChildrenFirst(ps: seq<Path>) {
    forall i, j :: 0 <= i < |ps| && 0 <= j < |ps| && StrictPrefix(ps[j], ps[i]) ==> i < j
  }

  /** No path is deleted twice. */
  predicate NoRepeats(ps: seq<Path>) {
    forall i, j :: 0 <= i < j < |ps| ==> ps[i] != ps[j]
  }

  predicate Orderly(ps: seq<Path>) {
    ChildrenFirst(ps) && NoRepeats(ps)
  }

  /** The deletions of a directory are exactly the paths of its tree, at any depth. */
  lemma {:induction false} DeleteFolderCoversTree(n: Node)
    requires n.Dir?
    ensures forall p :: p in DeleteFolder(n) <==> Contains(n, p)
    decreases n, 2
  {
    DeleteEntriesCover(n.entries);
    forall p
      ensures p in DeleteFolder(n) <==> Contains(n, p)
    {
      if p != [] {
        assert p != [[]][0];
      }
    }
  }

  lemma {:induction false} DeleteEntriesCover(es: seq<Entry>)
    ensures forall p :: p in DeleteEntries(es) <==>
      p != [] && exists i :: 0 <= i < |es| && es[i].name == p[0] && Contains(es[i].node, p[1..])
    decreases es, 1
  {
    if es != [] {
      DeleteEntryCovers(es[0]);
      DeleteEntriesCover(es[1..]);
      forall p
        ensures p in DeleteEntries(es) <==>
          p != [] && exists i :: 0 <= i < |es| && es[i].name == p[0] && Contains(es[i].node, p[1..])
      {
        if p != [] && exists i :: 0 <= i < |es| && es[i].name == p[0] && Contains(es[i].node, p[1..]) {
          var i :| 0 <= i < |es| && es[i].name == p[0] && Contains(es[i].node, p[1..]);
          if i > 0 {
            assert es[1..][i - 1] == es[i];
          }
        }
        if p in DeleteEntries(es[1..]) {
          var i :| 0 <= i < |es[1..]| && es[1..][i].name == p[0] && Contains(es[1..][i].node, p[1..]);
          assert es[i + 1] == es[1..][i];
        }
      }
    }
  }

  lemma {:induction false} DeleteEntryCovers(e: Entry)
    ensures forall p :: p in DeleteEntry(e) <==> p != [] && p[0] == e.name && Contains(e.node, p[1..])
    decreases e, 0
  {
    if e.node.Dir? {
      DeleteFolderCoversTree(e.node);
      var d := DeleteFolder(e.node);
      forall p
        ensures p in DeleteEntry(e) <==> p != [] && p[0] == e.name && Contains(e.node, p[1..])
      {
        if p in DeleteEntry(e) {
          var i :| 0 <= i < |d| && Under(e.name, d)[i] == p;
          assert p[1..] == d[i];
        }
        if p != [] && p[0] == e.name && Contains(e.node, p[1..]) {
          var i :| 0 <= i < |d| && d[i] == p[1..];
          assert Under(e.name, d)[i] == p;
        }
      }
    } else {
      forall p
        ensures p in DeleteEntry(e) <==> p != [] && p[0] == e.name && Contains(e.node, p[1..])
      {
        if p != [] && p[0] == e.name && Contains(e.node, p[1..]) {
          assert p == [e.name];
        }
      }
    }
  }

  lemma ConcatOrderly(a: seq<Path>, b: seq<Path>)
    requires Orderly(a) && Orderly(b)
    requires forall i, j :: 0 <= i < |a| && 0 <= j < |b| ==> a[i] != [] && b[j] != [] && a[i][0] != b[j][0]
    ensures Orderly(a + b)
  {
  }

  lemma UnderOrderly(name: string, ps: seq<Path>)
    requires Orderly(ps)
    ensures Orderly(Under(name, ps))
  {
    var u := Under(name, ps);
    forall i, j | 0 <= i < |u| && 0 <= j < |u| && StrictPrefix(u[j], u[i])
      ensures i < j
    {
      assert u[j][1..] == ps[j] && u[i][1..] == ps[i];
      assert ps[j] == ps[i][..|ps[j]|];
      assert StrictPrefix(ps[j], ps[i]);
    }
    forall i, j | 0 <= i < j < |u|
      ensures u[i] != u[j]
    {
      assert u[i][1..] == ps[i] && u[j][1..] == ps[j];
    }
  }

  /** Directories are emptied before they are deleted, and nothing is deleted twice. */
  lemma {:induction false} DeleteFolderChildrenFirst(n: Node)
    requires WellFormed(n)
    ensures Orderly(DeleteFolder(n))
    decreases n, 2
  {
    if n.Dir? {
      var d := DeleteEntries(n.entries);
      DeleteEntriesOrderly(n.entries);
      DeleteEntriesCover(n.entries);
      forall i | 0 <= i < |d|
        ensures d[i] != []
      {
        assert d[i] in d;
      }
      var r := d + [[]];
      forall i, j | 0 <= i < |r| && 0 <= j < |r| && StrictPrefix(r[j], r[i])
        ensures i < j
      {
        if j < |d| && i < |d| {
          assert StrictPrefix(d[j], d[i]);
        }
      }
    }
  }

  lemma {:induction false} DeleteEntriesOrderly(es: seq<Entry>)
    requires forall i, j :: 0 <= i < j < |es| ==> es[i].name != es[j].name
    requires forall i :: 0 <= i < |es| ==> WellFormed(es[i].node)
    ensures Orderly(DeleteEntries(es))
    decreases es, 1
  {
    if es != [] {
      var a := DeleteEntry(es[0]);
      var b := DeleteEntries(es[1..]);
      DeleteEntryOrderly(es[0]);
      DeleteEntriesOrderly(es[1..]);
      DeleteEntryCovers(es[0]);
      DeleteEntriesCover(es[1..]);
      forall i, j | 0 <= i < |a| && 0 <= j < |b|
        ensures a[i] != [] && b[j] != [] && a[i][0] != b[j][0]
      {
        assert a[i] in a && b[j] in b;
        var k :| 0 <= k < |es[1..]| && es[1..][k].name == b[j][0] && Contains(es[1..][k].node, b[j][1..]);
        assert es[1..][k] == es[k + 1];
      }
      ConcatOrderly(a, b);
    }
  }

  lemma {:induction false} DeleteEntryOrderly(e: Entry)
    requires WellFormed(e.node)
    ensures Orderly(DeleteEntry(e))
    decreases e, 0
  {
    if e.node.Dir? {
      DeleteFolderChildrenFirst(e.node);
      UnderOrderly(e.name, DeleteFolder(e.node));
    }
  }
}
