/** The package manifest (`manifest.ts`): slash-separated paths inserted into a mutable tree
    that is then sorted level by level. */
module Manifest {
  import opened ManifestTree
  import opened Sorting
  import opened Text

  class Node {
    const name: string
    const kind: Kind
    var children: seq<Node>
    ghost var view: Tree
    ghost var Repr: set<Node>

    ghost predicate Valid()
      reads this, Repr
      decreases Repr
    {
      && this in Repr
      && (forall c :: c in children ==> c in Repr && c.Repr <= Repr && this !in c.Repr && c.Valid())
      && Apart(children)
      && view.name == name
      && (kind.FileKind? ==> children == [] && view == File(name, kind.entry))
      && (kind.DirKind? ==> view.Dir? && Shows(children, view.children))
    }

    constructor NewFile(name: string, e: Entry)
      ensures Valid() && fresh(Repr) && view == File(name, e) && kind == FileKind(e)
    {
      this.name, kind, children := name, FileKind(e), [];
      view, Repr := File(name, e), {this};
    }

    constructor NewDir(name: string)
      ensures Valid() && fresh(Repr) && view == Dir(name, []) && kind == DirKind
    {
      this.name, kind, children := name, DirKind, [];
      view, Repr := Dir(name, []), {this};
    }

    /** `node.children.find(c => c.kind === 'dir' && c.name === head)`. */
    method FindDir(head: string) returns (i: nat)
      requires Valid() && kind.DirKind?
      ensures i == IndexOfDir(view.children, head)
    {
      i := 0;
      while i < |children| && !(children[i].kind.DirKind? && children[i].name == head)
        invariant i <= |children|
        invariant IndexOfDir(view.children, head) == i + IndexOfDir(view.children[i..], head)
      {
        assert children[i] in children;
        assert view.children[i..][0] == children[i].view;
        assert view.children[i..][1..] == view.children[i + 1..];
        i := i + 1;
      }
      if i < |children| {
        assert children[i] in children;
        assert view.children[i..][0] == children[i].view;
      }
    }

    method PushChild(c: Node)
      requires Valid() && kind.DirKind? && c.Valid() && c.Repr !! Repr
      modifies this
      ensures Valid() && Repr == old(Repr) + c.Repr
      ensures children == old(children) + [c]
      ensures view == Dir(name, old(view).children + [c.view])
    {
      children := children + [c];
      Repr := Repr + c.Repr;
      view := Dir(name, view.children + [c.view]);
    }

    method InsertFile(segments: seq<string>, e: Entry)
      requires Valid() && kind.DirKind? && |segments| > 0
      modifies Repr
      ensures Valid() && fresh(Repr - old(Repr))
      ensures view == Dir(name, Inserted(old(view).children, segments, e))
      decreases |segments|, 0
    {
      var head, rest := segments[0], segments[1..];
      if |rest| == 0 {
        var file := new Node.NewFile(head, e);
        PushChild(file);
        return;
      }
      var i := FindDir(head);
      if i == |children| {
        var dir := new Node.NewDir(head);
        PushChild(dir);
      }
      assert children[i] in children;
      InsertBelow(i, rest, e);
    }

    /** The recursive call on the directory at index `i`. */
    method InsertBelow(i: nat, rest: seq<string>, e: Entry)
      requires Valid() && kind.DirKind? && i < |children| && children[i].kind.DirKind? && |rest| > 0
      requires i < |view.children| && view.children[i].Dir?
      modifies Repr
      ensures Valid() && fresh(Repr - old(Repr))
      ensures view == Dir(name, old(view).children[i := Dir(old(view).children[i].name, Inserted(old(view).children[i].children, rest, e))])
      decreases |rest|, 1
    {
      var dir := children[i];
      assert dir in children;
      dir.InsertFile(rest, e);
      Repr := Repr + dir.Repr;
      view := Dir(name, view.children[i := dir.view]);
    }

    method SortRecursive(le: (string, string) -> bool)
      requires Valid() && kind.DirKind?
      modifies Repr
      ensures Valid() && Repr == old(Repr)
      ensures view == SortedTree(le, old(view))
      decreases Repr, 1
    {
      SortThenEach(le, view.children);
      SortChildren(le);
      SortBelow(le);
    }

    /** The loop over the subdirectories. */
    method SortBelow(le: (string, string) -> bool)
      requires Valid() && kind.DirKind?
      modifies Repr
      ensures Valid() && Repr == old(Repr)
      ensures view == Dir(name, SortedEach(le, old(view).children))
      decreases Repr, 0
    {
      ghost var cs := view.children;
      var i := 0;
      while i < |children|
        invariant i <= |children| == |cs|
        invariant children == old(children) && Repr == old(Repr) && view == old(view)
        invariant ChildrenValid() && Apart(children)
        invariant forall j :: 0 <= j < i ==> children[j].view == SortedTree(le, cs[j])
        invariant forall j :: i <= j < |children| ==> children[j].view == cs[j]
      {
        SortChildAt(le, i);
        i := i + 1;
      }
      view := Dir(name, SortedEach(le, cs));
    }

    ghost predicate ChildrenValid()
      reads this, Repr
    {
      this in Repr && forall c :: c in children ==> c in Repr && c.Repr <= Repr && this !in c.Repr && c.Valid()
    }

    method SortChildAt(le: (string, string) -> bool, i: nat)
      requires ChildrenValid() && Apart(children) && i < |children|
      modifies children[i].Repr
      ensures ChildrenValid() && Apart(children)
      ensures children[i].view == SortedTree(le, old(children[i].view))
      ensures forall j :: 0 <= j < |children| && j != i ==> children[j].view == old(children[j].view)
      decreases children[i].Repr, 2
    {
      var c := children[i];
      assert c in children;
      if c.kind.DirKind? {
        c.SortRecursive(le);
      }
    }

    method SortChildren(le: (string, string) -> bool)
      requires Valid() && kind.DirKind?
      modifies this
      ensures Valid() && Repr == old(Repr)
      ensures view == Dir(name, Sort(TreeOrder(le), old(view).children))
    {
      ghost var viewOf := map n | n in children :: n.view;
      SortNodes(le, children, view.children, viewOf);
      children := Sort(NodeOrder(le), children);
      view := Dir(name, Sort(TreeOrder(le), view.children));
    }
  }

  lemma SortNodes(le: (string, string) -> bool, ns: seq<Node>, ts: seq<Tree>, viewOf: map<Node, Tree>)
    requires |ts| == |ns| && (forall n :: n in viewOf <==> n in ns) && forall i :: 0 <= i < |ns| ==> viewOf[ns[i]] == ts[i]
    requires forall n :: n in ns ==> viewOf[n].name == n.name && viewOf[n].Dir? == n.kind.DirKind?
    requires Distinct(ns)
    ensures |Sort(NodeOrder(le), ns)| == |Sort(TreeOrder(le), ts)| == |ns|
    ensures Distinct(Sort(NodeOrder(le), ns))
    ensures forall n :: n in Sort(NodeOrder(le), ns) <==> n in ns
    ensures forall i :: 0 <= i < |ns| ==>
      var n := Sort(NodeOrder(le), ns)[i]; n in ns && viewOf[n] == Sort(TreeOrder(le), ts)[i]
  {
    assert ts == Map(viewOf, ns);
    SortMaps(NodeOrder(le), TreeOrder(le), viewOf, ns);
    SortPermutes(NodeOrder(le), ns);
    SameElements(Sort(NodeOrder(le), ns), ns);
    DistinctPermutes(ns, Sort(NodeOrder(le), ns));
  }

  function NodeOrder(le: (string, string) -> bool): (Node, Node) -> bool {
    (a: Node, b: Node) => Precedes(le, a.kind.DirKind?, a.name, b.kind.DirKind?, b.name)
  }

  datatype Kind = FileKind(entry: Entry) | DirKind

  ghost predicate Apart(ns: seq<Node>)
    reads ns
  {
    && Distinct(ns)
    && forall a, b :: a in ns && b in ns && a != b ==> a.Repr !! b.Repr
  }

  ghost predicate Shows(ns: seq<Node>, ts: seq<Tree>)
    reads ns
  {
    |ns| == |ts| && forall i :: 0 <= i < |ns| ==> ns[i].view == ts[i]
  }

  method BuildManifest(files: seq<AssetFile>, le: (string, string) -> bool) returns (root: Node)
    ensures root.Valid() && fresh(root.Repr) && root.view == Dir("", Manifest(le, files))
  {
    root := new Node.NewDir("");
    var i := 0;
    while i < |files|
      invariant i <= |files|
      invariant root.Valid() && fresh(root.Repr) && root.kind.DirKind? && root.name == ""
      invariant InsertedAll([], files) == InsertedAll(root.view.children, files[i..])
    {
      root.InsertFile(Split(files[i].relativePath, '/'), files[i].entry);
      assert files[i..][1..] == files[i + 1..];
      i := i + 1;
    }
    root.SortRecursive(le);
  }
}
