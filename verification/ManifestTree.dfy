/** The package manifest (`manifest.ts`) as a value: what inserting a path and sorting the tree
    mean, and what the finished tree says about the files it was built from. */
module ManifestTree {
  import opened Sorting
  import opened Text

  datatype Entry = Entry(id: string, size: int, kind: string)
  datatype AssetFile = AssetFile(relativePath: string, entry: Entry)

  /** The value of a manifest node. */
  datatype Tree =
    | File(name: string, entry: Entry)
    | Dir(name: string, children: seq<Tree>)

  ghost function IndexOfDir(cs: seq<Tree>, name: string): (i: nat)
    ensures i <= |cs|
    ensures i < |cs| ==> cs[i].Dir? && cs[i].name == name
    ensures forall j :: 0 <= j < i ==> !(cs[j].Dir? && cs[j].name == name)
  {
    if |cs| == 0 || (cs[0].Dir? && cs[0].name == name) then 0 else 1 + IndexOfDir(cs[1..], name)
  }

  /** The children of a directory after `insertFile`. */
  ghost function Inserted(cs: seq<Tree>, segments: seq<string>, e: Entry): seq<Tree>
    requires |segments| > 0
    decreases |segments|
  {
    var head := segments[0];
    if |segments| == 1 then cs + [File(head, e)]
    else
      var i := IndexOfDir(cs, head);
      if i == |cs| then cs + [Dir(head, Inserted([], segments[1..], e))]
      else cs[i := Dir(head, Inserted(cs[i].children, segments[1..], e))]
  }

  ghost function InsertedAll(cs: seq<Tree>, files: seq<AssetFile>): seq<Tree>
    decreases |files|
  {
    if |files| == 0 then cs
    else InsertedAll(Inserted(cs, Split(files[0].relativePath, '/'), files[0].entry), files[1..])
  }

  /** Directories first, then by name; `le` is the name comparator (`localeCompare(..) <= 0`). */
  predicate Precedes(le: (string, string) -> bool, aDir: bool, aName: string, bDir: bool, bName: string) {
    if aDir != bDir then aDir else le(aName, bName)
  }

  ghost function TreeOrder(le: (string, string) -> bool): (Tree, Tree) -> bool {
    (a: Tree, b: Tree) => Precedes(le, a.Dir?, a.name, b.Dir?, b.name)
  }

  ghost function SortedTree(le: (string, string) -> bool, t: Tree): Tree
    decreases t
  {
    match t
    case File(_, _) => t
    case Dir(name, cs) => Dir(name, Sort(TreeOrder(le), SortedEach(le, cs)))
  }

  ghost function SortedEach(le: (string, string) -> bool, cs: seq<Tree>): (r: seq<Tree>)
    ensures |r| == |cs| && forall i :: 0 <= i < |cs| ==> r[i] == SortedTree(le, cs[i])
    decreases cs
  {
    if |cs| == 0 then [] else [SortedTree(le, cs[0])] + SortedEach(le, cs[1..])
  }

  /** The children of the root of `buildManifest(files)`. */
  ghost function Manifest(le: (string, string) -> bool, files: seq<AssetFile>): seq<Tree> {
    Sort(TreeOrder(le), SortedEach(le, InsertedAll([], files)))
  }

  // ---------------------------------------------------------------- round trip

  /** Every file of the tree with its path: the names along the way joined with '/'. */
  ghost function Listing(cs: seq<Tree>, prefix: string): multiset<AssetFile>
    decreases cs
  {
    if |cs| == 0 then multiset{} else ListingOf(cs[0], prefix) + Listing(cs[1..], prefix)
  }

  ghost function ListingOf(t: Tree, prefix: string): multiset<AssetFile>
    decreases t
  {
    match t
    case File(name, e) => multiset{AssetFile(prefix + name, e)}
    case Dir(name, cs) => Listing(cs, prefix + name + "/")
  }

  lemma {:induction false} ListingAppend(cs: seq<Tree>, t: Tree, prefix: string)
    ensures Listing(cs + [t], prefix) == Listing(cs, prefix) + ListingOf(t, prefix)
  {
    if |cs| == 0 {
      assert cs + [t] == [t];
      assert [t][1..] == [];
    } else {
      ListingAppend(cs[1..], t, prefix);
      assert (cs + [t])[1..] == cs[1..] + [t];
    }
  }

  lemma BagPrepend<T>(h: multiset<T>, a: multiset<T>, b: multiset<T>, c: multiset<T>, d: multiset<T>)
    requires a + b == c + d
    ensures (h + a) + b == (h + c) + d
  {
    assert (h + a) + b == h + (a + b);
    assert (h + c) + d == h + (c + d);
  }

  lemma BagCancel<T>(a: multiset<T>, b: multiset<T>, c: multiset<T>, d: multiset<T>)
    requires a + b == c + (b + d)
    ensures a == c + d
  {
    assert (c + d) + b == c + (b + d);
    assert a == (a + b) - b;
    assert c + d == ((c + d) + b) - b;
  }

  lemma {:induction false} ListingReplace(cs: seq<Tree>, i: nat, t: Tree, prefix: string)
    requires i < |cs|
    ensures Listing(cs[i := t], prefix) + ListingOf(cs[i], prefix) == Listing(cs, prefix) + ListingOf(t, prefix)
  {
    if i == 0 {
      assert cs[i := t][1..] == cs[1..];
    } else {
      ListingReplace(cs[1..], i - 1, t, prefix);
      assert cs[i := t][1..] == cs[1..][i - 1 := t];
      BagPrepend(ListingOf(cs[0], prefix), Listing(cs[1..][i - 1 := t], prefix), ListingOf(cs[i], prefix),
                 Listing(cs[1..], prefix), ListingOf(t, prefix));
    }
  }

  lemma {:induction false} ListingInserted(cs: seq<Tree>, segments: seq<string>, e: Entry, prefix: string)
    requires |segments| > 0
    ensures Listing(Inserted(cs, segments, e), prefix) == Listing(cs, prefix) + multiset{AssetFile(prefix + Join(segments, '/'), e)}
    decreases |segments|
  {
    var head := segments[0];
    if |segments| == 1 {
      ListingAppend(cs, File(head, e), prefix);
    } else {
      var i := IndexOfDir(cs, head);
      var below := prefix + head + "/";
      assert prefix + Join(segments, '/') == below + Join(segments[1..], '/');
      if i == |cs| {
        ListingInserted([], segments[1..], e, below);
        ListingAppend(cs, Dir(head, Inserted([], segments[1..], e)), prefix);
      } else {
        ListingInserted(cs[i].children, segments[1..], e, below);
        var dir := Dir(head, Inserted(cs[i].children, segments[1..], e));
        ListingReplace(cs, i, dir, prefix);
        BagCancel(Listing(cs[i := dir], prefix), ListingOf(cs[i], prefix), Listing(cs, prefix),
                  multiset{AssetFile(below + Join(segments[1..], '/'), e)});
      }
    }
  }

  lemma {:induction false} ListingInsertedAll(cs: seq<Tree>, files: seq<AssetFile>)
    ensures Listing(InsertedAll(cs, files), "") == Listing(cs, "") + multiset(files)
    decreases |files|
  {
    if |files| > 0 {
      var segments := Split(files[0].relativePath, '/');
      JoinSplit(files[0].relativePath, '/');
      ListingInserted(cs, segments, files[0].entry, "");
      assert "" + Join(segments, '/') == files[0].relativePath;
      ListingInsertedAll(Inserted(cs, segments, files[0].entry), files[1..]);
      assert files == [files[0]] + files[1..];
    }
  }

  lemma {:induction false} ListingInsert(le: (Tree, Tree) -> bool, t: Tree, cs: seq<Tree>, prefix: string)
    ensures Listing(Insert(le, t, cs), prefix) == ListingOf(t, prefix) + Listing(cs, prefix)
  {
    if |cs| == 0 || le(t, cs[0]) {
      assert ([t] + cs)[1..] == cs;
    } else {
      ListingInsert(le, t, cs[1..], prefix);
      assert ([cs[0]] + Insert(le, t, cs[1..]))[1..] == Insert(le, t, cs[1..]);
    }
  }

  lemma {:induction false} ListingSort(le: (Tree, Tree) -> bool, cs: seq<Tree>, prefix: string)
    ensures Listing(Sort(le, cs), prefix) == Listing(cs, prefix)
  {
    if |cs| > 0 {
      ListingSort(le, cs[1..], prefix);
      ListingInsert(le, cs[0], Sort(le, cs[1..]), prefix);
    }
  }

  lemma {:induction false} ListingSortedEach(le: (string, string) -> bool, cs: seq<Tree>, prefix: string)
    ensures Listing(SortedEach(le, cs), prefix) == Listing(cs, prefix)
    decreases cs
  {
    if |cs| > 0 {
      ListingSortedEach(le, cs[1..], prefix);
      ListingSortedTree(le, cs[0], prefix);
      assert SortedEach(le, cs)[1..] == SortedEach(le, cs[1..]);
    }
  }

  lemma {:induction false} ListingSortedTree(le: (string, string) -> bool, t: Tree, prefix: string)
    ensures ListingOf(SortedTree(le, t), prefix) == ListingOf(t, prefix)
    decreases t
  {
    match t
    case File(_, _) =>
    case Dir(name, cs) =>
      ListingSortedEach(le, cs, prefix + name + "/");
      ListingSort(TreeOrder(le), SortedEach(le, cs), prefix + name + "/");
  }

  /** Nothing lost, duplicated or invented: the paths of the tree are the input paths. */
  lemma RoundTrip(le: (string, string) -> bool, files: seq<AssetFile>)
    ensures Listing(Manifest(le, files), "") == multiset(files)
  {
    ListingInsertedAll([], files);
    ListingSortedEach(le, InsertedAll([], files), "");
    ListingSort(TreeOrder(le), SortedEach(le, InsertedAll([], files)), "");
  }

  // ---------------------------------------------------------------- shape

  /** Not two directories of one name. */
  ghost predicate OtherDir(a: Tree, b: Tree) {
    a.Dir? && b.Dir? ==> a.name != b.name
  }

  /** At every level directory names are distinct and no directory is empty. */
  ghost predicate Tidy(cs: seq<Tree>)
    decreases cs
  {
    && Pairwise(OtherDir, cs)
    && (forall t :: t in cs && t.Dir? ==> |t.children| > 0 && Tidy(t.children))
  }

  /** At every level directories come before files, and each kind is in name order. */
  ghost predicate Ordered(le: (string, string) -> bool, cs: seq<Tree>)
    decreases cs
  {
    && (forall i, j :: 0 <= i < j < |cs| ==>
          (cs[j].Dir? ==> cs[i].Dir?) && (cs[i].Dir? == cs[j].Dir? ==> le(cs[i].name, cs[j].name)))
    && (forall t :: t in cs && t.Dir? ==> Ordered(le, t.children))
  }

  lemma {:induction false} InsertedTidy(cs: seq<Tree>, segments: seq<string>, e: Entry)
    requires |segments| > 0 && Tidy(cs)
    ensures Tidy(Inserted(cs, segments, e)) && |Inserted(cs, segments, e)| > 0
    decreases |segments|
  {
    if |segments| > 1 {
      var i := IndexOfDir(cs, segments[0]);
      InsertedTidy(if i == |cs| then [] else cs[i].children, segments[1..], e);
    }
  }

  lemma {:induction false} InsertedAllTidy(cs: seq<Tree>, files: seq<AssetFile>)
    requires Tidy(cs)
    ensures Tidy(InsertedAll(cs, files))
    decreases |files|
  {
    if |files| > 0 {
      var segments := Split(files[0].relativePath, '/');
      InsertedTidy(cs, segments, files[0].entry);
      InsertedAllTidy(Inserted(cs, segments, files[0].entry), files[1..]);
    }
  }

  /** Sorting a level and then its subtrees, or the other way round, is the same. */
  lemma SortThenEach(le: (string, string) -> bool, cs: seq<Tree>)
    ensures SortedEach(le, Sort(TreeOrder(le), cs)) == Sort(TreeOrder(le), SortedEach(le, cs))
  {
    var f := map t | t in cs :: SortedTree(le, t);
    SortMaps(TreeOrder(le), TreeOrder(le), f, cs);
    assert Map(f, cs) == SortedEach(le, cs);
    assert Map(f, Sort(TreeOrder(le), cs)) == SortedEach(le, Sort(TreeOrder(le), cs));
  }

  lemma {:induction false} SortedTidy(le: (string, string) -> bool, cs: seq<Tree>)
    requires Tidy(cs)
    ensures Tidy(Sort(TreeOrder(le), SortedEach(le, cs)))
    decreases cs
  {
    var each := SortedEach(le, cs);
    forall t | t in each && t.Dir? ensures |t.children| > 0 && Tidy(t.children) {
      var i :| 0 <= i < |each| && each[i] == t;
      SortedTidy(le, cs[i].children);
      SortPermutes(TreeOrder(le), SortedEach(le, cs[i].children));
    }
    assert Pairwise(OtherDir, each);
    SortPermutes(TreeOrder(le), each);
    PairwisePermutes(OtherDir, each, Sort(TreeOrder(le), each));
    SameElements(each, Sort(TreeOrder(le), each));
  }

  lemma TreeOrderTotal(le: (string, string) -> bool)
    requires TotalPreorder(le)
    ensures TotalPreorder(TreeOrder(le))
  {
  }

  lemma {:induction false} SortedOrdered(le: (string, string) -> bool, cs: seq<Tree>)
    requires TotalPreorder(le)
    ensures Ordered(le, Sort(TreeOrder(le), SortedEach(le, cs)))
    decreases cs
  {
    var each := SortedEach(le, cs);
    forall t | t in each && t.Dir? ensures Ordered(le, t.children) {
      var i :| 0 <= i < |each| && each[i] == t;
      SortedOrdered(le, cs[i].children);
    }
    TreeOrderTotal(le);
    SortSorts(TreeOrder(le), each);
    SortPermutes(TreeOrder(le), each);
    SameElements(each, Sort(TreeOrder(le), each));
  }

  /** At every level directories come first, each group is in name order, directory names are
      distinct, and every directory has something in it. */
  lemma Shape(le: (string, string) -> bool, files: seq<AssetFile>)
    requires TotalPreorder(le)
    ensures Ordered(le, Manifest(le, files)) && Tidy(Manifest(le, files))
  {
    InsertedAllTidy([], files);
    SortedTidy(le, InsertedAll([], files));
    SortedOrdered(le, InsertedAll([], files));
  }

  // ---------------------------------------------------------------- canonical form

  /** How often the tree holds entry `e` at the path `segments`. */
  ghost function Count(cs: seq<Tree>, segments: seq<string>, e: Entry): nat
    decreases |segments|, |cs|
  {
    if |cs| == 0 || |segments| == 0 then 0
    else CountIn(cs[0], segments, e) + Count(cs[1..], segments, e)
  }

  ghost function CountIn(t: Tree, segments: seq<string>, e: Entry): nat
    requires |segments| > 0
    decreases |segments|, 0
  {
    match t
    case File(name, e') => if segments == [name] && e' == e then 1 else 0
    case Dir(name, cs) => if segments[0] == name then Count(cs, segments[1..], e) else 0
  }

  /** Each path carries one file at most. */
  ghost predicate OnePerPath(cs: seq<Tree>) {
    forall segments, e, e' :: Count(cs, segments, e) > 0 && Count(cs, segments, e') > 0 ==> e == e' && Count(cs, segments, e) == 1
  }

  lemma {:induction false} CountAppend(cs: seq<Tree>, t: Tree, segments: seq<string>, e: Entry)
    requires |segments| > 0
    ensures Count(cs + [t], segments, e) == Count(cs, segments, e) + CountIn(t, segments, e)
    decreases |cs|
  {
    if |cs| == 0 {
      assert [t][1..] == [] && cs + [t] == [t];
    } else {
      CountAppend(cs[1..], t, segments, e);
      assert (cs + [t])[1..] == cs[1..] + [t];
    }
  }

  lemma {:induction false} CountReplace(cs: seq<Tree>, i: nat, t: Tree, segments: seq<string>, e: Entry)
    requires i < |cs| && |segments| > 0
    ensures Count(cs[i := t], segments, e) == Count(cs, segments, e) + CountIn(t, segments, e) - CountIn(cs[i], segments, e)
    decreases |cs|
  {
    if i == 0 {
      assert cs[i := t][1..] == cs[1..];
    } else {
      CountReplace(cs[1..], i - 1, t, segments, e);
      assert cs[i := t][1..] == cs[1..][i - 1 := t];
    }
  }

  lemma {:induction false} CountInserted(cs: seq<Tree>, at: seq<string>, e0: Entry, segments: seq<string>, e: Entry)
    requires |at| > 0 && |segments| > 0
    ensures Count(Inserted(cs, at, e0), segments, e) == Count(cs, segments, e) + if at == segments && e0 == e then 1 else 0
    decreases |at|
  {
    var head := at[0];
    if |at| == 1 {
      CountAppend(cs, File(head, e0), segments, e);
    } else {
      var i := IndexOfDir(cs, head);
      var sub := if i == |cs| then [] else cs[i].children;
      var dir := Dir(head, Inserted(sub, at[1..], e0));
      if |segments| > 1 {
        CountInserted(sub, at[1..], e0, segments[1..], e);
      }
      assert at == [head] + at[1..] && segments == [segments[0]] + segments[1..];
      if i == |cs| {
        CountAppend(cs, dir, segments, e);
      } else {
        CountReplace(cs, i, dir, segments, e);
      }
    }
  }

  ghost predicate SlashFree(segments: seq<string>) {
    |segments| > 0 && forall p :: p in segments ==> Lacks(p, '/')
  }

  /** How many of `files` have the path `segments` and the entry `e`. */
  ghost function Given(files: seq<AssetFile>, segments: seq<string>, e: Entry): nat {
    if SlashFree(segments) then multiset(files)[AssetFile(Join(segments, '/'), e)] else 0
  }

  lemma {:induction false} CountInsertedAll(cs: seq<Tree>, files: seq<AssetFile>, segments: seq<string>, e: Entry)
    requires |segments| > 0
    ensures Count(InsertedAll(cs, files), segments, e) == Count(cs, segments, e) + Given(files, segments, e)
    decreases |files|
  {
    if |files| > 0 {
      var f := files[0];
      var at := Split(f.relativePath, '/');
      CountInserted(cs, at, f.entry, segments, e);
      CountInsertedAll(Inserted(cs, at, f.entry), files[1..], segments, e);
      assert files == [f] + files[1..];
      JoinSplit(f.relativePath, '/');
      SplitLacks(f.relativePath, '/');
      if SlashFree(segments) {
        SplitJoin(segments, '/');
      }
    }
  }

  lemma {:induction false} CountInsert(le: (Tree, Tree) -> bool, t: Tree, cs: seq<Tree>, segments: seq<string>, e: Entry)
    requires |segments| > 0
    ensures Count(Insert(le, t, cs), segments, e) == CountIn(t, segments, e) + Count(cs, segments, e)
    decreases |cs|
  {
    if |cs| == 0 || le(t, cs[0]) {
      assert ([t] + cs)[1..] == cs;
    } else {
      CountInsert(le, t, cs[1..], segments, e);
      assert ([cs[0]] + Insert(le, t, cs[1..]))[1..] == Insert(le, t, cs[1..]);
    }
  }

  lemma {:induction false} CountSort(le: (Tree, Tree) -> bool, cs: seq<Tree>, segments: seq<string>, e: Entry)
    requires |segments| > 0
    ensures Count(Sort(le, cs), segments, e) == Count(cs, segments, e)
    decreases |cs|
  {
    if |cs| > 0 {
      CountSort(le, cs[1..], segments, e);
      CountInsert(le, cs[0], Sort(le, cs[1..]), segments, e);
    }
  }

  lemma {:induction false} CountSortedEach(le: (string, string) -> bool, cs: seq<Tree>, segments: seq<string>, e: Entry)
    ensures Count(SortedEach(le, cs), segments, e) == Count(cs, segments, e)
    decreases |segments|, |cs|
  {
    if |cs| > 0 && |segments| > 0 {
      CountSortedTree(le, cs[0], segments, e);
      CountSortedEach(le, cs[1..], segments, e);
      assert SortedEach(le, cs)[1..] == SortedEach(le, cs[1..]);
    }
  }

  lemma {:induction false} CountSortedTree(le: (string, string) -> bool, t: Tree, segments: seq<string>, e: Entry)
    requires |segments| > 0
    ensures CountIn(SortedTree(le, t), segments, e) == CountIn(t, segments, e)
    decreases |segments|, 0
  {
    match t
    case File(_, _) =>
    case Dir(name, cs) =>
      CountSortedEach(le, cs, segments[1..], e);
      if |segments| > 1 {
        CountSort(TreeOrder(le), SortedEach(le, cs), segments[1..], e);
      }
  }

  lemma ManifestCount(le: (string, string) -> bool, files: seq<AssetFile>, segments: seq<string>, e: Entry)
    requires |segments| > 0
    ensures Count(Manifest(le, files), segments, e) == Given(files, segments, e)
  {
    CountInsertedAll([], files, segments, e);
    CountSortedEach(le, InsertedAll([], files), segments, e);
    CountSort(TreeOrder(le), SortedEach(le, InsertedAll([], files)), segments, e);
  }

  lemma {:induction false} CountTwo(cs: seq<Tree>, i: nat, j: nat, segments: seq<string>, e: Entry)
    requires i < |cs| && j < |cs| && |segments| > 0
    ensures Count(cs, segments, e) >= CountIn(cs[i], segments, e)
    ensures i < j ==> Count(cs, segments, e) >= CountIn(cs[i], segments, e) + CountIn(cs[j], segments, e)
    decreases |cs|
  {
    if i > 0 && j > 0 {
      CountTwo(cs[1..], i - 1, j - 1, segments, e);
    } else if j > 0 {
      CountTwo(cs[1..], j - 1, j - 1, segments, e);
    } else if i > 0 {
      CountTwo(cs[1..], i - 1, i - 1, segments, e);
    }
  }

  lemma {:induction false} CountNone(cs: seq<Tree>, segments: seq<string>, e: Entry)
    requires |segments| > 1 && forall t :: t in cs && t.Dir? ==> t.name != segments[0]
    ensures Count(cs, segments, e) == 0
    decreases |cs|
  {
    if |cs| > 0 {
      CountNone(cs[1..], segments, e);
    }
  }

  /** What is counted below a directory is what is counted in it. */
  lemma {:induction false} CountBelow(cs: seq<Tree>, i: nat, segments: seq<string>, e: Entry)
    requires Pairwise(OtherDir, cs) && i < |cs| && cs[i].Dir?
    requires |segments| > 1 && segments[0] == cs[i].name
    ensures Count(cs, segments, e) == Count(cs[i].children, segments[1..], e)
    decreases |cs|
  {
    if i == 0 {
      CountNone(cs[1..], segments, e);
    } else {
      CountBelow(cs[1..], i - 1, segments, e);
      assert OtherDir(cs[0], cs[i]);
    }
  }

  lemma {:induction false} SomeFile(cs: seq<Tree>) returns (segments: seq<string>, e: Entry)
    requires Tidy(cs) && |cs| > 0
    ensures |segments| > 0 && Count(cs, segments, e) > 0
    decreases cs
  {
    match cs[0]
    case File(name, e') =>
      segments, e := [name], e';
    case Dir(name, sub) =>
      assert cs[0] in cs;
      segments, e := SomeFile(sub);
      segments := [name] + segments;
      CountTwo(cs, 0, 0, segments, e);
  }

  /** The one arrangement of its files: tidy, ordered, one file per path. */
  ghost predicate Canonical(le: (string, string) -> bool, cs: seq<Tree>) {
    Tidy(cs) && Ordered(le, cs) && OnePerPath(cs)
  }

  ghost predicate Antisymmetric(le: (string, string) -> bool) {
    forall a, b :: le(a, b) && le(b, a) ==> a == b
  }

  ghost predicate SameCounts(a: seq<Tree>, b: seq<Tree>) {
    forall segments, e :: |segments| > 0 ==> Count(a, segments, e) == Count(b, segments, e)
  }

  lemma CanonicalBelow(le: (string, string) -> bool, cs: seq<Tree>, i: nat)
    requires Canonical(le, cs) && i < |cs| && cs[i].Dir?
    ensures Canonical(le, cs[i].children) && |cs[i].children| > 0
  {
    var sub := cs[i].children;
    forall segments, e, e' | Count(sub, segments, e) > 0 && Count(sub, segments, e') > 0
      ensures e == e' && Count(sub, segments, e) == 1
    {
      CountBelow(cs, i, [cs[i].name] + segments, e);
      CountBelow(cs, i, [cs[i].name] + segments, e');
      assert ([cs[i].name] + segments)[1..] == segments;
    }
  }

  lemma CanonicalTieFree(le: (string, string) -> bool, cs: seq<Tree>)
    requires Antisymmetric(le) && Canonical(le, cs)
    ensures TieFree(TreeOrder(le), cs)
  {
    forall i, j | 0 <= i < j < |cs| ensures !(TreeOrder(le)(cs[i], cs[j]) && TreeOrder(le)(cs[j], cs[i])) {
      if TreeOrder(le)(cs[i], cs[j]) && TreeOrder(le)(cs[j], cs[i]) {
        assert cs[i].name == cs[j].name && cs[i].Dir? == cs[j].Dir?;
        if cs[i].File? {
          var at := [cs[i].name];
          CountTwo(cs, i, j, at, cs[i].entry);
          CountTwo(cs, j, j, at, cs[j].entry);
        }
      }
    }
  }

  lemma {:induction false} CountedChild(cs: seq<Tree>, segments: seq<string>, e: Entry) returns (i: nat)
    requires |segments| > 0 && Count(cs, segments, e) > 0
    ensures i < |cs| && CountIn(cs[i], segments, e) > 0
    decreases |cs|
  {
    if CountIn(cs[0], segments, e) > 0 {
      return 0;
    }
    i := CountedChild(cs[1..], segments, e);
    i := i + 1;
  }

  /** A canonical tree is determined by the files it holds. */
  lemma {:induction false} CanonicalUnique(le: (string, string) -> bool, a: seq<Tree>, b: seq<Tree>)
    requires TotalPreorder(le) && Antisymmetric(le)
    requires Canonical(le, a) && Canonical(le, b) && SameCounts(a, b)
    ensures a == b
    decreases a, 1
  {
    forall i | 0 <= i < |a| ensures a[i] in b {
      CanonicalChild(le, a, b, i);
    }
    forall j | 0 <= j < |b| ensures b[j] in a {
      var segments, e := ChildFile(b, j);
      var i := CountedChild(a, segments, e);
      CanonicalChild(le, a, b, i);
      CanonicalTieFree(le, b);
      SameSlot(le, b, j, a[i], segments, e);
    }
    CanonicalTieFree(le, a);
    CanonicalTieFree(le, b);
    TreeOrderTotal(le);
    SameMembers(TreeOrder(le), a, b);
    SortedUnique(TreeOrder(le), a, b);
  }

  /** A path and entry counted in the child at `i`. */
  lemma ChildFile(cs: seq<Tree>, i: nat) returns (segments: seq<string>, e: Entry)
    requires Tidy(cs) && i < |cs|
    ensures |segments| > 0 && CountIn(cs[i], segments, e) > 0 && Count(cs, segments, e) > 0
    ensures segments[0] == cs[i].name && (cs[i].File? <==> |segments| == 1)
  {
    match cs[i]
    case File(name, e') =>
      segments, e := [name], e';
      CountTwo(cs, i, i, segments, e);
    case Dir(name, sub) =>
      assert cs[i] in cs;
      segments, e := SomeFile(sub);
      segments := [name] + segments;
      CountTwo(cs, i, i, segments, e);
  }

  lemma SameSlot(le: (string, string) -> bool, b: seq<Tree>, j: nat, t: Tree, segments: seq<string>, e: Entry)
    requires TotalPreorder(le) && TieFree(TreeOrder(le), b) && j < |b| && t in b
    requires |segments| > 0 && CountIn(t, segments, e) > 0
    requires segments[0] == b[j].name && (b[j].File? <==> |segments| == 1)
    ensures t == b[j]
  {
    var k :| 0 <= k < |b| && b[k] == t;
    assert t.name == b[j].name && (t.File? <==> b[j].File?);
    assert TreeOrder(le)(b[k], b[j]) && TreeOrder(le)(b[j], b[k]);
  }

  /** The child of `a` at `i` is also a child of `b`. */
  lemma {:induction false} CanonicalChild(le: (string, string) -> bool, a: seq<Tree>, b: seq<Tree>, i: nat)
    requires TotalPreorder(le) && Antisymmetric(le)
    requires Canonical(le, a) && Canonical(le, b) && SameCounts(a, b) && i < |a|
    ensures a[i] in b
    decreases a, 0
  {
    var segments, e := ChildFile(a, i);
    var j := CountedChild(b, segments, e);
    if a[i].Dir? {
      CanonicalBelow(le, a, i);
      CanonicalBelow(le, b, j);
      forall s, e' | |s| > 0 ensures Count(a[i].children, s, e') == Count(b[j].children, s, e') {
        CountBelow(a, i, [a[i].name] + s, e');
        CountBelow(b, j, [a[i].name] + s, e');
        assert ([a[i].name] + s)[1..] == s;
      }
      CanonicalUnique(le, a[i].children, b[j].children);
    }
    assert b[j] == a[i];
  }

  ghost predicate DistinctPaths(files: seq<AssetFile>) {
    forall i, j :: 0 <= i < j < |files| ==> files[i].relativePath != files[j].relativePath
  }

  lemma GivenOnce(files: seq<AssetFile>, segments: seq<string>, e: Entry, e': Entry)
    requires DistinctPaths(files) && Given(files, segments, e) > 0 && Given(files, segments, e') > 0
    ensures e == e' && Given(files, segments, e) == 1
  {
    var f, f' := AssetFile(Join(segments, '/'), e), AssetFile(Join(segments, '/'), e');
    assert f in multiset(files) && f' in multiset(files);
    var i :| 0 <= i < |files| && files[i] == f;
    var i' :| 0 <= i' < |files| && files[i'] == f';
    if multiset(files)[f] >= 2 {
      var j, k := TwoPositions(files, f);
    }
  }

  lemma ManifestCanonical(le: (string, string) -> bool, files: seq<AssetFile>)
    requires TotalPreorder(le) && DistinctPaths(files)
    ensures Canonical(le, Manifest(le, files))
  {
    Shape(le, files);
    var cs := Manifest(le, files);
    forall segments, e, e' | Count(cs, segments, e) > 0 && Count(cs, segments, e') > 0
      ensures e == e' && Count(cs, segments, e) == 1
    {
      ManifestCount(le, files, segments, e);
      ManifestCount(le, files, segments, e');
      GivenOnce(files, segments, e, e');
    }
  }

  /** Upload order does not show: any arrangement of files with distinct paths gives one tree. */
  lemma OrderIndependent(le: (string, string) -> bool, files: seq<AssetFile>, shuffled: seq<AssetFile>)
    requires TotalPreorder(le) && Antisymmetric(le)
    requires DistinctPaths(files) && multiset(files) == multiset(shuffled)
    ensures Manifest(le, files) == Manifest(le, shuffled)
  {
    var r := (a: AssetFile, b: AssetFile) => a.relativePath != b.relativePath;
    assert forall i, j :: 0 <= i < j < |files| ==> r(files[i], files[j]) && r(files[j], files[i]);
    PairwisePermutes(r, files, shuffled);
    assert forall i, j :: 0 <= i < j < |shuffled| ==> r(shuffled[i], shuffled[j]);
    ManifestCanonical(le, files);
    ManifestCanonical(le, shuffled);
    forall segments, e | |segments| > 0
      ensures Count(Manifest(le, files), segments, e) == Count(Manifest(le, shuffled), segments, e)
    {
      ManifestCount(le, files, segments, e);
      ManifestCount(le, shuffled, segments, e);
    }
    CanonicalUnique(le, Manifest(le, files), Manifest(le, shuffled));
  }

  /** Some condition is needed: two files at one one-segment path already show their upload order. */
  lemma SharedPathShowsOrder(le: (string, string) -> bool, path: string, e: Entry, e': Entry)
    requires TotalPreorder(le) && Lacks(path, '/') && e != e'
    ensures Manifest(le, [AssetFile(path, e), AssetFile(path, e')]) != Manifest(le, [AssetFile(path, e'), AssetFile(path, e)])
  {
    TwoAtOnePath(le, path, e, e');
    TwoAtOnePath(le, path, e', e);
  }

  lemma TwoAtOnePath(le: (string, string) -> bool, path: string, e: Entry, e': Entry)
    requires TotalPreorder(le) && Lacks(path, '/')
    ensures Manifest(le, [AssetFile(path, e), AssetFile(path, e')]) == [File(path, e), File(path, e')]
  {
    SplitJoin([path], '/');
    assert Join([path], '/') == path;
    var files := [AssetFile(path, e), AssetFile(path, e')];
    assert files[1..] == [AssetFile(path, e')] && files[1..][1..] == [];
    var cs := [File(path, e), File(path, e')];
    assert Inserted([], [path], e) == [File(path, e)] && Inserted([File(path, e)], [path], e') == cs;
    assert InsertedAll([File(path, e)], files[1..]) == InsertedAll(cs, []);
    assert InsertedAll([], files) == InsertedAll([File(path, e)], files[1..]);
    assert SortedEach(le, cs) == cs;
    var tail := [File(path, e')];
    assert cs[1..] == tail && tail[1..] == [];
    assert Sort(TreeOrder(le), tail) == Insert(TreeOrder(le), tail[0], []);
    assert le(path, path);
    assert Insert(TreeOrder(le), cs[0], tail) == [cs[0]] + tail;
  }
}
