/** What of the upload order the package manifest keeps. Children sort by kind and name, and names
    that compare alike without being equal stand in upload order; so do two files at one path. */
module ManifestOrder {
  import opened Sorting
  import opened Text
  import opened ManifestTree

  /** The comparator does not tell the names apart. */
  predicate Tied(le: (string, string) -> bool, a: string, b: string) {
    le(a, b) && le(b, a)
  }

  /** What a level shows of a child. */
  datatype Seen = SeenFile(name: string, entry: Entry) | SeenDir(name: string)

  function Top(t: Tree): Seen {
    match t
    case File(name, e) => SeenFile(name, e)
    case Dir(name, _) => SeenDir(name)
  }

  /** In the directory all but the last of `segments` lead to, the children of the kind whose names
      tie with the last, in tree order. */
  ghost function SeenAt(le: (string, string) -> bool, dirs: bool, cs: seq<Tree>, segments: seq<string>): seq<Seen>
    decreases |segments|, |cs|
  {
    if |cs| == 0 || |segments| == 0 then []
    else SeenIn(le, dirs, cs[0], segments) + SeenAt(le, dirs, cs[1..], segments)
  }

  ghost function SeenIn(le: (string, string) -> bool, dirs: bool, t: Tree, segments: seq<string>): seq<Seen>
    requires |segments| > 0
    decreases |segments|, 0
  {
    if |segments| == 1 then (if t.Dir? == dirs && Tied(le, t.name, segments[0]) then [Top(t)] else [])
    else if t.Dir? && t.name == segments[0] then SeenAt(le, dirs, t.children, segments[1..]) else []
  }

  /** What one file adds there: itself, or the directory it lies below. */
  ghost function Item(le: (string, string) -> bool, dirs: bool, at: seq<string>, e: Entry, segments: seq<string>): (r: seq<Seen>)
    requires |at| > 0 && |segments| > 0
    ensures |r| <= 1
    decreases |segments|
  {
    if |segments| == 1 then
      if (|at| > 1) == dirs && Tied(le, at[0], segments[0]) then [if dirs then SeenDir(at[0]) else SeenFile(at[0], e)] else []
    else if |at| > 1 && at[0] == segments[0] then Item(le, dirs, at[1..], e, segments[1..]) else []
  }

  ghost function FileItem(le: (string, string) -> bool, dirs: bool, f: AssetFile, segments: seq<string>): (r: seq<Seen>)
    requires |segments| > 0
    ensures |r| <= 1
  {
    Item(le, dirs, Split(f.relativePath, '/'), f.entry, segments)
  }

  /** A directory is added once. */
  ghost function Came(dirs: bool, before: seq<Seen>, item: seq<Seen>): seq<Seen> {
    if dirs && |item| > 0 && item[0] in before then [] else item
  }

  /** The same of an upload: the files in upload order, the directories in the order in which their
      first files came. */
  ghost function SeenOf(le: (string, string) -> bool, dirs: bool, before: seq<Seen>, files: seq<AssetFile>, segments: seq<string>): seq<Seen>
    requires |segments| > 0
    decreases |files|
  {
    if |files| == 0 then before
    else SeenOf(le, dirs, before + Came(dirs, before, FileItem(le, dirs, files[0], segments)), files[1..], segments)
  }

  // ---------------------------------------------------------------- building keeps the order

  lemma {:induction false} AtAppend(le: (string, string) -> bool, dirs: bool, cs: seq<Tree>, t: Tree, segments: seq<string>)
    requires |segments| > 0
    ensures SeenAt(le, dirs, cs + [t], segments) == SeenAt(le, dirs, cs, segments) + SeenIn(le, dirs, t, segments)
    decreases |cs|
  {
    if |cs| == 0 {
      assert cs + [t] == [t] && [t][1..] == [];
    } else {
      AtAppend(le, dirs, cs[1..], t, segments);
      assert (cs + [t])[1..] == cs[1..] + [t];
      Associates(SeenIn(le, dirs, cs[0], segments), SeenAt(le, dirs, cs[1..], segments), SeenIn(le, dirs, t, segments));
    }
  }

  /** A deeper place is reached through the directory of its first name only. */
  lemma {:induction false} NoneAt(le: (string, string) -> bool, dirs: bool, cs: seq<Tree>, segments: seq<string>)
    requires |segments| > 1 && forall t :: t in cs && t.Dir? ==> t.name != segments[0]
    ensures SeenAt(le, dirs, cs, segments) == []
    decreases |cs|
  {
    if |cs| > 0 {
      NoneAt(le, dirs, cs[1..], segments);
    }
  }

  lemma OtherNames(cs: seq<Tree>, t: Tree)
    requires Pairwise(OtherDir, cs) && |cs| > 0 && cs[0].Dir? && t in cs[1..] && t.Dir?
    ensures t.name != cs[0].name
  {
    var k :| 0 <= k < |cs[1..]| && cs[1..][k] == t;
    assert OtherDir(cs[0], cs[k + 1]);
  }

  lemma RestIsElsewhere(le: (string, string) -> bool, dirs: bool, cs: seq<Tree>, segments: seq<string>)
    requires Pairwise(OtherDir, cs) && |cs| > 0 && cs[0].Dir?
    requires |segments| > 1 && segments[0] == cs[0].name
    ensures SeenAt(le, dirs, cs, segments) == SeenAt(le, dirs, cs[0].children, segments[1..])
    ensures SeenAt(le, dirs, cs[1..], segments) == []
  {
    forall t | t in cs[1..] && t.Dir? ensures t.name != segments[0] {
      OtherNames(cs, t);
    }
    NoneAt(le, dirs, cs[1..], segments);
  }

  lemma {:induction false} OnlyThere(le: (string, string) -> bool, dirs: bool, cs: seq<Tree>, i: nat, segments: seq<string>)
    requires Pairwise(OtherDir, cs) && i < |cs| && cs[i].Dir? && |segments| > 1 && segments[0] == cs[i].name
    ensures SeenAt(le, dirs, cs, segments) == SeenAt(le, dirs, cs[i].children, segments[1..])
    decreases |cs|
  {
    if i == 0 {
      RestIsElsewhere(le, dirs, cs, segments);
    } else {
      assert OtherDir(cs[0], cs[i]);
      OnlyThere(le, dirs, cs[1..], i - 1, segments);
    }
  }

  /** More below one directory is more at the end of what its places show. */
  lemma {:induction false} AtReplace(le: (string, string) -> bool, dirs: bool, cs: seq<Tree>, i: nat, sub: seq<Tree>,
                                     segments: seq<string>, more: seq<Seen>)
    requires Pairwise(OtherDir, cs) && i < |cs| && cs[i].Dir? && |segments| > 0
    requires SeenIn(le, dirs, Dir(cs[i].name, sub), segments) == SeenIn(le, dirs, cs[i], segments) + more
    requires more != [] ==> |segments| > 1 && segments[0] == cs[i].name
    ensures SeenAt(le, dirs, cs[i := Dir(cs[i].name, sub)], segments) == SeenAt(le, dirs, cs, segments) + more
    decreases |cs|
  {
    var after := cs[i := Dir(cs[i].name, sub)];
    if i == 0 {
      assert after[1..] == cs[1..];
      if more != [] {
        RestIsElsewhere(le, dirs, cs, segments);
      }
    } else {
      assert after[1..] == cs[1..][i - 1 := Dir(cs[i].name, sub)];
      AtReplace(le, dirs, cs[1..], i - 1, sub, segments, more);
      Associates(SeenIn(le, dirs, cs[0], segments), SeenAt(le, dirs, cs[1..], segments), more);
    }
  }

  /** At its own level a directory is seen if and only if it is there. */
  lemma {:induction false} DirSeen(le: (string, string) -> bool, cs: seq<Tree>, name: string, near: string)
    requires Tied(le, name, near)
    ensures SeenDir(name) in SeenAt(le, true, cs, [near]) <==> exists t :: t in cs && t.Dir? && t.name == name
    decreases |cs|
  {
    if |cs| > 0 {
      DirSeen(le, cs[1..], name, near);
      assert SeenIn(le, true, cs[0], [near]) == if cs[0].Dir? && Tied(le, cs[0].name, near) then [Top(cs[0])] else [];
      assert cs == [cs[0]] + cs[1..];
    }
  }

  lemma {:induction false} AtInserted(le: (string, string) -> bool, dirs: bool, cs: seq<Tree>, at: seq<string>, e: Entry, segments: seq<string>)
    requires Tidy(cs) && |at| > 0 && |segments| > 0
    ensures var before := SeenAt(le, dirs, cs, segments);
      SeenAt(le, dirs, Inserted(cs, at, e), segments) == before + Came(dirs, before, Item(le, dirs, at, e, segments))
    decreases |at|
  {
    if |at| == 1 {
      AtAppend(le, dirs, cs, File(at[0], e), segments);
    } else {
      var i := IndexOfDir(cs, at[0]);
      var sub := if i == |cs| then [] else cs[i].children;
      if |segments| > 1 && at[0] == segments[0] {
        AtInserted(le, dirs, sub, at[1..], e, segments[1..]);
        InsertedBelow(le, dirs, cs, at, e, segments, i, Inserted(sub, at[1..], e));
      } else {
        InsertedBeside(le, dirs, cs, at, e, segments, i, Inserted(sub, at[1..], e));
      }
    }
  }

  lemma InsertedBelow(le: (string, string) -> bool, dirs: bool, cs: seq<Tree>, at: seq<string>, e: Entry, segments: seq<string>,
                      i: nat, below: seq<Tree>)
    requires Tidy(cs) && |at| > 1 && |segments| > 1 && at[0] == segments[0] && i == IndexOfDir(cs, at[0])
    requires var before := if i == |cs| then [] else SeenAt(le, dirs, cs[i].children, segments[1..]);
      SeenAt(le, dirs, below, segments[1..]) == before + Came(dirs, before, Item(le, dirs, at[1..], e, segments[1..]))
    ensures var before := SeenAt(le, dirs, cs, segments);
      SeenAt(le, dirs, if i == |cs| then cs + [Dir(at[0], below)] else cs[i := Dir(at[0], below)], segments)
      == before + Came(dirs, before, Item(le, dirs, at, e, segments))
  {
    if i == |cs| {
      NoneAt(le, dirs, cs, segments);
      AtAppend(le, dirs, cs, Dir(at[0], below), segments);
    } else {
      OnlyThere(le, dirs, cs, i, segments);
      var before := SeenAt(le, dirs, cs, segments);
      AtReplace(le, dirs, cs, i, below, segments, Came(dirs, before, Item(le, dirs, at, e, segments)));
    }
  }

  lemma InsertedBeside(le: (string, string) -> bool, dirs: bool, cs: seq<Tree>, at: seq<string>, e: Entry, segments: seq<string>,
                       i: nat, below: seq<Tree>)
    requires Tidy(cs) && |at| > 1 && |segments| > 0 && i == IndexOfDir(cs, at[0])
    requires |segments| > 1 ==> at[0] != segments[0]
    ensures var before := SeenAt(le, dirs, cs, segments);
      SeenAt(le, dirs, if i == |cs| then cs + [Dir(at[0], below)] else cs[i := Dir(at[0], below)], segments)
      == before + Came(dirs, before, Item(le, dirs, at, e, segments))
  {
    if i == |cs| {
      AtAppend(le, dirs, cs, Dir(at[0], below), segments);
    } else {
      AtReplace(le, dirs, cs, i, below, segments, []);
      assert cs[i] in cs;
    }
    if |segments| == 1 && Tied(le, at[0], segments[0]) {
      assert segments == [segments[0]];
      DirSeen(le, cs, at[0], segments[0]);
    }
  }

  lemma {:induction false} AtInsertedAll(le: (string, string) -> bool, dirs: bool, cs: seq<Tree>, files: seq<AssetFile>, segments: seq<string>)
    requires Tidy(cs) && |segments| > 0
    ensures SeenAt(le, dirs, InsertedAll(cs, files), segments) == SeenOf(le, dirs, SeenAt(le, dirs, cs, segments), files, segments)
    decreases |files|
  {
    if |files| > 0 {
      var at := Split(files[0].relativePath, '/');
      InsertedTidy(cs, at, files[0].entry);
      AtInserted(le, dirs, cs, at, files[0].entry, segments);
      AtInsertedAll(le, dirs, Inserted(cs, at, files[0].entry), files[1..], segments);
    }
  }

  // ---------------------------------------------------------------- sorting keeps the order

  lemma {:induction false} AtInsert(le: (string, string) -> bool, dirs: bool, x: Tree, s: seq<Tree>, segments: seq<string>)
    requires TotalPreorder(le) && |segments| > 0
    ensures SeenAt(le, dirs, Insert(TreeOrder(le), x, s), segments) == SeenIn(le, dirs, x, segments) + SeenAt(le, dirs, s, segments)
    decreases |s|
  {
    var r := Insert(TreeOrder(le), x, s);
    if |s| == 0 || TreeOrder(le)(x, s[0]) {
      assert r[1..] == s;
    } else {
      AtInsert(le, dirs, x, s[1..], segments);
      assert r[0] == s[0] && r[1..] == Insert(TreeOrder(le), x, s[1..]);
      Passed(le, dirs, x, s[0], segments);
      Exchanged(SeenIn(le, dirs, s[0], segments), SeenIn(le, dirs, x, segments), SeenAt(le, dirs, s[1..], segments));
    }
  }

  lemma Exchanged<T>(a: seq<T>, b: seq<T>, c: seq<T>)
    requires a == [] || b == []
    ensures a + (b + c) == b + (a + c)
  {
  }

  /** Of two children in a fixed order one only is seen at any one place. */
  lemma Passed(le: (string, string) -> bool, dirs: bool, x: Tree, y: Tree, segments: seq<string>)
    requires TotalPreorder(le) && |segments| > 0 && !TreeOrder(le)(x, y)
    ensures SeenIn(le, dirs, x, segments) == [] || SeenIn(le, dirs, y, segments) == []
  {
    assert le(x.name, x.name);
    assert le(x.name, segments[0]) && le(segments[0], y.name) ==> le(x.name, y.name);
  }

  lemma {:induction false} AtSort(le: (string, string) -> bool, dirs: bool, cs: seq<Tree>, segments: seq<string>)
    requires TotalPreorder(le) && |segments| > 0
    ensures SeenAt(le, dirs, Sort(TreeOrder(le), cs), segments) == SeenAt(le, dirs, cs, segments)
    decreases |cs|
  {
    if |cs| > 0 {
      AtSort(le, dirs, cs[1..], segments);
      AtInsert(le, dirs, cs[0], Sort(TreeOrder(le), cs[1..]), segments);
    }
  }

  lemma {:induction false} AtSortedEach(le: (string, string) -> bool, dirs: bool, cs: seq<Tree>, segments: seq<string>)
    requires TotalPreorder(le)
    ensures SeenAt(le, dirs, SortedEach(le, cs), segments) == SeenAt(le, dirs, cs, segments)
    decreases |segments|, |cs|
  {
    if |cs| > 0 && |segments| > 0 {
      AtSortedTree(le, dirs, cs[0], segments);
      AtSortedEach(le, dirs, cs[1..], segments);
      assert SortedEach(le, cs)[1..] == SortedEach(le, cs[1..]);
    }
  }

  lemma {:induction false} AtSortedTree(le: (string, string) -> bool, dirs: bool, t: Tree, segments: seq<string>)
    requires TotalPreorder(le) && |segments| > 0
    ensures SeenIn(le, dirs, SortedTree(le, t), segments) == SeenIn(le, dirs, t, segments)
    decreases |segments|, 0
  {
    if t.Dir? && |segments| > 1 {
      AtSortedEach(le, dirs, t.children, segments[1..]);
      AtSort(le, dirs, SortedEach(le, t.children), segments[1..]);
    }
  }

  /** Every level of the manifest shows, among names that tie, the files in upload order and the
      directories in the order of their first files. */
  lemma ManifestSeen(le: (string, string) -> bool, dirs: bool, files: seq<AssetFile>, segments: seq<string>)
    requires TotalPreorder(le) && |segments| > 0
    ensures SeenAt(le, dirs, Manifest(le, files), segments) == SeenOf(le, dirs, [], files, segments)
  {
    AtInsertedAll(le, dirs, [], files, segments);
    AtSortedEach(le, dirs, InsertedAll([], files), segments);
    AtSort(le, dirs, SortedEach(le, InsertedAll([], files)), segments);
  }

  // ---------------------------------------------------------------- that determines the tree

  ghost predicate SameSeen(le: (string, string) -> bool, a: seq<Tree>, b: seq<Tree>) {
    forall dirs, segments :: SeenAt(le, dirs, a, segments) == SeenAt(le, dirs, b, segments)
  }

  ghost predicate Arranged(le: (string, string) -> bool, cs: seq<Tree>) {
    Tidy(cs) && Ordered(le, cs)
  }

  lemma {:induction false} Contributor(le: (string, string) -> bool, dirs: bool, cs: seq<Tree>, segments: seq<string>) returns (i: nat)
    requires |segments| > 0 && SeenAt(le, dirs, cs, segments) != []
    ensures i < |cs| && SeenIn(le, dirs, cs[i], segments) != []
    decreases |cs|
  {
    if SeenIn(le, dirs, cs[0], segments) != [] {
      return 0;
    }
    i := Contributor(le, dirs, cs[1..], segments);
    i := i + 1;
  }

  /** The head of `b` may stand before the head of `a`. */
  lemma HeadBefore(le: (string, string) -> bool, a: seq<Tree>, b: seq<Tree>)
    requires TotalPreorder(le) && Ordered(le, b) && SameSeen(le, a, b) && |a| > 0
    ensures |b| > 0 && TreeOrder(le)(b[0], a[0])
  {
    var dirs, segments := a[0].Dir?, [a[0].name];
    assert Tied(le, a[0].name, a[0].name) && SeenIn(le, dirs, a[0], segments) == [Top(a[0])];
    assert SeenAt(le, dirs, a, segments) == SeenAt(le, dirs, b, segments);
    var j := Contributor(le, dirs, b, segments);
    assert le(b[j].name, a[0].name) && b[j].Dir? == dirs;
    assert j > 0 ==> TreeOrder(le)(b[0], b[j]);
  }

  lemma HeadsAlike(le: (string, string) -> bool, a: seq<Tree>, b: seq<Tree>)
    requires TotalPreorder(le) && Ordered(le, a) && Ordered(le, b) && SameSeen(le, a, b) && |a| > 0
    ensures |b| > 0 && Top(a[0]) == Top(b[0])
  {
    HeadBefore(le, a, b);
    HeadBefore(le, b, a);
    var dirs, segments := a[0].Dir?, [a[0].name];
    assert Tied(le, a[0].name, a[0].name);
    assert SeenIn(le, dirs, a[0], segments) == [Top(a[0])] && SeenIn(le, dirs, b[0], segments) == [Top(b[0])];
    assert SeenAt(le, dirs, a, segments)[0] == Top(a[0]);
    assert SeenAt(le, dirs, b, segments)[0] == Top(b[0]);
  }

  lemma TailArranged(le: (string, string) -> bool, cs: seq<Tree>)
    requires Arranged(le, cs) && |cs| > 0
    ensures Arranged(le, cs[1..])
    ensures cs[0].Dir? ==> Arranged(le, cs[0].children)
  {
    assert cs[0] in cs && forall t :: t in cs[1..] ==> t in cs;
  }

  lemma SubSeen(le: (string, string) -> bool, a: seq<Tree>, b: seq<Tree>)
    requires Arranged(le, a) && Arranged(le, b) && SameSeen(le, a, b) && |a| > 0 && |b| > 0
    requires a[0].Dir? && b[0].Dir? && a[0].name == b[0].name
    ensures SameSeen(le, a[0].children, b[0].children)
  {
    forall dirs, s ensures SeenAt(le, dirs, a[0].children, s) == SeenAt(le, dirs, b[0].children, s) {
      if |s| > 0 {
        var segments := [a[0].name] + s;
        assert segments[1..] == s;
        RestIsElsewhere(le, dirs, a, segments);
        RestIsElsewhere(le, dirs, b, segments);
        assert SeenAt(le, dirs, a, segments) == SeenAt(le, dirs, b, segments);
      }
    }
  }

  lemma TailSeen(le: (string, string) -> bool, a: seq<Tree>, b: seq<Tree>)
    requires SameSeen(le, a, b) && |a| > 0 && |b| > 0 && a[0] == b[0]
    ensures SameSeen(le, a[1..], b[1..])
  {
    forall dirs, s ensures SeenAt(le, dirs, a[1..], s) == SeenAt(le, dirs, b[1..], s) {
      if |s| > 0 {
        assert SeenAt(le, dirs, a, s) == SeenAt(le, dirs, b, s);
        Cancels(SeenIn(le, dirs, a[0], s), SeenAt(le, dirs, a[1..], s), SeenAt(le, dirs, b[1..], s));
      }
    }
  }

  lemma Cancels<T>(a: seq<T>, b: seq<T>, c: seq<T>)
    requires a + b == a + c
    ensures b == c
  {
    assert (a + b)[|a|..] == b && (a + c)[|a|..] == c;
  }

  /** A tidy ordered tree is determined by what its levels show of names that tie. */
  lemma {:induction false} SeenDetermines(le: (string, string) -> bool, a: seq<Tree>, b: seq<Tree>)
    requires TotalPreorder(le) && Arranged(le, a) && Arranged(le, b) && SameSeen(le, a, b)
    ensures a == b
    decreases a
  {
    if |a| == 0 {
      if |b| > 0 {
        HeadBefore(le, b, a);
      }
    } else {
      HeadsAlike(le, a, b);
      TailArranged(le, a);
      TailArranged(le, b);
      if a[0].Dir? {
        SubSeen(le, a, b);
        SeenDetermines(le, a[0].children, b[0].children);
      }
      TailSeen(le, a, b);
      SeenDetermines(le, a[1..], b[1..]);
      assert a == [a[0]] + a[1..] && b == [b[0]] + b[1..];
    }
  }

  ghost predicate SameUploads(le: (string, string) -> bool, files: seq<AssetFile>, files': seq<AssetFile>) {
    forall dirs, segments :: |segments| > 0 ==> SeenOf(le, dirs, [], files, segments) == SeenOf(le, dirs, [], files', segments)
  }

  /** Two uploads give one manifest if and only if in every directory, among names that tie, the same
      files come in the same order and so do the first files below each directory. */
  lemma SameTreeExactly(le: (string, string) -> bool, files: seq<AssetFile>, files': seq<AssetFile>)
    requires TotalPreorder(le)
    ensures Manifest(le, files) == Manifest(le, files') <==> SameUploads(le, files, files')
  {
    var a, b := Manifest(le, files), Manifest(le, files');
    forall dirs, segments | |segments| > 0
      ensures SeenAt(le, dirs, a, segments) == SeenOf(le, dirs, [], files, segments)
      ensures SeenAt(le, dirs, b, segments) == SeenOf(le, dirs, [], files', segments)
    {
      ManifestSeen(le, dirs, files, segments);
      ManifestSeen(le, dirs, files', segments);
    }
    if SameUploads(le, files, files') {
      forall dirs, segments ensures SeenAt(le, dirs, a, segments) == SeenAt(le, dirs, b, segments) {
        if |segments| > 0 {
          assert SeenOf(le, dirs, [], files, segments) == SeenOf(le, dirs, [], files', segments);
        }
      }
      Shape(le, files);
      Shape(le, files');
      SeenDetermines(le, a, b);
    }
  }

  // ---------------------------------------------------------------- the entries at one path

  /** The entries the tree holds at the path `segments`, in tree order. */
  ghost function EntriesAt(cs: seq<Tree>, segments: seq<string>): seq<Entry>
    decreases |segments|, |cs|
  {
    if |cs| == 0 || |segments| == 0 then [] else EntriesIn(cs[0], segments) + EntriesAt(cs[1..], segments)
  }

  ghost function EntriesIn(t: Tree, segments: seq<string>): seq<Entry>
    requires |segments| > 0
    decreases |segments|, 0
  {
    match t
    case File(name, e) => if segments == [name] then [e] else []
    case Dir(name, cs) => if segments[0] == name then EntriesAt(cs, segments[1..]) else []
  }

  /** The entries uploaded at `path`, in upload order. */
  ghost function UploadedAt(files: seq<AssetFile>, path: string): seq<Entry> {
    if |files| == 0 then []
    else (if files[0].relativePath == path then [files[0].entry] else []) + UploadedAt(files[1..], path)
  }

  /** The entries of the files seen under one name. */
  ghost function Named(seen: seq<Seen>, name: string): seq<Entry> {
    if |seen| == 0 then []
    else (if seen[0].SeenFile? && seen[0].name == name then [seen[0].entry] else []) + Named(seen[1..], name)
  }

  lemma {:induction false} NamedJoin(a: seq<Seen>, b: seq<Seen>, name: string)
    ensures Named(a + b, name) == Named(a, name) + Named(b, name)
  {
    if |a| == 0 {
      assert a + b == b;
    } else {
      var all := a + b;
      assert all[0] == a[0] && all[1..] == a[1..] + b;
      NamedJoin(a[1..], b, name);
      Associates(if a[0].SeenFile? && a[0].name == name then [a[0].entry] else [], Named(a[1..], name), Named(b, name));
    }
  }

  lemma {:induction false} NamedSeen(le: (string, string) -> bool, cs: seq<Tree>, segments: seq<string>)
    requires TotalPreorder(le) && |segments| > 0
    ensures Named(SeenAt(le, false, cs, segments), segments[|segments| - 1]) == EntriesAt(cs, segments)
    decreases |segments|, |cs|
  {
    if |cs| > 0 {
      NamedSeenIn(le, cs[0], segments);
      NamedSeen(le, cs[1..], segments);
      NamedJoin(SeenIn(le, false, cs[0], segments), SeenAt(le, false, cs[1..], segments), segments[|segments| - 1]);
    }
  }

  lemma {:induction false} NamedSeenIn(le: (string, string) -> bool, t: Tree, segments: seq<string>)
    requires TotalPreorder(le) && |segments| > 0
    ensures Named(SeenIn(le, false, t, segments), segments[|segments| - 1]) == EntriesIn(t, segments)
    decreases |segments|, 0
  {
    assert Tied(le, t.name, t.name);
    if |segments| == 1 {
      assert segments == [segments[0]];
      NamedOne(Top(t), segments[0]);
    } else if t.Dir? && t.name == segments[0] {
      NamedSeen(le, t.children, segments[1..]);
    }
  }

  lemma NamedOne(x: Seen, name: string)
    ensures Named([x], name) == if x.SeenFile? && x.name == name then [x.entry] else []
  {
    assert [x][1..] == [];
  }

  lemma SameList<T>(s: seq<T>, t: seq<T>)
    requires |s| > 0 && |t| > 0
    ensures s == t <==> s[0] == t[0] && s[1..] == t[1..]
  {
    assert s == [s[0]] + s[1..] && t == [t[0]] + t[1..];
  }

  lemma {:induction false} NamedItem(le: (string, string) -> bool, at: seq<string>, e: Entry, segments: seq<string>, name: string)
    requires TotalPreorder(le) && |at| > 0 && |segments| > 0 && name == segments[|segments| - 1]
    ensures Named(Item(le, false, at, e, segments), name) == if at == segments then [e] else []
    decreases |segments|
  {
    SameList(at, segments);
    if |segments| == 1 {
      assert Tied(le, segments[0], segments[0]);
      NamedOne(SeenFile(at[0], e), name);
    } else if |at| > 1 && at[0] == segments[0] {
      NamedItem(le, at[1..], e, segments[1..], name);
    }
  }

  lemma NamedFile(le: (string, string) -> bool, f: AssetFile, path: string)
    requires TotalPreorder(le)
    ensures var segments := Split(path, '/');
      Named(FileItem(le, false, f, segments), segments[|segments| - 1]) == if f.relativePath == path then [f.entry] else []
  {
    var segments := Split(path, '/');
    NamedItem(le, Split(f.relativePath, '/'), f.entry, segments, segments[|segments| - 1]);
    JoinSplit(path, '/');
    JoinSplit(f.relativePath, '/');
  }

  lemma {:induction false} NamedUploaded(le: (string, string) -> bool, before: seq<Seen>, files: seq<AssetFile>, path: string,
                                         segments: seq<string>, name: string)
    requires TotalPreorder(le) && segments == Split(path, '/') && name == segments[|segments| - 1]
    ensures Named(SeenOf(le, false, before, files, segments), name) == Named(before, name) + UploadedAt(files, path)
    decreases |files|
  {
    if |files| > 0 {
      var item := FileItem(le, false, files[0], segments);
      NamedUploaded(le, before + item, files[1..], path, segments, name);
      NamedJoin(before, item, name);
      NamedFile(le, files[0], path);
      Associates(Named(before, name), Named(item, name), UploadedAt(files[1..], path));
    }
  }

  /** The manifest holds at every path exactly the entries uploaded there, in upload order. */
  lemma ManifestEntries(le: (string, string) -> bool, files: seq<AssetFile>, path: string)
    requires TotalPreorder(le)
    ensures EntriesAt(Manifest(le, files), Split(path, '/')) == UploadedAt(files, path)
  {
    var segments := Split(path, '/');
    NamedSeen(le, Manifest(le, files), segments);
    ManifestSeen(le, false, files, segments);
    NamedUploaded(le, [], files, path, segments, segments[|segments| - 1]);
  }

  lemma {:induction false} UploadedJoin(a: seq<AssetFile>, b: seq<AssetFile>, path: string)
    ensures UploadedAt(a + b, path) == UploadedAt(a, path) + UploadedAt(b, path)
  {
    if |a| == 0 {
      assert a + b == b;
    } else {
      UploadedJoin(a[1..], b, path);
      assert (a + b)[1..] == a[1..] + b;
      Associates(if a[0].relativePath == path then [a[0].entry] else [], UploadedAt(a[1..], path), UploadedAt(b, path));
    }
  }

  lemma UploadedFrom(before: seq<AssetFile>, f: AssetFile, after: seq<AssetFile>)
    ensures var s := UploadedAt(before + ([f] + after), f.relativePath);
      var n := |UploadedAt(before, f.relativePath)|;
      n < |s| && s[n] == f.entry
  {
    UploadedJoin(before, [f] + after, f.relativePath);
    assert ([f] + after)[1..] == after;
  }

  lemma SwapUploaded(files: seq<AssetFile>, i: nat, j: nat, swapped: seq<AssetFile>)
    requires i < j < |files| && files[i].relativePath == files[j].relativePath && files[i].entry != files[j].entry
    requires swapped == files[i := files[j]][j := files[i]]
    ensures UploadedAt(files, files[i].relativePath) != UploadedAt(swapped, files[i].relativePath)
  {
    var before := files[..i];
    assert files == before + ([files[i]] + files[i + 1..]);
    assert swapped == before + ([files[j]] + swapped[i + 1..]);
    UploadedFrom(before, files[i], files[i + 1..]);
    UploadedFrom(before, files[j], swapped[i + 1..]);
  }

  /** Exchanging two files at one path that differ shows in the tree. */
  lemma SwapShows(le: (string, string) -> bool, files: seq<AssetFile>, i: nat, j: nat)
    requires TotalPreorder(le)
    requires i < j < |files| && files[i].relativePath == files[j].relativePath && files[i].entry != files[j].entry
    ensures var swapped := files[i := files[j]][j := files[i]];
      multiset(swapped) == multiset(files) && Manifest(le, swapped) != Manifest(le, files)
  {
    var swapped := files[i := files[j]][j := files[i]];
    SwapUploaded(files, i, j, swapped);
    ManifestEntries(le, files, files[i].relativePath);
    ManifestEntries(le, swapped, files[i].relativePath);
  }

  // ---------------------------------------------------------------- when the order does not matter

  /** Wherever the two paths part, the names do not tie unless a file stands beside a directory; at
      one path the entries are equal. */
  ghost predicate Compatible(le: (string, string) -> bool, s: seq<string>, e: Entry, t: seq<string>, e': Entry)
    requires |s| > 0 && |t| > 0
    decreases |s|
  {
    if |s| == 1 && |t| == 1 then Tied(le, s[0], t[0]) ==> s[0] == t[0] && e == e'
    else if |s| > 1 && |t| > 1 then
      && (Tied(le, s[0], t[0]) ==> s[0] == t[0])
      && (s[0] == t[0] ==> Compatible(le, s[1..], e, t[1..], e'))
    else true
  }

  ghost predicate FilesCompatible(le: (string, string) -> bool, f: AssetFile, g: AssetFile) {
    Compatible(le, Split(f.relativePath, '/'), f.entry, Split(g.relativePath, '/'), g.entry)
  }

  ghost predicate AllCompatible(le: (string, string) -> bool, files: seq<AssetFile>) {
    forall f, g :: f in files && g in files ==> FilesCompatible(le, f, g)
  }

  ghost predicate AnyOrder(le: (string, string) -> bool, files: seq<AssetFile>) {
    forall shuffled :: multiset(shuffled) == multiset(files) ==> Manifest(le, shuffled) == Manifest(le, files)
  }

  lemma {:induction false} ItemsAgree(le: (string, string) -> bool, dirs: bool, s: seq<string>, e: Entry, t: seq<string>, e': Entry, segments: seq<string>)
    requires TotalPreorder(le) && |s| > 0 && |t| > 0 && |segments| > 0 && Compatible(le, s, e, t, e')
    requires Item(le, dirs, s, e, segments) != [] && Item(le, dirs, t, e', segments) != []
    ensures Item(le, dirs, s, e, segments) == Item(le, dirs, t, e', segments)
    decreases |segments|
  {
    if |segments| == 1 {
      assert le(s[0], segments[0]) && le(segments[0], t[0]) && le(t[0], segments[0]) && le(segments[0], s[0]);
      assert Tied(le, s[0], t[0]);
    } else {
      ItemsAgree(le, dirs, s[1..], e, t[1..], e', segments[1..]);
    }
  }

  lemma {:induction false} ItemsDiffer(le: (string, string) -> bool, s: seq<string>, e: Entry, t: seq<string>, e': Entry)
      returns (dirs: bool, segments: seq<string>)
    requires TotalPreorder(le) && |s| > 0 && |t| > 0 && !Compatible(le, s, e, t, e')
    ensures |segments| > 0
    ensures var x, y := Item(le, dirs, s, e, segments), Item(le, dirs, t, e', segments);
      |x| == 1 && |y| == 1 && x != y
    decreases |s|
  {
    assert Tied(le, s[0], s[0]);
    if |s| > 1 && s[0] == t[0] {
      var rest;
      dirs, rest := ItemsDiffer(le, s[1..], e, t[1..], e');
      segments := [s[0]] + rest;
      assert segments[1..] == rest;
    } else {
      dirs, segments := |s| > 1, [s[0]];
    }
  }

  /** How many of the files add something there. */
  ghost function Adding(le: (string, string) -> bool, dirs: bool, files: seq<AssetFile>, segments: seq<string>): nat
    requires |segments| > 0
  {
    if |files| == 0 then 0 else |FileItem(le, dirs, files[0], segments)| + Adding(le, dirs, files[1..], segments)
  }

  lemma {:induction false} AddingJoin(le: (string, string) -> bool, dirs: bool, a: seq<AssetFile>, b: seq<AssetFile>, segments: seq<string>)
    requires |segments| > 0
    ensures Adding(le, dirs, a + b, segments) == Adding(le, dirs, a, segments) + Adding(le, dirs, b, segments)
    decreases |a|
  {
    if |a| == 0 {
      assert a + b == b;
    } else {
      AddingJoin(le, dirs, a[1..], b, segments);
      assert (a + b)[1..] == a[1..] + b;
    }
  }

  /** A list with the element at `i` brought to the front. */
  function Fronted<T>(s: seq<T>, i: nat): seq<T>
    requires i < |s|
  {
    [s[i]] + (s[..i] + s[i + 1..])
  }

  lemma FrontedBag<T>(s: seq<T>, i: nat)
    requires i < |s|
    ensures multiset(Fronted(s, i)) == multiset(s)
  {
    assert s == s[..i] + [s[i]] + s[i + 1..];
  }

  lemma AddingFronted(le: (string, string) -> bool, dirs: bool, files: seq<AssetFile>, i: nat, segments: seq<string>)
    requires i < |files| && |segments| > 0
    ensures Adding(le, dirs, Fronted(files, i), segments) == Adding(le, dirs, files, segments)
  {
    var x, before, after := [files[i]], files[..i], files[i + 1..];
    assert files == before + (x + after);
    AddingJoin(le, dirs, x, before + after, segments);
    AddingJoin(le, dirs, before, after, segments);
    AddingJoin(le, dirs, before, x + after, segments);
    AddingJoin(le, dirs, x, after, segments);
  }

  lemma {:induction false} AddingShuffled(le: (string, string) -> bool, dirs: bool, files: seq<AssetFile>, shuffled: seq<AssetFile>, segments: seq<string>)
    requires |segments| > 0 && multiset(shuffled) == multiset(files)
    ensures Adding(le, dirs, shuffled, segments) == Adding(le, dirs, files, segments)
    decreases |files|
  {
    if |files| == 0 {
      assert |multiset(shuffled)| == 0;
    } else {
      assert files[0] in multiset(shuffled);
      var i :| 0 <= i < |shuffled| && shuffled[i] == files[0];
      var fronted := Fronted(shuffled, i);
      FrontedBag(shuffled, i);
      AddingFronted(le, dirs, shuffled, i, segments);
      TailMultiset(files);
      TailMultiset(fronted);
      AddingShuffled(le, dirs, files[1..], fronted[1..], segments);
    }
  }

  /** All that is added being one thing, the list is determined by how many add it. */
  lemma {:induction false} AllOne(le: (string, string) -> bool, dirs: bool, before: seq<Seen>, files: seq<AssetFile>, segments: seq<string>, x: Seen)
    requires |segments| > 0 && forall y :: y in before ==> y == x
    requires forall f :: f in files ==> FileItem(le, dirs, f, segments) == [] || FileItem(le, dirs, f, segments) == [x]
    ensures var r, n := SeenOf(le, dirs, before, files, segments), Adding(le, dirs, files, segments);
      && (forall y :: y in r ==> y == x)
      && |r| == if !dirs then |before| + n else if n == 0 || |before| > 0 then |before| else 1
    decreases |files|
  {
    if |files| > 0 {
      var item := FileItem(le, dirs, files[0], segments);
      assert files[0] in files;
      assert |before| > 0 ==> before[0] in before;
      AllOne(le, dirs, before + Came(dirs, before, item), files[1..], segments, x);
    }
  }

  lemma Constant<T>(s: seq<T>, t: seq<T>, e: T)
    requires (forall x :: x in s ==> x == e) && (forall x :: x in t ==> x == e) && |s| == |t|
    ensures s == t
  {
    forall i | 0 <= i < |s| ensures s[i] == t[i] {
      assert s[i] in s && t[i] in t;
    }
  }

  /** What the files add at one place, if all are compatible. */
  lemma OneThing(le: (string, string) -> bool, dirs: bool, files: seq<AssetFile>, segments: seq<string>) returns (x: Seen)
    requires TotalPreorder(le) && |segments| > 0 && AllCompatible(le, files)
    ensures forall f :: f in files ==> FileItem(le, dirs, f, segments) == [] || FileItem(le, dirs, f, segments) == [x]
  {
    if f :| f in files && FileItem(le, dirs, f, segments) != [] {
      x := FileItem(le, dirs, f, segments)[0];
      forall g | g in files && FileItem(le, dirs, g, segments) != [] ensures FileItem(le, dirs, g, segments) == [x] {
        assert FilesCompatible(le, g, f);
        ItemsAgree(le, dirs, Split(g.relativePath, '/'), g.entry, Split(f.relativePath, '/'), f.entry, segments);
      }
    } else {
      x := SeenDir("");
    }
  }

  lemma ShuffledSeen(le: (string, string) -> bool, dirs: bool, files: seq<AssetFile>, shuffled: seq<AssetFile>, segments: seq<string>)
    requires TotalPreorder(le) && |segments| > 0 && AllCompatible(le, files) && multiset(shuffled) == multiset(files)
    ensures SeenOf(le, dirs, [], shuffled, segments) == SeenOf(le, dirs, [], files, segments)
  {
    var x := OneThing(le, dirs, files, segments);
    SameElements(files, shuffled);
    AllOne(le, dirs, [], files, segments, x);
    AllOne(le, dirs, [], shuffled, segments, x);
    AddingShuffled(le, dirs, files, shuffled, segments);
    Constant(SeenOf(le, dirs, [], shuffled, segments), SeenOf(le, dirs, [], files, segments), x);
  }

  lemma {:induction false} BeforeStays(le: (string, string) -> bool, dirs: bool, before: seq<Seen>, files: seq<AssetFile>, segments: seq<string>)
    requires |segments| > 0
    ensures before <= SeenOf(le, dirs, before, files, segments)
    decreases |files|
  {
    if |files| > 0 {
      BeforeStays(le, dirs, before + Came(dirs, before, FileItem(le, dirs, files[0], segments)), files[1..], segments);
    }
  }

  lemma FirstShown(le: (string, string) -> bool, dirs: bool, files: seq<AssetFile>, i: nat, segments: seq<string>)
    requires TotalPreorder(le) && i < |files| && |segments| > 0 && |FileItem(le, dirs, files[i], segments)| == 1
    ensures FileItem(le, dirs, files[i], segments) <= SeenAt(le, dirs, Manifest(le, Fronted(files, i)), segments)
  {
    var fronted, item := Fronted(files, i), FileItem(le, dirs, files[i], segments);
    assert fronted[0] == files[i] && [] + Came(dirs, [], item) == item;
    BeforeStays(le, dirs, item, fronted[1..], segments);
    ManifestSeen(le, dirs, fronted, segments);
  }

  /** Every order of the same upload gives one manifest if and only if all its files are compatible:
      names that tie in one directory, two of files or two of directories, are equal, and files at
      one path carry equal entries. */
  lemma AnyOrderExactly(le: (string, string) -> bool, files: seq<AssetFile>)
    requires TotalPreorder(le)
    ensures AnyOrder(le, files) <==> AllCompatible(le, files)
  {
    if AllCompatible(le, files) {
      forall shuffled | multiset(shuffled) == multiset(files) ensures Manifest(le, shuffled) == Manifest(le, files) {
        forall dirs, segments | |segments| > 0
          ensures SeenOf(le, dirs, [], shuffled, segments) == SeenOf(le, dirs, [], files, segments)
        {
          ShuffledSeen(le, dirs, files, shuffled, segments);
        }
        SameTreeExactly(le, shuffled, files);
      }
    } else {
      var f, g :| f in files && g in files && !FilesCompatible(le, f, g);
      ClashShows(le, files, f, g);
    }
  }

  lemma ClashShows(le: (string, string) -> bool, files: seq<AssetFile>, f: AssetFile, g: AssetFile)
    requires TotalPreorder(le) && f in files && g in files && !FilesCompatible(le, f, g)
    ensures !AnyOrder(le, files)
  {
    var dirs, segments := ItemsDiffer(le, Split(f.relativePath, '/'), f.entry, Split(g.relativePath, '/'), g.entry);
    var i :| 0 <= i < |files| && files[i] == f;
    var j :| 0 <= j < |files| && files[j] == g;
    FirstShown(le, dirs, files, i, segments);
    FirstShown(le, dirs, files, j, segments);
    FrontedBag(files, i);
    FrontedBag(files, j);
    assert Manifest(le, Fronted(files, i)) != Manifest(le, Fronted(files, j));
  }

  // ---------------------------------------------------------------- when no two names tie

  ghost predicate OneEntryPerPath(files: seq<AssetFile>) {
    forall f, g :: f in files && g in files && f.relativePath == g.relativePath ==> f.entry == g.entry
  }

  lemma {:induction false} CompatibleUntied(le: (string, string) -> bool, s: seq<string>, e: Entry, t: seq<string>, e': Entry)
    requires TotalPreorder(le) && Antisymmetric(le) && |s| > 0 && |t| > 0
    ensures Compatible(le, s, e, t, e') <==> (s == t ==> e == e')
    decreases |s|
  {
    assert s == [s[0]] + s[1..] && t == [t[0]] + t[1..] && Tied(le, s[0], s[0]);
    if |s| > 1 && |t| > 1 {
      CompatibleUntied(le, s[1..], e, t[1..], e');
    }
  }

  /** If the comparator tells all names apart, that is: files at one path carry equal entries. */
  lemma AnyOrderUntied(le: (string, string) -> bool, files: seq<AssetFile>)
    requires TotalPreorder(le) && Antisymmetric(le)
    ensures AnyOrder(le, files) <==> OneEntryPerPath(files)
  {
    AnyOrderExactly(le, files);
    forall f, g ensures FilesCompatible(le, f, g) <==> (f.relativePath == g.relativePath ==> f.entry == g.entry) {
      CompatibleUntied(le, Split(f.relativePath, '/'), f.entry, Split(g.relativePath, '/'), g.entry);
      JoinSplit(f.relativePath, '/');
      JoinSplit(g.relativePath, '/');
    }
  }

  lemma {:induction false} UntiedItem(le: (string, string) -> bool, dirs: bool, at: seq<string>, e: Entry, segments: seq<string>)
    requires TotalPreorder(le) && Antisymmetric(le) && |at| > 0 && |segments| > 0
    ensures var name := segments[|segments| - 1];
      Item(le, dirs, at, e, segments) in {[], [if dirs then SeenDir(name) else SeenFile(name, e)]}
    ensures !dirs ==> (Item(le, dirs, at, e, segments) != [] <==> at == segments)
    decreases |segments|
  {
    assert at == [at[0]] + at[1..] && segments == [segments[0]] + segments[1..] && Tied(le, at[0], at[0]);
    if |segments| > 1 && |at| > 1 && at[0] == segments[0] {
      UntiedItem(le, dirs, at[1..], e, segments[1..]);
    }
  }

  lemma {:induction false} SamePlace(le: (string, string) -> bool, at: seq<string>, e: Entry, e': Entry, segments: seq<string>)
    requires |at| > 0 && |segments| > 0
    ensures Item(le, true, at, e, segments) == Item(le, true, at, e', segments)
    decreases |segments|
  {
    if |segments| > 1 && |at| > 1 {
      SamePlace(le, at[1..], e, e', segments[1..]);
    }
  }

  lemma {:induction false} SomeAdding(le: (string, string) -> bool, dirs: bool, files: seq<AssetFile>, segments: seq<string>)
    requires |segments| > 0
    ensures Adding(le, dirs, files, segments) > 0 <==> exists f :: f in files && FileItem(le, dirs, f, segments) != []
  {
    if |files| > 0 {
      SomeAdding(le, dirs, files[1..], segments);
      assert files == [files[0]] + files[1..];
    }
  }

  lemma {:induction false} UploadedSome(files: seq<AssetFile>, path: string)
    ensures UploadedAt(files, path) != [] <==> exists f :: f in files && f.relativePath == path
  {
    if |files| > 0 {
      UploadedSome(files[1..], path);
      assert files == [files[0]] + files[1..];
    }
  }

  ghost predicate SameAtPaths(files: seq<AssetFile>, files': seq<AssetFile>) {
    forall path :: UploadedAt(files, path) == UploadedAt(files', path)
  }

  lemma DirsTransfer(le: (string, string) -> bool, files: seq<AssetFile>, files': seq<AssetFile>, segments: seq<string>)
    requires |segments| > 0 && SameAtPaths(files, files') && Adding(le, true, files, segments) > 0
    ensures Adding(le, true, files', segments) > 0
  {
    SomeAdding(le, true, files, segments);
    var f :| f in files && FileItem(le, true, f, segments) != [];
    UploadedSome(files, f.relativePath);
    UploadedSome(files', f.relativePath);
    assert UploadedAt(files, f.relativePath) == UploadedAt(files', f.relativePath);
    var g :| g in files' && g.relativePath == f.relativePath;
    SamePlace(le, Split(f.relativePath, '/'), f.entry, g.entry, segments);
    SomeAdding(le, true, files', segments);
  }

  lemma UntiedDirs(le: (string, string) -> bool, files: seq<AssetFile>, segments: seq<string>)
    requires TotalPreorder(le) && Antisymmetric(le) && |segments| > 0
    ensures SeenOf(le, true, [], files, segments) ==
      if Adding(le, true, files, segments) > 0 then [SeenDir(segments[|segments| - 1])] else []
  {
    var x := SeenDir(segments[|segments| - 1]);
    forall f | f in files ensures FileItem(le, true, f, segments) == [] || FileItem(le, true, f, segments) == [x] {
      UntiedItem(le, true, Split(f.relativePath, '/'), f.entry, segments);
    }
    AllOne(le, true, [], files, segments, x);
    var r := SeenOf(le, true, [], files, segments);
    assert |r| > 0 ==> r[0] in r;
  }

  lemma {:induction false} UntiedFiles(le: (string, string) -> bool, before: seq<Seen>, files: seq<AssetFile>, segments: seq<string>)
    requires TotalPreorder(le) && Antisymmetric(le) && |segments| > 0
    requires forall y :: y in before ==> y.SeenFile? && y.name == segments[|segments| - 1]
    ensures forall y :: y in SeenOf(le, false, before, files, segments) ==> y.SeenFile? && y.name == segments[|segments| - 1]
    ensures Split(Join(segments, '/'), '/') != segments ==> SeenOf(le, false, before, files, segments) == before
    decreases |files|
  {
    if |files| > 0 {
      var item := FileItem(le, false, files[0], segments);
      UntiedItem(le, false, Split(files[0].relativePath, '/'), files[0].entry, segments);
      JoinSplit(files[0].relativePath, '/');
      UntiedFiles(le, before + item, files[1..], segments);
    }
  }

  lemma {:induction false} NamedLength(s: seq<Seen>, name: string)
    requires forall y :: y in s ==> y.SeenFile? && y.name == name
    ensures |Named(s, name)| == |s|
  {
    if |s| > 0 {
      assert s[0] in s;
      NamedLength(s[1..], name);
    }
  }

  lemma {:induction false} NamedAll(s: seq<Seen>, t: seq<Seen>, name: string)
    requires (forall y :: y in s ==> y.SeenFile? && y.name == name) && forall y :: y in t ==> y.SeenFile? && y.name == name
    requires Named(s, name) == Named(t, name)
    ensures s == t
  {
    NamedLength(s, name);
    NamedLength(t, name);
    if |s| > 0 {
      assert s[0] in s && t[0] in t;
      assert Named(s, name)[0] == s[0].entry && Named(t, name)[0] == t[0].entry;
      assert Named(s, name)[1..] == Named(s[1..], name) && Named(t, name)[1..] == Named(t[1..], name);
      NamedAll(s[1..], t[1..], name);
    }
  }

  lemma UntiedSeen(le: (string, string) -> bool, dirs: bool, files: seq<AssetFile>, files': seq<AssetFile>, segments: seq<string>)
    requires TotalPreorder(le) && Antisymmetric(le) && |segments| > 0 && SameAtPaths(files, files')
    ensures SeenOf(le, dirs, [], files, segments) == SeenOf(le, dirs, [], files', segments)
  {
    if dirs {
      UntiedDirs(le, files, segments);
      UntiedDirs(le, files', segments);
      if Adding(le, true, files, segments) > 0 {
        DirsTransfer(le, files, files', segments);
      } else if Adding(le, true, files', segments) > 0 {
        DirsTransfer(le, files', files, segments);
      }
    } else {
      var path, name := Join(segments, '/'), segments[|segments| - 1];
      UntiedFiles(le, [], files, segments);
      UntiedFiles(le, [], files', segments);
      if Split(path, '/') == segments {
        NamedUploaded(le, [], files, path, segments, name);
        NamedUploaded(le, [], files', path, segments, name);
        assert UploadedAt(files, path) == UploadedAt(files', path);
        NamedAll(SeenOf(le, false, [], files, segments), SeenOf(le, false, [], files', segments), name);
      }
    }
  }

  /** And two uploads then give one manifest if and only if at every path they gave the same entries in
      the same order. */
  lemma SameTreeUntied(le: (string, string) -> bool, files: seq<AssetFile>, files': seq<AssetFile>)
    requires TotalPreorder(le) && Antisymmetric(le)
    ensures Manifest(le, files) == Manifest(le, files') <==> SameAtPaths(files, files')
  {
    if SameAtPaths(files, files') {
      forall dirs, segments | |segments| > 0
        ensures SeenOf(le, dirs, [], files, segments) == SeenOf(le, dirs, [], files', segments)
      {
        UntiedSeen(le, dirs, files, files', segments);
      }
      SameTreeExactly(le, files, files');
    }
    if Manifest(le, files) == Manifest(le, files') {
      forall path ensures UploadedAt(files, path) == UploadedAt(files', path) {
        ManifestEntries(le, files, path);
        ManifestEntries(le, files', path);
      }
    }
  }

  lemma RootItem(le: (string, string) -> bool, f: AssetFile, near: string)
    requires Lacks(f.relativePath, '/') && Tied(le, f.relativePath, near)
    ensures FileItem(le, false, f, [near]) == [SeenFile(f.relativePath, f.entry)]
  {
    SplitJoin([f.relativePath], '/');
    assert Join([f.relativePath], '/') == f.relativePath;
  }

  /** Where names tie the upload order shows at distinct paths: two files whose names compare alike. */
  lemma TiedNamesShow(le: (string, string) -> bool, f: AssetFile, g: AssetFile)
    requires TotalPreorder(le) && Lacks(f.relativePath, '/') && Lacks(g.relativePath, '/')
    requires f.relativePath != g.relativePath && Tied(le, f.relativePath, g.relativePath)
    ensures Manifest(le, [f, g]) != Manifest(le, [g, f])
  {
    var segments := [f.relativePath];
    RootItem(le, f, f.relativePath);
    RootItem(le, g, f.relativePath);
    FirstShown(le, false, [f, g], 0, segments);
    FirstShown(le, false, [g, f], 0, segments);
    assert Fronted([f, g], 0) == [f, g] && Fronted([g, f], 0) == [g, f];
    assert SeenAt(le, false, Manifest(le, [f, g]), segments)[0] == SeenFile(f.relativePath, f.entry);
    assert SeenAt(le, false, Manifest(le, [g, f]), segments)[0] == SeenFile(g.relativePath, g.entry);
  }
}
