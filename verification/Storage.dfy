/** The daily storage rollup over the three buckets, and the dashboard total read from its rows.
    A bucket is listed page by page, its objects are counted by label, by owner and by asset from
    their keys alone, and the counts are written over the day's rows. */
module Storage {
  import opened Options
  import opened Text

  type Id = string

  datatype Role = Assets | Thumbs | Editor

  /** The labels the rollup files objects under, stored as strings. */
  datatype Prefix = SourceFiles | DerivedFiles | ThumbFiles | FeaturedBanners | EditorMedia

  /** A listed object; S3 may leave out either field. */
  datatype Obj = Obj(key: Option<string>, size: Option<nat>) {
    function Key(): string {
      key.GetOr("")
    }

    function Bytes(): nat {
      size.GetOr(0)
    }
  }

  datatype Page = Page(contents: seq<Obj>, isTruncated: bool, token: Option<string>) {
    /** Another request follows exactly for a truncated page with a usable token. */
    predicate More() {
      isTruncated && token.GetOr("") != ""
    }
  }

  datatype Slot = Slot(bytes: nat, count: nat)

  datatype Entry = Entry(bytes: nat, assetCount: nat, ids: set<Id>)

  // ---------------------------------------------------------------- labels

  predicate Contains(s: string, t: string) {
    |s| >= |t| && (s[..|t|] == t || (s != "" && Contains(s[1..], t)))
  }

  function NormalizePrefix(role: Role, key: string): Prefix {
    match role
    case Assets => if Contains(key, "/__derived__/") then DerivedFiles else SourceFiles
    case Thumbs => if "featured-banners/" <= key then FeaturedBanners else ThumbFiles
    case Editor => EditorMedia
  }

  /** The match of `^assets/([^/]+)/`. */
  function AssetIdFromKey(key: string): Option<Id> {
    if !("assets/" <= key) then None
    else
      var pieces := Split(key[7..], '/');
      if |pieces| >= 2 && pieces[0] != "" then Some(pieces[0]) else None
  }

  ghost predicate OccursAt(s: string, t: string, i: int) {
    0 <= i <= |s| - |t| && s[i..i + |t|] == t
  }

  lemma {:induction false} ContainsMeans(s: string, t: string)
    ensures Contains(s, t) <==> exists i :: OccursAt(s, t, i)
  {
    if |s| >= |t| {
      assert s[..|t|] == t ==> OccursAt(s, t, 0);
      if s != "" {
        ContainsMeans(s[1..], t);
        forall i ensures OccursAt(s[1..], t, i) <==> i >= 0 && OccursAt(s, t, i + 1) {
          if 0 <= i <= |s| - 1 - |t| {
            assert s[1..][i..i + |t|] == s[i + 1..i + 1 + |t|];
          }
        }
        if i :| OccursAt(s, t, i) && i > 0 {
          assert OccursAt(s[1..], t, i - 1);
        }
      }
    }
  }

  /** The id is the whole path segment after "assets/", and only when another slash follows. */
  lemma AssetIdExact(key: string, id: Id)
    ensures AssetIdFromKey(key) == Some(id) <==> id != "" && Lacks(id, '/') && "assets/" + id + "/" <= key
  {
    HeadOfPrefix("assets/", id + "/", key);
    assert "assets/" + (id + "/") == "assets/" + id + "/";
    if "assets/" <= key {
      var rest := key[7..];
      SegmentExact(rest, id);
      assert key == "assets/" + rest;
      PrefixCancels("assets/", id + "/", rest);
    }
  }

  lemma HeadOfPrefix(head: string, a: string, s: string)
    ensures head + a <= s ==> head <= s
  {
    assert (head + a)[..|head|] == head;
  }

  lemma PrefixCancels(head: string, a: string, b: string)
    ensures head + a <= head + b <==> a <= b
  {
    if head + a <= head + b {
      assert (head + a)[|head|..] == a && (head + b)[|head|..] == b;
      assert forall k :: 0 <= k < |a| ==> a[k] == (head + a)[|head| + k] == (head + b)[|head| + k];
    }
  }

  lemma SegmentExact(rest: string, id: string)
    ensures var pieces := Split(rest, '/');
      |pieces| >= 2 && pieces[0] == id <==> Lacks(id, '/') && id + "/" <= rest
  {
    var pieces := Split(rest, '/');
    JoinSplit(rest, '/');
    SplitLacks(rest, '/');
    if |pieces| >= 2 {
      assert rest == pieces[0] + ['/'] + Join(pieces[1..], '/');
      assert pieces[0] in pieces;
    }
    if Lacks(id, '/') && id + "/" <= rest {
      var after := rest[|id| + 1..];
      assert rest == id + (['/'] + after);
      SplitHead(id, ['/'] + after, '/');
    }
  }

  // ---------------------------------------------------------------- listing a bucket

  function Walked(pages: seq<Page>): seq<Obj> {
    if |pages| == 0 then []
    else pages[0].contents + (if pages[0].More() then Walked(pages[1..]) else [])
  }

  method WalkBucket(pages: seq<Page>) returns (objects: seq<Obj>)
    ensures objects == Walked(pages)
  {
    objects := [];
    var i := 0;
    while i < |pages|
      invariant i <= |pages|
      invariant objects + Walked(pages[i..]) == Walked(pages)
    {
      objects := objects + pages[i].contents;
      assert pages[i..][1..] == pages[i + 1..];
      if !pages[i].More() {
        break;
      }
      i := i + 1;
    }
  }

  function AllContents(pages: seq<Page>): seq<Obj> {
    if |pages| == 0 then [] else pages[0].contents + AllContents(pages[1..])
  }

  /** However the bucket is cut into pages, nothing is dropped. */
  lemma {:induction false} PaginationIrrelevant(pages: seq<Page>)
    requires forall i :: 0 <= i < |pages| - 1 ==> pages[i].More()
    ensures Walked(pages) == AllContents(pages)
  {
    if |pages| > 1 {
      PaginationIrrelevant(pages[1..]);
    }
  }

  // ---------------------------------------------------------------- the counters

  function Bumped(counters: map<Prefix, Slot>, prefix: Prefix, bytes: nat): map<Prefix, Slot> {
    var slot := if prefix in counters then counters[prefix] else Slot(0, 0);
    counters[prefix := Slot(slot.bytes + bytes, slot.count + 1)]
  }

  function Counters(role: Role, objs: seq<Obj>): map<Prefix, Slot> {
    if |objs| == 0 then map[]
    else
      var obj := objs[|objs| - 1];
      Bumped(Counters(role, objs[..|objs| - 1]), NormalizePrefix(role, obj.Key()), obj.Bytes())
  }

  function AssetBumped(perAsset: map<Id, nat>, assetId: Option<Id>, bytes: nat): map<Id, nat> {
    match assetId
    case None => perAsset
    case Some(id) => perAsset[id := (if id in perAsset then perAsset[id] else 0) + bytes]
  }

  function PerAsset(objs: seq<Obj>): map<Id, nat> {
    if |objs| == 0 then map[]
    else
      var obj := objs[|objs| - 1];
      AssetBumped(PerAsset(objs[..|objs| - 1]), AssetIdFromKey(obj.Key()), obj.Bytes())
  }

  predicate Owned(owners: map<Id, Id>, id: Id) {
    id in owners && owners[id] != ""
  }

  function UserBumped(perUser: map<Id, Entry>, owners: map<Id, Id>, assetId: Option<Id>, bytes: nat): map<Id, Entry> {
    match assetId
    case None => perUser
    case Some(id) =>
      if !Owned(owners, id) then perUser
      else
        var user := owners[id];
        var entry := if user in perUser then perUser[user] else Entry(0, 0, {});
        perUser[user := Entry(entry.bytes + bytes, |entry.ids + {id}|, entry.ids + {id})]
  }

  function PerUser(owners: map<Id, Id>, objs: seq<Obj>): map<Id, Entry> {
    if |objs| == 0 then map[]
    else
      var obj := objs[|objs| - 1];
      UserBumped(PerUser(owners, objs[..|objs| - 1]), owners, AssetIdFromKey(obj.Key()), obj.Bytes())
  }

  method Count(prefix: Prefix, bytes: nat, counters0: map<Prefix, Slot>) returns (counters: map<Prefix, Slot>)
    ensures counters == Bumped(counters0, prefix, bytes)
  {
    var slot := if prefix in counters0 then counters0[prefix] else Slot(0, 0);
    counters := counters0[prefix := Slot(slot.bytes + bytes, slot.count + 1)];
  }

  method Attribute(assetId: Option<Id>, bytes: nat, owners: map<Id, Id>, perAsset0: map<Id, nat>, perUser0: map<Id, Entry>)
    returns (perAsset: map<Id, nat>, perUser: map<Id, Entry>)
    ensures perAsset == AssetBumped(perAsset0, assetId, bytes)
    ensures perUser == UserBumped(perUser0, owners, assetId, bytes)
  {
    perAsset, perUser := perAsset0, perUser0;
    if assetId.Some? {
      var id := assetId.value;
      perAsset := perAsset[id := (if id in perAsset then perAsset[id] else 0) + bytes];
      if id in owners && owners[id] != "" {
        var entry := if owners[id] in perUser then perUser[owners[id]] else Entry(0, 0, {});
        var ids := entry.ids + {id};
        perUser := perUser[owners[id] := Entry(entry.bytes + bytes, |ids|, ids)];
      }
    }
  }

  lemma OneMoreObject(role: Role, owners: map<Id, Id>, seen: seq<Obj>, obj: Obj)
    ensures Counters(role, seen + [obj]) == Bumped(Counters(role, seen), NormalizePrefix(role, obj.Key()), obj.Bytes())
    ensures PerAsset(seen + [obj]) == AssetBumped(PerAsset(seen), AssetIdFromKey(obj.Key()), obj.Bytes())
    ensures PerUser(owners, seen + [obj]) == UserBumped(PerUser(owners, seen), owners, AssetIdFromKey(obj.Key()), obj.Bytes())
  {
    var all := seen + [obj];
    assert all[..|all| - 1] == seen && all[|all| - 1] == obj;
  }

  method Tally(role: Role, objs: seq<Obj>, owners: map<Id, Id>, perAsset0: map<Id, nat>, perUser0: map<Id, Entry>)
    returns (counters: map<Prefix, Slot>, perAsset: map<Id, nat>, perUser: map<Id, Entry>)
    requires role == Assets ==> perAsset0 == map[] && perUser0 == map[]
    ensures counters == Counters(role, objs)
    ensures role == Assets ==> perAsset == PerAsset(objs) && perUser == PerUser(owners, objs)
    ensures role != Assets ==> perAsset == perAsset0 && perUser == perUser0
  {
    counters, perAsset, perUser := map[], perAsset0, perUser0;
    ghost var seen: seq<Obj> := [];
    var i := 0;
    while i < |objs|
      invariant i <= |objs| && seen == objs[..i]
      invariant counters == Counters(role, seen)
      invariant role == Assets ==> perAsset == PerAsset(seen) && perUser == PerUser(owners, seen)
      invariant role != Assets ==> perAsset == perAsset0 && perUser == perUser0
    {
      OneMoreObject(role, owners, seen, objs[i]);
      seen := seen + [objs[i]];
      counters := Count(NormalizePrefix(role, objs[i].Key()), objs[i].Bytes(), counters);
      if role == Assets {
        perAsset, perUser := Attribute(AssetIdFromKey(objs[i].Key()), objs[i].Bytes(), owners, perAsset, perUser);
      }
      i := i + 1;
    }
    assert seen == objs;
  }

  // ---------------------------------------------------------------- the snapshot tables

  /** What S3 answers for each bucket of the run. */
  datatype Listing = Listing(assets: seq<Page>, thumbs: seq<Page>, editor: seq<Page>) {
    function Of(role: Role): seq<Page> {
      match role
      case Assets => assets
      case Thumbs => thumbs
      case Editor => editor
    }
  }

  /** The configured bucket names. */
  datatype Names = Names(assets: string, thumbs: string, editor: string) {
    function Of(role: Role): string {
      match role
      case Assets => assets
      case Thumbs => thumbs
      case Editor => editor
    }
  }

  /** The counters of each bucket. */
  datatype Tallies = Tallies(assets: map<Prefix, Slot>, thumbs: map<Prefix, Slot>, editor: map<Prefix, Slot>) {
    function Of(role: Role): map<Prefix, Slot> {
      match role
      case Assets => assets
      case Thumbs => thumbs
      case Editor => editor
    }
  }

  function Tallied(listing: Listing): Tallies {
    Tallies(Counters(Assets, Walked(listing.assets)), Counters(Thumbs, Walked(listing.thumbs)), Counters(Editor, Walked(listing.editor)))
  }

  type DailyKey = (int, string, Prefix)

  type Daily = map<DailyKey, Slot>

  function DailyOf(date: int, bucket: string, counters: map<Prefix, Slot>): Daily {
    map p | p in counters :: (date, bucket, p) := counters[p]
  }

  /** The table afterwards: the rows of the date and these users replaced or added, all others as
      they were. */
  ghost predicate UsersUpserted(before: map<(int, Id), Slot>, after: map<(int, Id), Slot>, date: int, perUser: map<Id, Entry>) {
    forall k: (int, Id) ::
      && (k in after <==> k in before || (k.0 == date && k.1 in perUser))
      && (k in after && k.0 == date && k.1 in perUser ==> after[k] == Slot(perUser[k.1].bytes, perUser[k.1].assetCount))
      && (k in after && !(k.0 == date && k.1 in perUser) ==> after[k] == before[k])
  }

  ghost predicate AssetsUpserted(before: map<(int, Id), nat>, after: map<(int, Id), nat>, date: int, perAsset: map<Id, nat>) {
    forall k: (int, Id) ::
      && (k in after <==> k in before || (k.0 == date && k.1 in perAsset))
      && (k in after && k.0 == date && k.1 in perAsset ==> after[k] == perAsset[k.1])
      && (k in after && !(k.0 == date && k.1 in perAsset) ==> after[k] == before[k])
  }

  function RoleAt(k: nat): Role {
    if k == 0 then Assets else if k == 1 then Thumbs else Editor
  }

  /** The table after the upserts of the first `k` buckets. */
  function Rolled(daily: Daily, date: int, tallies: Tallies, names: Names, k: nat): Daily {
    if k == 0 then daily
    else
      var role := RoleAt(k - 1);
      Rolled(daily, date, tallies, names, k - 1) + DailyOf(date, names.Of(role), tallies.Of(role))
  }

  class Snapshots {
    var daily: Daily
    var userDaily: map<(int, Id), Slot>
    var assetDaily: map<(int, Id), nat>

    method UpsertDaily(date: int, bucket: string, counters: map<Prefix, Slot>)
      modifies this`daily
      ensures daily == old(daily) + DailyOf(date, bucket, counters)
    {
      var todo := counters.Keys;
      while todo != {}
        invariant todo <= counters.Keys
        invariant daily == old(daily) + map p | p in counters && p !in todo :: (date, bucket, p) := counters[p]
        decreases todo
      {
        var prefix :| prefix in todo;
        daily := daily[(date, bucket, prefix) := counters[prefix]];
        todo := todo - {prefix};
      }
    }

    method UpsertUsers(date: int, perUser: map<Id, Entry>)
      modifies this`userDaily
      ensures UsersUpserted(old(userDaily), userDaily, date, perUser)
    {
      var todo := perUser.Keys;
      while todo != {}
        invariant todo <= perUser.Keys
        invariant UsersUpserted(old(userDaily), userDaily, date, perUser - todo)
        decreases todo
      {
        var user :| user in todo;
        userDaily := userDaily[(date, user) := Slot(perUser[user].bytes, perUser[user].assetCount)];
        todo := todo - {user};
      }
    }

    method UpsertAssets(date: int, perAsset: map<Id, nat>)
      modifies this`assetDaily
      ensures AssetsUpserted(old(assetDaily), assetDaily, date, perAsset)
    {
      var todo := perAsset.Keys;
      while todo != {}
        invariant todo <= perAsset.Keys
        invariant AssetsUpserted(old(assetDaily), assetDaily, date, perAsset - todo)
        decreases todo
      {
        var id :| id in todo;
        assetDaily := assetDaily[(date, id) := perAsset[id]];
        todo := todo - {id};
      }
    }

    /** Lists and counts the three buckets in turn, writing each one's rows as it goes. */
    method RollBuckets(date: int, owners: map<Id, Id>, listing: Listing, names: Names)
      returns (perAsset: map<Id, nat>, perUser: map<Id, Entry>)
      modifies this`daily
      ensures daily == Rolled(old(daily), date, Tallied(listing), names, 3)
      ensures perAsset == PerAsset(Walked(listing.assets)) && perUser == PerUser(owners, Walked(listing.assets))
    {
      perAsset, perUser := map[], map[];
      ghost var tallies := Tallied(listing);
      var k := 0;
      while k < 3
        invariant k <= 3
        invariant daily == Rolled(old(daily), date, tallies, names, k)
        invariant k == 0 ==> perAsset == map[] && perUser == map[]
        invariant k > 0 ==> perAsset == PerAsset(Walked(listing.assets)) && perUser == PerUser(owners, Walked(listing.assets))
      {
        var role := RoleAt(k);
        var objs := WalkBucket(listing.Of(role));
        var counters;
        counters, perAsset, perUser := Tally(role, objs, owners, perAsset, perUser);
        assert counters == tallies.Of(role);
        UpsertDaily(date, names.Of(role), counters);
        k := k + 1;
      }
    }

    method Process(date: int, owners: map<Id, Id>, listing: Listing, names: Names)
      modifies this
      ensures daily == Rolled(old(daily), date, Tallied(listing), names, 3)
      ensures UsersUpserted(old(userDaily), userDaily, date, PerUser(owners, Walked(listing.assets)))
      ensures AssetsUpserted(old(assetDaily), assetDaily, date, PerAsset(Walked(listing.assets)))
    {
      var perAsset, perUser := RollBuckets(date, owners, listing, names);
      UpsertUsers(date, perUser);
      UpsertAssets(date, perAsset);
    }
  }
}
