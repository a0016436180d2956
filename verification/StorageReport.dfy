/** What the storage rollup's rows add up to: conservation within a bucket, across the three
    reports, and in the dashboard's total, which reads the rows of the latest date and is exact but
    for what an earlier rollup of that date stored under a label that has emptied since, and for a
    rollup that lists nothing. */
module StorageReport {
  import opened Options
  import opened Storage

  // ---------------------------------------------------------------- what is listed

  /** A missing size counts as none, a missing key as empty. */
  function SizeOf(obj: Obj): nat {
    match obj.size
    case Some(n) => n
    case None => 0
  }

  function KeyOf(obj: Obj): string {
    match obj.key
    case Some(key) => key
    case None => ""
  }

  /** The label an object of the bucket belongs under. */
  ghost predicate Labelled(role: Role, obj: Obj, p: Prefix) {
    match p
    case DerivedFiles => role == Assets && exists i :: OccursAt(KeyOf(obj), "/__derived__/", i)
    case SourceFiles => role == Assets && !exists i :: OccursAt(KeyOf(obj), "/__derived__/", i)
    case FeaturedBanners => role == Thumbs && |KeyOf(obj)| >= 17 && KeyOf(obj)[..17] == "featured-banners/"
    case ThumbFiles => role == Thumbs && !(|KeyOf(obj)| >= 17 && KeyOf(obj)[..17] == "featured-banners/")
    case EditorMedia => role == Editor
  }

  lemma LabelExactly(role: Role, obj: Obj, p: Prefix)
    ensures NormalizePrefix(role, obj.Key()) == p <==> Labelled(role, obj, p)
  {
    assert obj.Key() == KeyOf(obj);
    ContainsMeans(KeyOf(obj), "/__derived__/");
    PrefixIsHead("featured-banners/", KeyOf(obj));
    assert |"featured-banners/"| == 17;
  }

  lemma PrefixIsHead(s: string, t: string)
    ensures s <= t <==> |t| >= |s| && t[..|s|] == s
  {
    assert s <= t ==> t[..|s|] == s;
  }

  ghost function BytesLabelled(role: Role, objs: seq<Obj>, p: Prefix): nat {
    if |objs| == 0 then 0
    else
      var n, obj := |objs| - 1, objs[|objs| - 1];
      BytesLabelled(role, objs[..n], p) + if Labelled(role, obj, p) then SizeOf(obj) else 0
  }

  ghost function CountLabelled(role: Role, objs: seq<Obj>, p: Prefix): nat {
    if |objs| == 0 then 0
    else
      var n, obj := |objs| - 1, objs[|objs| - 1];
      CountLabelled(role, objs[..n], p) + if Labelled(role, obj, p) then 1 else 0
  }

  /** A bucket's counters hold, for each label some object has, the bytes and the number of them. */
  lemma {:induction false} CountersExactly(role: Role, objs: seq<Obj>, p: Prefix)
    ensures var counters := Counters(role, objs);
      && (p in counters <==> CountLabelled(role, objs, p) > 0)
      && (p in counters ==> counters[p] == Slot(BytesLabelled(role, objs, p), CountLabelled(role, objs, p)))
    ensures CountLabelled(role, objs, p) == 0 ==> BytesLabelled(role, objs, p) == 0
  {
    if |objs| > 0 {
      var n := |objs| - 1;
      CountersExactly(role, objs[..n], p);
      LabelExactly(role, objs[n], p);
    }
  }

  /** The object lies under the asset's prefix. */
  predicate UnderAsset(obj: Obj, id: Id) {
    id != "" && '/' !in id && "assets/" + id + "/" <= KeyOf(obj)
  }

  ghost function BytesUnder(objs: seq<Obj>, id: Id): nat {
    if |objs| == 0 then 0
    else
      var n, obj := |objs| - 1, objs[|objs| - 1];
      BytesUnder(objs[..n], id) + if UnderAsset(obj, id) then SizeOf(obj) else 0
  }

  /** An asset's row is the bytes of the objects under its prefix, and there is one if any lie there. */
  lemma {:induction false} PerAssetExactly(objs: seq<Obj>, id: Id)
    ensures id in PerAsset(objs) <==> exists obj :: obj in objs && UnderAsset(obj, id)
    ensures BytesUnder(objs, id) == if id in PerAsset(objs) then PerAsset(objs)[id] else 0
  {
    if |objs| > 0 {
      var n := |objs| - 1;
      PerAssetExactly(objs[..n], id);
      AssetIdExact(objs[n].Key(), id);
      assert objs == objs[..n] + [objs[n]];
    }
  }

  predicate AsksForMore(page: Page) {
    page.isTruncated && page.token.Some? && page.token.value != ""
  }

  /** A listing is read up to the first page that is not truncated or has no usable token. */
  lemma {:induction false} WalkedExactly(pages: seq<Page>) returns (n: nat)
    ensures n <= |pages| && Walked(pages) == AllContents(pages[..n])
    ensures forall i :: 0 <= i < n - 1 ==> AsksForMore(pages[i])
    ensures n < |pages| ==> n > 0 && !AsksForMore(pages[n - 1])
  {
    if |pages| == 0 {
      n := 0;
    } else if !AsksForMore(pages[0]) {
      n := 1;
      assert pages[..1][1..] == [];
    } else {
      n := WalkedExactly(pages[1..]);
      assert pages[..n + 1][1..] == pages[1..][..n];
      n := n + 1;
    }
  }

  // ---------------------------------------------------------------- conservation within a bucket

  function TotalBytes(objs: seq<Obj>): nat {
    if |objs| == 0 then 0 else TotalBytes(objs[..|objs| - 1]) + SizeOf(objs[|objs| - 1])
  }

  function BytesAt(counters: map<Prefix, Slot>, p: Prefix): nat {
    if p in counters then counters[p].bytes else 0
  }

  function CountAt(counters: map<Prefix, Slot>, p: Prefix): nat {
    if p in counters then counters[p].count else 0
  }

  function LabelBytes(counters: map<Prefix, Slot>): nat {
    BytesAt(counters, SourceFiles) + BytesAt(counters, DerivedFiles) + BytesAt(counters, ThumbFiles)
    + BytesAt(counters, FeaturedBanners) + BytesAt(counters, EditorMedia)
  }

  function LabelCount(counters: map<Prefix, Slot>): nat {
    CountAt(counters, SourceFiles) + CountAt(counters, DerivedFiles) + CountAt(counters, ThumbFiles)
    + CountAt(counters, FeaturedBanners) + CountAt(counters, EditorMedia)
  }

  /** The prefix totals sum to the bucket's bytes and object count. */
  lemma {:induction false} PrefixTotals(role: Role, objs: seq<Obj>)
    ensures LabelBytes(Counters(role, objs)) == TotalBytes(objs)
    ensures LabelCount(Counters(role, objs)) == |objs|
  {
    if |objs| > 0 {
      var obj := objs[|objs| - 1];
      var counters := Counters(role, objs[..|objs| - 1]);
      PrefixTotals(role, objs[..|objs| - 1]);
      BumpedTotals(counters, NormalizePrefix(role, obj.Key()), obj.Bytes());
    }
  }

  lemma BumpedTotals(counters: map<Prefix, Slot>, p: Prefix, bytes: nat)
    ensures LabelBytes(Bumped(counters, p, bytes)) == LabelBytes(counters) + bytes
    ensures LabelCount(Bumped(counters, p, bytes)) == LabelCount(counters) + 1
  {
  }

  // ---------------------------------------------------------------- sums over maps

  ghost function MapSum<K>(m: map<K, nat>): nat
    decreases m.Keys
  {
    if m == map[] then 0
    else
      var k :| k in m;
      m[k] + MapSum(m - {k})
  }

  lemma {:induction false} MapSumSplit<K>(m: map<K, nat>, k: K)
    requires k in m
    ensures MapSum(m) == m[k] + MapSum(m - {k})
    decreases m.Keys
  {
    var j :| j in m && MapSum(m) == m[j] + MapSum(m - {j});
    if j != k {
      MapSumSplit(m - {j}, k);
      MapSumSplit(m - {k}, j);
      assert m - {j} - {k} == m - {k} - {j};
    }
  }

  lemma MapSumPut<K>(m: map<K, nat>, k: K, v: nat)
    ensures MapSum(m[k := v]) + (if k in m then m[k] else 0) == MapSum(m) + v
  {
    MapSumSplit(m[k := v], k);
    assert m[k := v] - {k} == m - {k};
    if k in m {
      MapSumSplit(m, k);
    } else {
      assert m - {k} == m;
    }
  }

  // ---------------------------------------------------------------- conservation across reports

  function UserBytes(perUser: map<Id, Entry>): map<Id, nat> {
    map u | u in perUser :: perUser[u].bytes
  }

  /** The per-asset bytes of the assets of `user`. */
  function AssetsOf(perAsset: map<Id, nat>, owners: map<Id, Id>, user: Id): map<Id, nat> {
    map a | a in perAsset && a in owners && owners[a] != "" && owners[a] == user :: perAsset[a]
  }

  function OwnedAssets(perAsset: map<Id, nat>, owners: map<Id, Id>): map<Id, nat> {
    map a | a in perAsset && a in owners && owners[a] != "" :: perAsset[a]
  }

  /** Each user's row is the sum over exactly the assets seen that the user owns, and their
      number. */
  lemma {:induction false} UserRowExact(owners: map<Id, Id>, objs: seq<Obj>, user: Id)
    ensures var perUser, mine := PerUser(owners, objs), AssetsOf(PerAsset(objs), owners, user);
      && (user in perUser <==> mine != map[])
      && (user in perUser ==>
            && perUser[user].bytes == MapSum(mine) && perUser[user].ids == mine.Keys
            && perUser[user].assetCount == |mine|)
  {
    if |objs| > 0 {
      var before, obj := objs[..|objs| - 1], objs[|objs| - 1];
      UserRowExact(owners, before, user);
      UserRowStep(owners, PerAsset(before), PerUser(owners, before), AssetIdFromKey(obj.Key()), obj.Bytes(), user);
    }
  }

  function EntryAt(perUser: map<Id, Entry>, user: Id): Option<Entry> {
    if user in perUser then Some(perUser[user]) else None
  }

  predicate Concerns(owners: map<Id, Id>, assetId: Option<Id>, user: Id) {
    assetId.Some? && Owned(owners, assetId.value) && owners[assetId.value] == user
  }

  lemma UserRowStep(owners: map<Id, Id>, perAsset: map<Id, nat>, perUser: map<Id, Entry>, assetId: Option<Id>, bytes: nat, user: Id)
    requires EntryOf(AssetsOf(perAsset, owners, user), EntryAt(perUser, user))
    ensures EntryOf(AssetsOf(AssetBumped(perAsset, assetId, bytes), owners, user), EntryAt(UserBumped(perUser, owners, assetId, bytes), user))
  {
    var mine, entry := AssetsOf(perAsset, owners, user), EntryAt(perUser, user);
    EntryBumped(owners, perUser, assetId, bytes, user);
    AssetsBumped(owners, perAsset, assetId, bytes, user);
    if Concerns(owners, assetId, user) {
      OwnedStep(mine, entry, assetId.value, bytes);
    }
  }

  lemma EntryBumped(owners: map<Id, Id>, perUser: map<Id, Entry>, assetId: Option<Id>, bytes: nat, user: Id)
    ensures var entry, entry' := EntryAt(perUser, user), EntryAt(UserBumped(perUser, owners, assetId, bytes), user);
      var e := entry.GetOr(Entry(0, 0, {}));
      entry' ==
      if !Concerns(owners, assetId, user) then entry
      else Some(Entry(e.bytes + bytes, |e.ids + {assetId.value}|, e.ids + {assetId.value}))
  {
  }

  lemma AssetsBumped(owners: map<Id, Id>, perAsset: map<Id, nat>, assetId: Option<Id>, bytes: nat, user: Id)
    ensures var mine, mine' := AssetsOf(perAsset, owners, user), AssetsOf(AssetBumped(perAsset, assetId, bytes), owners, user);
      mine' ==
      if !Concerns(owners, assetId, user) then mine
      else mine[assetId.value := (if assetId.value in mine then mine[assetId.value] else 0) + bytes]
  {
    if assetId.Some? {
      AssetsOfPut(perAsset, owners, user, assetId.value, (if assetId.value in perAsset then perAsset[assetId.value] else 0) + bytes);
    }
  }

  ghost predicate EntryOf(mine: map<Id, nat>, entry: Option<Entry>) {
    && (entry.Some? <==> mine != map[])
    && (entry.Some? ==>
          && entry.value.bytes == MapSum(mine) && entry.value.ids == mine.Keys
          && entry.value.assetCount == |mine|)
  }

  lemma OwnedStep(mine: map<Id, nat>, entry: Option<Entry>, id: Id, bytes: nat)
    requires EntryOf(mine, entry)
    ensures var e := entry.GetOr(Entry(0, 0, {}));
      var sum := (if id in mine then mine[id] else 0) + bytes;
      EntryOf(mine[id := sum], Some(Entry(e.bytes + bytes, |e.ids + {id}|, e.ids + {id})))
  {
    var sum := (if id in mine then mine[id] else 0) + bytes;
    MapSumPut(mine, id, sum);
    KeysPut(mine, id, sum);
    if entry == None {
      EmptyMapSum(mine);
    }
  }

  lemma KeysPut(m: map<Id, nat>, id: Id, v: nat)
    ensures m[id := v].Keys == m.Keys + {id} && |m[id := v]| == |m.Keys + {id}| && m[id := v] != map[]
  {
    assert |m[id := v]| == |m[id := v].Keys|;
    assert id in m[id := v];
  }

  lemma EmptyMapSum(m: map<Id, nat>)
    requires m == map[]
    ensures MapSum(m) == 0 && m.Keys == {}
  {
  }

  lemma AssetsOfPut(perAsset: map<Id, nat>, owners: map<Id, Id>, user: Id, id: Id, sum: nat)
    ensures AssetsOf(perAsset[id := sum], owners, user) ==
      if Owned(owners, id) && owners[id] == user then AssetsOf(perAsset, owners, user)[id := sum]
      else AssetsOf(perAsset, owners, user)
  {
  }

  lemma OwnedAssetsPut(perAsset: map<Id, nat>, owners: map<Id, Id>, id: Id, sum: nat)
    ensures OwnedAssets(perAsset[id := sum], owners) ==
      if Owned(owners, id) then OwnedAssets(perAsset, owners)[id := sum] else OwnedAssets(perAsset, owners)
  {
  }

  /** Per-user bytes sum to the per-asset bytes over assets with a known owner. */
  lemma {:induction false} UserConservation(owners: map<Id, Id>, objs: seq<Obj>)
    ensures MapSum(UserBytes(PerUser(owners, objs))) == MapSum(OwnedAssets(PerAsset(objs), owners))
  {
    if |objs| > 0 {
      var before, obj := objs[..|objs| - 1], objs[|objs| - 1];
      UserConservation(owners, before);
      UserSum(owners, PerUser(owners, before), AssetIdFromKey(obj.Key()), obj.Bytes());
      OwnedSum(owners, PerAsset(before), AssetIdFromKey(obj.Key()), obj.Bytes());
    }
  }

  predicate Attributed(owners: map<Id, Id>, assetId: Option<Id>) {
    assetId.Some? && Owned(owners, assetId.value)
  }

  lemma UserBytesBumped(owners: map<Id, Id>, perUser: map<Id, Entry>, assetId: Option<Id>, bytes: nat)
    ensures var m := UserBytes(perUser);
      UserBytes(UserBumped(perUser, owners, assetId, bytes)) ==
      if !Attributed(owners, assetId) then m
      else
        var user := owners[assetId.value];
        m[user := (if user in m then m[user] else 0) + bytes]
  {
  }

  lemma OwnedAssetsBumped(owners: map<Id, Id>, perAsset: map<Id, nat>, assetId: Option<Id>, bytes: nat)
    ensures var m := OwnedAssets(perAsset, owners);
      OwnedAssets(AssetBumped(perAsset, assetId, bytes), owners) ==
      if !Attributed(owners, assetId) then m
      else m[assetId.value := (if assetId.value in m then m[assetId.value] else 0) + bytes]
  {
    if assetId.Some? {
      var id := assetId.value;
      OwnedAssetsPut(perAsset, owners, id, (if id in perAsset then perAsset[id] else 0) + bytes);
    }
  }

  lemma BumpedSum<K>(m: map<K, nat>, k: K, bytes: nat)
    ensures MapSum(m[k := (if k in m then m[k] else 0) + bytes]) == MapSum(m) + bytes
  {
    MapSumPut(m, k, (if k in m then m[k] else 0) + bytes);
  }

  lemma UserSum(owners: map<Id, Id>, perUser: map<Id, Entry>, assetId: Option<Id>, bytes: nat)
    ensures MapSum(UserBytes(UserBumped(perUser, owners, assetId, bytes))) ==
      MapSum(UserBytes(perUser)) + if Attributed(owners, assetId) then bytes else 0
  {
    UserBytesBumped(owners, perUser, assetId, bytes);
    if Attributed(owners, assetId) {
      BumpedSum(UserBytes(perUser), owners[assetId.value], bytes);
    }
  }

  lemma OwnedSum(owners: map<Id, Id>, perAsset: map<Id, nat>, assetId: Option<Id>, bytes: nat)
    ensures MapSum(OwnedAssets(AssetBumped(perAsset, assetId, bytes), owners)) ==
      MapSum(OwnedAssets(perAsset, owners)) + if Attributed(owners, assetId) then bytes else 0
  {
    OwnedAssetsBumped(owners, perAsset, assetId, bytes);
    if Attributed(owners, assetId) {
      BumpedSum(OwnedAssets(perAsset, owners), assetId.value, bytes);
    }
  }

  /** Per-asset bytes sum to the bytes of the objects that lie under an asset. */
  ghost function UnderAssets(objs: seq<Obj>): nat {
    if |objs| == 0 then 0
    else
      var obj := objs[|objs| - 1];
      UnderAssets(objs[..|objs| - 1]) + (if exists id :: UnderAsset(obj, id) then SizeOf(obj) else 0)
  }

  lemma {:induction false} AssetConservation(objs: seq<Obj>)
    ensures MapSum(PerAsset(objs)) == UnderAssets(objs)
  {
    if |objs| > 0 {
      var before, obj := objs[..|objs| - 1], objs[|objs| - 1];
      AssetConservation(before);
      var m := PerAsset(before);
      forall id ensures AssetIdFromKey(obj.Key()) == Some(id) <==> UnderAsset(obj, id) {
        AssetIdExact(obj.Key(), id);
      }
      match AssetIdFromKey(obj.Key())
      case None =>
      case Some(id) => MapSumPut(m, id, (if id in m then m[id] else 0) + obj.Bytes());
    }
  }

  // ---------------------------------------------------------------- the dashboard total

  datatype DailyRow = DailyRow(bucket: string, prefix: Prefix, bytes: nat)

  datatype StorageBlock = StorageBlock(total: nat, source: nat, derived: nat, thumbs: nat, featured: nat, editor: nat)

  /** `rows.find((r) => r.prefix === p)?.bytes ?? 0n`. */
  function ByPrefix(rows: seq<DailyRow>, p: Prefix): nat {
    if |rows| == 0 then 0 else if rows[0].prefix == p then rows[0].bytes else ByPrefix(rows[1..], p)
  }

  /** `rows` are those of the latest date; no rows at all give zeros. */
  function LoadStorage(rows: seq<DailyRow>): StorageBlock {
    var source := ByPrefix(rows, SourceFiles);
    var derived := ByPrefix(rows, DerivedFiles);
    var thumbs := ByPrefix(rows, ThumbFiles);
    var featured := ByPrefix(rows, FeaturedBanners);
    var editor := ByPrefix(rows, EditorMedia);
    StorageBlock(source + derived + thumbs + featured + editor, source, derived, thumbs, featured, editor)
  }

  ghost predicate LatestDate(daily: Daily, date: int) {
    (exists k :: k in daily && k.0 == date) && forall k :: k in daily ==> k.0 <= date
  }

  ghost predicate RowsOf(daily: Daily, date: int, rows: seq<DailyRow>) {
    && (forall r :: r in rows ==> (date, r.bucket, r.prefix) in daily && daily[(date, r.bucket, r.prefix)].bytes == r.bytes)
    && (forall k :: k in daily && k.0 == date ==> DailyRow(k.1, k.2, daily[k].bytes) in rows)
  }

  /** The result of the two queries, in any row order. */
  ghost predicate LatestRows(daily: Daily, rows: seq<DailyRow>) {
    if daily == map[] then rows == []
    else exists date :: LatestDate(daily, date) && RowsOf(daily, date, rows)
  }

  function RoleOf(p: Prefix): Role {
    match p
    case SourceFiles | DerivedFiles => Assets
    case ThumbFiles | FeaturedBanners => Thumbs
    case EditorMedia => Editor
  }

  /** Rows of the date come from the buckets now configured. */
  ghost predicate SameBuckets(daily: Daily, date: int, names: Names) {
    forall k :: k in daily && k.0 == date ==> k.1 == names.Of(RoleOf(k.2))
  }

  function Stored(daily: Daily, date: int, names: Names, p: Prefix): nat {
    var key := (date, names.Of(RoleOf(p)), p);
    if key in daily then daily[key].bytes else 0
  }

  lemma {:induction false} ByPrefixStored(daily: Daily, date: int, rows: seq<DailyRow>, names: Names, p: Prefix)
    requires SameBuckets(daily, date, names)
    requires forall r :: r in rows ==> (date, r.bucket, r.prefix) in daily && daily[(date, r.bucket, r.prefix)].bytes == r.bytes
    ensures (exists r :: r in rows && r.prefix == p) ==> ByPrefix(rows, p) == Stored(daily, date, names, p)
    ensures !(exists r :: r in rows && r.prefix == p) ==> ByPrefix(rows, p) == 0
  {
    if |rows| > 0 {
      assert rows[0] in rows;
      ByPrefixStored(daily, date, rows[1..], names, p);
      assert rows == [rows[0]] + rows[1..];
    }
  }

  lemma ByPrefixExact(daily: Daily, date: int, rows: seq<DailyRow>, names: Names, p: Prefix)
    requires SameBuckets(daily, date, names) && RowsOf(daily, date, rows)
    ensures ByPrefix(rows, p) == Stored(daily, date, names, p)
  {
    ByPrefixStored(daily, date, rows, names, p);
    var key := (date, names.Of(RoleOf(p)), p);
    if key in daily {
      assert DailyRow(key.1, key.2, daily[key].bytes) in rows;
    }
  }

  // ---------------------------------------------------------------- what a rollup leaves in the table

  /** Each bucket's counters hold its own labels only. */
  ghost predicate OwnLabels(tallies: Tallies) {
    forall role, p :: p in tallies.Of(role) ==> RoleOf(p) == role
  }

  lemma {:induction false} RoleLabels(role: Role, objs: seq<Obj>)
    ensures forall p :: p in Counters(role, objs) ==> RoleOf(p) == role
  {
    if |objs| > 0 {
      RoleLabels(role, objs[..|objs| - 1]);
    }
  }

  lemma TalliedOwnLabels(listing: Listing)
    ensures OwnLabels(Tallied(listing))
  {
    RoleLabels(Assets, Walked(listing.assets));
    RoleLabels(Thumbs, Walked(listing.thumbs));
    RoleLabels(Editor, Walked(listing.editor));
  }

  function Turn(role: Role): nat {
    if role == Assets then 0 else if role == Thumbs then 1 else 2
  }

  predicate Written(date: int, tallies: Tallies, names: Names, key: DailyKey) {
    key.0 == date && key.1 == names.Of(RoleOf(key.2)) && key.2 in tallies.Of(RoleOf(key.2))
  }

  /** A row is written in the turn of its label's role, and never otherwise. */
  lemma {:induction false} RolledAt(daily: Daily, date: int, tallies: Tallies, names: Names, k: nat, key: DailyKey)
    requires k <= 3 && OwnLabels(tallies)
    ensures var after := Rolled(daily, date, tallies, names, k);
      if Written(date, tallies, names, key) && Turn(RoleOf(key.2)) < k then
        key in after && after[key] == tallies.Of(RoleOf(key.2))[key.2]
      else (key in after <==> key in daily) && (key in daily ==> after[key] == daily[key])
  {
    if k > 0 {
      RolledAt(daily, date, tallies, names, k - 1, key);
      var role := RoleAt(k - 1);
      assert Turn(role) == k - 1;
      var rows := DailyOf(date, names.Of(role), tallies.Of(role));
      assert key in rows <==> key.0 == date && key.1 == names.Of(role) && key.2 in tallies.Of(role);
      assert key.2 in tallies.Of(role) ==> RoleOf(key.2) == role;
      assert Turn(RoleOf(key.2)) == k - 1 <==> RoleOf(key.2) == role;
    }
  }

  /** The objects of the bucket the label belongs to, and the bucket. */
  function ListedFor(listing: Listing, p: Prefix): seq<Obj> {
    match p
    case SourceFiles | DerivedFiles => Walked(listing.assets)
    case ThumbFiles | FeaturedBanners => Walked(listing.thumbs)
    case EditorMedia => Walked(listing.editor)
  }

  function BucketFor(names: Names, p: Prefix): string {
    match p
    case SourceFiles | DerivedFiles => names.assets
    case ThumbFiles | FeaturedBanners => names.thumbs
    case EditorMedia => names.editor
  }

  /** After a rollup the table has, for its date and each label some listed object has, a row of that
      label's bucket with the bytes and number of those objects; every other row is as before. */
  lemma DailyExactly(daily: Daily, date: int, listing: Listing, names: Names, key: DailyKey)
    ensures var after := Rolled(daily, date, Tallied(listing), names, 3);
      var p := key.2;
      var objs := ListedFor(listing, p);
      if key.0 == date && key.1 == BucketFor(names, p) && CountLabelled(RoleOf(p), objs, p) > 0 then
        key in after && after[key] == Slot(BytesLabelled(RoleOf(p), objs, p), CountLabelled(RoleOf(p), objs, p))
      else (key in after <==> key in daily) && (key in daily ==> after[key] == daily[key])
  {
    TalliedOwnLabels(listing);
    CountersExactly(RoleOf(key.2), ListedFor(listing, key.2), key.2);
    RolledAt(daily, date, Tallied(listing), names, 3, key);
  }

  /** What an earlier rollup of the date stored under a label this rollup no longer found. */
  function Stale(daily: Daily, date: int, tallies: Tallies, names: Names, p: Prefix): nat {
    if p in tallies.Of(RoleOf(p)) then 0 else Stored(daily, date, names, p)
  }

  function AllStale(daily: Daily, date: int, tallies: Tallies, names: Names): nat {
    Stale(daily, date, tallies, names, SourceFiles) + Stale(daily, date, tallies, names, DerivedFiles)
    + Stale(daily, date, tallies, names, ThumbFiles) + Stale(daily, date, tallies, names, FeaturedBanners)
    + Stale(daily, date, tallies, names, EditorMedia)
  }

  lemma RolledLabel(daily: Daily, date: int, tallies: Tallies, names: Names, p: Prefix)
    requires OwnLabels(tallies)
    ensures Stored(Rolled(daily, date, tallies, names, 3), date, names, p) ==
            BytesAt(tallies.Of(RoleOf(p)), p) + Stale(daily, date, tallies, names, p)
  {
    RolledAt(daily, date, tallies, names, 3, (date, names.Of(RoleOf(p)), p));
  }

  lemma RolledKeepsBuckets(daily: Daily, date: int, tallies: Tallies, names: Names)
    requires SameBuckets(daily, date, names) && OwnLabels(tallies)
    ensures SameBuckets(Rolled(daily, date, tallies, names, 3), date, names)
  {
    forall k | k in Rolled(daily, date, tallies, names, 3) && k.0 == date ensures k.1 == names.Of(RoleOf(k.2)) {
      RolledAt(daily, date, tallies, names, 3, k);
    }
  }

  function TalliedBytes(tallies: Tallies): nat {
    BytesAt(tallies.assets, SourceFiles) + BytesAt(tallies.assets, DerivedFiles)
    + BytesAt(tallies.thumbs, ThumbFiles) + BytesAt(tallies.thumbs, FeaturedBanners)
    + BytesAt(tallies.editor, EditorMedia)
  }

  function Listed(listing: Listing): nat {
    TotalBytes(Walked(listing.assets)) + TotalBytes(Walked(listing.thumbs)) + TotalBytes(Walked(listing.editor))
  }

  lemma ListedIsTallied(listing: Listing)
    ensures Listed(listing) == TalliedBytes(Tallied(listing))
  {
    var t := Tallied(listing);
    TalliedOwnLabels(listing);
    PrefixTotals(Assets, Walked(listing.assets));
    PrefixTotals(Thumbs, Walked(listing.thumbs));
    PrefixTotals(Editor, Walked(listing.editor));
    OnlyOwnBytes(t);
  }

  lemma OnlyOwnBytes(t: Tallies)
    requires OwnLabels(t)
    ensures LabelBytes(t.assets) == BytesAt(t.assets, SourceFiles) + BytesAt(t.assets, DerivedFiles)
    ensures LabelBytes(t.thumbs) == BytesAt(t.thumbs, ThumbFiles) + BytesAt(t.thumbs, FeaturedBanners)
    ensures LabelBytes(t.editor) == BytesAt(t.editor, EditorMedia)
  {
    forall p: Prefix
      ensures p in t.assets ==> RoleOf(p) == Assets
      ensures p in t.thumbs ==> RoleOf(p) == Thumbs
      ensures p in t.editor ==> RoleOf(p) == Editor
    {
      assert (p in t.Of(Assets) ==> RoleOf(p) == Assets) && (p in t.Of(Thumbs) ==> RoleOf(p) == Thumbs);
      assert p in t.Of(Editor) ==> RoleOf(p) == Editor;
    }
  }

  /** The figure the dashboard shows for a label. */
  function Part(block: StorageBlock, p: Prefix): nat {
    match p
    case SourceFiles => block.source
    case DerivedFiles => block.derived
    case ThumbFiles => block.thumbs
    case FeaturedBanners => block.featured
    case EditorMedia => block.editor
  }

  lemma PartExactly(daily: Daily, date: int, tallies: Tallies, names: Names, rows: seq<DailyRow>, p: Prefix)
    requires SameBuckets(daily, date, names) && OwnLabels(tallies)
    requires RowsOf(Rolled(daily, date, tallies, names, 3), date, rows)
    ensures Part(LoadStorage(rows), p) == ByPrefix(rows, p)
    ensures ByPrefix(rows, p) == BytesAt(tallies.Of(RoleOf(p)), p) + Stale(daily, date, tallies, names, p)
  {
    RolledKeepsBuckets(daily, date, tallies, names);
    ByPrefixExact(Rolled(daily, date, tallies, names, 3), date, rows, names, p);
    RolledLabel(daily, date, tallies, names, p);
  }

  lemma RowsAddUp(daily: Daily, date: int, tallies: Tallies, names: Names, rows: seq<DailyRow>)
    requires SameBuckets(daily, date, names) && OwnLabels(tallies)
    requires RowsOf(Rolled(daily, date, tallies, names, 3), date, rows)
    ensures LoadStorage(rows).total == TalliedBytes(tallies) + AllStale(daily, date, tallies, names)
  {
    PartExactly(daily, date, tallies, names, rows, SourceFiles);
    PartExactly(daily, date, tallies, names, rows, DerivedFiles);
    PartExactly(daily, date, tallies, names, rows, ThumbFiles);
    PartExactly(daily, date, tallies, names, rows, FeaturedBanners);
    PartExactly(daily, date, tallies, names, rows, EditorMedia);
  }

  /** After a rollup of the latest date the dashboard total is every byte listed plus what an
      earlier rollup of the same date left under labels that have emptied since; so it is exact
      if and only if those stale rows hold no bytes. */
  lemma DashboardTotal(daily: Daily, date: int, listing: Listing, names: Names, rows: seq<DailyRow>)
    requires SameBuckets(daily, date, names)
    requires LatestDate(Rolled(daily, date, Tallied(listing), names, 3), date)
    requires LatestRows(Rolled(daily, date, Tallied(listing), names, 3), rows)
    ensures LoadStorage(rows).total == Listed(listing) + AllStale(daily, date, Tallied(listing), names)
    ensures LoadStorage(rows).total == Listed(listing) <==> AllStale(daily, date, Tallied(listing), names) == 0
  {
    var tallies := Tallied(listing);
    TalliedOwnLabels(listing);
    ListedIsTallied(listing);
    LatestIs(Rolled(daily, date, tallies, names, 3), date, rows);
    RowsAddUp(daily, date, tallies, names, rows);
  }

  /** And the figure of each label is the bytes listed under it plus its own stale row. */
  lemma DashboardParts(daily: Daily, date: int, listing: Listing, names: Names, rows: seq<DailyRow>, p: Prefix)
    requires SameBuckets(daily, date, names)
    requires LatestDate(Rolled(daily, date, Tallied(listing), names, 3), date)
    requires LatestRows(Rolled(daily, date, Tallied(listing), names, 3), rows)
    ensures Part(LoadStorage(rows), p) ==
      BytesLabelled(RoleOf(p), ListedFor(listing, p), p) + Stale(daily, date, Tallied(listing), names, p)
  {
    TalliedOwnLabels(listing);
    LatestIs(Rolled(daily, date, Tallied(listing), names, 3), date, rows);
    PartExactly(daily, date, Tallied(listing), names, rows, p);
    CountersExactly(RoleOf(p), ListedFor(listing, p), p);
  }

  lemma LatestIs(daily: Daily, date: int, rows: seq<DailyRow>)
    requires LatestDate(daily, date) && LatestRows(daily, rows)
    ensures RowsOf(daily, date, rows)
  {
    var d :| LatestDate(daily, d) && RowsOf(daily, d, rows);
    var k :| k in daily && k.0 == date;
    var l :| l in daily && l.0 == d;
    assert k.0 <= d && l.0 <= date;
  }

  predicate SomethingListed(listing: Listing) {
    |Walked(listing.assets)| + |Walked(listing.thumbs)| + |Walked(listing.editor)| > 0
  }

  lemma FirstRollup(daily: Daily, date: int, listing: Listing, names: Names, rows: seq<DailyRow>)
    requires (forall k :: k in daily ==> k.0 < date) && SomethingListed(listing)
    requires LatestRows(Rolled(daily, date, Tallied(listing), names, 3), rows)
    ensures LoadStorage(rows).total == Listed(listing)
  {
    var tallies := Tallied(listing);
    TalliedOwnLabels(listing);
    var p := SomethingTallied(listing);
    IsLatest(daily, date, tallies, names, p);
    NothingStale(daily, date, tallies, names);
    DashboardTotal(daily, date, listing, names, rows);
  }

  /** Two reads of one table show one total, whatever their row order. */
  lemma SameTotal(daily: Daily, names: Names, a: seq<DailyRow>, b: seq<DailyRow>)
    requires (forall d :: SameBuckets(daily, d, names)) && LatestRows(daily, a) && LatestRows(daily, b)
    ensures LoadStorage(a) == LoadStorage(b)
  {
    if daily != map[] {
      var date :| LatestDate(daily, date) && RowsOf(daily, date, a);
      LatestIs(daily, date, b);
      assert SameBuckets(daily, date, names);
      forall p: Prefix ensures ByPrefix(a, p) == ByPrefix(b, p) {
        ByPrefixExact(daily, date, a, names, p);
        ByPrefixExact(daily, date, b, names, p);
      }
    }
  }

  /** After a date's first rollup, `shown` having been read before it and `rows` after: the total is
      exact if and only if anything at all was listed or the total shown before was 0. */
  lemma FirstRollupExactly(daily: Daily, date: int, listing: Listing, names: Names, shown: seq<DailyRow>, rows: seq<DailyRow>)
    requires (forall k :: k in daily ==> k.0 < date) && forall d :: SameBuckets(daily, d, names)
    requires LatestRows(daily, shown) && LatestRows(Rolled(daily, date, Tallied(listing), names, 3), rows)
    ensures LoadStorage(rows).total == Listed(listing) <==> SomethingListed(listing) || LoadStorage(shown).total == 0
  {
    if SomethingListed(listing) {
      FirstRollup(daily, date, listing, names, rows);
    } else {
      EmptyRollupShowsOld(daily, date, listing, names);
      SameTotal(daily, names, shown, rows);
    }
  }

  lemma SomethingTallied(listing: Listing) returns (p: Prefix)
    requires SomethingListed(listing)
    ensures p in Tallied(listing).Of(RoleOf(p))
  {
    var role := if |Walked(listing.assets)| > 0 then Assets else if |Walked(listing.thumbs)| > 0 then Thumbs else Editor;
    var objs := Walked(listing.Of(role));
    p := NormalizePrefix(role, objs[|objs| - 1].Key());
    RoleLabels(role, objs);
    assert p in Counters(role, objs);
  }

  lemma IsLatest(daily: Daily, date: int, tallies: Tallies, names: Names, p: Prefix)
    requires forall k :: k in daily ==> k.0 < date
    requires OwnLabels(tallies) && p in tallies.Of(RoleOf(p))
    ensures LatestDate(Rolled(daily, date, tallies, names, 3), date)
  {
    var after := Rolled(daily, date, tallies, names, 3);
    var key := (date, names.Of(RoleOf(p)), p);
    RolledAt(daily, date, tallies, names, 3, key);
    assert key in after && key.0 == date;
    forall k | k in after ensures k.0 <= date {
      RolledAt(daily, date, tallies, names, 3, k);
    }
  }

  lemma NothingStale(daily: Daily, date: int, tallies: Tallies, names: Names)
    requires forall k :: k in daily ==> k.0 < date
    ensures AllStale(daily, date, tallies, names) == 0 && SameBuckets(daily, date, names)
  {
  }

  /** A rollup that finds every bucket empty writes nothing, so the dashboard goes on showing the
      latest earlier date. */
  lemma EmptyRollupShowsOld(daily: Daily, date: int, listing: Listing, names: Names)
    requires !SomethingListed(listing)
    ensures Rolled(daily, date, Tallied(listing), names, 3) == daily
  {
    var nothing := Tallies(map[], map[], map[]);
    assert Tallied(listing) == nothing;
    NothingRolled(daily, date, names, 3);
  }

  lemma {:induction false} NothingRolled(daily: Daily, date: int, names: Names, k: nat)
    ensures Rolled(daily, date, Tallies(map[], map[], map[]), names, k) == daily
  {
    if k > 0 {
      NothingRolled(daily, date, names, k - 1);
      assert Tallies(map[], map[], map[]).Of(RoleAt(k - 1)) == map[];
    }
  }
}
