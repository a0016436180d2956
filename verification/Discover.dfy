/** The Discover page's row builder (`discover.service.ts`): two queries, regrouped, flattened,
    mapped in one batch and split back, against the form it replaced: one query per category. */
module Discover {
  import opened Options
  import opened Sorting
  import opened Text

  const ASSETS_PER_ROW := 8

  datatype Asset = Asset(id: string, categoryId: string, published: bool, publishedAt: Option<int>)
  /** `name` is the localised name, if the category has one. */
  datatype Category = Category(id: string, slug: string, name: Option<string>)
  datatype Row<S> = Row(categoryId: string, categorySlug: string, name: string, assets: seq<S>)
  datatype Ranked = Ranked(id: string, categoryId: string)
  datatype Slot = Slot(catId: string, assetId: string)

  // ---------------------------------------------------------------- the form it replaced

  ghost function PublishedIn(table: seq<Asset>, categoryId: string): seq<Asset> {
    if |table| == 0 then []
    else (if table[0].published && table[0].categoryId == categoryId then [table[0]] else [])
         + PublishedIn(table[1..], categoryId)
  }

  /** `ORDER BY "publishedAt" DESC NULLS LAST, id DESC`. */
  predicate SqlOrder(a: Asset, b: Asset) {
    match (a.publishedAt, b.publishedAt)
    case (Some(p), Some(q)) => p > q || (p == q && StrLe(b.id, a.id))
    case (Some(_), None) => true
    case (None, Some(_)) => false
    case (None, None) => StrLe(b.id, a.id)
  }

  ghost function Top(table: seq<Asset>, categoryId: string): seq<Asset> {
    var all := Sort(SqlOrder, PublishedIn(table, categoryId));
    if |all| <= ASSETS_PER_ROW then all else all[..ASSETS_PER_ROW]
  }

  function Apply<S>(f: Asset -> S, s: seq<Asset>): (r: seq<S>)
    ensures |r| == |s|
  {
    if |s| == 0 then [] else [f(s[0])] + Apply(f, s[1..])
  }

  function RowFor<S>(c: Category, assets: seq<S>): Row<S> {
    Row(c.id, c.slug, c.name.GetOr(c.slug), assets)
  }

  /** One query per category, mapped; empty categories dropped, category order kept. */
  ghost function SimpleRows<S>(table: seq<Asset>, categories: seq<Category>, toSummary: Asset -> S): seq<Row<S>> {
    if |categories| == 0 then []
    else
      var assets := Apply(toSummary, Top(table, categories[0].id));
      (if |assets| == 0 then [] else [RowFor(categories[0], assets)]) + SimpleRows(table, categories[1..], toSummary)
  }

  // ---------------------------------------------------------------- the pipeline

  /** The comparator of the in-process sort: a missing asset compares equal, a missing date is 0. */
  function Time(a: Asset): int {
    a.publishedAt.GetOr(0)
  }

  predicate JsOrder(a: Asset, b: Asset) {
    Time(a) > Time(b) || (Time(a) == Time(b) && StrLe(b.id, a.id))
  }

  function ByRecency(byId: map<string, Asset>): (string, string) -> bool {
    (a: string, b: string) => a !in byId || b !in byId || JsOrder(byId[a], byId[b])
  }

  ghost function ById(assets: seq<Asset>): map<string, Asset> {
    if |assets| == 0 then map[] else ById(assets[..|assets| - 1])[assets[|assets| - 1].id := assets[|assets| - 1]]
  }

  ghost function Group(ranked: seq<Ranked>, categoryId: string): seq<string> {
    if |ranked| == 0 then []
    else (if ranked[0].categoryId == categoryId then [ranked[0].id] else []) + Group(ranked[1..], categoryId)
  }

  ghost function SortedGroup(byId: map<string, Asset>, ranked: seq<Ranked>, categoryId: string): seq<string> {
    Sort(ByRecency(byId), Group(ranked, categoryId))
  }

  function Tagged(catId: string, ids: seq<string>): (r: seq<Slot>)
    ensures |r| == |ids| && forall i :: 0 <= i < |ids| ==> r[i] == Slot(catId, ids[i])
  {
    if |ids| == 0 then [] else [Slot(catId, ids[0])] + Tagged(catId, ids[1..])
  }

  ghost function Flat(byId: map<string, Asset>, ranked: seq<Ranked>, categories: seq<Category>): seq<Slot> {
    if |categories| == 0 then []
    else Tagged(categories[0].id, SortedGroup(byId, ranked, categories[0].id)) + Flat(byId, ranked, categories[1..])
  }

  ghost function Found(byId: map<string, Asset>, flat: seq<Slot>): seq<Asset> {
    if |flat| == 0 then []
    else (if flat[0].assetId in byId then [byId[flat[0].assetId]] else []) + Found(byId, flat[1..])
  }

  /** The summaries whose position in the flat list belongs to the category. */
  ghost function Bucket<S>(flat: seq<Slot>, summaries: seq<S>, catId: string): seq<S> {
    if |flat| == 0 || |summaries| == 0 then []
    else (if flat[0].catId == catId then [summaries[0]] else []) + Bucket(flat[1..], summaries[1..], catId)
  }

  ghost function BucketRows<S>(categories: seq<Category>, flat: seq<Slot>, summaries: seq<S>): seq<Row<S>> {
    if |categories| == 0 then []
    else
      var assets := Bucket(flat, summaries, categories[0].id);
      (if |assets| == 0 then [] else [RowFor(categories[0], assets)]) + BucketRows(categories[1..], flat, summaries)
  }

  ghost function PipelineRows<S>(categories: seq<Category>, ranked: seq<Ranked>, hydrated: seq<Asset>,
                                 toSummary: Asset -> S): seq<Row<S>> {
    var byId := ById(hydrated);
    var flat := Flat(byId, ranked, categories);
    BucketRows(categories, flat, Apply(toSummary, Found(byId, flat)))
  }

  /** `map.get(k) ?? []`. */
  function Get<S>(m: map<string, seq<S>>, k: string): seq<S> {
    if k in m then m[k] else []
  }

  method IndexById(assets: seq<Asset>) returns (byId: map<string, Asset>)
    ensures byId == ById(assets)
  {
    byId := map[];
    for i := 0 to |assets|
      invariant byId == ById(assets[..i])
    {
      byId := byId[assets[i].id := assets[i]];
      assert assets[..i + 1][..i] == assets[..i];
    }
    assert assets[..|assets|] == assets;
  }

  /** `list.push(x)` on the list under `k`, created when absent. */
  function Push<S>(m: map<string, seq<S>>, k: string, x: S): (r: map<string, seq<S>>)
    ensures Get(r, k) == Get(m, k) + [x]
    ensures forall c :: c != k ==> Get(r, c) == Get(m, c)
  {
    if k in m then m[k := m[k] + [x]] else m[k := [x]]
  }

  lemma {:induction false} GroupSnoc(ranked: seq<Ranked>, r: Ranked, c: string)
    ensures Group(ranked + [r], c) == Group(ranked, c) + if r.categoryId == c then [r.id] else []
  {
    if |ranked| == 0 {
      assert ranked + [r] == [r] && [r][1..] == [];
    } else {
      GroupSnoc(ranked[1..], r, c);
      assert (ranked + [r])[1..] == ranked[1..] + [r];
    }
  }

  method GroupIds(ranked: seq<Ranked>) returns (groups: map<string, seq<string>>)
    ensures forall c :: Get(groups, c) == Group(ranked, c)
  {
    groups := map[];
    for i := 0 to |ranked|
      invariant forall c :: Get(groups, c) == Group(ranked[..i], c)
    {
      assert ranked[..i + 1] == ranked[..i] + [ranked[i]];
      forall c ensures Group(ranked[..i + 1], c) == Group(ranked[..i], c) + if ranked[i].categoryId == c then [ranked[i].id] else [] {
        GroupSnoc(ranked[..i], ranked[i], c);
      }
      groups := Push(groups, ranked[i].categoryId, ranked[i].id);
    }
    assert ranked[..|ranked|] == ranked;
  }

  method SortGroups(groups: map<string, seq<string>>, byId: map<string, Asset>) returns (sorted: map<string, seq<string>>)
    ensures forall c :: Get(sorted, c) == Sort(ByRecency(byId), Get(groups, c))
  {
    sorted := groups;
    var todo := groups.Keys;
    while todo != {}
      invariant todo <= groups.Keys == sorted.Keys
      invariant forall c :: c in todo ==> sorted[c] == groups[c]
      invariant forall c :: c in groups && c !in todo ==> sorted[c] == Sort(ByRecency(byId), groups[c])
      decreases todo
    {
      var c :| c in todo;
      sorted := sorted[c := Sort(ByRecency(byId), sorted[c])];
      todo := todo - {c};
    }
  }

  lemma {:induction false} FlatSnoc(byId: map<string, Asset>, ranked: seq<Ranked>, categories: seq<Category>, c: Category)
    ensures Flat(byId, ranked, categories + [c]) ==
      Flat(byId, ranked, categories) + Tagged(c.id, SortedGroup(byId, ranked, c.id))
  {
    var last := Tagged(c.id, SortedGroup(byId, ranked, c.id));
    if |categories| == 0 {
      assert categories + [c] == [c] && [c][1..] == [];
      assert Flat(byId, ranked, []) == [];
    } else {
      FlatSnoc(byId, ranked, categories[1..], c);
      assert (categories + [c])[1..] == categories[1..] + [c];
      var head := Tagged(categories[0].id, SortedGroup(byId, ranked, categories[0].id));
      Associates(head, Flat(byId, ranked, categories[1..]), last);
    }
  }

  method Flatten(categories: seq<Category>, groups: map<string, seq<string>>, ghost byId: map<string, Asset>,
                 ghost ranked: seq<Ranked>) returns (flat: seq<Slot>)
    requires forall c :: Get(groups, c) == SortedGroup(byId, ranked, c)
    ensures flat == Flat(byId, ranked, categories)
  {
    flat := [];
    for i := 0 to |categories|
      invariant flat == Flat(byId, ranked, categories[..i])
    {
      var cat := categories[i];
      assert categories[..i + 1] == categories[..i] + [cat];
      FlatSnoc(byId, ranked, categories[..i], cat);
      assert Get(groups, cat.id) == SortedGroup(byId, ranked, cat.id);
      if cat.id in groups {
        flat := PushAll(flat, cat.id, groups[cat.id]);
      }
    }
    assert categories[..|categories|] == categories;
  }

  method PushAll(before: seq<Slot>, catId: string, ids: seq<string>) returns (flat: seq<Slot>)
    ensures flat == before + Tagged(catId, ids)
  {
    flat := before;
    ghost var tagged := Tagged(catId, ids);
    for j := 0 to |ids|
      invariant flat == before + tagged[..j]
    {
      assert tagged[..j + 1] == tagged[..j] + [Slot(catId, ids[j])];
      Associates(before, tagged[..j], [Slot(catId, ids[j])]);
      flat := flat + [Slot(catId, ids[j])];
    }
    assert tagged[..|ids|] == tagged;
  }

  lemma {:induction false} FoundSnoc(byId: map<string, Asset>, flat: seq<Slot>, p: Slot)
    ensures Found(byId, flat + [p]) == Found(byId, flat) + if p.assetId in byId then [byId[p.assetId]] else []
  {
    if |flat| == 0 {
      assert flat + [p] == [p] && [p][1..] == [];
    } else {
      FoundSnoc(byId, flat[1..], p);
      assert (flat + [p])[1..] == flat[1..] + [p];
    }
  }

  method Hydrated(flat: seq<Slot>, byId: map<string, Asset>) returns (assets: seq<Asset>)
    ensures assets == Found(byId, flat)
  {
    assets := [];
    for i := 0 to |flat|
      invariant assets == Found(byId, flat[..i])
    {
      assert flat[..i + 1] == flat[..i] + [flat[i]];
      FoundSnoc(byId, flat[..i], flat[i]);
      if flat[i].assetId in byId {
        assets := assets + [byId[flat[i].assetId]];
      }
    }
    assert flat[..|flat|] == flat;
  }

  lemma {:induction false} BucketSnoc<S>(flat: seq<Slot>, summaries: seq<S>, p: Slot, s: S, c: string)
    requires |flat| == |summaries|
    ensures Bucket(flat + [p], summaries + [s], c) == Bucket(flat, summaries, c) + if p.catId == c then [s] else []
  {
    if |flat| == 0 {
      assert flat + [p] == [p] && [p][1..] == [] && summaries + [s] == [s];
    } else {
      BucketSnoc(flat[1..], summaries[1..], p, s, c);
      assert (flat + [p])[1..] == flat[1..] + [p] && (summaries + [s])[1..] == summaries[1..] + [s];
    }
  }

  lemma {:induction false} BucketClips<S>(flat: seq<Slot>, summaries: seq<S>, c: string)
    requires |summaries| <= |flat|
    ensures Bucket(flat, summaries, c) == Bucket(flat[..|summaries|], summaries, c)
  {
    if |summaries| > 0 {
      BucketClips(flat[1..], summaries[1..], c);
      assert flat[..|summaries|][1..] == flat[1..][..|summaries| - 1];
    }
  }

  method SplitBack<S>(flat: seq<Slot>, summaries: seq<S>) returns (buckets: map<string, seq<S>>)
    requires |summaries| <= |flat|
    ensures forall c :: Get(buckets, c) == Bucket(flat, summaries, c)
  {
    buckets := map[];
    for i := 0 to |flat|
      invariant forall c :: Get(buckets, c) == Bucket(flat[..Min(i, |summaries|)], summaries[..Min(i, |summaries|)], c)
    {
      if i < |summaries| {
        assert flat[..i + 1] == flat[..i] + [flat[i]] && summaries[..i + 1] == summaries[..i] + [summaries[i]];
        forall c ensures Bucket(flat[..i + 1], summaries[..i + 1], c)
            == Bucket(flat[..i], summaries[..i], c) + if flat[i].catId == c then [summaries[i]] else [] {
          BucketSnoc(flat[..i], summaries[..i], flat[i], summaries[i], c);
        }
        buckets := Push(buckets, flat[i].catId, summaries[i]);
      }
    }
    forall c ensures Get(buckets, c) == Bucket(flat, summaries, c) {
      BucketClips(flat, summaries, c);
      assert summaries[..|summaries|] == summaries;
    }
  }

  function Min(a: nat, b: nat): nat {
    if a <= b then a else b
  }

  ghost function RowIfAny<S>(c: Category, assets: seq<S>): seq<Row<S>> {
    if |assets| == 0 then [] else [RowFor(c, assets)]
  }

  lemma {:induction false} RowsSnoc<S>(categories: seq<Category>, c: Category, flat: seq<Slot>, summaries: seq<S>)
    ensures BucketRows(categories + [c], flat, summaries) ==
      BucketRows(categories, flat, summaries) + RowIfAny(c, Bucket(flat, summaries, c.id))
  {
    var last := RowIfAny(c, Bucket(flat, summaries, c.id));
    if |categories| == 0 {
      assert categories + [c] == [c] && [c][1..] == [];
      assert BucketRows([], flat, summaries) == [];
    } else {
      RowsSnoc(categories[1..], c, flat, summaries);
      assert (categories + [c])[1..] == categories[1..] + [c];
      var head := RowIfAny(categories[0], Bucket(flat, summaries, categories[0].id));
      Associates(head, BucketRows(categories[1..], flat, summaries), last);
    }
  }

  method CollectRows<S>(categories: seq<Category>, buckets: map<string, seq<S>>, ghost flat: seq<Slot>, ghost summaries: seq<S>)
    returns (rows: seq<Row<S>>)
    requires forall c :: Get(buckets, c) == Bucket(flat, summaries, c)
    ensures rows == BucketRows(categories, flat, summaries)
  {
    rows := [];
    for i := 0 to |categories|
      invariant rows == BucketRows(categories[..i], flat, summaries)
    {
      var cat := categories[i];
      assert categories[..i + 1] == categories[..i] + [cat];
      RowsSnoc(categories[..i], cat, flat, summaries);
      assert Get(buckets, cat.id) == Bucket(flat, summaries, cat.id);
      if cat.id in buckets && |buckets[cat.id]| > 0 {
        rows := rows + [RowFor(cat, buckets[cat.id])];
      }
    }
    assert categories[..|categories|] == categories;
  }

  method BuildRows<S>(categories: seq<Category>, ranked: seq<Ranked>, hydrated: seq<Asset>, toSummary: Asset -> S)
    returns (rows: seq<Row<S>>)
    ensures rows == PipelineRows(categories, ranked, hydrated, toSummary)
  {
    rows := [];
    if |categories| == 0 {
      return;
    }
    if |ranked| == 0 {
      NothingRanked(ById(hydrated), categories, toSummary);
      return;
    }
    var assetById := IndexById(hydrated);
    var groups := GroupIds(ranked);
    var sorted := SortGroups(groups, assetById);
    forall c ensures Get(sorted, c) == SortedGroup(assetById, ranked, c) {
      assert Get(groups, c) == Group(ranked, c);
    }
    var flat := Flatten(categories, sorted, assetById, ranked);
    var flatAssets := Hydrated(flat, assetById);
    FoundFits(assetById, flat);
    var summaries := Apply(toSummary, flatAssets);
    var buckets := SplitBack(flat, summaries);
    rows := CollectRows(categories, buckets, flat, summaries);
  }

  lemma {:induction false} FoundFits(byId: map<string, Asset>, flat: seq<Slot>)
    ensures |Found(byId, flat)| <= |flat|
  {
    if |flat| > 0 {
      FoundFits(byId, flat[1..]);
    }
  }

  lemma {:induction false} NothingRanked<S>(byId: map<string, Asset>, rest: seq<Category>, toSummary: Asset -> S)
    ensures Flat(byId, [], rest) == []
    ensures BucketRows(rest, [], Apply(toSummary, Found(byId, []))) == []
  {
    if |rest| > 0 {
      NothingRanked(byId, rest[1..], toSummary);
    }
  }
}
