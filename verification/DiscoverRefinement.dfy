/** The batched row builder gives exactly the rows of the form it replaced, for any row order the
    two queries return, if and only if every ranked asset is still there to hydrate. */
module DiscoverRefinement {
  import opened Discover
  import opened Options
  import opened Sorting
  import opened Text

  ghost predicate DistinctIds(assets: seq<Asset>) {
    forall i, j :: 0 <= i < j < |assets| ==> assets[i].id != assets[j].id
  }

  ghost predicate DistinctCategories(categories: seq<Category>) {
    forall i, j :: 0 <= i < j < |categories| ==> categories[i].id != categories[j].id
  }

  /** Publication dates, where present, lie after the epoch. */
  ghost predicate PositiveDates(table: seq<Asset>) {
    forall a :: a in table && a.publishedAt.Some? ==> a.publishedAt.value > 0
  }

  /** `ROW_NUMBER() OVER (PARTITION BY "categoryId" ORDER BY ..)` among the published rows. */
  ghost function RowNumber(table: seq<Asset>, a: Asset): nat {
    1 + |set b | b in PublishedIn(table, a.categoryId) && b != a && SqlOrder(b, a)|
  }

  ghost predicate Selected(table: seq<Asset>, categories: seq<Category>, a: Asset) {
    && a in table && a.published
    && (exists c :: c in categories && c.id == a.categoryId)
    && RowNumber(table, a) <= ASSETS_PER_ROW
  }

  /** The ranking query's result, in any row order. */
  ghost predicate Ranks(table: seq<Asset>, categories: seq<Category>, ranked: seq<Ranked>) {
    && Distinct(ranked)
    && (forall a :: Selected(table, categories, a) ==> Ranked(a.id, a.categoryId) in ranked)
    && (forall r :: r in ranked ==> exists a :: Selected(table, categories, a) && r == Ranked(a.id, a.categoryId))
  }

  /** The hydration query's result, in any row order; rows may have been removed meanwhile. */
  ghost predicate Hydrates(table: seq<Asset>, ranked: seq<Ranked>, hydrated: seq<Asset>) {
    DistinctIds(hydrated) && forall a :: a in hydrated ==> a in table && exists r :: r in ranked && r.id == a.id
  }

  ghost predicate Complete(ranked: seq<Ranked>, hydrated: seq<Asset>) {
    forall r :: r in ranked ==> exists a :: a in hydrated && a.id == r.id
  }

  // ---------------------------------------------------------------- ranking is sorting

  lemma {:induction false} PublishedMembers(table: seq<Asset>, c: string)
    ensures forall a :: a in PublishedIn(table, c) <==> a in table && a.published && a.categoryId == c
    ensures DistinctIds(table) ==> DistinctIds(PublishedIn(table, c))
  {
    if |table| > 0 {
      PublishedMembers(table[1..], c);
      assert table == [table[0]] + table[1..];
      if DistinctIds(table) {
        forall a | a in table[1..] ensures a.id != table[0].id {
        }
      }
    }
  }

  lemma OrdersTotal()
    ensures TotalPreorder(SqlOrder) && TotalPreorder(JsOrder)
  {
    StrLeTotal();
  }

  lemma DistinctTieFree(s: seq<Asset>)
    requires DistinctIds(s)
    ensures TieFree(SqlOrder, s) && TieFree(JsOrder, s) && Distinct(s)
  {
    StrLeTotal();
  }

  lemma RowNumberAt(table: seq<Asset>, c: string, i: nat)
    requires DistinctIds(table)
    ensures var s := Sort(SqlOrder, PublishedIn(table, c));
      i < |s| ==> s[i].categoryId == c && RowNumber(table, s[i]) == i + 1
  {
    var p := PublishedIn(table, c);
    var s := Sort(SqlOrder, p);
    SortedPublished(table, c);
    if i < |s| {
      assert s[i] in p;
      BeforeIsPrefix(p, s, i);
      MemberCount(s[..i]);
    }
  }

  lemma BeforeIsPrefix(p: seq<Asset>, s: seq<Asset>, i: nat)
    requires i < |s| && SortedBy(SqlOrder, s) && TieFree(SqlOrder, s)
    requires forall a :: a in s <==> a in p
    ensures (set b | b in p && b != s[i] && SqlOrder(b, s[i])) == set b | b in s[..i]
  {
    forall b ensures (b in p && b != s[i] && SqlOrder(b, s[i])) <==> b in s[..i] {
      if b in s {
        var k :| 0 <= k < |s| && s[k] == b;
      }
    }
  }

  lemma SortedPublished(table: seq<Asset>, c: string)
    requires DistinctIds(table)
    ensures var s := Sort(SqlOrder, PublishedIn(table, c));
      && SortedBy(SqlOrder, s) && TieFree(SqlOrder, s) && DistinctIds(s) && Distinct(s)
      && (forall a :: a in s <==> a in PublishedIn(table, c))
      && (forall a :: a in s ==> a in table && a.published && a.categoryId == c)
  {
    var p := PublishedIn(table, c);
    PublishedMembers(table, c);
    OrdersTotal();
    SortSorts(SqlOrder, p);
    SortPermutes(SqlOrder, p);
    SameElements(p, Sort(SqlOrder, p));
    var r := (a: Asset, b: Asset) => a.id != b.id;
    assert forall i, j :: 0 <= i < j < |p| ==> r(p[i], p[j]) && r(p[j], p[i]);
    PairwisePermutes(r, p, Sort(SqlOrder, p));
    assert forall i, j :: 0 <= i < j < |p| ==> r(Sort(SqlOrder, p)[i], Sort(SqlOrder, p)[j]);
    DistinctTieFree(Sort(SqlOrder, p));
  }

  /** Being among the first eight rows is having a row number of at most eight. */
  lemma TopMembers(table: seq<Asset>, c: string, a: Asset)
    requires DistinctIds(table)
    ensures a in Top(table, c) <==> a in table && a.published && a.categoryId == c && RowNumber(table, a) <= ASSETS_PER_ROW
  {
    var s := Sort(SqlOrder, PublishedIn(table, c));
    SortedPublished(table, c);
    PublishedMembers(table, c);
    if a in s {
      var i :| 0 <= i < |s| && s[i] == a;
      RowNumberAt(table, c, i);
      InFirst(s, ASSETS_PER_ROW, i);
    }
  }

  lemma InFirst<T>(s: seq<T>, n: nat, i: nat)
    requires Distinct(s) && i < |s|
    ensures s[i] in (if |s| <= n then s else s[..n]) <==> i < n
  {
    if i < n < |s| {
      assert s[..n][i] == s[i];
    }
  }

  lemma TopSorted(table: seq<Asset>, c: string)
    requires DistinctIds(table)
    ensures SortedBy(SqlOrder, Top(table, c)) && DistinctIds(Top(table, c))
  {
    SortedPublished(table, c);
  }

  // ---------------------------------------------------------------- each category, aligned

  lemma {:induction false} ByIdFinds(hydrated: seq<Asset>)
    requires DistinctIds(hydrated)
    ensures forall a :: a in hydrated ==> a.id in ById(hydrated) && ById(hydrated)[a.id] == a
    ensures forall id :: id in ById(hydrated) ==> ById(hydrated)[id] in hydrated && ById(hydrated)[id].id == id
  {
    if |hydrated| > 0 {
      var init := hydrated[..|hydrated| - 1];
      assert hydrated == init + [hydrated[|hydrated| - 1]];
      ByIdFinds(init);
    }
  }

  lemma {:induction false} GroupMembers(ranked: seq<Ranked>, c: string)
    ensures forall id :: id in Group(ranked, c) <==> Ranked(id, c) in ranked
    ensures Distinct(ranked) ==> Distinct(Group(ranked, c))
  {
    if |ranked| > 0 {
      GroupMembers(ranked[1..], c);
      assert ranked == [ranked[0]] + ranked[1..];
    }
  }

  lemma GroupHydrated(ranked: seq<Ranked>, hydrated: seq<Asset>, c: string, id: string)
    requires DistinctIds(hydrated) && Complete(ranked, hydrated) && id in Group(ranked, c)
    ensures id in ById(hydrated)
  {
    GroupMembers(ranked, c);
    ByIdFinds(hydrated);
    var r := Ranked(id, c);
    assert r in ranked;
    var a :| a in hydrated && a.id == r.id;
  }

  lemma SortsToTop(top: seq<Asset>, assets: seq<Asset>)
    requires SortedBy(JsOrder, top) && TieFree(JsOrder, top) && multiset(top) == multiset(assets)
    ensures Sort(JsOrder, assets) == top
  {
    OrdersTotal();
    SortSorts(JsOrder, assets);
    SortPermutes(JsOrder, assets);
    SortedUnique(JsOrder, top, Sort(JsOrder, assets));
  }

  /** With every ranked row hydrated, the in-process sort of a group's ids is the old query. */
  lemma GroupIsTop(table: seq<Asset>, categories: seq<Category>, ranked: seq<Ranked>, hydrated: seq<Asset>, c: Category)
    requires DistinctIds(table) && PositiveDates(table) && c in categories
    requires Ranks(table, categories, ranked) && Hydrates(table, ranked, hydrated) && Complete(ranked, hydrated)
    ensures var byId := ById(hydrated);
      && (forall id :: id in SortedGroup(byId, ranked, c.id) ==> id in byId)
      && Map(byId, SortedGroup(byId, ranked, c.id)) == Top(table, c.id)
  {
    var byId, group := ById(hydrated), Group(ranked, c.id);
    forall id | id in group ensures id in byId {
      GroupHydrated(ranked, hydrated, c.id, id);
    }
    SortMaps(ByRecency(byId), JsOrder, byId, group);
    GroupMatchesTop(table, categories, ranked, hydrated, c);
    SortsToTop(Top(table, c.id), Map(byId, group));
  }

  lemma OrdersAgree(table: seq<Asset>, a: Asset, b: Asset)
    requires PositiveDates(table) && a in table && b in table
    ensures SqlOrder(a, b) == JsOrder(a, b)
  {
  }

  lemma TopInGroup(table: seq<Asset>, categories: seq<Category>, ranked: seq<Ranked>, hydrated: seq<Asset>, c: Category, a: Asset)
    requires DistinctIds(table) && c in categories && a in Top(table, c.id)
    requires Ranks(table, categories, ranked) && Hydrates(table, ranked, hydrated)
    requires forall id :: id in Group(ranked, c.id) ==> id in ById(hydrated)
    ensures a in Map(ById(hydrated), Group(ranked, c.id))
  {
    var group := Group(ranked, c.id);
    TopMembers(table, c.id, a);
    assert Selected(table, categories, a);
    GroupMembers(ranked, c.id);
    assert Ranked(a.id, c.id) in ranked && a.id in group;
    ByIdFinds(hydrated);
    SameId(table, a, ById(hydrated)[a.id]);
    var i :| 0 <= i < |group| && group[i] == a.id;
    assert Map(ById(hydrated), group)[i] == a;
  }

  lemma GroupInTop(table: seq<Asset>, categories: seq<Category>, ranked: seq<Ranked>, hydrated: seq<Asset>, c: Category, i: nat)
    requires DistinctIds(table) && c in categories && i < |Group(ranked, c.id)|
    requires Ranks(table, categories, ranked) && Hydrates(table, ranked, hydrated)
    requires forall id :: id in Group(ranked, c.id) ==> id in ById(hydrated)
    ensures var a := ById(hydrated)[Group(ranked, c.id)[i]]; a in Top(table, c.id) && a.id == Group(ranked, c.id)[i]
  {
    var group := Group(ranked, c.id);
    GroupMembers(ranked, c.id);
    ByIdFinds(hydrated);
    assert group[i] in group && Ranked(group[i], c.id) in ranked;
    var b :| Selected(table, categories, b) && Ranked(group[i], c.id) == Ranked(b.id, b.categoryId);
    SameId(table, ById(hydrated)[group[i]], b);
    TopMembers(table, c.id, b);
  }

  lemma TopJsSorted(table: seq<Asset>, c: string)
    requires DistinctIds(table) && PositiveDates(table)
    ensures SortedBy(JsOrder, Top(table, c)) && TieFree(JsOrder, Top(table, c))
  {
    var top := Top(table, c);
    TopSorted(table, c);
    DistinctTieFree(top);
    forall i, j | 0 <= i < j < |top| ensures JsOrder(top[i], top[j]) {
      TopMembers(table, c, top[i]);
      TopMembers(table, c, top[j]);
      OrdersAgree(table, top[i], top[j]);
    }
  }

  lemma GroupMatchesTop(table: seq<Asset>, categories: seq<Category>, ranked: seq<Ranked>, hydrated: seq<Asset>, c: Category)
    requires DistinctIds(table) && PositiveDates(table) && c in categories
    requires Ranks(table, categories, ranked) && Hydrates(table, ranked, hydrated)
    requires forall id :: id in Group(ranked, c.id) ==> id in ById(hydrated)
    ensures var top := Top(table, c.id);
      SortedBy(JsOrder, top) && TieFree(JsOrder, top) && multiset(top) == multiset(Map(ById(hydrated), Group(ranked, c.id)))
  {
    var group, top := Group(ranked, c.id), Top(table, c.id);
    var assets := Map(ById(hydrated), group);
    TopJsSorted(table, c.id);
    forall a ensures a in top <==> a in assets {
      if a in top {
        TopInGroup(table, categories, ranked, hydrated, c, a);
      }
      if a in assets {
        var i :| 0 <= i < |assets| && assets[i] == a;
        GroupInTop(table, categories, ranked, hydrated, c, i);
      }
    }
    GroupMembers(ranked, c.id);
    forall i | 0 <= i < |assets| ensures assets[i].id == group[i] {
      GroupInTop(table, categories, ranked, hydrated, c, i);
    }
    DistinctTieFree(assets);
    OrdersTotal();
    SameMembers(JsOrder, top, assets);
  }

  lemma SameId(table: seq<Asset>, a: Asset, b: Asset)
    requires DistinctIds(table) && a in table && b in table && a.id == b.id
    ensures a == b
  {
  }

  // ---------------------------------------------------------------- splitting back

  /** The summaries of a flat list all of whose assets are present line up with it. */
  lemma {:induction false} FoundAll(byId: map<string, Asset>, flat: seq<Slot>)
    ensures |Found(byId, flat)| <= |flat|
    ensures |Found(byId, flat)| == |flat| <==> forall p :: p in flat ==> p.assetId in byId
    ensures |Found(byId, flat)| == |flat| ==> forall i :: 0 <= i < |flat| ==> Found(byId, flat)[i] == byId[flat[i].assetId]
  {
    if |flat| > 0 {
      FoundAll(byId, flat[1..]);
      assert flat == [flat[0]] + flat[1..];
    }
  }

  lemma {:induction false} FoundJoin(byId: map<string, Asset>, a: seq<Slot>, b: seq<Slot>)
    ensures Found(byId, a + b) == Found(byId, a) + Found(byId, b)
  {
    if |a| == 0 {
      assert a + b == b;
    } else {
      var all := a + b;
      assert all[0] == a[0] && all[1..] == a[1..] + b;
      FoundJoin(byId, a[1..], b);
      Associates(if a[0].assetId in byId then [byId[a[0].assetId]] else [], Found(byId, a[1..]), Found(byId, b));
    }
  }

  lemma {:induction false} ApplyJoin<S>(f: Asset -> S, a: seq<Asset>, b: seq<Asset>)
    ensures Apply(f, a + b) == Apply(f, a) + Apply(f, b)
  {
    if |a| == 0 {
      assert a + b == b;
    } else {
      var all := a + b;
      assert all[0] == a[0] && all[1..] == a[1..] + b;
      ApplyJoin(f, a[1..], b);
      Associates([f(a[0])], Apply(f, a[1..]), Apply(f, b));
    }
  }

  lemma {:induction false} BucketJoin<S>(a: seq<Slot>, b: seq<Slot>, s: seq<S>, t: seq<S>, c: string)
    requires |a| == |s|
    ensures Bucket(a + b, s + t, c) == Bucket(a, s, c) + Bucket(b, t, c)
  {
    if |a| == 0 {
      assert a + b == b && s + t == t;
    } else {
      BucketJoin(a[1..], b, s[1..], t, c);
      assert (a + b)[1..] == a[1..] + b && (s + t)[1..] == s[1..] + t;
    }
  }

  lemma {:induction false} BucketTagged<S>(d: string, ids: seq<string>, s: seq<S>, c: string)
    requires |ids| == |s|
    ensures Bucket(Tagged(d, ids), s, c) == if c == d then s else []
  {
    if |ids| > 0 {
      BucketTagged(d, ids[1..], s[1..], c);
      assert Tagged(d, ids)[1..] == Tagged(d, ids[1..]);
      assert s == [s[0]] + s[1..];
    }
  }

  lemma FoundTagged(byId: map<string, Asset>, d: string, ids: seq<string>)
    requires forall id :: id in ids ==> id in byId
    ensures Found(byId, Tagged(d, ids)) == Map(byId, ids)
  {
    var flat := Tagged(d, ids);
    forall p | p in flat ensures p.assetId in byId {
      var i :| 0 <= i < |flat| && flat[i] == p;
      assert ids[i] in ids;
    }
    FoundAll(byId, flat);
  }

  /** What `BuildRows` needs of each category: its group hydrates to the old query's rows. */
  ghost predicate Aligned(table: seq<Asset>, byId: map<string, Asset>, ranked: seq<Ranked>, c: Category) {
    && (forall id :: id in SortedGroup(byId, ranked, c.id) ==> id in byId)
    && Map(byId, SortedGroup(byId, ranked, c.id)) == Top(table, c.id)
  }

  lemma OneMoreBucket<S>(byId: map<string, Asset>, catId: string, ids: seq<string>, tail: seq<Slot>, flat: seq<Slot>,
                         toSummary: Asset -> S, d: string)
    requires flat == Tagged(catId, ids) + tail && |Found(byId, tail)| == |tail|
    requires forall id :: id in ids ==> id in byId
    ensures |Found(byId, flat)| == |flat|
    ensures Bucket(flat, Apply(toSummary, Found(byId, flat)), d) ==
      (if d == catId then Apply(toSummary, Map(byId, ids)) else []) + Bucket(tail, Apply(toSummary, Found(byId, tail)), d)
  {
    var head := Tagged(catId, ids);
    FoundTagged(byId, catId, ids);
    FoundJoin(byId, head, tail);
    ApplyJoin(toSummary, Map(byId, ids), Found(byId, tail));
    BucketJoin(head, tail, Apply(toSummary, Map(byId, ids)), Apply(toSummary, Found(byId, tail)), d);
    BucketTagged(catId, ids, Apply(toSummary, Map(byId, ids)), d);
  }

  /** The flat list's buckets are the categories' own summaries. */
  lemma {:induction false} BucketsAreTops<S>(table: seq<Asset>, byId: map<string, Asset>, ranked: seq<Ranked>,
                                             categories: seq<Category>, toSummary: Asset -> S, d: string)
    requires DistinctCategories(categories) && forall c :: c in categories ==> Aligned(table, byId, ranked, c)
    ensures var flat := Flat(byId, ranked, categories);
      && |Found(byId, flat)| == |flat|
      && Bucket(flat, Apply(toSummary, Found(byId, flat)), d) ==
           if exists c :: c in categories && c.id == d then Apply(toSummary, Top(table, d)) else []
  {
    if |categories| > 0 {
      var c, rest := categories[0], categories[1..];
      assert c in categories && categories == [c] + rest;
      BucketsAreTops(table, byId, ranked, rest, toSummary, d);
      OneMoreBucket(byId, c.id, SortedGroup(byId, ranked, c.id), Flat(byId, ranked, rest), Flat(byId, ranked, categories), toSummary, d);
      if c.id == d {
        assert forall c' :: c' in rest ==> c'.id != d;
      }
    }
  }

  lemma {:induction false} RowsFromBuckets<S>(table: seq<Asset>, categories: seq<Category>, flat: seq<Slot>, summaries: seq<S>,
                                              toSummary: Asset -> S)
    requires forall c :: c in categories ==> Bucket(flat, summaries, c.id) == Apply(toSummary, Top(table, c.id))
    ensures BucketRows(categories, flat, summaries) == SimpleRows(table, categories, toSummary)
  {
    if |categories| > 0 {
      RowsFromBuckets(table, categories[1..], flat, summaries, toSummary);
    }
  }

  /** Nothing removed between the queries: the batched rows are the per-category rows. */
  lemma BatchedIsSimple<S>(table: seq<Asset>, categories: seq<Category>, ranked: seq<Ranked>, hydrated: seq<Asset>, toSummary: Asset -> S)
    requires DistinctIds(table) && PositiveDates(table) && DistinctCategories(categories)
    requires Ranks(table, categories, ranked) && Hydrates(table, ranked, hydrated) && Complete(ranked, hydrated)
    ensures PipelineRows(categories, ranked, hydrated, toSummary) == SimpleRows(table, categories, toSummary)
  {
    var byId := ById(hydrated);
    forall c | c in categories ensures Aligned(table, byId, ranked, c) {
      GroupIsTop(table, categories, ranked, hydrated, c);
    }
    var flat := Flat(byId, ranked, categories);
    forall c | c in categories
      ensures Bucket(flat, Apply(toSummary, Found(byId, flat)), c.id) == Apply(toSummary, Top(table, c.id))
    {
      BucketsAreTops(table, byId, ranked, categories, toSummary, c.id);
    }
    RowsFromBuckets(table, categories, flat, Apply(toSummary, Found(byId, flat)), toSummary);
  }

  // ---------------------------------------------------------------- exactly when

  ghost function Total<S>(rows: seq<Row<S>>): nat {
    if |rows| == 0 then 0 else |rows[0].assets| + Total(rows[1..])
  }

  ghost function BucketSizes<S>(categories: seq<Category>, flat: seq<Slot>, summaries: seq<S>): nat {
    if |categories| == 0 then 0
    else |Bucket(flat, summaries, categories[0].id)| + BucketSizes(categories[1..], flat, summaries)
  }

  lemma {:induction false} RowsTotal<S>(categories: seq<Category>, flat: seq<Slot>, summaries: seq<S>)
    ensures Total(BucketRows(categories, flat, summaries)) == BucketSizes(categories, flat, summaries)
  {
    if |categories| > 0 {
      RowsTotal(categories[1..], flat, summaries);
      var rows, rest := BucketRows(categories, flat, summaries), BucketRows(categories[1..], flat, summaries);
      if |Bucket(flat, summaries, categories[0].id)| > 0 {
        assert rows[1..] == rest;
      } else {
        assert rows == rest;
      }
    }
  }

  /** Taking the first slot away empties one place in one category's bucket. */
  lemma {:induction false} BucketSizesStep<S>(categories: seq<Category>, flat: seq<Slot>, summaries: seq<S>)
    requires DistinctCategories(categories) && |flat| > 0 && |summaries| > 0
    ensures BucketSizes(categories, flat, summaries) == BucketSizes(categories, flat[1..], summaries[1..])
      + if exists c :: c in categories && c.id == flat[0].catId then 1 else 0
  {
    if |categories| > 0 {
      BucketSizesStep(categories[1..], flat, summaries);
      assert categories == [categories[0]] + categories[1..];
    }
  }

  lemma {:induction false} BucketSizesTotal<S>(categories: seq<Category>, flat: seq<Slot>, summaries: seq<S>)
    requires DistinctCategories(categories) && |summaries| <= |flat|
    requires forall p :: p in flat ==> exists c :: c in categories && c.id == p.catId
    ensures BucketSizes(categories, flat, summaries) == |summaries|
    decreases |summaries|
  {
    if |summaries| > 0 {
      assert flat[0] in flat;
      BucketSizesStep(categories, flat, summaries);
      BucketSizesTotal(categories, flat[1..], summaries[1..]);
    } else {
      NoBuckets(categories, flat, summaries);
    }
  }

  lemma {:induction false} NoBuckets<S>(categories: seq<Category>, flat: seq<Slot>, summaries: seq<S>)
    requires |summaries| == 0
    ensures BucketSizes(categories, flat, summaries) == 0
  {
    if |categories| > 0 {
      NoBuckets(categories[1..], flat, summaries);
    }
  }

  lemma {:induction false} SlotSource(byId: map<string, Asset>, ranked: seq<Ranked>, categories: seq<Category>, p: Slot)
    requires p in Flat(byId, ranked, categories)
    ensures exists c :: c in categories && c.id == p.catId
  {
    var head := Tagged(categories[0].id, SortedGroup(byId, ranked, categories[0].id));
    if p in head {
      assert categories[0].id == p.catId;
    } else {
      SlotSource(byId, ranked, categories[1..], p);
      var c :| c in categories[1..] && c.id == p.catId;
      assert c in categories;
    }
  }

  lemma {:induction false} SlotListed(byId: map<string, Asset>, ranked: seq<Ranked>, categories: seq<Category>, c: Category, id: string)
    requires c in categories && id in Group(ranked, c.id)
    ensures Slot(c.id, id) in Flat(byId, ranked, categories)
  {
    if c == categories[0] {
      var ids := SortedGroup(byId, ranked, c.id);
      SortPermutes(ByRecency(byId), Group(ranked, c.id));
      SameElements(ids, Group(ranked, c.id));
      var i :| 0 <= i < |ids| && ids[i] == id;
      assert Tagged(c.id, ids)[i] == Slot(c.id, id);
    } else {
      SlotListed(byId, ranked, categories[1..], c, id);
    }
  }

  lemma {:induction false} FlatLength(a: map<string, Asset>, b: map<string, Asset>, ranked: seq<Ranked>, categories: seq<Category>)
    ensures |Flat(a, ranked, categories)| == |Flat(b, ranked, categories)|
  {
    if |categories| > 0 {
      FlatLength(a, b, ranked, categories[1..]);
      SortPermutes(ByRecency(a), Group(ranked, categories[0].id));
      SortPermutes(ByRecency(b), Group(ranked, categories[0].id));
    }
  }

  lemma PipelineTotal<S>(categories: seq<Category>, ranked: seq<Ranked>, hydrated: seq<Asset>, toSummary: Asset -> S)
    requires DistinctCategories(categories)
    ensures var flat := Flat(ById(hydrated), ranked, categories);
      Total(PipelineRows(categories, ranked, hydrated, toSummary)) == |Found(ById(hydrated), flat)| <= |flat|
  {
    var byId := ById(hydrated);
    var flat := Flat(byId, ranked, categories);
    var summaries := Apply(toSummary, Found(byId, flat));
    forall p | p in flat ensures exists c :: c in categories && c.id == p.catId {
      SlotSource(byId, ranked, categories, p);
    }
    FoundAll(byId, flat);
    RowsTotal(categories, flat, summaries);
    BucketSizesTotal(categories, flat, summaries);
  }

  ghost predicate Mentioned(ranked: seq<Ranked>, id: string) {
    exists r :: r in ranked && r.id == id
  }

  /** What the hydration query returns when nothing has been removed. */
  ghost function Kept(table: seq<Asset>, ranked: seq<Ranked>): seq<Asset> {
    if |table| == 0 then []
    else (if Mentioned(ranked, table[0].id) then [table[0]] else []) + Kept(table[1..], ranked)
  }

  lemma {:induction false} KeptMembers(table: seq<Asset>, ranked: seq<Ranked>)
    ensures forall a :: a in Kept(table, ranked) <==> a in table && Mentioned(ranked, a.id)
    ensures DistinctIds(table) ==> DistinctIds(Kept(table, ranked))
  {
    if |table| > 0 {
      KeptMembers(table[1..], ranked);
      assert table == [table[0]] + table[1..];
      if DistinctIds(table) {
        assert forall a :: a in table[1..] ==> a.id != table[0].id;
      }
    }
  }

  /** The batched rows equal the per-category rows if and only if every ranked asset was still
      there to hydrate; one missing row shifts every later summary by one place. */
  lemma BatchedExactly<S>(table: seq<Asset>, categories: seq<Category>, ranked: seq<Ranked>, hydrated: seq<Asset>, toSummary: Asset -> S)
    requires DistinctIds(table) && PositiveDates(table) && DistinctCategories(categories)
    requires Ranks(table, categories, ranked) && Hydrates(table, ranked, hydrated)
    ensures PipelineRows(categories, ranked, hydrated, toSummary) == SimpleRows(table, categories, toSummary)
      <==> Complete(ranked, hydrated)
  {
    if Complete(ranked, hydrated) {
      BatchedIsSimple(table, categories, ranked, hydrated, toSummary);
    } else {
      var all := Kept(table, ranked);
      KeptMembers(table, ranked);
      KeptComplete(table, categories, ranked);
      BatchedIsSimple(table, categories, ranked, all, toSummary);
      PipelineTotal(categories, ranked, hydrated, toSummary);
      CompleteTotal(table, categories, ranked, all, toSummary);
      MissingSlot(table, categories, ranked, hydrated);
      FlatLength(ById(all), ById(hydrated), ranked, categories);
    }
  }

  lemma KeptComplete(table: seq<Asset>, categories: seq<Category>, ranked: seq<Ranked>)
    requires DistinctIds(table) && Ranks(table, categories, ranked)
    ensures Hydrates(table, ranked, Kept(table, ranked)) && Complete(ranked, Kept(table, ranked))
  {
    KeptMembers(table, ranked);
    forall r | r in ranked ensures exists a :: a in Kept(table, ranked) && a.id == r.id {
      var a :| Selected(table, categories, a) && r == Ranked(a.id, a.categoryId);
      assert a in Kept(table, ranked);
    }
  }

  lemma CompleteTotal<S>(table: seq<Asset>, categories: seq<Category>, ranked: seq<Ranked>, hydrated: seq<Asset>, toSummary: Asset -> S)
    requires DistinctIds(table) && PositiveDates(table) && DistinctCategories(categories)
    requires Ranks(table, categories, ranked) && Hydrates(table, ranked, hydrated) && Complete(ranked, hydrated)
    ensures Total(PipelineRows(categories, ranked, hydrated, toSummary)) == |Flat(ById(hydrated), ranked, categories)|
  {
    PipelineTotal(categories, ranked, hydrated, toSummary);
    forall c | c in categories ensures Aligned(table, ById(hydrated), ranked, c) {
      GroupIsTop(table, categories, ranked, hydrated, c);
    }
    BucketsAreTops(table, ById(hydrated), ranked, categories, toSummary, "");
  }

  lemma MissingSlot(table: seq<Asset>, categories: seq<Category>, ranked: seq<Ranked>, hydrated: seq<Asset>)
    requires Ranks(table, categories, ranked) && Hydrates(table, ranked, hydrated) && !Complete(ranked, hydrated)
    ensures var flat := Flat(ById(hydrated), ranked, categories); |Found(ById(hydrated), flat)| < |flat|
  {
    var byId := ById(hydrated);
    var flat := Flat(byId, ranked, categories);
    var r :| r in ranked && forall a :: a in hydrated ==> a.id != r.id;
    var a :| Selected(table, categories, a) && r == Ranked(a.id, a.categoryId);
    var c :| c in categories && c.id == a.categoryId;
    GroupMembers(ranked, c.id);
    SlotListed(byId, ranked, categories, c, r.id);
    ByIdFinds(hydrated);
    assert Slot(c.id, r.id) in flat && r.id !in byId;
    FoundAll(byId, flat);
  }

  /** What the shift looks like: with the first category's only asset gone, the second category's
      asset is shown in the first category's row. */
  lemma MissingShifts<S>(a: Category, b: Category, x: string, y: Asset, toSummary: Asset -> S)
    requires a.id != b.id && x != y.id
    ensures PipelineRows([a, b], [Ranked(x, a.id), Ranked(y.id, b.id)], [y], toSummary) == [RowFor(a, [toSummary(y)])]
  {
    var ranked, byId := [Ranked(x, a.id), Ranked(y.id, b.id)], map[y.id := y];
    var flat := [Slot(a.id, x), Slot(b.id, y.id)];
    assert [y][..0] == [] && ById([y]) == byId;
    TwoSlots(byId, a, b, x, y.id);
    TwoFound(byId, flat[0], flat[1]);
    assert Apply(toSummary, [y]) == [toSummary(y)];
    FirstRowOnly(a, b, flat, toSummary(y));
  }

  lemma TwoGroups(a: string, b: string, x: string, y: string)
    requires a != b
    ensures Group([Ranked(x, a), Ranked(y, b)], a) == [x] && Group([Ranked(x, a), Ranked(y, b)], b) == [y]
  {
    var ranked := [Ranked(x, a), Ranked(y, b)];
    var rest := ranked[1..];
    assert rest == [Ranked(y, b)] && rest[1..] == [];
    assert Group(rest, a) == [] && Group(rest, b) == [y];
  }

  lemma TwoSlots(byId: map<string, Asset>, a: Category, b: Category, x: string, y: string)
    requires a.id != b.id
    ensures Flat(byId, [Ranked(x, a.id), Ranked(y, b.id)], [a, b]) == [Slot(a.id, x), Slot(b.id, y)]
  {
    var ranked := [Ranked(x, a.id), Ranked(y, b.id)];
    TwoGroups(a.id, b.id, x, y);
    SortOne(ByRecency(byId), x);
    SortOne(ByRecency(byId), y);
    assert [a, b][1..] == [b] && [b][1..] == [];
    assert Flat(byId, ranked, [b]) == Tagged(b.id, [y]);
  }

  lemma TwoFound(byId: map<string, Asset>, p: Slot, q: Slot)
    requires p.assetId !in byId && q.assetId in byId
    ensures Found(byId, [p, q]) == [byId[q.assetId]]
  {
    assert [p, q][1..] == [q] && [q][1..] == [];
    assert Found(byId, [q]) == [byId[q.assetId]];
  }

  lemma {:induction false} FirstRowOnly<S>(a: Category, b: Category, flat: seq<Slot>, s: S)
    requires |flat| == 2 && flat[0].catId == a.id && a.id != b.id
    ensures BucketRows([a, b], flat, [s]) == [RowFor(a, [s])]
  {
    assert [s][1..] == [];
    assert Bucket(flat, [s], a.id) == [s] && Bucket(flat, [s], b.id) == [];
    assert [a, b][1..] == [b] && [b][1..] == [];
    assert BucketRows([b], flat, [s]) == [];
  }

  // ---------------------------------------------------------------- what the rows show

  /** Published later, undated assets last, and of one moment the one with the greater id. */
  predicate Newer(a: Asset, b: Asset) {
    || (a.publishedAt.Some? && b.publishedAt.None?)
    || (a.publishedAt.Some? && b.publishedAt.Some? && a.publishedAt.value > b.publishedAt.value)
    || (a.publishedAt == b.publishedAt && StrLe(b.id, a.id))
  }

  ghost predicate PublishedUnder(table: seq<Asset>, c: string, a: Asset) {
    a in table && a.published && a.categoryId == c
  }

  /** The eight newest published assets of the category, or all of them if there are no more. */
  ghost predicate NewestEight(table: seq<Asset>, c: string, top: seq<Asset>) {
    && |top| <= 8 && DistinctIds(top)
    && (forall a :: a in top ==> PublishedUnder(table, c, a))
    && (forall i, j :: 0 <= i < j < |top| ==> Newer(top[i], top[j]))
    && (forall a :: PublishedUnder(table, c, a) && a !in top ==> |top| == 8 && forall b :: b in top ==> Newer(b, a))
  }

  lemma TopMember(table: seq<Asset>, c: string, a: Asset)
    requires DistinctIds(table) && a in Top(table, c)
    ensures PublishedUnder(table, c, a)
  {
    SortedPublished(table, c);
    assert a in Sort(SqlOrder, PublishedIn(table, c));
  }

  lemma OthersOlder(table: seq<Asset>, c: string, a: Asset)
    requires DistinctIds(table) && PublishedUnder(table, c, a) && a !in Top(table, c)
    ensures |Top(table, c)| == 8 && forall b :: b in Top(table, c) ==> Newer(b, a)
  {
    var s := Sort(SqlOrder, PublishedIn(table, c));
    SortedPublished(table, c);
    PublishedMembers(table, c);
    var i :| 0 <= i < |s| && s[i] == a;
    RestIsOlder(s, Top(table, c), i);
  }

  lemma TopIsNewest(table: seq<Asset>, c: string)
    requires DistinctIds(table)
    ensures NewestEight(table, c, Top(table, c))
    ensures Top(table, c) == [] <==> forall a :: !PublishedUnder(table, c, a)
  {
    TopSorted(table, c);
    var top := Top(table, c);
    forall a | PublishedUnder(table, c, a) && a !in top ensures |top| == 8 && forall b :: b in top ==> Newer(b, a) {
      OthersOlder(table, c, a);
    }
    forall a | a in top ensures PublishedUnder(table, c, a) {
      TopMember(table, c, a);
    }
    assert |top| > 0 ==> top[0] in top;
  }

  lemma RestIsOlder(s: seq<Asset>, top: seq<Asset>, i: nat)
    requires SortedBy(SqlOrder, s) && top == (if |s| <= ASSETS_PER_ROW then s else s[..ASSETS_PER_ROW])
    requires i < |s| && s[i] !in top
    ensures |top| == 8 && forall b :: b in top ==> Newer(b, s[i])
  {
    assert forall k :: 0 <= k < |top| ==> top[k] == s[k] && top[k] in top;
    forall b | b in top ensures Newer(b, s[i]) {
      var k :| 0 <= k < |top| && top[k] == b;
      assert SqlOrder(s[k], s[i]);
    }
  }

  /** The categories with something published, in their order. */
  ghost function Shown(table: seq<Asset>, categories: seq<Category>): seq<Category> {
    if |categories| == 0 then []
    else (if exists a :: PublishedUnder(table, categories[0].id, a) then [categories[0]] else []) + Shown(table, categories[1..])
  }

  /** The row is the category's: its id and slug, its name or for want of one its slug, and the
      summaries of its newest assets in order. */
  ghost predicate RowOf<S>(table: seq<Asset>, c: Category, row: Row<S>, toSummary: Asset -> S) {
    && row.categoryId == c.id && row.categorySlug == c.slug
    && (c.name.Some? ==> row.name == c.name.value) && (c.name.None? ==> row.name == c.slug)
    && exists top :: NewestEight(table, c.id, top) && |row.assets| == |top| && forall i :: 0 <= i < |top| ==> row.assets[i] == toSummary(top[i])
  }

  lemma {:induction false} Applied<S>(f: Asset -> S, s: seq<Asset>)
    ensures forall i :: 0 <= i < |s| ==> Apply(f, s)[i] == f(s[i])
  {
    if |s| > 0 {
      Applied(f, s[1..]);
    }
  }

  lemma {:induction false} SimpleRowsMean<S>(table: seq<Asset>, categories: seq<Category>, toSummary: Asset -> S)
    requires DistinctIds(table)
    ensures var rows, shown := SimpleRows(table, categories, toSummary), Shown(table, categories);
      |rows| == |shown| && forall i :: 0 <= i < |rows| ==> RowOf(table, shown[i], rows[i], toSummary)
  {
    if |categories| > 0 {
      var c := categories[0];
      SimpleRowsMean(table, categories[1..], toSummary);
      TopIsNewest(table, c.id);
      Applied(toSummary, Top(table, c.id));
      if Top(table, c.id) != [] {
        assert RowOf(table, c, RowFor(c, Apply(toSummary, Top(table, c.id))), toSummary);
      }
    }
  }

  /** With every ranked asset still there to hydrate, the page has one row for each category with
      something published, in order, and each shows the category's eight newest assets. */
  lemma RowsShowNewest<S>(table: seq<Asset>, categories: seq<Category>, ranked: seq<Ranked>, hydrated: seq<Asset>, toSummary: Asset -> S)
    requires DistinctIds(table) && PositiveDates(table) && DistinctCategories(categories)
    requires Ranks(table, categories, ranked) && Hydrates(table, ranked, hydrated) && Complete(ranked, hydrated)
    ensures var rows, shown := PipelineRows(categories, ranked, hydrated, toSummary), Shown(table, categories);
      |rows| == |shown| && forall i :: 0 <= i < |rows| ==> RowOf(table, shown[i], rows[i], toSummary)
  {
    BatchedIsSimple(table, categories, ranked, hydrated, toSummary);
    SimpleRowsMean(table, categories, toSummary);
  }
}
