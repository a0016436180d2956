/** Garbage collection of editor media: the keys found in the long descriptions, alone among all
    that stores some, are marked, and old unmarked uploads are removed. */
module EditorMediaGc {
  import opened Json
  import opened Options
  import opened TipTap
  import opened TipTapTheorems

  /** URL parsing (`extractEditorKey`): the key of the editor bucket a URL points at, if any. */
  type Extract = string -> Option<string>

  // ---------------------------------------------------------------- harvesting

  /** The key of `attrs[field]`, when that is a string pointing at the editor bucket. */
  function FieldKey(extract: Extract, attrs: Json, field: string): set<string> {
    if attrs.Obj? && field in attrs.fields && attrs.fields[field].Str? then
      match extract(attrs.fields[field].s)
      case Some(key) => if key != "" then {key} else {}
      case None => {}
    else {}
  }

  /** The keys named by the value's own `attrs`. */
  function OwnKeys(extract: Extract, j: Json): set<string> {
    if j.Obj? && "attrs" in j.fields then
      FieldKey(extract, j.fields["attrs"], "src") + FieldKey(extract, j.fields["attrs"], "href")
    else {}
  }

  ghost function Harvest(extract: Extract, j: Json): set<string>
    decreases j, if j.Arr? then |j.items| + 1 else 0
  {
    match j
    case Arr(items) => HarvestItems(extract, j, |items|)
    case Obj(fields) =>
      OwnKeys(extract, j)
      + (if "content" in fields then Harvest(extract, fields["content"]) else {})
      + (if "marks" in fields then Harvest(extract, fields["marks"]) else {})
    case _ => {}
  }

  ghost function HarvestItems(extract: Extract, j: Json, k: nat): set<string>
    requires j.Arr? && k <= |j.items|
    decreases j, k
  {
    if k == 0 then {} else HarvestItems(extract, j, k - 1) + Harvest(extract, j.items[k - 1])
  }

  class KeySet {
    var keys: set<string>

    constructor ()
      ensures keys == {}
    {
      keys := {};
    }

    method Collect(node: Json, extract: Extract)
      modifies this
      ensures keys == old(keys) + OwnKeys(extract, node)
    {
      if node.Obj? && "attrs" in node.fields {
        keys := keys + FieldKey(extract, node.fields["attrs"], "src") + FieldKey(extract, node.fields["attrs"], "href");
      }
    }
  }

  method WalkTipTap(node: Json, extract: Extract, referenced: KeySet)
    modifies referenced
    ensures referenced.keys == old(referenced.keys) + Harvest(extract, node)
    decreases node
  {
    match node
    case Arr(items) =>
      var i := 0;
      while i < |items|
        invariant i <= |items|
        invariant referenced.keys == old(referenced.keys) + HarvestItems(extract, node, i)
      {
        WalkTipTap(items[i], extract, referenced);
        i := i + 1;
      }
    case Obj(fields) =>
      referenced.Collect(node, extract);
      if "content" in fields {
        WalkTipTap(fields["content"], extract, referenced);
      }
      if "marks" in fields {
        WalkTipTap(fields["marks"], extract, referenced);
      }
    case _ =>
  }

  /** Where the walk goes: into array items and the `content` and `marks` fields. */
  datatype Hop = Item(i: nat) | InContent | InMarks

  ghost function Sub(j: Json, path: seq<Hop>): Option<Json>
    decreases |path|
  {
    if |path| == 0 then Some(j)
    else match path[0] {
      case Item(i) => if j.Arr? && i < |j.items| then Sub(j.items[i], path[1..]) else None
      case InContent => if j.Obj? && "content" in j.fields then Sub(j.fields["content"], path[1..]) else None
      case InMarks => if j.Obj? && "marks" in j.fields then Sub(j.fields["marks"], path[1..]) else None
    }
  }

  /** The attribute is a string, a URL of `key`. */
  predicate Links(extract: Extract, attrs: map<string, Json>, field: string, key: string) {
    key != "" && field in attrs && attrs[field].Str? && extract(attrs[field].s) == Some(key)
  }

  /** A mention: the object at `path` has attributes one of which, `field`, is a URL of `key`. */
  ghost predicate MentionedAt(extract: Extract, j: Json, path: seq<Hop>, field: string, key: string) {
    match Sub(j, path)
    case Some(v) => v.Obj? && "attrs" in v.fields && v.fields["attrs"].Obj? && Links(extract, v.fields["attrs"].fields, field, key)
    case None => false
  }

  ghost predicate Names(extract: Extract, j: Json, path: seq<Hop>, key: string) {
    MentionedAt(extract, j, path, "src", key) || MentionedAt(extract, j, path, "href", key)
  }

  lemma OwnNames(extract: Extract, j: Json, key: string)
    ensures key in OwnKeys(extract, j) <==> Names(extract, j, [], key)
  {
  }

  lemma {:induction false} NamedHarvested(extract: Extract, j: Json, path: seq<Hop>, key: string)
    requires Names(extract, j, path, key)
    ensures key in Harvest(extract, j)
    decreases |path|
  {
    if |path| > 0 {
      match path[0]
      case Item(i) =>
        NamedHarvested(extract, j.items[i], path[1..], key);
        ItemHarvested(extract, j, |j.items|, i, key);
      case InContent => NamedHarvested(extract, j.fields["content"], path[1..], key);
      case InMarks => NamedHarvested(extract, j.fields["marks"], path[1..], key);
    }
  }

  lemma {:induction false} ItemHarvested(extract: Extract, j: Json, k: nat, i: nat, key: string)
    requires j.Arr? && i < k <= |j.items| && key in Harvest(extract, j.items[i])
    ensures key in HarvestItems(extract, j, k)
    decreases k
  {
    if i < k - 1 {
      ItemHarvested(extract, j, k - 1, i, key);
    }
  }

  lemma {:induction false} HarvestedNamed(extract: Extract, j: Json, key: string) returns (path: seq<Hop>)
    requires key in Harvest(extract, j)
    ensures Names(extract, j, path, key)
    decreases j, if j.Arr? then |j.items| + 1 else 0
  {
    path := [];
    match j
    case Arr(items) =>
      path := ItemNamed(extract, j, |items|, key);
    case Obj(fields) =>
      if key !in OwnKeys(extract, j) {
        if "content" in fields && key in Harvest(extract, fields["content"]) {
          var rest := HarvestedNamed(extract, fields["content"], key);
          path := [InContent] + rest;
          assert path[1..] == rest;
        } else {
          var rest := HarvestedNamed(extract, fields["marks"], key);
          path := [InMarks] + rest;
          assert path[1..] == rest;
        }
      }
  }

  lemma ItemNames(extract: Extract, j: Json, i: nat, rest: seq<Hop>, key: string)
    requires j.Arr? && i < |j.items| && Names(extract, j.items[i], rest, key)
    ensures Names(extract, j, [Item(i)] + rest, key)
  {
    assert ([Item(i)] + rest)[1..] == rest;
  }

  lemma {:induction false} ItemNamed(extract: Extract, j: Json, k: nat, key: string) returns (path: seq<Hop>)
    requires j.Arr? && k <= |j.items| && key in HarvestItems(extract, j, k)
    ensures Names(extract, j, path, key)
    decreases j, k
  {
    if key in Harvest(extract, j.items[k - 1]) {
      var rest := HarvestedNamed(extract, j.items[k - 1], key);
      path := [Item(k - 1)] + rest;
      ItemNames(extract, j, k - 1, rest, key);
    } else {
      path := ItemNamed(extract, j, k - 1, key);
    }
  }

  /** The harvest is exactly the editor keys on `src` or `href`, at any depth. */
  lemma HarvestExact(extract: Extract, j: Json, key: string)
    ensures key in Harvest(extract, j) <==> exists path :: Names(extract, j, path, key)
  {
    if key in Harvest(extract, j) {
      var path := HarvestedNamed(extract, j, key);
    }
    if path :| Names(extract, j, path, key) {
      NamedHarvested(extract, j, path, key);
    }
  }

  // ---------------------------------------------------------------- sanitized documents

  ghost function MarkJson(m: Mark): Json {
    Obj(map["type" := Str(m.kind)] + if m.attrs == map[] then map[] else map["attrs" := Obj(m.attrs)])
  }

  ghost function MarksJson(marks: seq<Mark>): Json {
    Arr(seq(|marks|, i requires 0 <= i < |marks| => MarkJson(marks[i])))
  }

  ghost function NodeFields(node: Node): map<string, Json> {
    map["type" := Str(node.kind)]
    + (if node.attrs == map[] then map[] else map["attrs" := Obj(node.attrs)])
    + (if node.text.None? then map[] else map["text" := Str(node.text.value)])
    + (if |node.marks| == 0 then map[] else map["marks" := MarksJson(node.marks)])
  }

  /** The stored form of a document. */
  ghost function NodeJson(node: Node): Json
    decreases node
  {
    Obj(if |node.content| == 0 then NodeFields(node)
        else NodeFields(node)["content" := Arr(seq(|node.content|, i requires 0 <= i < |node.content| => NodeJson(node.content[i])))])
  }

  /** The key is linked by `src` of an image, video or embed node or by `href` of a link mark. */
  ghost predicate MediaKey(extract: Extract, node: Node, key: string)
    decreases node
  {
    || (node.kind in {"image", "video", "embed"} && Links(extract, node.attrs, "src", key))
    || (exists m :: m in node.marks && m.kind == "link" && Links(extract, m.attrs, "href", key))
    || (exists c :: c in node.content && MediaKey(extract, c, key))
  }

  lemma FieldLinks(extract: Extract, attrs: map<string, Json>, field: string, key: string)
    ensures key in FieldKey(extract, Obj(attrs), field) <==> Links(extract, attrs, field, key)
  {
  }

  lemma ItemsMember(extract: Extract, j: Json, key: string)
    requires j.Arr?
    ensures key in HarvestItems(extract, j, |j.items|) <==> exists i :: 0 <= i < |j.items| && key in Harvest(extract, j.items[i])
  {
    if i :| 0 <= i < |j.items| && key in Harvest(extract, j.items[i]) {
      ItemHarvested(extract, j, |j.items|, i, key);
    }
    if key in HarvestItems(extract, j, |j.items|) {
      var i := ItemSource(extract, j, |j.items|, key);
    }
  }

  lemma {:induction false} ItemSource(extract: Extract, j: Json, k: nat, key: string) returns (i: nat)
    requires j.Arr? && k <= |j.items| && key in HarvestItems(extract, j, k)
    ensures i < k && key in Harvest(extract, j.items[i])
    decreases k
  {
    if key in Harvest(extract, j.items[k - 1]) {
      return k - 1;
    }
    i := ItemSource(extract, j, k - 1, key);
  }

  lemma FullAttrs(kind: string)
    ensures "src" in Allowed(FULL.nodeAttrs, kind) <==> kind in {"image", "video", "embed"}
    ensures "href" !in Allowed(FULL.nodeAttrs, kind)
  {
  }

  lemma FullMarkAttrs(kind: string)
    ensures "href" in Allowed(FULL.markAttrs, kind) <==> kind == "link"
    ensures "src" !in Allowed(FULL.markAttrs, kind)
  {
  }

  /** `src` only on media nodes and `href` only on links, at any depth. */
  ghost predicate Tame(node: Node)
    decreases node
  {
    && "href" !in node.attrs
    && ("src" in node.attrs ==> node.kind in {"image", "video", "embed"})
    && (forall m :: m in node.marks ==> "src" !in m.attrs && ("href" in m.attrs ==> m.kind == "link"))
    && (forall c :: c in node.content ==> Tame(c))
  }

  lemma {:induction false} CleanMarksTame(marks: seq<Mark>, k: nat, m: Mark)
    requires k <= |marks| && m in CleanMarks(FULL, marks, k)
    ensures "src" !in m.attrs && ("href" in m.attrs ==> m.kind == "link")
  {
    if m == CleanMark(FULL, marks[k - 1]) {
      FullMarkAttrs(m.kind);
    } else {
      CleanMarksTame(marks, k - 1, m);
    }
  }

  lemma {:induction false} SanitizedTame(node: Node)
    ensures Tame(Sanitized(FULL, node))
    decreases node
  {
    var out := Sanitized(FULL, node);
    FullAttrs(node.kind);
    forall m | m in out.marks ensures "src" !in m.attrs && ("href" in m.attrs ==> m.kind == "link") {
      CleanMarksTame(node.marks, |node.marks|, m);
    }
    forall c | c in out.content ensures Tame(c) {
      var i :| 0 <= i < |out.content| && out.content[i] == c;
      SanitizedTame(node.content[i]);
    }
  }

  lemma MarkHarvest(extract: Extract, m: Mark)
    ensures Harvest(extract, MarkJson(m)) == FieldKey(extract, Obj(m.attrs), "src") + FieldKey(extract, Obj(m.attrs), "href")
  {
  }

  lemma MarksHarvest(extract: Extract, marks: seq<Mark>, key: string)
    ensures key in Harvest(extract, MarksJson(marks)) <==> exists m :: m in marks && key in Harvest(extract, MarkJson(m))
  {
    var j := MarksJson(marks);
    ItemsMember(extract, j, key);
    if m :| m in marks && key in Harvest(extract, MarkJson(m)) {
      var i :| 0 <= i < |marks| && marks[i] == m;
      assert key in Harvest(extract, j.items[i]);
    }
    if i :| 0 <= i < |j.items| && key in Harvest(extract, j.items[i]) {
      assert marks[i] in marks;
    }
  }

  lemma ContentHarvest(extract: Extract, node: Node, key: string)
    requires |node.content| > 0
    ensures key in Harvest(extract, NodeJson(node).fields["content"]) <==>
      exists c :: c in node.content && key in Harvest(extract, NodeJson(c))
  {
    var j := NodeJson(node).fields["content"];
    ItemsMember(extract, j, key);
    if c :| c in node.content && key in Harvest(extract, NodeJson(c)) {
      var i :| 0 <= i < |node.content| && node.content[i] == c;
      assert key in Harvest(extract, j.items[i]);
    }
    if i :| 0 <= i < |j.items| && key in Harvest(extract, j.items[i]) {
      assert node.content[i] in node.content;
    }
  }

  lemma NodeOwnKeys(extract: Extract, node: Node)
    ensures OwnKeys(extract, NodeJson(node)) == FieldKey(extract, Obj(node.attrs), "src") + FieldKey(extract, Obj(node.attrs), "href")
    ensures "marks" in NodeJson(node).fields <==> |node.marks| > 0
    ensures |node.marks| > 0 ==> NodeJson(node).fields["marks"] == MarksJson(node.marks)
    ensures "content" in NodeJson(node).fields <==> |node.content| > 0
  {
  }

  lemma NodeHarvest(extract: Extract, node: Node, key: string)
    ensures key in Harvest(extract, NodeJson(node)) <==>
      || key in FieldKey(extract, Obj(node.attrs), "src") || key in FieldKey(extract, Obj(node.attrs), "href")
      || (exists m :: m in node.marks && key in Harvest(extract, MarkJson(m)))
      || (exists c :: c in node.content && key in Harvest(extract, NodeJson(c)))
  {
    NodeOwnKeys(extract, node);
    if |node.content| > 0 {
      ContentHarvest(extract, node, key);
    }
    if |node.marks| > 0 {
      MarksHarvest(extract, node.marks, key);
    }
  }

  lemma {:induction false} TameHarvest(extract: Extract, node: Node, key: string)
    requires Tame(node)
    ensures key in Harvest(extract, NodeJson(node)) <==> MediaKey(extract, node, key)
    decreases node
  {
    NodeHarvest(extract, node, key);
    forall m | m in node.marks
      ensures key in Harvest(extract, MarkJson(m)) <==> m.kind == "link" && key in FieldKey(extract, Obj(m.attrs), "href")
    {
      MarkHarvest(extract, m);
    }
    forall c | c in node.content ensures key in Harvest(extract, NodeJson(c)) <==> MediaKey(extract, c, key) {
      TameHarvest(extract, c, key);
    }
  }

  /** What is harvested from a document the full sanitizer wrote. */
  lemma SanitizedHarvest(extract: Extract, node: Node, key: string)
    ensures key in Harvest(extract, NodeJson(Sanitized(FULL, node))) <==> MediaKey(extract, Sanitized(FULL, node), key)
  {
    SanitizedTame(node);
    TameHarvest(extract, Sanitized(FULL, node), key);
  }

  /** A video's `poster` passes the sanitizer but is not harvested. */
  lemma PosterNotHarvested(extract: Extract, url: string)
    ensures var video := Node("video", map["poster" := Str(url)], [], None, []);
      && Conforms(FULL, video) && Sanitized(FULL, video) == video
      && Harvest(extract, NodeJson(video)) == {}
  {
    PosterPasses(url);
    var video := Node("video", map["poster" := Str(url)], [], None, []);
    forall key ensures key !in Harvest(extract, NodeJson(video)) {
      SanitizedHarvest(extract, video, key);
    }
  }

  lemma PosterPasses(url: string)
    ensures var video := Node("video", map["poster" := Str(url)], [], None, []);
      Conforms(FULL, video) && Sanitized(FULL, video) == video
  {
    assert "poster" in Allowed(FULL.nodeAttrs, "video");
  }

  // ---------------------------------------------------------------- one run

  type Id = string

  const SEVEN_DAYS_MS := 7 * 86_400_000
  const BATCH_SIZE := 1000

  datatype Upload = Upload(key: string, createdAt: int, referenced: bool)

  /** An entry of an asset's gallery (`previewMedia`). */
  datatype GalleryItem = GalleryItem(key: string, displayKey: Option<string>)

  /** What stores keys of the editor bucket: documents, which release notes hold one per locale, and
      the assets' galleries. */
  datatype Site = Site(longDescriptions: seq<Json>, comments: seq<Json>, releaseNotes: seq<map<string, Json>>,
                             galleries: seq<seq<GalleryItem>>)

  ghost function HarvestDocs(extract: Extract, docs: seq<Json>, k: nat): set<string>
    requires k <= |docs|
  {
    if k == 0 then {} else HarvestDocs(extract, docs, k - 1) + Harvest(extract, docs[k - 1])
  }

  /** What a run collects. */
  ghost function Collected(extract: Extract, site: Site): set<string> {
    HarvestDocs(extract, site.longDescriptions, |site.longDescriptions|)
  }

  function Marked(uploads: map<Id, Upload>, keys: set<string>): map<Id, Upload> {
    map id | id in uploads :: if uploads[id].key in keys then uploads[id].(referenced := true) else uploads[id]
  }

  predicate Orphaned(upload: Upload, cutoff: int) {
    !upload.referenced && upload.createdAt < cutoff
  }

  /** Unmarked, unreferenced and older than seven days. */
  function Targets(uploads: map<Id, Upload>, keys: set<string>, now: int): set<Id> {
    set id | id in uploads && uploads[id].key !in keys && Orphaned(uploads[id], now - SEVEN_DAYS_MS)
  }

  function KeysOf(uploads: map<Id, Upload>, ids: set<Id>): set<string> {
    set id | id in ids && id in uploads :: uploads[id].key
  }

  /** The ids whose object the bucket deletes. */
  function Emptied(uploads: map<Id, Upload>, ids: set<Id>, failing: set<string>): set<Id> {
    set id | id in ids && id in uploads && uploads[id].key !in failing
  }

  /** The unique index on `key`. */
  ghost predicate UniqueKeys(uploads: map<Id, Upload>) {
    forall a, b :: a in uploads && b in uploads && uploads[a].key == uploads[b].key ==> a == b
  }

  lemma TargetsAreOrphans(uploads: map<Id, Upload>, keys: set<string>, now: int)
    ensures var marked := Marked(uploads, keys);
      Targets(uploads, keys, now) == set id | id in marked && Orphaned(marked[id], now - SEVEN_DAYS_MS)
  {
  }

  class Store {
    var uploads: map<Id, Upload>
    var bucket: set<string>

    /** `findMany({ .., take: 1000 })`: any 1000 of the matching rows. */
    method SelectOrphans(cutoff: int) returns (orphans: set<Id>)
      ensures var matching := set id | id in uploads && Orphaned(uploads[id], cutoff);
        orphans <= matching && |orphans| == (if |matching| <= 1000 then |matching| else 1000)
        && (|matching| <= 1000 ==> orphans == matching)
    {
      var rest := set id | id in uploads && Orphaned(uploads[id], cutoff);
      ghost var matching := rest;
      orphans := {};
      while rest != {} && |orphans| < BATCH_SIZE
        invariant orphans + rest == matching && orphans !! rest && |orphans| <= BATCH_SIZE
        decreases rest
      {
        var id :| id in rest;
        orphans, rest := orphans + {id}, rest - {id};
      }
      if rest != {} {
        assert |matching| == |orphans| + |rest|;
      }
    }

    /** `failing` are the keys whose object deletion throws during this run, `stuck` the rows whose
        own deletion throws once the object is gone. */
    method Process(site: Site, extract: Extract, now: int, failing: set<string>, stuck: set<Id>)
        returns (removed: set<Id>, ghost orphans: set<Id>)
      modifies this
      ensures var targets := Targets(old(uploads), Collected(extract, site), now);
        orphans <= targets && |orphans| <= 1000 && (|targets| <= 1000 ==> orphans == targets)
      ensures removed == Emptied(old(uploads), orphans, failing) - stuck
      ensures uploads == Marked(old(uploads), Collected(extract, site)) - removed
      ensures bucket == old(bucket) - KeysOf(old(uploads), Emptied(old(uploads), orphans, failing))
    {
      var keys := CollectReferencedKeys(site, extract);
      uploads := Marked(uploads, keys);
      var selected := SelectOrphans(now - SEVEN_DAYS_MS);
      TargetsAreOrphans(old(uploads), keys, now);
      orphans := selected;
      removed := RemoveOrphans(selected, keys, failing, stuck);
      MarkedKeys(old(uploads), keys, orphans, failing);
    }

    method RemoveOrphans(orphans: set<Id>, keys: set<string>, failing: set<string>, stuck: set<Id>) returns (removed: set<Id>)
      requires orphans <= uploads.Keys && forall id :: id in orphans ==> uploads[id].key !in keys
      modifies this
      ensures removed == Emptied(old(uploads), orphans, failing) - stuck
      ensures uploads == old(uploads) - removed
      ensures bucket == old(bucket) - KeysOf(old(uploads), Emptied(old(uploads), orphans, failing))
    {
      removed := {};
      var todo := orphans;
      while todo != {}
        invariant todo <= orphans && removed !! todo
        invariant removed == Emptied(old(uploads), orphans - todo, failing) - stuck
        invariant uploads == old(uploads) - removed
        invariant bucket == old(bucket) - KeysOf(old(uploads), Emptied(old(uploads), orphans - todo, failing))
        decreases todo
      {
        var id :| id in todo;
        var orphan := uploads[id];
        assert orphans - (todo - {id}) == (orphans - todo) + {id};
        OneMore(old(uploads), orphans - todo, id, failing);
        if orphan.key !in keys && orphan.key !in failing {
          bucket := bucket - {orphan.key};
          if id !in stuck {
            uploads := uploads - {id};
            removed := removed + {id};
          }
        }
        todo := todo - {id};
      }
      assert orphans - todo == orphans;
    }
  }

  lemma OneMore(uploads: map<Id, Upload>, ids: set<Id>, id: Id, failing: set<string>)
    requires id in uploads
    ensures var one := if uploads[id].key in failing then {} else {id};
      && Emptied(uploads, ids + {id}, failing) == Emptied(uploads, ids, failing) + one
      && KeysOf(uploads, Emptied(uploads, ids + {id}, failing)) == KeysOf(uploads, Emptied(uploads, ids, failing)) + KeysOf(uploads, one)
    ensures KeysOf(uploads, {id}) == {uploads[id].key} && KeysOf(uploads, {}) == {}
  {
  }

  lemma MarkedKeys(uploads: map<Id, Upload>, keys: set<string>, ids: set<Id>, failing: set<string>)
    ensures Emptied(Marked(uploads, keys), ids, failing) == Emptied(uploads, ids, failing)
    ensures KeysOf(Marked(uploads, keys), Emptied(uploads, ids, failing)) == KeysOf(uploads, Emptied(uploads, ids, failing))
  {
  }

  /** Of every translation the long description is read, and nothing else. */
  method CollectReferencedKeys(site: Site, extract: Extract) returns (keys: set<string>)
    ensures keys == Collected(extract, site)
  {
    var referenced := new KeySet();
    var i := 0;
    while i < |site.longDescriptions|
      invariant i <= |site.longDescriptions|
      invariant referenced.keys == HarvestDocs(extract, site.longDescriptions, i)
    {
      WalkTipTap(site.longDescriptions[i], extract, referenced);
      i := i + 1;
    }
    keys := referenced.keys;
  }

  // ---------------------------------------------------------------- what a run takes

  ghost predicate Stored(site: Site, j: Json) {
    || j in site.longDescriptions
    || j in site.comments
    || exists notes, locale :: notes in site.releaseNotes && locale in notes && notes[locale] == j
  }

  /** Some document of any table mentions the key, under any attribute. */
  ghost predicate Mentioned(extract: Extract, site: Site, key: string) {
    exists j, path, field :: Stored(site, j) && MentionedAt(extract, j, path, field, key)
  }

  /** The site signs the key for a gallery entry when it shows the asset. */
  predicate Signed(item: GalleryItem, key: string) {
    key == item.key || (key != "" && item.displayKey == Some(key))
  }

  /** Some gallery shows the object. */
  predicate Shown(site: Site, key: string) {
    exists gallery, item :: gallery in site.galleries && item in gallery && Signed(item, key)
  }

  /** Some document mentions the key or some gallery shows it. */
  ghost predicate Needed(extract: Extract, site: Site, key: string) {
    Mentioned(extract, site, key) || Shown(site, key)
  }

  /** Some long description mentions it under `src` or `href`. */
  ghost predicate Seen(extract: Extract, site: Site, key: string) {
    exists j, path, field :: j in site.longDescriptions && field in {"src", "href"} && MentionedAt(extract, j, path, field, key)
  }

  lemma {:induction false} DocHarvested(extract: Extract, docs: seq<Json>, k: nat, i: nat, key: string)
    requires i < k <= |docs| && key in Harvest(extract, docs[i])
    ensures key in HarvestDocs(extract, docs, k)
    decreases k
  {
    if i < k - 1 {
      DocHarvested(extract, docs, k - 1, i, key);
    }
  }

  lemma {:induction false} HarvestedDoc(extract: Extract, docs: seq<Json>, k: nat, key: string) returns (i: nat)
    requires k <= |docs| && key in HarvestDocs(extract, docs, k)
    ensures i < k && key in Harvest(extract, docs[i])
    decreases k
  {
    if key in Harvest(extract, docs[k - 1]) {
      return k - 1;
    }
    i := HarvestedDoc(extract, docs, k - 1, key);
  }

  /** The collected keys are exactly those seen. */
  lemma CollectedExactly(extract: Extract, site: Site, key: string)
    ensures key in Collected(extract, site) <==> Seen(extract, site, key)
  {
    var texts := site.longDescriptions;
    if key in Collected(extract, site) {
      var i := HarvestedDoc(extract, texts, |texts|, key);
      var path := HarvestedNamed(extract, texts[i], key);
      assert texts[i] in texts;
    }
    if j, path, field :| j in texts && field in {"src", "href"} && MentionedAt(extract, j, path, field, key) {
      NamedHarvested(extract, j, path, key);
      var i :| 0 <= i < |texts| && texts[i] == j;
      DocHarvested(extract, texts, |texts|, i, key);
    }
  }

  /** A run that clears the backlog takes the object of an upload, whoever needs it, exactly if the
      upload is unmarked, older than seven days and not seen, and its deletion does not throw. */
  lemma RunTakesExactly(extract: Extract, site: Site, uploads: map<Id, Upload>, now: int, failing: set<string>, id: Id)
    requires UniqueKeys(uploads) && id in uploads
    ensures var gone := KeysOf(uploads, Emptied(uploads, Targets(uploads, Collected(extract, site), now), failing));
      uploads[id].key in gone <==>
        && !uploads[id].referenced && now - uploads[id].createdAt > 7 * 24 * 60 * 60 * 1000
        && uploads[id].key !in failing && !Seen(extract, site, uploads[id].key)
  {
    CollectedExactly(extract, site, uploads[id].key);
    var emptied := Emptied(uploads, Targets(uploads, Collected(extract, site), now), failing);
    assert uploads[id].key in KeysOf(uploads, emptied) <==> id in emptied;
  }

  /** The collector never aims at an object some document or gallery needs exactly if each needed key
      is seen. */
  lemma SafeExactly(extract: Extract, site: Site)
    ensures (forall uploads: map<Id, Upload>, now: int, id: Id :: id in Targets(uploads, Collected(extract, site), now) ==> !Needed(extract, site, uploads[id].key))
      <==> forall key :: Needed(extract, site, key) ==> Seen(extract, site, key)
  {
    var keys := Collected(extract, site);
    if forall uploads: map<Id, Upload>, now: int, id: Id :: id in Targets(uploads, keys, now) ==> !Needed(extract, site, uploads[id].key) {
      forall key | Needed(extract, site, key) ensures Seen(extract, site, key) {
        CollectedExactly(extract, site, key);
        var uploads := map["" := Upload(key, 0, false)];
        assert "" in Targets(uploads, keys, SEVEN_DAYS_MS + 1) <==> key !in keys;
        assert uploads[""].key == key;
      }
    }
    if forall key :: Needed(extract, site, key) ==> Seen(extract, site, key) {
      forall uploads: map<Id, Upload>, now: int, id: Id | id in Targets(uploads, keys, now) ensures !Needed(extract, site, uploads[id].key) {
        CollectedExactly(extract, site, uploads[id].key);
      }
    }
  }

  lemma OwnMention(extract: Extract, node: Node, field: string, key: string)
    requires key in FieldKey(extract, Obj(node.attrs), field)
    ensures MentionedAt(extract, NodeJson(node), [], field, key)
  {
    assert field in node.attrs;
    assert NodeFields(node)["attrs"] == Obj(node.attrs);
  }

  /** An image in a comment or in release notes: the Lite editor accepts and stores it unchanged,
      and the collector aims at it once a row records it that is old. */
  lemma CommentImageTaken(extract: Extract, url: string, id: Id, now: int)
    requires extract(url).Some? && extract(url).value != ""
    ensures var image := Node("image", map["src" := Str(url)], [], None, []);
      var site := Site([], [NodeJson(image)], [map["en" := NodeJson(image)]], []);
      var key := extract(url).value;
      && Conforms(LITE, image) && Sanitized(LITE, image) == image
      && Needed(extract, site, key)
      && id in Targets(map[id := Upload(key, now - SEVEN_DAYS_MS - 1, false)], Collected(extract, site), now)
  {
    var image := Node("image", map["src" := Str(url)], [], None, []);
    var site := Site([], [NodeJson(image)], [map["en" := NodeJson(image)]], []);
    OwnMention(extract, image, "src", extract(url).value);
    assert Stored(site, NodeJson(image));
    assert "src" in Allowed(LITE.nodeAttrs, "image");
  }

  /** Likewise a video's poster, in a long description. */
  lemma PosterTaken(extract: Extract, url: string, id: Id, now: int)
    requires extract(url).Some? && extract(url).value != ""
    ensures var video := Node("video", map["poster" := Str(url)], [], None, []);
      var site := Site([NodeJson(video)], [], [], []);
      var key := extract(url).value;
      && Conforms(FULL, video) && Sanitized(FULL, video) == video
      && Needed(extract, site, key)
      && id in Targets(map[id := Upload(key, now - SEVEN_DAYS_MS - 1, false)], Collected(extract, site), now)
  {
    var video := Node("video", map["poster" := Str(url)], [], None, []);
    var site := Site([NodeJson(video)], [], [], []);
    PosterNotHarvested(extract, url);
    OwnMention(extract, video, "poster", extract(url).value);
    assert Stored(site, NodeJson(video));
    assert site.longDescriptions[0] == NodeJson(video);
    assert HarvestDocs(extract, site.longDescriptions, 0) == {};
  }

  /** And a gallery entry, both the original and what is displayed for it. */
  lemma GalleryTaken(extract: Extract, item: GalleryItem, key: string, id: Id, now: int)
    requires Signed(item, key)
    ensures var site := Site([], [], [], [[item]]);
      && Needed(extract, site, key)
      && id in Targets(map[id := Upload(key, now - SEVEN_DAYS_MS - 1, false)], Collected(extract, site), now)
  {
    var site := Site([], [], [], [[item]]);
    assert site.galleries[0] == [item] && item in site.galleries[0];
  }

  // ---------------------------------------------------------------- all runs

  /** One run: what `Process` collected, selected and removed. */
  datatype GcRun = GcRun(harvested: set<string>, now: int, orphans: set<Id>, failing: set<string>, stuck: set<Id>)

  datatype Media = Media(uploads: map<Id, Upload>, bucket: set<string>)

  /** The table and the bucket over a sequence of runs; uploads may be added in between. */
  ghost predicate Runs(states: seq<Media>, runs: seq<GcRun>) {
    |states| == |runs| + 1 && forall k :: 0 <= k < |runs| ==> GcStep(states[k], runs[k], states[k + 1])
  }

  ghost predicate GcStep(media: Media, run: GcRun, next: Media) {
    var emptied := Emptied(media.uploads, run.orphans, run.failing);
    && UniqueKeys(media.uploads)
    && run.orphans <= Targets(media.uploads, run.harvested, run.now)
    && (forall id :: id in Marked(media.uploads, run.harvested) - (emptied - run.stuck) ==>
          id in next.uploads && next.uploads[id] == Marked(media.uploads, run.harvested)[id])
    && media.bucket - KeysOf(media.uploads, emptied) <= next.bucket
  }

  lemma MarkedStays(media: Media, run: GcRun, next: Media, id: Id)
    requires GcStep(media, run, next) && id in media.uploads
    requires media.uploads[id].referenced || media.uploads[id].key in run.harvested
    ensures id in next.uploads && next.uploads[id] == media.uploads[id].(referenced := true)
    ensures media.uploads[id].key in media.bucket ==> media.uploads[id].key in next.bucket
  {
    assert id in Marked(media.uploads, run.harvested) - (Emptied(media.uploads, run.orphans, run.failing) - run.stuck);
  }

  /** An upload that a run has seen keeps its row, its mark and its object through that run and
      every later one. */
  lemma {:induction false} NamedOnceKept(states: seq<Media>, runs: seq<GcRun>, k: nat, n: nat, id: Id)
    requires Runs(states, runs) && k < n <= |runs|
    requires id in states[k].uploads && states[k].uploads[id].key in runs[k].harvested
    ensures id in states[n].uploads && states[n].uploads[id] == states[k].uploads[id].(referenced := true)
    ensures states[k].uploads[id].key in states[k].bucket ==> states[k].uploads[id].key in states[n].bucket
    decreases n
  {
    if k < n - 1 {
      NamedOnceKept(states, runs, k, n - 1, id);
    }
    MarkedStays(states[n - 1], runs[n - 1], states[n], id);
  }

  /** While no row records an upload, and the code that signs uploads writes none, runs take nothing:
      the table stays empty and the bucket keeps every object. */
  lemma {:induction false} NothingRecordedNothingTaken(states: seq<Media>, runs: seq<GcRun>, n: nat)
    requires Runs(states, runs) && n <= |runs| && states[0].uploads == map[]
    requires forall k :: 0 <= k < |runs| ==> states[k + 1].uploads.Keys <= states[k].uploads.Keys
    ensures states[n].uploads == map[] && states[0].bucket <= states[n].bucket
  {
    if n > 0 {
      NothingRecordedNothingTaken(states, runs, n - 1);
      assert GcStep(states[n - 1], runs[n - 1], states[n]);
      assert Emptied(map[], runs[n - 1].orphans, runs[n - 1].failing) == {};
      assert states[n].uploads.Keys == {};
    }
  }
}
