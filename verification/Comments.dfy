/** Comment threads: the depth rule of `create`, the hop-limited query that fetches a thread and
    the in-memory reconstruction of its tree. */
module Comments {
  import opened Options
  import opened Sorting

  type Id = string

  const MAX_DEPTH := 5

  datatype Comment = Comment(assetId: Id, parentId: Option<Id>, depth: nat, deleted: bool, createdAt: int, issue: bool)
  type Table = map<Id, Comment>

  datatype Error = Forbidden | AssetNotFound | BodyRejected | ParentNotFound | DepthExceeded | CommentNotFound | RootMissing | RootNotRequested

  // ---------------------------------------------------------------- writing

  /** `bodyAllowed`: the Lite sanitizer accepts the body. */
  datatype NewComment = NewComment(assetId: Id, parentId: Option<Id>, issue: bool, bodyAllowed: bool)

  ghost function Created(assets: set<Id>, rows: Table, id: Id, dto: NewComment, now: int): Result<Table, Error> {
    if dto.assetId !in assets then Err(AssetNotFound)
    else if !dto.bodyAllowed then Err(BodyRejected)
    else match dto.parentId {
      case None => Ok(rows[id := Comment(dto.assetId, None, 0, false, now, dto.issue)])
      case Some(p) =>
        if p !in rows || rows[p].assetId != dto.assetId then Err(ParentNotFound)
        else if rows[p].depth + 1 >= MAX_DEPTH then Err(DepthExceeded)
        else Ok(rows[id := Comment(dto.assetId, Some(p), rows[p].depth + 1, false, now, false)])
    }
  }

  /** Which new comment is refused for what, and that any other leaves the rest of the table alone and
      is stored as given: below its parent, not deleted, and an issue only at the top. */
  lemma CreatedExactly(assets: set<Id>, rows: Table, id: Id, dto: NewComment, now: int)
    requires id !in rows
    ensures var r := Created(assets, rows, id, dto, now);
      var orphan := dto.parentId.Some? && (dto.parentId.value !in rows || rows[dto.parentId.value].assetId != dto.assetId);
      && (r == Err(AssetNotFound) <==> dto.assetId !in assets)
      && (r == Err(BodyRejected) <==> dto.assetId in assets && !dto.bodyAllowed)
      && (r == Err(ParentNotFound) <==> dto.assetId in assets && dto.bodyAllowed && orphan)
      && (r == Err(DepthExceeded) <==>
            dto.assetId in assets && dto.bodyAllowed && dto.parentId.Some? && !orphan && rows[dto.parentId.value].depth >= 4)
      && (r.Err? ==> r.error in {AssetNotFound, BodyRejected, ParentNotFound, DepthExceeded})
      && (r.Ok? ==>
            var c := r.value[id];
            && r.value == rows[id := c]
            && c.assetId == dto.assetId && c.parentId == dto.parentId && !c.deleted && c.createdAt == now
            && (dto.parentId.None? ==> c.depth == 0 && c.issue == dto.issue)
            && (dto.parentId.Some? ==> c.depth == rows[dto.parentId.value].depth + 1 && !c.issue))
  {
  }

  class CommentTable {
    var rows: Table

    /** `id` is the fresh id the database assigns. */
    method Create(assets: set<Id>, id: Id, dto: NewComment, now: int) returns (r: Result<Id, Error>)
      requires id !in rows
      modifies this
      ensures match Created(assets, old(rows), id, dto, now)
        case Ok(after) => r == Ok(id) && rows == after
        case Err(e) => r == Err(e) && rows == old(rows)
    {
      if dto.assetId !in assets {
        return Err(AssetNotFound);
      }
      if !dto.bodyAllowed {
        return Err(BodyRejected);
      }
      var depth := 0;
      if dto.parentId.Some? {
        var p := dto.parentId.value;
        if p !in rows || rows[p].assetId != dto.assetId {
          return Err(ParentNotFound);
        }
        depth := rows[p].depth + 1;
        if depth >= MAX_DEPTH {
          return Err(DepthExceeded);
        }
      }
      var issue := dto.parentId.None? && dto.issue;
      rows := rows[id := Comment(dto.assetId, dto.parentId, depth, false, now, issue)];
      return Ok(id);
    }

    method AdminDelete(id: Id, isAdmin: bool) returns (r: Result<Id, Error>)
      modifies this
      ensures !isAdmin ==> r == Err(Forbidden) && rows == old(rows)
      ensures isAdmin && id !in old(rows) ==> r == Err(CommentNotFound) && rows == old(rows)
      ensures isAdmin && id in old(rows) ==> r == Ok(id) && rows == Deleted(old(rows), id)
      ensures isAdmin && id in old(rows) ==> rows == old(rows)[id := old(rows)[id].(deleted := true)]
    {
      if !isAdmin {
        return Err(Forbidden);
      }
      if id !in rows {
        return Err(CommentNotFound);
      }
      rows := rows[id := rows[id].(deleted := true)];
      return Ok(id);
    }
  }

  ghost function Deleted(rows: Table, id: Id): Table
    requires id in rows
  {
    rows[id := rows[id].(deleted := true)]
  }

  /** Removing an asset cascades to its comments. */
  ghost function AssetRemoved(rows: Table, assetId: Id): Table {
    map id | id in rows && rows[id].assetId != assetId :: rows[id]
  }

  // ---------------------------------------------------------------- depth

  ghost predicate WellParented(rows: Table, id: Id)
    requires id in rows
  {
    && rows[id].depth < MAX_DEPTH
    && match rows[id].parentId {
      case None => rows[id].depth == 0
      case Some(p) => p in rows && rows[p].assetId == rows[id].assetId && rows[id].depth == rows[p].depth + 1
    }
  }

  ghost predicate Inv(rows: Table) {
    forall id :: id in rows ==> WellParented(rows, id)
  }

  datatype Op =
    | CreateOp(assets: set<Id>, id: Id, dto: NewComment, now: int)
    | DeleteOp(id: Id)   // by an admin
    | RemoveAssetOp(assetId: Id)

  ghost function Apply(rows: Table, op: Op): Table {
    match op
    case CreateOp(assets, id, dto, now) =>
      if id in rows then rows
      else (match Created(assets, rows, id, dto, now) case Ok(after) => after case Err(_) => rows)
    case DeleteOp(id) => if id in rows then Deleted(rows, id) else rows
    case RemoveAssetOp(assetId) => AssetRemoved(rows, assetId)
  }

  ghost function ApplyAll(rows: Table, ops: seq<Op>): Table
    decreases |ops|
  {
    if |ops| == 0 then rows else ApplyAll(Apply(rows, ops[0]), ops[1..])
  }

  lemma InvKept(rows: Table, op: Op)
    requires Inv(rows)
    ensures Inv(Apply(rows, op))
  {
    var after := Apply(rows, op);
    forall id | id in after ensures WellParented(after, id) {
      if id in rows {
        assert WellParented(rows, id);
      }
    }
  }

  lemma {:induction false} InvReached(rows: Table, ops: seq<Op>)
    requires Inv(rows)
    ensures Inv(ApplyAll(rows, ops))
    decreases |ops|
  {
    if |ops| > 0 {
      InvKept(rows, ops[0]);
      InvReached(Apply(rows, ops[0]), ops[1..]);
    }
  }

  /** The parents of a comment, nearest first, up to a top-level one. */
  ghost predicate Ancestors(rows: Table, id: Id, chain: seq<Id>)
    decreases |chain|
  {
    id in rows &&
    match rows[id].parentId {
      case None => |chain| == 0
      case Some(p) => |chain| > 0 && chain[0] == p && Ancestors(rows, p, chain[1..])
    }
  }

  lemma {:induction false} AncestorsExist(rows: Table, id: Id) returns (chain: seq<Id>)
    requires Inv(rows) && id in rows
    ensures Ancestors(rows, id, chain)
    decreases rows[id].depth
  {
    assert WellParented(rows, id);
    match rows[id].parentId
    case None => chain := [];
    case Some(p) =>
      var rest := AncestorsExist(rows, p);
      chain := [p] + rest;
      assert chain[1..] == rest;
  }

  lemma {:induction false} AncestorsCounted(rows: Table, id: Id, chain: seq<Id>)
    requires Inv(rows) && Ancestors(rows, id, chain)
    ensures |chain| == rows[id].depth
    decreases |chain|
  {
    assert WellParented(rows, id);
    if |chain| > 0 {
      AncestorsCounted(rows, chain[0], chain[1..]);
    }
  }

  /** In every state reached through the service, a comment's depth is the number of its ancestors
      and is below five. */
  lemma DepthIsAncestors(ops: seq<Op>, id: Id)
    requires id in ApplyAll(map[], ops)
    ensures var rows := ApplyAll(map[], ops);
      && rows[id].depth < 5
      && (exists chain :: Ancestors(rows, id, chain))
      && (forall chain :: Ancestors(rows, id, chain) ==> |chain| == rows[id].depth)
  {
    InvReached(map[], ops);
    var rows := ApplyAll(map[], ops);
    assert WellParented(rows, id);
    var chain := AncestorsExist(rows, id);
    forall chain | Ancestors(rows, id, chain) ensures |chain| == rows[id].depth {
      AncestorsCounted(rows, id, chain);
    }
  }

  // ---------------------------------------------------------------- the thread query

  predicate Live(rows: Table, id: Id) {
    id in rows && !rows[id].deleted
  }

  /** Live rows `hop` replies below the roots, every row on the way being live. */
  ghost function Hop(rows: Table, roots: set<Id>, hop: nat): set<Id>
    requires hop > 0
  {
    set id | id in rows && Live(rows, id) && rows[id].parentId.Some? &&
      rows[id].parentId.value in if hop == 1 then roots else Hop(rows, roots, hop - 1)
  }

  /** The rows of the recursive query, which stops at `MAX_DEPTH` hops. */
  ghost function Subtree(rows: Table, roots: set<Id>, hops: nat): set<Id> {
    if hops == 0 then {} else Subtree(rows, roots, hops - 1) + Hop(rows, roots, hops)
  }

  /** `id` is a live reply below `root`, at any depth, through live replies. */
  ghost predicate Below(rows: Table, root: Id, id: Id)
    requires Inv(rows)
    decreases if id in rows then rows[id].depth else 0
  {
    id in rows && !rows[id].deleted && WellParented(rows, id) && rows[id].parentId.Some? &&
    (rows[id].parentId.value == root || Below(rows, root, rows[id].parentId.value))
  }

  ghost predicate TopLevel(rows: Table, roots: set<Id>) {
    forall r :: r in roots ==> r in rows && rows[r].parentId.None?
  }

  lemma {:induction false} HopIsDepth(rows: Table, roots: set<Id>, hop: nat, id: Id)
    requires Inv(rows) && TopLevel(rows, roots) && hop > 0
    ensures id in Hop(rows, roots, hop) <==>
      id in rows && rows[id].depth == hop && exists r :: r in roots && Below(rows, r, id)
    decreases hop
  {
    if Live(rows, id) && rows[id].parentId.Some? {
      var p := rows[id].parentId.value;
      assert WellParented(rows, id) && WellParented(rows, p);
      if hop > 1 {
        HopIsDepth(rows, roots, hop - 1, p);
      }
      if p in roots {
        assert Below(rows, p, id);
      }
      forall r | r in roots ensures Below(rows, r, id) <==> p == r || Below(rows, r, p) {
      }
    }
  }

  lemma {:induction false} HopInSubtree(rows: Table, roots: set<Id>, hops: nat, hop: nat, id: Id)
    requires 0 < hop <= hops && id in Hop(rows, roots, hop)
    ensures id in Subtree(rows, roots, hops)
    decreases hops
  {
    if hop < hops {
      HopInSubtree(rows, roots, hops - 1, hop, id);
    }
  }

  lemma {:induction false} SubtreeHop(rows: Table, roots: set<Id>, hops: nat, id: Id) returns (hop: nat)
    requires id in Subtree(rows, roots, hops)
    ensures 0 < hop <= hops && id in Hop(rows, roots, hop)
    decreases hops
  {
    if id in Hop(rows, roots, hops) {
      return hops;
    }
    hop := SubtreeHop(rows, roots, hops - 1, id);
  }

  /** The hop limit loses nothing: the query returns every live reply below the roots. */
  lemma QueryIsComplete(rows: Table, roots: set<Id>, id: Id)
    requires Inv(rows) && TopLevel(rows, roots)
    ensures id in Subtree(rows, roots, MAX_DEPTH) <==> exists r :: r in roots && Below(rows, r, id)
  {
    if r :| r in roots && Below(rows, r, id) {
      assert WellParented(rows, id);
      HopIsDepth(rows, roots, rows[id].depth, id);
      HopInSubtree(rows, roots, MAX_DEPTH, rows[id].depth, id);
    }
    if id in Subtree(rows, roots, MAX_DEPTH) {
      var hop := SubtreeHop(rows, roots, MAX_DEPTH, id);
      HopIsDepth(rows, roots, hop, id);
    }
  }

  /** A row is found at one hop only, so `UNION ALL` returns it once. */
  lemma FoundOnce(rows: Table, roots: set<Id>, id: Id, hop: nat, hop': nat)
    requires Inv(rows) && TopLevel(rows, roots) && hop > 0 && hop' > 0
    requires id in Hop(rows, roots, hop) && id in Hop(rows, roots, hop')
    ensures hop == hop'
  {
    HopIsDepth(rows, roots, hop, id);
    HopIsDepth(rows, roots, hop', id);
  }

  // ---------------------------------------------------------------- rebuilding the tree

  datatype Row = Row(id: Id, parentId: Option<Id>, depth: nat, createdAt: int)
  datatype CommentNode = CommentNode(row: Row, replies: seq<CommentNode>)

  function RowOf(rows: Table, id: Id): Row
    requires id in rows
  {
    Row(id, rows[id].parentId, rows[id].depth, rows[id].createdAt)
  }

  ghost function ChildrenOf(all: seq<Row>, parent: Option<Id>): seq<Row> {
    if |all| == 0 then []
    else ChildrenOf(all[..|all| - 1], parent) + if all[|all| - 1].parentId == parent then [all[|all| - 1]] else []
  }

  function Get(m: map<Option<Id>, seq<Row>>, k: Option<Id>): seq<Row> {
    if k in m then m[k] else []
  }

  /** Every parent's entry holds exactly its rows, in order. */
  ghost predicate Grouped(all: seq<Row>, byParent: map<Option<Id>, seq<Row>>) {
    forall k {:trigger Get(byParent, k)} :: Get(byParent, k) == ChildrenOf(all, k)
  }

  method GroupByParent(all: seq<Row>) returns (byParent: map<Option<Id>, seq<Row>>)
    ensures Grouped(all, byParent)
  {
    byParent := map[];
    for i := 0 to |all|
      invariant forall k :: Get(byParent, k) == ChildrenOf(all[..i], k)
    {
      var row := all[i];
      assert all[..i + 1][..i] == all[..i];
      if row.parentId !in byParent {
        byParent := byParent[row.parentId := []];
      }
      byParent := byParent[row.parentId := byParent[row.parentId] + [row]];
    }
    assert all[..|all|] == all;
  }

  ghost predicate Listed(byParent: map<Option<Id>, seq<Row>>, row: Row) {
    exists k :: k in byParent && row in byParent[k]
  }

  ghost predicate OneDeeper(byParent: map<Option<Id>, seq<Row>>, row: Row) {
    forall c :: c in Get(byParent, Some(row.id)) ==> c.depth == row.depth + 1
  }

  /** Replies lie one level deeper, above the depth limit: what makes the recursion end. */
  ghost predicate Layered(byParent: map<Option<Id>, seq<Row>>) {
    forall row :: Listed(byParent, row) ==> row.depth < MAX_DEPTH && OneDeeper(byParent, row)
  }

  lemma ChildrenListed(byParent: map<Option<Id>, seq<Row>>, k: Option<Id>)
    ensures forall c :: c in Get(byParent, k) ==> Listed(byParent, c)
  {
  }

  function BuildNode(byParent: map<Option<Id>, seq<Row>>, row: Row): CommentNode
    requires Layered(byParent) && row.depth < MAX_DEPTH && OneDeeper(byParent, row)
    decreases MAX_DEPTH - row.depth, 0
  {
    ChildrenListed(byParent, Some(row.id));
    CommentNode(row, BuildNodes(byParent, Get(byParent, Some(row.id)), row.depth + 1))
  }

  function BuildNodes(byParent: map<Option<Id>, seq<Row>>, rows: seq<Row>, depth: nat): (r: seq<CommentNode>)
    requires Layered(byParent)
    requires forall c :: c in rows ==> c.depth == depth && Listed(byParent, c)
    ensures |r| == |rows| && forall i :: 0 <= i < |r| ==> r[i].row == rows[i]
    decreases MAX_DEPTH - depth, |rows| + 1
  {
    if |rows| == 0 then []
    else
      assert rows[0] in rows;
      [BuildNode(byParent, rows[0])] + BuildNodes(byParent, rows[1..], depth)
  }

  /** `node` carries, in list order, the rows of `all` whose parent it is, and so on below. */
  ghost predicate IsTree(all: seq<Row>, node: CommentNode)
    decreases node
  {
    var children := ChildrenOf(all, Some(node.row.id));
    && |node.replies| == |children|
    && (forall i :: 0 <= i < |children| ==> node.replies[i].row == children[i])
    && (forall n :: n in node.replies ==> IsTree(all, n))
  }

  ghost predicate LayeredRows(all: seq<Row>) {
    forall row :: row in all ==>
      row.depth < MAX_DEPTH && forall c :: c in all && c.parentId == Some(row.id) ==> c.depth == row.depth + 1
  }

  lemma {:induction false} ChildrenMembers(all: seq<Row>, k: Option<Id>, row: Row)
    ensures row in ChildrenOf(all, k) <==> row in all && row.parentId == k
  {
    if |all| > 0 {
      ChildrenMembers(all[..|all| - 1], k, row);
      assert all == all[..|all| - 1] + [all[|all| - 1]];
    }
  }

  lemma {:induction false} BuildIsTree(all: seq<Row>, byParent: map<Option<Id>, seq<Row>>, row: Row)
    requires Layered(byParent) && row.depth < MAX_DEPTH && OneDeeper(byParent, row)
    requires Grouped(all, byParent)
    ensures IsTree(all, BuildNode(byParent, row)) && BuildNode(byParent, row).row == row
    decreases MAX_DEPTH - row.depth, 0
  {
    var children := Get(byParent, Some(row.id));
    ChildrenListed(byParent, Some(row.id));
    BuildAreTrees(all, byParent, children, row.depth + 1);
    NodeBuilt(all, byParent, row, children, BuildNodes(byParent, children, row.depth + 1));
  }

  lemma NodeBuilt(all: seq<Row>, byParent: map<Option<Id>, seq<Row>>, row: Row, children: seq<Row>, replies: seq<CommentNode>)
    requires Layered(byParent) && row.depth < MAX_DEPTH && OneDeeper(byParent, row)
    requires children == Get(byParent, Some(row.id)) == ChildrenOf(all, Some(row.id)) && forall c :: c in children ==> Listed(byParent, c)
    requires replies == BuildNodes(byParent, children, row.depth + 1) && forall n :: n in replies ==> IsTree(all, n)
    ensures IsTree(all, BuildNode(byParent, row)) && BuildNode(byParent, row).row == row
  {
    NodeIsTree(all, row, children, replies);
    BuildUnfolds(byParent, row, children);
  }

  lemma BuildUnfolds(byParent: map<Option<Id>, seq<Row>>, row: Row, children: seq<Row>)
    requires Layered(byParent) && row.depth < MAX_DEPTH && OneDeeper(byParent, row)
    requires children == Get(byParent, Some(row.id)) && forall c :: c in children ==> Listed(byParent, c)
    ensures BuildNode(byParent, row) == CommentNode(row, BuildNodes(byParent, children, row.depth + 1))
  {
  }

  lemma NodeIsTree(all: seq<Row>, row: Row, children: seq<Row>, replies: seq<CommentNode>)
    requires children == ChildrenOf(all, Some(row.id)) && |replies| == |children|
    requires forall i :: 0 <= i < |replies| ==> replies[i].row == children[i]
    requires forall n :: n in replies ==> IsTree(all, n)
    ensures IsTree(all, CommentNode(row, replies))
  {
  }

  lemma {:induction false} BuildAreTrees(all: seq<Row>, byParent: map<Option<Id>, seq<Row>>, rows: seq<Row>, depth: nat)
    requires Layered(byParent)
    requires forall c :: c in rows ==> c.depth == depth && Listed(byParent, c)
    requires Grouped(all, byParent)
    ensures forall n :: n in BuildNodes(byParent, rows, depth) ==> IsTree(all, n)
    decreases MAX_DEPTH - depth, |rows| + 1
  {
    if |rows| > 0 {
      assert rows[0] in rows;
      BuildIsTree(all, byParent, rows[0]);
      BuildAreTrees(all, byParent, rows[1..], depth);
    }
  }

  lemma GroupsLayered(all: seq<Row>, byParent: map<Option<Id>, seq<Row>>)
    requires LayeredRows(all) && Grouped(all, byParent)
    ensures Layered(byParent)
    ensures forall row :: row in all ==> OneDeeper(byParent, row)
  {
    forall row | row in all ensures OneDeeper(byParent, row) {
      forall c | c in Get(byParent, Some(row.id)) ensures c.depth == row.depth + 1 {
        ChildrenMembers(all, Some(row.id), c);
      }
    }
    forall row | Listed(byParent, row) ensures row in all {
      var k :| k in byParent && row in byParent[k];
      assert row in Get(byParent, k);
      ChildrenMembers(all, k, row);
    }
  }

  method ToTree(rootId: Id, all: seq<Row>, topIds: set<Id>) returns (r: Result<CommentNode, Error>)
    requires LayeredRows(all)
    ensures (exists row :: row in all && row.id == rootId) && rootId in topIds ==>
      r.Ok? && IsTree(all, r.value) && r.value.row in all && r.value.row.id == rootId
    ensures (forall row :: row in all ==> row.id != rootId) ==> r == Err(RootMissing)
    ensures (exists row :: row in all && row.id == rootId) && rootId !in topIds ==> r == Err(RootNotRequested)
  {
    var byParent := GroupByParent(all);
    var i := 0;
    while i < |all| && all[i].id != rootId
      invariant i <= |all| && forall j :: 0 <= j < i ==> all[j].id != rootId
    {
      i := i + 1;
    }
    if i == |all| {
      return Err(RootMissing);
    }
    assert all[i] in all;
    if rootId !in topIds {
      return Err(RootNotRequested);
    }
    GroupsLayered(all, byParent);
    BuildIsTree(all, byParent, all[i]);
    return Ok(BuildNode(byParent, all[i]));
  }

  // ---------------------------------------------------------------- what the tree holds

  /** The query's rows: each found id once, oldest first. */
  ghost predicate Fetched(rows: Table, roots: set<Id>, subtree: seq<Row>) {
    && Distinct(subtree)
    && (forall row :: row in subtree ==> row.id in Subtree(rows, roots, MAX_DEPTH) && row.id in rows && row == RowOf(rows, row.id))
    && (forall id :: id in Subtree(rows, roots, MAX_DEPTH) && id in rows ==> RowOf(rows, id) in subtree)
    && (forall i, j :: 0 <= i < j < |subtree| ==> subtree[i].createdAt <= subtree[j].createdAt)
  }

  ghost function Count(node: CommentNode, id: Id): nat
    decreases node, |node.replies| + 1
  {
    (if node.row.id == id then 1 else 0) + CountReplies(node, |node.replies|, id)
  }

  ghost function CountReplies(node: CommentNode, k: nat, id: Id): nat
    requires k <= |node.replies|
    decreases node, k
  {
    if k == 0 then 0 else CountReplies(node, k - 1, id) + Count(node.replies[k - 1], id)
  }

  ghost predicate OldestFirst(node: CommentNode)
    decreases node
  {
    && (forall i, j :: 0 <= i < j < |node.replies| ==> node.replies[i].row.createdAt <= node.replies[j].row.createdAt)
    && (forall n :: n in node.replies ==> n.row.parentId == Some(node.row.id) && OldestFirst(n))
  }

  lemma {:induction false} BelowDeeper(rows: Table, a: Id, x: Id)
    requires Inv(rows) && a in rows && Below(rows, a, x)
    ensures rows[x].depth > rows[a].depth
    decreases rows[x].depth
  {
    var p := rows[x].parentId.value;
    assert WellParented(rows, x);
    if p != a {
      BelowDeeper(rows, a, p);
    }
  }

  /** The reply to `a` through which `x` hangs below `a`. */
  ghost function Toward(rows: Table, a: Id, x: Id): Id
    requires Inv(rows) && Below(rows, a, x)
    decreases rows[x].depth
  {
    if rows[x].parentId.value == a then x else Toward(rows, a, rows[x].parentId.value)
  }

  ghost predicate LiveReply(rows: Table, a: Id, c: Id) {
    c in rows && !rows[c].deleted && rows[c].parentId == Some(a)
  }

  lemma {:induction false} TowardIsReply(rows: Table, a: Id, x: Id)
    requires Inv(rows) && Below(rows, a, x)
    ensures var c := Toward(rows, a, x); LiveReply(rows, a, c) && (x == c || Below(rows, c, x))
    decreases rows[x].depth
  {
    var p := rows[x].parentId.value;
    if p != a {
      TowardIsReply(rows, a, p);
    }
  }

  lemma {:induction false} TowardUnique(rows: Table, a: Id, c: Id, x: Id)
    requires Inv(rows) && a in rows && LiveReply(rows, a, c) && (x == c || Below(rows, c, x))
    ensures Below(rows, a, x) && Toward(rows, a, x) == c
    decreases if x in rows then rows[x].depth else 0
  {
    assert WellParented(rows, c);
    if x != c {
      var p := rows[x].parentId.value;
      assert WellParented(rows, x);
      TowardUnique(rows, a, c, p);
      if p == a {
        BelowDeeper(rows, c, x);
      }
    }
  }

  lemma {:induction false} ChildrenInOrder(all: seq<Row>, k: Option<Id>)
    requires Distinct(all)
    requires forall i, j :: 0 <= i < j < |all| && all[i].parentId == k && all[j].parentId == k ==> all[i].createdAt <= all[j].createdAt
    ensures Distinct(ChildrenOf(all, k))
    ensures forall i, j :: 0 <= i < j < |ChildrenOf(all, k)| ==> ChildrenOf(all, k)[i].createdAt <= ChildrenOf(all, k)[j].createdAt
  {
    if |all| > 0 {
      var init, last := all[..|all| - 1], all[|all| - 1];
      ChildrenInOrder(init, k);
      var earlier := ChildrenOf(init, k);
      forall i | 0 <= i < |earlier| && last.parentId == k ensures earlier[i] != last && earlier[i].createdAt <= last.createdAt {
        ChildrenMembers(init, k, earlier[i]);
        var j :| 0 <= j < |init| && init[j] == earlier[i];
      }
    }
  }

  /** What is handed to `toTree`: the top row, then the thread's rows. */
  ghost function AllRows(rows: Table, root: Id, subtree: seq<Row>): seq<Row>
    requires root in rows
  {
    [RowOf(rows, root)] + subtree
  }

  ghost predicate InThread(rows: Table, root: Id, id: Id)
    requires Inv(rows)
  {
    id == root || Below(rows, root, id)
  }

  ghost predicate Thread(rows: Table, roots: set<Id>, root: Id, subtree: seq<Row>) {
    Inv(rows) && TopLevel(rows, roots) && root in roots && Fetched(rows, roots, subtree)
  }

  lemma MemberRow(rows: Table, roots: set<Id>, root: Id, subtree: seq<Row>, a: Id, row: Row)
    requires Thread(rows, roots, root, subtree) && InThread(rows, root, a) && row.parentId == Some(a)
    ensures row in AllRows(rows, root, subtree) <==> Live(rows, row.id) && row == RowOf(rows, row.id)
  {
    QueryIsComplete(rows, roots, row.id);
    if Live(rows, row.id) && row == RowOf(rows, row.id) {
      assert WellParented(rows, row.id);
      assert Below(rows, root, row.id);
    }
    if row in subtree {
      var r :| r in roots && Below(rows, r, row.id);
    }
  }

  /** The rows show what the table holds. */
  ghost predicate FromTable(rows: Table, node: CommentNode)
    decreases node
  {
    && node.row.id in rows
    && node.row.parentId == rows[node.row.id].parentId && node.row.depth == rows[node.row.id].depth
    && node.row.createdAt == rows[node.row.id].createdAt
    && (forall n :: n in node.replies ==> FromTable(rows, n))
  }

  lemma RootNotFetched(rows: Table, roots: set<Id>, root: Id, subtree: seq<Row>)
    requires Thread(rows, roots, root, subtree)
    ensures RowOf(rows, root) !in subtree
  {
    QueryIsComplete(rows, roots, root);
  }

  /** A thread member's children in the fetched rows are its live replies. */
  lemma ThreadChildren(rows: Table, roots: set<Id>, root: Id, subtree: seq<Row>, a: Id)
    requires Thread(rows, roots, root, subtree) && InThread(rows, root, a)
    ensures var cs := ChildrenOf(AllRows(rows, root, subtree), Some(a));
      && (forall c :: c in cs <==> LiveReply(rows, a, c.id) && c == RowOf(rows, c.id))
      && Distinct(cs) && forall i, j :: 0 <= i < j < |cs| ==> cs[i].createdAt <= cs[j].createdAt
  {
    var all := AllRows(rows, root, subtree);
    forall row ensures row in ChildrenOf(all, Some(a)) <==> LiveReply(rows, a, row.id) && row == RowOf(rows, row.id) {
      ChildrenMembers(all, Some(a), row);
      if row.parentId == Some(a) {
        MemberRow(rows, roots, root, subtree, a, row);
      }
    }
    RootNotFetched(rows, roots, root, subtree);
    ChildrenInOrder(all, Some(a));
  }

  /** Counting `x` among the first `k` replies of a node: at most one of them leads to it. */
  lemma {:induction false} RepliesCount(rows: Table, node: CommentNode, k: nat, x: Id)
    requires Inv(rows) && node.row.id in rows && k <= |node.replies|
    requires forall i, j :: 0 <= i < j < |node.replies| ==> node.replies[i].row.id != node.replies[j].row.id
    requires forall i :: 0 <= i < k ==>
      var c := node.replies[i].row.id;
      LiveReply(rows, node.row.id, c) && Count(node.replies[i], x) == if x == c || Below(rows, c, x) then 1 else 0
    ensures CountReplies(node, k, x) ==
      if Below(rows, node.row.id, x) && exists i :: 0 <= i < k && node.replies[i].row.id == Toward(rows, node.row.id, x) then 1 else 0
    decreases k
  {
    if k > 0 {
      RepliesCount(rows, node, k - 1, x);
      var c := node.replies[k - 1].row.id;
      if x == c || Below(rows, c, x) {
        TowardUnique(rows, node.row.id, c, x);
      } else if Below(rows, node.row.id, x) {
        TowardIsReply(rows, node.row.id, x);
      }
    }
  }

  /** A node of a thread's tree. */
  ghost predicate ThreadNode(rows: Table, roots: set<Id>, root: Id, subtree: seq<Row>, node: CommentNode) {
    && Thread(rows, roots, root, subtree) && IsTree(AllRows(rows, root, subtree), node)
    && node.row.id in rows && InThread(rows, root, node.row.id)
  }

  lemma ThreadReply(rows: Table, roots: set<Id>, root: Id, subtree: seq<Row>, node: CommentNode, i: nat)
    requires ThreadNode(rows, roots, root, subtree, node) && i < |node.replies|
    ensures var n := node.replies[i];
      ThreadNode(rows, roots, root, subtree, n) && LiveReply(rows, node.row.id, n.row.id) && n.row.parentId == Some(node.row.id)
  {
    var a := node.row.id;
    ThreadChildren(rows, roots, root, subtree, a);
    var cs := ChildrenOf(AllRows(rows, root, subtree), Some(a));
    assert node.replies[i] in node.replies && node.replies[i].row == cs[i] && cs[i] in cs;
    assert WellParented(rows, cs[i].id);
  }

  lemma RepliesInOrder(rows: Table, roots: set<Id>, root: Id, subtree: seq<Row>, node: CommentNode, i: nat, j: nat)
    requires ThreadNode(rows, roots, root, subtree, node) && i < j < |node.replies|
    ensures node.replies[i].row.createdAt <= node.replies[j].row.createdAt
    ensures node.replies[i].row.id != node.replies[j].row.id
  {
    ThreadChildren(rows, roots, root, subtree, node.row.id);
    var cs := ChildrenOf(AllRows(rows, root, subtree), Some(node.row.id));
    assert node.replies[i].row == cs[i] && node.replies[j].row == cs[j];
    assert cs[i] in cs && cs[j] in cs;
  }

  lemma TowardListed(rows: Table, roots: set<Id>, root: Id, subtree: seq<Row>, node: CommentNode, x: Id) returns (i: nat)
    requires ThreadNode(rows, roots, root, subtree, node) && Below(rows, node.row.id, x)
    ensures i < |node.replies| && node.replies[i].row.id == Toward(rows, node.row.id, x)
  {
    var a := node.row.id;
    TowardIsReply(rows, a, x);
    ThreadChildren(rows, roots, root, subtree, a);
    var cs := ChildrenOf(AllRows(rows, root, subtree), Some(a));
    var c := RowOf(rows, Toward(rows, a, x));
    assert c in cs;
    i :| 0 <= i < |cs| && cs[i] == c;
    assert node.replies[i].row == cs[i];
  }

  /** The rebuilt tree holds each live reply reachable through live replies exactly once (and
      nothing else), each under its own parent, siblings oldest first. */
  lemma {:induction false} TreeIsThread(rows: Table, roots: set<Id>, root: Id, subtree: seq<Row>, node: CommentNode)
    requires ThreadNode(rows, roots, root, subtree, node)
    ensures forall x :: Count(node, x) == if x == node.row.id || Below(rows, node.row.id, x) then 1 else 0
    ensures OldestFirst(node)
  {
    ThreadInOrder(rows, roots, root, subtree, node);
    forall x ensures Count(node, x) == if x == node.row.id || Below(rows, node.row.id, x) then 1 else 0 {
      ThreadCount(rows, roots, root, subtree, node, x);
    }
  }

  lemma {:induction false} ThreadInOrder(rows: Table, roots: set<Id>, root: Id, subtree: seq<Row>, node: CommentNode)
    requires ThreadNode(rows, roots, root, subtree, node)
    ensures OldestFirst(node)
    decreases node
  {
    forall i, j | 0 <= i < j < |node.replies| ensures node.replies[i].row.createdAt <= node.replies[j].row.createdAt {
      RepliesInOrder(rows, roots, root, subtree, node, i, j);
    }
    forall n | n in node.replies ensures n.row.parentId == Some(node.row.id) && OldestFirst(n) {
      var i :| 0 <= i < |node.replies| && node.replies[i] == n;
      ThreadReply(rows, roots, root, subtree, node, i);
      ThreadInOrder(rows, roots, root, subtree, node.replies[i]);
    }
  }

  lemma {:induction false} ThreadCount(rows: Table, roots: set<Id>, root: Id, subtree: seq<Row>, node: CommentNode, x: Id)
    requires ThreadNode(rows, roots, root, subtree, node)
    ensures Count(node, x) == if x == node.row.id || Below(rows, node.row.id, x) then 1 else 0
    decreases node
  {
    var a := node.row.id;
    forall i | 0 <= i < |node.replies|
      ensures LiveReply(rows, a, node.replies[i].row.id)
      ensures Count(node.replies[i], x) == if x == node.replies[i].row.id || Below(rows, node.replies[i].row.id, x) then 1 else 0
    {
      ThreadReply(rows, roots, root, subtree, node, i);
      ThreadCount(rows, roots, root, subtree, node.replies[i], x);
    }
    forall i, j | 0 <= i < j < |node.replies| ensures node.replies[i].row.id != node.replies[j].row.id {
      RepliesInOrder(rows, roots, root, subtree, node, i, j);
    }
    RepliesCount(rows, node, |node.replies|, x);
    if Below(rows, a, x) {
      BelowDeeper(rows, a, x);
      var i := TowardListed(rows, roots, root, subtree, node, x);
    }
  }

  /** The rows handed to `toTree` always meet what its recursion needs. */
  lemma ThreadLayered(rows: Table, roots: set<Id>, root: Id, subtree: seq<Row>)
    requires Thread(rows, roots, root, subtree)
    ensures LayeredRows(AllRows(rows, root, subtree))
  {
    var all := AllRows(rows, root, subtree);
    forall row | row in all
      ensures row.depth < MAX_DEPTH && forall c :: c in all && c.parentId == Some(row.id) ==> c.depth == row.depth + 1
    {
      assert row.id in rows && WellParented(rows, row.id);
      forall c | c in all && c.parentId == Some(row.id) ensures c.depth == row.depth + 1 {
        assert WellParented(rows, c.id);
      }
    }
  }

  // ---------------------------------------------------------------- a page of threads

  /** The node is the whole thread of its row: each live reply below it reachable through live
      replies exactly once and nothing else, under its own parent, siblings oldest first. */
  ghost predicate IsThread(rows: Table, node: CommentNode)
    requires Inv(rows)
  {
    && FromTable(rows, node) && OldestFirst(node)
    && forall x :: Count(node, x) == if x == node.row.id || Below(rows, node.row.id, x) then 1 else 0
  }

  ghost function Ids(tops: seq<Row>): set<Id> {
    set row | row in tops :: row.id
  }

  lemma {:induction false} Reachable(ops: seq<Op>)
    ensures Inv(ApplyAll(map[], ops))
  {
    InvReached(map[], ops);
  }

  lemma {:induction false} ThreadFromTable(rows: Table, roots: set<Id>, root: Id, subtree: seq<Row>, node: CommentNode)
    requires ThreadNode(rows, roots, root, subtree, node) && node.row == RowOf(rows, node.row.id)
    ensures FromTable(rows, node)
    decreases node
  {
    var cs := ChildrenOf(AllRows(rows, root, subtree), Some(node.row.id));
    ThreadChildren(rows, roots, root, subtree, node.row.id);
    forall n | n in node.replies ensures FromTable(rows, n) {
      var i :| 0 <= i < |node.replies| && node.replies[i] == n;
      ThreadReply(rows, roots, root, subtree, node, i);
      assert node.replies[i].row == cs[i] && cs[i] in cs;
      ThreadFromTable(rows, roots, root, subtree, node.replies[i]);
    }
  }

  lemma TreeOfTop(rows: Table, roots: set<Id>, top: Row, subtree: seq<Row>, node: CommentNode)
    requires Thread(rows, roots, top.id, subtree) && top == RowOf(rows, top.id)
    requires IsTree(AllRows(rows, top.id, subtree), node) && node.row in AllRows(rows, top.id, subtree) && node.row.id == top.id
    ensures node.row == top && IsThread(rows, node)
  {
    TreeIsThread(rows, roots, top.id, subtree, node);
    ThreadFromTable(rows, roots, top.id, subtree, node);
  }

  /** In any reachable state the listing of a page of top-level rows is the whole thread of each, in
      their order; `subtree` is what the hop-limited query returned for all of them. */
  method ListThreads(tops: seq<Row>, subtree: seq<Row>, ghost ops: seq<Op>, ghost rows: Table) returns (items: seq<CommentNode>)
    requires rows == ApplyAll(map[], ops)
    requires TopLevel(rows, Ids(tops)) && Fetched(rows, Ids(tops), subtree)
    requires forall top :: top in tops ==> top.id in rows && top == RowOf(rows, top.id)
    ensures Inv(rows) && |items| == |tops|
    ensures forall i :: 0 <= i < |tops| ==> items[i].row == tops[i] && IsThread(rows, items[i])
  {
    Reachable(ops);
    items := [];
    var topIds := set row | row in tops :: row.id;
    for i := 0 to |tops|
      invariant |items| == i
      invariant forall j :: 0 <= j < i ==> items[j].row == tops[j] && IsThread(rows, items[j])
    {
      var top := tops[i];
      var all := [top] + subtree;
      assert top in tops && top.id in Ids(tops);
      assert all == AllRows(rows, top.id, subtree) && top in all;
      ThreadLayered(rows, Ids(tops), top.id, subtree);
      var r := ToTree(top.id, all, topIds);
      TreeOfTop(rows, Ids(tops), top, subtree, r.value);
      items := items + [r.value];
    }
  }
}
