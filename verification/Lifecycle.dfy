/** The asset lifecycle written by the owner's service and the moderation service, and the daily
    purge that reads the clock they share. Times are milliseconds; each call is one step. */
module Lifecycle {
  import opened Options

  type Id = string

  const DAY_MS := 86_400_000

  datatype Status = Draft | Published | Archived | Deleted

  datatype Row = Row(ownerId: Id, status: Status, publishedAt: Option<int>, archivedAt: Option<int>)

  type Rows = map<Id, Row>

  datatype Requester = Requester(id: Id, isAdmin: bool)

  datatype Error = AssetNotFound | NotOwner | PublishBlocked | ReasonRequired | NotArchived | StorageFailed

  /** White space and line ends, the characters `String.prototype.trim` takes off: sections 12.2 and
      12.3 of ECMA-262. */
  const WHITE_SPACE: string :=
    "\t\U{000B}\U{000C} \U{00A0}\U{1680}\U{2000}\U{2001}\U{2002}\U{2003}\U{2004}\U{2005}\U{2006}\U{2007}\U{2008}\U{2009}\U{200A}\U{202F}\U{205F}\U{3000}\U{FEFF}"
  const LINE_ENDS: string := "\n\r\U{2028}\U{2029}"

  predicate TakenOff(c: char) {
    c in WHITE_SPACE || c in LINE_ENDS
  }

  /** The string without such characters at either end. */
  function Trimmed(s: string): string {
    if s != "" && TakenOff(s[0]) then Trimmed(s[1..])
    else if s != "" && TakenOff(s[|s| - 1]) then Trimmed(s[..|s| - 1])
    else s
  }

  predicate White(c: char) {
    var n := c as int;
    || n == 32 || 9 <= n <= 13 || n == 0xA0 || n == 0x1680 || 0x2000 <= n <= 0x200A
    || n == 0x2028 || n == 0x2029 || n == 0x202F || n == 0x205F || n == 0x3000 || n == 0xFEFF
  }

  /** `trim` leaves nothing. */
  predicate Blank(reason: string) {
    forall c :: c in reason ==> White(c)
  }

  lemma Whites(c: char)
    ensures White(c) <==> TakenOff(c)
  {
  }

  lemma BlankParts(s: string)
    requires s != ""
    ensures Blank(s) <==> White(s[0]) && Blank(s[1..])
    ensures Blank(s) <==> Blank(s[..|s| - 1]) && White(s[|s| - 1])
  {
    assert s == [s[0]] + s[1..] && s == s[..|s| - 1] + [s[|s| - 1]];
  }

  lemma {:induction false} TrimmedBlank(s: string)
    ensures Trimmed(s) == "" <==> Blank(s)
    decreases |s|
  {
    if s != "" {
      BlankParts(s);
      Whites(s[0]);
      Whites(s[|s| - 1]);
      if White(s[0]) {
        TrimmedBlank(s[1..]);
      } else if White(s[|s| - 1]) {
        TrimmedBlank(s[..|s| - 1]);
      }
    }
  }

  predicate CanEdit(row: Row, requester: Requester) {
    row.ownerId == requester.id || requester.isAdmin
  }

  // ---------------------------------------------------------------- the state machine

  datatype Op =
    | Create(id: Id, ownerId: Id)
    | Publish(id: Id, requester: Requester, hardErrors: nat)
    | Archive(id: Id, requester: Requester)
    | Restore(id: Id, requester: Requester)
    | SoftDelete(id: Id, requester: Requester)
    | AdminArchive(id: Id, reason: string)
    | AdminRestore(id: Id)
    | AdminSoftDelete(id: Id, reason: string)
    | ForceDelete(id: Id, kept: bool) // kept: removing its objects throws first
    | Purge(days: nat, failing: set<Id>)

  datatype Event = Event(op: Op, now: int)

  predicate Dormant(row: Row) {
    row.status == Archived || row.status == Deleted
  }

  /** The purge's `where`. */
  predicate Selected(row: Row, cutoff: int) {
    Dormant(row) && row.archivedAt.Some? && row.archivedAt.value <= cutoff
  }

  /** The first check of a call that fails. */
  function Refusal(rows: Rows, op: Op): Option<Error> {
    match op
    case Create(_, _) => None
    case Purge(_, _) => None
    case Publish(id, requester, hardErrors) =>
      if id !in rows then Some(AssetNotFound)
      else if !CanEdit(rows[id], requester) then Some(NotOwner)
      else if hardErrors > 0 then Some(PublishBlocked) else None
    case Restore(id, requester) =>
      if id !in rows then Some(AssetNotFound)
      else if !CanEdit(rows[id], requester) then Some(NotOwner)
      else if !Dormant(rows[id]) then Some(NotArchived) else None
    case Archive(id, requester) =>
      if id !in rows then Some(AssetNotFound) else if !CanEdit(rows[id], requester) then Some(NotOwner) else None
    case SoftDelete(id, requester) =>
      if id !in rows then Some(AssetNotFound) else if !CanEdit(rows[id], requester) then Some(NotOwner) else None
    case AdminArchive(id, reason) =>
      if Blank(reason) then Some(ReasonRequired) else if id !in rows then Some(AssetNotFound) else None
    case AdminSoftDelete(id, reason) =>
      if Blank(reason) then Some(ReasonRequired) else if id !in rows then Some(AssetNotFound) else None
    case AdminRestore(id) =>
      if id !in rows then Some(AssetNotFound) else if !Dormant(rows[id]) then Some(NotArchived) else None
    case ForceDelete(id, kept) =>
      if id !in rows then Some(AssetNotFound) else if kept then Some(StorageFailed) else None
  }

  function Purged(rows: Rows, now: int, days: nat, failing: set<Id>): set<Id> {
    set id | id in rows && id !in failing && Selected(rows[id], now - days * DAY_MS)
  }

  function Apply(rows: Rows, e: Event): Rows {
    if Refusal(rows, e.op).Some? then rows else
    match e.op
    case Create(id, ownerId) => rows[id := Row(ownerId, Draft, None, None)]
    case Publish(id, _, _) => rows[id := rows[id].(status := Published, publishedAt := Some(e.now))]
    case Archive(id, _) => rows[id := rows[id].(status := Archived, archivedAt := Some(e.now))]
    case AdminArchive(id, _) => rows[id := rows[id].(status := Archived, archivedAt := Some(e.now))]
    case SoftDelete(id, _) => rows[id := rows[id].(status := Deleted, archivedAt := Some(e.now))]
    case AdminSoftDelete(id, _) => rows[id := rows[id].(status := Deleted, archivedAt := Some(e.now))]
    case Restore(id, _) => rows[id := Restored(rows[id], e.now)]
    case AdminRestore(id) => rows[id := Restored(rows[id], e.now)]
    case ForceDelete(id, _) => rows - {id}
    case Purge(days, failing) => rows - Purged(rows, e.now, days, failing)
  }

  function Restored(row: Row, now: int): Row {
    row.(status := Published, archivedAt := None, publishedAt := Some(row.publishedAt.GetOr(now)))
  }

  /** Which call is refused for what: an owner's call on no asset, by somebody who is neither its
      owner nor an admin, on checklist errors or, for a restore, on an asset that is not shelved; a
      moderator's call for want of a reason or of the asset. */
  lemma RefusedExactly(rows: Rows, op: Op)
    ensures var r := Refusal(rows, op);
      match op
      case Create(_, _) => r == None
      case Purge(_, _) => r == None
      case Publish(id, who, hardErrors) =>
        && (r == Some(AssetNotFound) <==> id !in rows)
        && (r == Some(NotOwner) <==> id in rows && rows[id].ownerId != who.id && !who.isAdmin)
        && (r == Some(PublishBlocked) <==> id in rows && (rows[id].ownerId == who.id || who.isAdmin) && hardErrors > 0)
        && (r == None <==> id in rows && (rows[id].ownerId == who.id || who.isAdmin) && hardErrors == 0)
      case Archive(id, who) =>
        && (r == Some(AssetNotFound) <==> id !in rows)
        && (r == Some(NotOwner) <==> id in rows && rows[id].ownerId != who.id && !who.isAdmin)
        && (r == None <==> id in rows && (rows[id].ownerId == who.id || who.isAdmin))
      case SoftDelete(id, who) =>
        && (r == Some(AssetNotFound) <==> id !in rows)
        && (r == Some(NotOwner) <==> id in rows && rows[id].ownerId != who.id && !who.isAdmin)
        && (r == None <==> id in rows && (rows[id].ownerId == who.id || who.isAdmin))
      case Restore(id, who) =>
        && (r == Some(AssetNotFound) <==> id !in rows)
        && (r == Some(NotOwner) <==> id in rows && rows[id].ownerId != who.id && !who.isAdmin)
        && (r == Some(NotArchived) <==>
              id in rows && (rows[id].ownerId == who.id || who.isAdmin) && rows[id].status in {Draft, Published})
        && (r == None <==>
              id in rows && (rows[id].ownerId == who.id || who.isAdmin) && rows[id].status in {Archived, Deleted})
      case AdminArchive(id, reason) =>
        && (r == Some(ReasonRequired) <==> Trimmed(reason) == "")
        && (r == Some(AssetNotFound) <==> Trimmed(reason) != "" && id !in rows)
        && (r == None <==> Trimmed(reason) != "" && id in rows)
      case AdminSoftDelete(id, reason) =>
        && (r == Some(ReasonRequired) <==> Trimmed(reason) == "")
        && (r == Some(AssetNotFound) <==> Trimmed(reason) != "" && id !in rows)
        && (r == None <==> Trimmed(reason) != "" && id in rows)
      case AdminRestore(id) =>
        && (r == Some(AssetNotFound) <==> id !in rows)
        && (r == Some(NotArchived) <==> id in rows && rows[id].status in {Draft, Published})
        && (r == None <==> id in rows && rows[id].status in {Archived, Deleted})
      case ForceDelete(id, kept) =>
        && (r == Some(AssetNotFound) <==> id !in rows)
        && (r == Some(StorageFailed) <==> id in rows && kept)
        && (r == None <==> id in rows && !kept)
  {
    match op
    case AdminArchive(_, reason) => TrimmedBlank(reason);
    case AdminSoftDelete(_, reason) => TrimmedBlank(reason);
    case _ =>
  }

  // ---------------------------------------------------------------- the services

  class AssetTable {
    var rows: Rows

    /** A new row gets a fresh id from the database. */
    method Create(id: Id, ownerId: Id, ghost now: int)
      requires id !in rows
      modifies this
      ensures rows == Apply(old(rows), Event(Op.Create(id, ownerId), now))
    {
      rows := rows[id := Row(ownerId, Draft, None, None)];
    }

    method Publish(id: Id, requester: Requester, hardErrors: nat, now: int) returns (refused: Option<Error>)
      modifies this
      ensures var op := Op.Publish(id, requester, hardErrors);
        refused == Refusal(old(rows), op) && rows == Apply(old(rows), Event(op, now))
    {
      if id !in rows {
        return Some(AssetNotFound);
      }
      var asset := rows[id];
      if !CanEdit(asset, requester) {
        return Some(NotOwner);
      }
      if hardErrors > 0 {
        return Some(PublishBlocked);
      }
      rows := rows[id := asset.(status := Published, publishedAt := Some(now))];
      return None;
    }

    method Archive(id: Id, requester: Requester, now: int) returns (refused: Option<Error>)
      modifies this
      ensures var op := Op.Archive(id, requester);
        refused == Refusal(old(rows), op) && rows == Apply(old(rows), Event(op, now))
    {
      refused := TransitionStatus(id, requester, Archived, now);
    }

    method SoftDelete(id: Id, requester: Requester, now: int) returns (refused: Option<Error>)
      modifies this
      ensures var op := Op.SoftDelete(id, requester);
        refused == Refusal(old(rows), op) && rows == Apply(old(rows), Event(op, now))
    {
      refused := TransitionStatus(id, requester, Deleted, now);
    }

    method TransitionStatus(id: Id, requester: Requester, next: Status, now: int) returns (refused: Option<Error>)
      modifies this
      ensures id !in old(rows) ==> refused == Some(AssetNotFound) && rows == old(rows)
      ensures id in old(rows) && !CanEdit(old(rows)[id], requester) ==> refused == Some(NotOwner) && rows == old(rows)
      ensures id in old(rows) && CanEdit(old(rows)[id], requester) ==>
        refused == None && rows == old(rows)[id := old(rows)[id].(status := next, archivedAt := Some(now))]
    {
      if id !in rows {
        return Some(AssetNotFound);
      }
      var asset := rows[id];
      if !CanEdit(asset, requester) {
        return Some(NotOwner);
      }
      rows := rows[id := asset.(status := next, archivedAt := Some(now))];
      return None;
    }

    method Restore(id: Id, requester: Requester, now: int) returns (refused: Option<Error>)
      modifies this
      ensures var op := Op.Restore(id, requester);
        refused == Refusal(old(rows), op) && rows == Apply(old(rows), Event(op, now))
    {
      if id !in rows {
        return Some(AssetNotFound);
      }
      var asset := rows[id];
      if !CanEdit(asset, requester) {
        return Some(NotOwner);
      }
      if asset.status != Archived && asset.status != Deleted {
        return Some(NotArchived);
      }
      rows := rows[id := asset.(status := Published, archivedAt := None, publishedAt := Some(asset.publishedAt.GetOr(now)))];
      return None;
    }

    method AdminArchive(id: Id, reason: string, now: int) returns (refused: Option<Error>)
      modifies this
      ensures var op := Op.AdminArchive(id, reason);
        refused == Refusal(old(rows), op) && rows == Apply(old(rows), Event(op, now))
    {
      if Blank(reason) {
        return Some(ReasonRequired);
      }
      if id !in rows {
        return Some(AssetNotFound);
      }
      rows := rows[id := rows[id].(status := Archived, archivedAt := Some(now))];
      return None;
    }

    method AdminSoftDelete(id: Id, reason: string, now: int) returns (refused: Option<Error>)
      modifies this
      ensures var op := Op.AdminSoftDelete(id, reason);
        refused == Refusal(old(rows), op) && rows == Apply(old(rows), Event(op, now))
    {
      if Blank(reason) {
        return Some(ReasonRequired);
      }
      if id !in rows {
        return Some(AssetNotFound);
      }
      rows := rows[id := rows[id].(status := Deleted, archivedAt := Some(now))];
      return None;
    }

    method AdminRestore(id: Id, now: int) returns (refused: Option<Error>)
      modifies this
      ensures var op := Op.AdminRestore(id);
        refused == Refusal(old(rows), op) && rows == Apply(old(rows), Event(op, now))
    {
      if id !in rows {
        return Some(AssetNotFound);
      }
      var asset := rows[id];
      if asset.status != Archived && asset.status != Deleted {
        return Some(NotArchived);
      }
      rows := rows[id := asset.(status := Published, archivedAt := None, publishedAt := Some(asset.publishedAt.GetOr(now)))];
      return None;
    }

    /** `kept`: removing the asset's objects throws, before the row is touched. */
    method ForceDelete(id: Id, kept: bool, ghost now: int) returns (refused: Option<Error>)
      modifies this
      ensures refused == Refusal(old(rows), Op.ForceDelete(id, kept))
      ensures rows == Apply(old(rows), Event(Op.ForceDelete(id, kept), now))
    {
      if id !in rows {
        return Some(AssetNotFound);
      }
      if kept {
        return Some(StorageFailed);
      }
      rows := rows - {id};
      return None;
    }

    /** `failing` are the assets whose own purge throws; each is purged on its own. */
    method PurgeProcess(days: nat, failing: set<Id>, now: int)
      modifies this
      ensures rows == Apply(old(rows), Event(Op.Purge(days, failing), now))
    {
      var cutoff := now - days * DAY_MS;
      var candidates := set id | id in rows && Selected(rows[id], cutoff);
      var todo := candidates;
      while todo != {}
        invariant todo <= candidates
        invariant rows == old(rows) - set id | id in candidates && id !in todo && id !in failing
        decreases todo
      {
        var id :| id in todo;
        if id !in failing {
          rows := rows - {id};
        }
        todo := todo - {id};
      }
      assert Purged(old(rows), now, days, failing) == set id | id in candidates && id !in failing;
    }
  }

  // ---------------------------------------------------------------- whole runs

  function After(rows: Rows, run: seq<Event>): Rows {
    if |run| == 0 then rows else Apply(After(rows, run[..|run| - 1]), run[|run| - 1])
  }

  /** The call concerns `id` and goes through. */
  predicate Affects(rows: Rows, e: Event, id: Id) {
    if e.op.Purge? then id in Purged(rows, e.now, e.op.days, e.op.failing)
    else e.op.id == id && Refusal(rows, e.op) == None
  }

  /** The last event of the run that took effect on `id`. */
  function Last(run: seq<Event>, id: Id): Option<Event> {
    if |run| == 0 then None
    else
      var before, e := run[..|run| - 1], run[|run| - 1];
      if Affects(After(map[], before), e, id) then Some(e) else Last(before, id)
  }

  predicate Shelves(op: Op) {
    op.Archive? || op.SoftDelete? || op.AdminArchive? || op.AdminSoftDelete?
  }

  predicate Shows(op: Op) {
    op.Publish? || op.Restore? || op.AdminRestore?
  }

  predicate Removes(op: Op) {
    op.ForceDelete? || op.Purge?
  }

  /** What the last effective event says about the row. */
  ghost predicate Explains(last: Option<Event>, rows: Rows, id: Id) {
    && (id in rows <==> last.Some? && !Removes(last.value.op))
    && (id in rows ==>
          var row, op := rows[id], last.value.op;
          && (Dormant(row) <==> Shelves(op))
          && (Dormant(row) ==> row.archivedAt == Some(last.value.now))
          && (row.status == Published <==> Shows(op))
          && (row.status == Published ==> row.publishedAt.Some?)
          && (op.Publish? ==> row.publishedAt == Some(last.value.now))
          && (op.Restore? || op.AdminRestore? ==> row.archivedAt == None)
          && (row.status == Draft ==> row.publishedAt == None)
          && (row.status == Draft <==> op.Create?)
          && (row.status == Archived <==> op.Archive? || op.AdminArchive?)
          && (row.status == Deleted <==> op.SoftDelete? || op.AdminSoftDelete?))
  }

  lemma {:induction false} LastExplains(run: seq<Event>, id: Id)
    ensures Explains(Last(run, id), After(map[], run), id)
  {
    if |run| > 0 {
      var before, e := run[..|run| - 1], run[|run| - 1];
      LastExplains(before, id);
      EventExplains(After(map[], before), e, id, Last(before, id));
    }
  }

  lemma EventExplains(rows: Rows, e: Event, id: Id, last: Option<Event>)
    requires Explains(last, rows, id)
    ensures Explains(if Affects(rows, e, id) then Some(e) else last, Apply(rows, e), id)
  {
  }

  /** In every reachable state the status is that of the last event that took effect. */
  lemma StatusExactly(run: seq<Event>, id: Id)
    ensures var rows, last := After(map[], run), Last(run, id);
      id in rows ==>
        && last.Some?
        && (rows[id].status == Draft <==> last.value.op.Create?)
        && (rows[id].status == Published <==> last.value.op.Publish? || last.value.op.Restore? || last.value.op.AdminRestore?)
        && (rows[id].status == Archived <==> last.value.op.Archive? || last.value.op.AdminArchive?)
        && (rows[id].status == Deleted <==> last.value.op.SoftDelete? || last.value.op.AdminSoftDelete?)
  {
    LastExplains(run, id);
  }

  /** Purge safety over whole runs: the purge removes an asset exactly if the last thing that
      took effect on it was an archive or a delete, by either service, at least `days` earlier. */
  lemma {:induction false} PurgeExact(run: seq<Event>, now: int, days: nat, failing: set<Id>, id: Id)
    ensures var rows := After(map[], run);
      var e := Event(Purge(days, failing), now);
      id in rows && id !in Apply(rows, e) <==>
      && id !in failing && Last(run, id).Some?
      && Shelves(Last(run, id).value.op) && now - Last(run, id).value.now >= days * 86_400_000
  {
    LastExplains(run, id);
  }

  /** Every published asset has a publication date: that of its last publish, if nothing has
      happened to it since; and an asset just restored is off the purge clock. */
  lemma {:induction false} PublishedDated(run: seq<Event>, id: Id)
    ensures var rows, last := After(map[], run), Last(run, id);
      id in rows && rows[id].status == Published ==>
      && rows[id].publishedAt.Some? && last.Some?
      && (last.value.op.Publish? ==> rows[id].publishedAt == Some(last.value.now))
      && (!last.value.op.Publish? ==> rows[id].archivedAt == None)
  {
    LastExplains(run, id);
  }

  // ---------------------------------------------------------------- who may, and the dates

  /** The owner is the one named at the asset's creation. */
  lemma {:induction false} OwnerNamed(run: seq<Event>, id: Id) returns (c: nat)
    requires id in After(map[], run)
    ensures c < |run| && run[c].op == Create(id, After(map[], run)[id].ownerId)
    ensures forall j :: c < j < |run| ==> !Creates(run[j].op, id)
  {
    var n := |run| - 1;
    if Creates(run[n].op, id) {
      c := n;
    } else {
      c := OwnerNamed(run[..n], id);
    }
  }

  /** Over all runs, an owner's call that takes effect was made by the owner named at the asset's
      creation or by an admin. */
  lemma OwnersOnly(run: seq<Event>, id: Id, k: nat) returns (c: nat)
    requires k < |run| && AffectedAt(run, id, k)
    requires run[k].op.Publish? || run[k].op.Archive? || run[k].op.Restore? || run[k].op.SoftDelete?
    ensures c < k && run[c].op.Create? && run[c].op.id == id && forall j :: c < j < k ==> !Creates(run[j].op, id)
    ensures run[k].op.requester.id == run[c].op.ownerId || run[k].op.requester.isAdmin
  {
    RefusedExactly(After(map[], run[..k]), run[k].op);
    c := OwnerNamed(run[..k], id);
    assert forall j :: c < j < k ==> run[..k][j] == run[j];
  }

  /** The publication date is that of the last publish, or of the first restore if there has been no
      publish, since the asset was created. */
  lemma {:induction false} PublishedAtExactly(run: seq<Event>, id: Id) returns (k: nat)
    requires id in After(map[], run) && After(map[], run)[id].publishedAt.Some?
    ensures k < |run| && AffectedAt(run, id, k) && After(map[], run)[id].publishedAt == Some(run[k].now)
    ensures run[k].op.Publish? || ((run[k].op.Restore? || run[k].op.AdminRestore?) && !Since(run[..k], id, Shows))
    ensures forall j :: k < j < |run| && AffectedAt(run, id, j) ==> !run[j].op.Publish? && !run[j].op.Create?
  {
    var n := |run| - 1;
    var before := After(map[], run[..n]);
    NeverShownExactly(run[..n], id);
    if AffectedAt(run, id, n) && (run[n].op.Publish? || (Shows(run[n].op) && before[id].publishedAt == None)) {
      return n;
    }
    k := PublishedAtExactly(run[..n], id);
    assert run[..n][..k] == run[..k];
    forall j | k < j < n ensures AffectedAt(run[..n], id, j) == AffectedAt(run, id, j) {
      AffectedInPrefix(run, id, n, j);
    }
  }

  /** The `j`-th event neither shelves nor restores the asset, nor creates it. */
  predicate ClockKept(run: seq<Event>, id: Id, j: nat)
    requires j < |run|
  {
    AffectedAt(run, id, j) ==> run[j].op.Publish? || Removes(run[j].op)
  }

  /** The asset was shelved by the `k`-th event, and neither shelved again nor restored since. */
  ghost predicate ShelvedLast(run: seq<Event>, id: Id, k: nat) {
    && k < |run| && AffectedAt(run, id, k) && Shelves(run[k].op)
    && forall j :: k < j < |run| ==> ClockKept(run, id, j)
  }

  lemma ShelvedBefore(run: seq<Event>, id: Id, k: nat, before: seq<Event>)
    requires |run| > 0 && k < |run| - 1 && before == run[..|run| - 1]
    ensures ShelvedLast(run, id, k) <==> ShelvedLast(before, id, k) && ClockKept(run, id, |run| - 1)
  {
    forall j | 0 <= j < |before|
      ensures AffectedAt(before, id, j) == AffectedAt(run, id, j) && ClockKept(before, id, j) == ClockKept(run, id, j)
    {
      AffectedInPrefix(run, id, |before|, j);
    }
    if ShelvedLast(before, id, k) && ClockKept(run, id, |run| - 1) {
      forall j | k < j < |run| ensures ClockKept(run, id, j) {
        if j < |before| {
          assert ClockKept(before, id, j);
        }
      }
    }
    if ShelvedLast(run, id, k) {
      forall j | k < j < |before| ensures ClockKept(before, id, j) {
        assert ClockKept(run, id, j);
      }
    }
  }

  /** The purge clock stands at the last shelving not followed by a restore, and is off if there is
      none. */
  lemma {:induction false} ArchivedAtExactly(run: seq<Event>, id: Id)
    requires id in After(map[], run)
    ensures match After(map[], run)[id].archivedAt
      case Some(d) => exists k: nat :: ShelvedLast(run, id, k) && run[k].now == d
      case None => !exists k: nat :: ShelvedLast(run, id, k)
  {
    var n := |run| - 1;
    var e, before := run[n], After(map[], run[..n]);
    if AffectedAt(run, id, n) && Shelves(e.op) {
      assert ShelvedLast(run, id, n);
    } else if AffectedAt(run, id, n) && !e.op.Publish? {
      forall k: nat ensures !ShelvedLast(run, id, k) {
        if k < n {
          ShelvedBefore(run, id, k, run[..n]);
        }
      }
    } else {
      if !AffectedAt(run, id, n) && id in before {
        UnaffectedRow(before, e, id);
      }
      ArchivedAtExactly(run[..n], id);
      forall k: nat ensures ShelvedLast(run, id, k) <==> ShelvedLast(run[..n], id, k) {
        if k < n {
          ShelvedBefore(run, id, k, run[..n]);
        }
      }
    }
  }

  // ---------------------------------------------------------------- nothing happens meanwhile

  predicate AffectedAt(run: seq<Event>, id: Id, j: nat)
    requires j < |run|
  {
    Affects(After(map[], run[..j]), run[j], id)
  }

  lemma AffectedInPrefix(run: seq<Event>, id: Id, n: nat, j: nat)
    requires j < n <= |run|
    ensures AffectedAt(run[..n], id, j) == AffectedAt(run, id, j)
  {
    assert run[..n][..j] == run[..j];
  }

  /** The event found is in the run, and nothing after it took effect on the asset. */
  lemma {:induction false} LastIsLast(run: seq<Event>, id: Id) returns (k: nat)
    requires Last(run, id).Some?
    ensures k < |run| && Last(run, id) == Some(run[k]) && AffectedAt(run, id, k)
    ensures forall j :: k < j < |run| ==> !AffectedAt(run, id, j)
  {
    var n := |run| - 1;
    if AffectedAt(run, id, n) {
      k := n;
    } else {
      k := LastIsLast(run[..n], id);
      forall j | 0 <= j < n ensures AffectedAt(run[..n], id, j) == AffectedAt(run, id, j) {
        AffectedInPrefix(run, id, n, j);
      }
    }
  }

  ghost predicate DormantAt(run: seq<Event>, id: Id, j: nat, row: Row)
    requires j <= |run|
  {
    var rows := After(map[], run[..j]);
    id in rows && rows[id] == row && Dormant(row)
  }

  lemma {:induction false} KeptSince(run: seq<Event>, id: Id, k: nat, j: nat) returns (row: Row)
    requires k < j <= |run| && AffectedAt(run, id, k) && Shelves(run[k].op)
    requires forall i :: k < i < |run| ==> !AffectedAt(run, id, i)
    ensures forall i :: k < i <= j ==> DormantAt(run, id, i, row)
    decreases j
  {
    assert run[..j][..j - 1] == run[..j - 1];
    if j == k + 1 {
      ShelvedRow(After(map[], run[..k]), run[k], id);
      row := After(map[], run[..j])[id];
    } else {
      row := KeptSince(run, id, k, j - 1);
      assert DormantAt(run, id, j - 1, row);
      assert !AffectedAt(run, id, j - 1);
      UnaffectedRow(After(map[], run[..j - 1]), run[j - 1], id);
      assert DormantAt(run, id, j, row);
    }
  }

  lemma ShelvedRow(rows: Rows, e: Event, id: Id)
    requires Affects(rows, e, id) && Shelves(e.op)
    ensures id in Apply(rows, e) && Dormant(Apply(rows, e)[id])
  {
  }

  lemma UnaffectedRow(rows: Rows, e: Event, id: Id)
    requires !Affects(rows, e, id) && id in rows
    ensures id in Apply(rows, e) && Apply(rows, e)[id] == rows[id]
  {
  }

  lemma DormantSince(run: seq<Event>, id: Id, k: nat, j: nat)
    requires k < j <= |run| && AffectedAt(run, id, k) && Shelves(run[k].op) && id in After(map[], run)
    requires forall i :: k < i < |run| ==> !AffectedAt(run, id, i)
    ensures DormantAt(run, id, j, After(map[], run)[id])
  {
    var row := KeptSince(run, id, k, |run|);
    assert run[..|run|] == run;
    assert DormantAt(run, id, |run|, row) && DormantAt(run, id, j, row);
  }

  lemma LaterIndex(run: seq<Event>, j: nat, k: nat, cutoff: int)
    requires Monotone(run) && k < |run| && run[k].now <= cutoff
    requires j < |run| ==> run[j].now > cutoff
    ensures k < j
  {
  }

  ghost predicate Monotone(run: seq<Event>) {
    forall i, j :: 0 <= i <= j < |run| ==> run[i].now <= run[j].now
  }

  /** An asset about to be purged was dormant, in one and the same row, over all the states of the
      last `days` days: nobody restored or published it in that time. */
  lemma DormantThroughout(run: seq<Event>, now: int, days: nat, failing: set<Id>, id: Id, j: nat)
    requires Monotone(run) && j <= |run|
    requires id in Purged(After(map[], run), now, days, failing)
    requires j < |run| ==> run[j].now > now - days * DAY_MS
    ensures DormantAt(run, id, j, After(map[], run)[id])
  {
    PurgeExact(run, now, days, failing, id);
    var k := LastIsLast(run, id);
    LaterIndex(run, j, k, now - days * DAY_MS);
    DormantSince(run, id, k, j);
  }

  // ---------------------------------------------------------------- selection and removal apart

  /** No event of the run took effect on `id`. */
  predicate Untouched(rows: Rows, run: seq<Event>, id: Id) {
    |run| == 0 ||
    (Untouched(rows, run[..|run| - 1], id) && !Affects(After(rows, run[..|run| - 1]), run[|run| - 1], id))
  }

  predicate Creates(op: Op, id: Id) {
    op.Create? && op.id == id
  }

  /** With selection and removal as separate steps, removing a selected asset is still right
      exactly if nothing took effect on it in between. */
  lemma {:induction false} RemovalSafeExactly(rows: Rows, selectedAt: int, days: nat, between: seq<Event>, id: Id)
    requires days > 0 && id in rows && Selected(rows[id], selectedAt - days * DAY_MS)
    requires forall i :: 0 <= i < |between| ==> between[i].now >= selectedAt && !Creates(between[i].op, id)
    ensures var later := After(rows, between);
      id in later && Selected(later[id], selectedAt - days * DAY_MS) <==> Untouched(rows, between, id)
  {
    if |between| > 0 {
      var n := |between| - 1;
      var before, e := between[..n], between[n];
      RemovalSafeExactly(rows, selectedAt, days, before, id);
      TouchSpoils(After(rows, before), selectedAt, days, e, id);
    }
  }

  lemma TouchSpoils(rows: Rows, selectedAt: int, days: nat, e: Event, id: Id)
    requires days > 0 && e.now >= selectedAt && !Creates(e.op, id)
    ensures id in Apply(rows, e) && Selected(Apply(rows, e)[id], selectedAt - days * DAY_MS) <==>
      id in rows && Selected(rows[id], selectedAt - days * DAY_MS) && !Affects(rows, e, id)
  {
  }

  /** An owner's restore between the two steps does not save the asset: the removal deletes a
      published row. */
  lemma RestoredYetPurged(id: Id, owner: Id, days: nat, now: int)
    requires days > 0
    ensures var me := Requester(owner, false);
      var rows := After(map[], [Event(Create(id, owner), 0), Event(Archive(id, me), 0)]);
      && id in Purged(rows, days * DAY_MS, days, {})
      && var later := Apply(rows, Event(Restore(id, me), days * DAY_MS));
      id in later && later[id].status == Published
  {
    var me := Requester(owner, false);
    var a, b := Event(Create(id, owner), 0), Event(Archive(id, me), 0);
    var empty: Rows := map[];
    assert [a, b][..1] == [a] && [a][..0] == [];
    assert After(empty, [a]) == map[id := Row(owner, Draft, None, None)];
    assert After(empty, [a, b]) == map[id := Row(owner, Archived, None, Some(0))];
  }

  // ---------------------------------------------------------------- undoing, and the checklist

  /** A restore by either service undoes an archive or delete by either service: the row of an
      asset that was published and not on the clock comes back unchanged. */
  lemma RestoreUndoes(rows: Rows, shelve: Event, restore: Event)
    requires Shelves(shelve.op) && Refusal(rows, shelve.op) == None
    requires restore.op.Restore? || restore.op.AdminRestore?
    requires restore.op.id == shelve.op.id
    requires restore.op.Restore? ==> CanEdit(rows[shelve.op.id], restore.op.requester)
    ensures var row := rows[shelve.op.id];
      var later := Apply(Apply(rows, shelve), restore);
      && (row.status == Published && row.publishedAt.Some? && row.archivedAt == None ==> later == rows)
      && later[shelve.op.id] == row.(status := Published, archivedAt := None, publishedAt := Some(row.publishedAt.GetOr(restore.now)))
  {
    var id := shelve.op.id;
    var later := Apply(Apply(rows, shelve), restore);
    assert later == rows[id := Restored(rows[id], restore.now)];
  }

  predicate IsPublish(op: Op) {
    op.Publish?
  }

  /** Since the asset was last created, a call of the kind took effect on it. */
  predicate Since(run: seq<Event>, id: Id, kind: Op -> bool) {
    |run| > 0 &&
    var before, e := run[..|run| - 1], run[|run| - 1];
    if Affects(After(map[], before), e, id) && e.op.Create? then false
    else (Affects(After(map[], before), e, id) && kind(e.op)) || Since(before, id, kind)
  }

  lemma {:induction false} PublishShows(run: seq<Event>, id: Id)
    ensures Since(run, id, IsPublish) ==> Since(run, id, Shows)
  {
    if |run| > 0 {
      PublishShows(run[..|run| - 1], id);
    }
  }

  /** An asset has no publication date exactly while no publish and no restore has taken effect
      since it was created. */
  lemma {:induction false} NeverShownExactly(run: seq<Event>, id: Id)
    ensures var rows := After(map[], run);
      id in rows ==> (rows[id].publishedAt == None <==> !Since(run, id, Shows))
  {
    if |run| > 0 {
      NeverShownExactly(run[..|run| - 1], id);
      LastExplains(run[..|run| - 1], id);
      if !Affects(After(map[], run[..|run| - 1]), run[|run| - 1], id) && id in After(map[], run[..|run| - 1]) {
        UnaffectedRow(After(map[], run[..|run| - 1]), run[|run| - 1], id);
      }
    }
  }

  /** A restore that takes effect shows an asset never shown before, hence with no checklist passed
      since its creation, exactly if the row has no publication date. */
  lemma RestoreShowsFirstExactly(run: seq<Event>, e: Event, id: Id)
    requires (e.op.Restore? || e.op.AdminRestore?) && Affects(After(map[], run), e, id)
    ensures var row := After(map[], run)[id];
      && After(map[], run + [e])[id].status == Published
      && (row.publishedAt == None <==> !Since(run, id, Shows))
      && (row.publishedAt == None ==> !Since(run + [e], id, IsPublish))
  {
    assert (run + [e])[..|run|] == run;
    NeverShownExactly(run, id);
    PublishShows(run, id);
  }

  /** It does happen: an archived draft is published by restoring it, whatever the checklist would
      say. */
  lemma DraftPublishedByRestore(id: Id, owner: Id, now: int)
    ensures var me := Requester(owner, false);
      var run := [Event(Create(id, owner), now), Event(Archive(id, me), now), Event(Restore(id, me), now)];
      id in After(map[], run) && After(map[], run)[id].status == Published && !Since(run, id, IsPublish)
  {
    var me := Requester(owner, false);
    var a, b, c := Event(Create(id, owner), now), Event(Archive(id, me), now), Event(Restore(id, me), now);
    var empty: Rows := map[];
    assert [a, b, c][..2] == [a, b] && [a, b][..1] == [a] && [a][..0] == [];
    assert After(empty, [a]) == map[id := Row(owner, Draft, None, None)];
    assert After(empty, [a, b]) == map[id := Row(owner, Archived, None, Some(now))];
    assert [a, b] + [c] == [a, b, c];
    RestoreShowsFirstExactly([a, b], c, id);
  }

  /** The asset is published exactly if its last effective event was a publish that found no
      checklist error or a restore. */
  lemma {:induction false} PublishedExactly(run: seq<Event>, id: Id)
    ensures var rows := After(map[], run);
      id in rows && rows[id].status == Published <==>
      Last(run, id).Some? && Shows(Last(run, id).value.op)
    ensures Last(run, id).Some? && Last(run, id).value.op.Publish? ==> Last(run, id).value.op.hardErrors == 0
  {
    LastExplains(run, id);
    if Last(run, id).Some? {
      var k := LastIsLast(run, id);
    }
  }
}
