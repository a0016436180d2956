/** What the sanitizer's output and violation list mean: soundness, completeness and order of the
    list, paths that lead back to their offender, idempotence and kept text. */
module TipTapTheorems {
  import opened Json
  import opened Options
  import opened Text
  import opened TipTap

  // ---------------------------------------------------------------- the violation list

  /** A heading whose level is a number below 1 or above the allowlist's maximum, 3 unless it names
      another. */
  predicate OutOfRange(al: Allowlist, node: Node) {
    && node.kind == "heading" && "level" in node.attrs && node.attrs["level"].Num?
    && (node.attrs["level"].n < 1.0
        || node.attrs["level"].n > match al.maxHeadingLevel { case Some(max) => max as real case None => 3.0 })
  }

  /** The allowlist's table names the attribute for the node type or mark. */
  predicate Lists(table: map<string, set<string>>, kind: string, k: string) {
    kind in table && k in table[kind]
  }

  /** The values JavaScript takes for false. */
  predicate Falsy(j: Json) {
    j == Null || j == Bool(false) || j == Num(0.0) || j == Str("")
  }

  /** The node at a path of content steps, every node above it being of an allowed type. */
  ghost function NodeAt(al: Allowlist, node: Node, path: Path): Option<Node>
    decreases |path|
  {
    if |path| == 0 then Some(node)
    else if node.kind in al.nodes && path[0].Content? && path[0].i < |node.content|
      then NodeAt(al, node.content[path[0].i], path[1..])
    else None
  }

  /** A topmost disallowed node, or a disallowed mark or out-of-range level of an allowed node. */
  ghost predicate Offends(al: Allowlist, node: Node, v: Violation)
    decreases |v.path|
  {
    if |v.path| == 0 then v.code == NodeDisallowed && node.kind !in al.nodes
    else if node.kind !in al.nodes then false
    else match v.path[0] {
      case Level => |v.path| == 1 && v.code == LevelOutOfRange && OutOfRange(al, node)
      case MarkAt(i) => |v.path| == 1 && v.code == MarkDisallowed && i < |node.marks| && node.marks[i].kind !in al.marks
      case Content(i) => i < |node.content| && Offends(al, node.content[i], Violation(v.path[1..], v.code))
    }
  }

  /** `Offends`, read from the root: the path leads to a node nothing above which is disallowed. */
  lemma {:induction false} OffenderFound(al: Allowlist, node: Node, v: Violation)
    ensures Offends(al, node, v) <==>
      match v.code
      case NodeDisallowed => (match NodeAt(al, node, v.path) case Some(n) => n.kind !in al.nodes case None => false)
      case LevelOutOfRange =>
        |v.path| > 0 && v.path[|v.path| - 1] == Level &&
        (match NodeAt(al, node, v.path[..|v.path| - 1]) case Some(n) => n.kind in al.nodes && OutOfRange(al, n) case None => false)
      case MarkDisallowed =>
        |v.path| > 0 && v.path[|v.path| - 1].MarkAt? &&
        (match NodeAt(al, node, v.path[..|v.path| - 1])
         case Some(n) =>
           var i := v.path[|v.path| - 1].i; n.kind in al.nodes && i < |n.marks| && n.marks[i].kind !in al.marks
         case None => false)
    decreases |v.path|
  {
    if |v.path| > 0 && v.path[0].Content? && v.path[0].i < |node.content| {
      var rest := Violation(v.path[1..], v.code);
      OffenderFound(al, node.content[v.path[0].i], rest);
      if |v.path| > 1 {
        assert v.path[..|v.path| - 1][1..] == rest.path[..|rest.path| - 1];
      }
    }
  }

  lemma {:induction false} MarkListed(al: Allowlist, marks: seq<Mark>, k: nat, v: Violation)
    requires k <= |marks|
    ensures v in MarkViolations(al, marks, k) <==>
      exists i :: 0 <= i < k && marks[i].kind !in al.marks && v == Violation([MarkAt(i)], MarkDisallowed)
  {
    if k > 0 {
      MarkListed(al, marks, k - 1, v);
    }
  }

  lemma AtListed(s: PathStep, vs: seq<Violation>, v: Violation)
    ensures v in At([s], vs) <==> |v.path| > 0 && v.path[0] == s && Violation(v.path[1..], v.code) in vs
  {
    var r := At([s], vs);
    if v in r {
      var i :| 0 <= i < |r| && r[i] == v;
      assert v.path[1..] == vs[i].path;
    }
    if |v.path| > 0 && v.path[0] == s && Violation(v.path[1..], v.code) in vs {
      var i :| 0 <= i < |vs| && vs[i] == Violation(v.path[1..], v.code);
      assert [s] + vs[i].path == v.path;
      assert r[i] == v;
    }
  }

  /** The list holds exactly the offenders. */
  lemma {:induction false} ListsOffenders(al: Allowlist, node: Node, v: Violation)
    ensures v in Violations(al, node) <==> Offends(al, node, v)
    decreases |v.path|
  {
    if node.kind in al.nodes {
      MarkListed(al, node.marks, |node.marks|, v);
      if v in ContentViolations(al, node, |node.content|) {
        ContentListed(al, node, |node.content|, v);
      }
      if |v.path| == 1 {
        assert v.path == [v.path[0]];
      }
      if |v.path| > 0 && v.path[0].Content? && v.path[0].i < |node.content| {
        var below := Violation(v.path[1..], v.code);
        ListsOffenders(al, node.content[v.path[0].i], below);
        if below in Violations(al, node.content[v.path[0].i]) {
          AtListed(v.path[0], Violations(al, node.content[v.path[0].i]), v);
          BelowListed(al, node, |node.content|, v.path[0].i, v);
        }
      }
    }
  }

  /** The path starts in one of the first `k` children, and its rest is listed for that child. */
  ghost predicate ListedBelow(al: Allowlist, node: Node, k: nat, v: Violation)
    requires k <= |node.content|
  {
    |v.path| > 0 && v.path[0].Content? && v.path[0].i < k && Violation(v.path[1..], v.code) in Violations(al, node.content[v.path[0].i])
  }

  lemma {:induction false} BelowListed(al: Allowlist, node: Node, k: nat, i: nat, v: Violation)
    requires i < k <= |node.content| && v in At([Content(i)], Violations(al, node.content[i]))
    ensures v in ContentViolations(al, node, k)
    decreases k
  {
    if i < k - 1 {
      BelowListed(al, node, k - 1, i, v);
    }
  }

  lemma {:induction false} ContentListed(al: Allowlist, node: Node, k: nat, v: Violation)
    requires k <= |node.content| && v in ContentViolations(al, node, k)
    ensures ListedBelow(al, node, k, v)
    decreases k
  {
    if v in ContentViolations(al, node, k - 1) {
      ContentListed(al, node, k - 1, v);
    } else {
      AtListed(Content(k - 1), Violations(al, node.content[k - 1]), v);
    }
  }

  /** Visiting order: a node's level before its marks, its marks before its content. */
  ghost predicate StepBefore(s: PathStep, t: PathStep) {
    match (s, t)
    case (Level, Level) => false
    case (Level, _) => true
    case (MarkAt(_), Level) => false
    case (MarkAt(i), MarkAt(j)) => i < j
    case (MarkAt(_), Content(_)) => true
    case (Content(i), Content(j)) => i < j
    case (Content(_), _) => false
  }

  ghost predicate Before(p: Path, q: Path)
    decreases |p|
  {
    |p| > 0 && |q| > 0 && (StepBefore(p[0], q[0]) || (p[0] == q[0] && Before(p[1..], q[1..])))
  }

  ghost predicate InOrder(vs: seq<Violation>) {
    forall i, j {:trigger Before(vs[i].path, vs[j].path)} :: 0 <= i < j < |vs| ==> Before(vs[i].path, vs[j].path)
  }

  lemma {:induction false} NotBeforeItself(p: Path)
    ensures !Before(p, p)
    decreases |p|
  {
    if |p| > 0 {
      NotBeforeItself(p[1..]);
    }
  }

  lemma {:induction false} MarksInOrder(al: Allowlist, marks: seq<Mark>, k: nat)
    requires k <= |marks|
    ensures InOrder(MarkViolations(al, marks, k))
    ensures forall v :: v in MarkViolations(al, marks, k) ==> |v.path| == 1 && v.path[0].MarkAt? && v.path[0].i < k
  {
    if k > 0 {
      MarksInOrder(al, marks, k - 1);
    }
  }

  lemma AtInOrder(s: PathStep, vs: seq<Violation>)
    requires InOrder(vs)
    ensures InOrder(At([s], vs))
  {
    var r := At([s], vs);
    forall i, j | 0 <= i < j < |r| ensures Before(r[i].path, r[j].path) {
      assert r[i].path[1..] == vs[i].path && r[j].path[1..] == vs[j].path;
      assert Before(vs[i].path, vs[j].path);
    }
  }

  /** Every path starts in one of the first `k` children. */
  ghost predicate InChildren(vs: seq<Violation>, k: nat) {
    forall v :: v in vs ==> |v.path| > 0 && v.path[0].Content? && v.path[0].i < k
  }

  lemma {:induction false} ContentInOrder(al: Allowlist, node: Node, k: nat)
    requires k <= |node.content|
    ensures InOrder(ContentViolations(al, node, k)) && InChildren(ContentViolations(al, node, k), k)
    decreases node, k
  {
    if k > 0 {
      ContentInOrder(al, node, k - 1);
      ListInOrder(al, node.content[k - 1]);
      OneMoreChild(al, node, k);
    }
  }

  lemma OneMoreChild(al: Allowlist, node: Node, k: nat)
    requires 0 < k <= |node.content|
    requires InOrder(ContentViolations(al, node, k - 1)) && InChildren(ContentViolations(al, node, k - 1), k - 1)
    requires InOrder(Violations(al, node.content[k - 1]))
    ensures InOrder(ContentViolations(al, node, k)) && InChildren(ContentViolations(al, node, k), k)
  {
    LaterChild(ContentViolations(al, node, k - 1), Violations(al, node.content[k - 1]), k - 1, ContentViolations(al, node, k));
  }

  lemma LaterChild(before: seq<Violation>, below: seq<Violation>, k: nat, all: seq<Violation>)
    requires InOrder(before) && InOrder(below) && InChildren(before, k)
    requires all == before + At([Content(k)], below)
    ensures InOrder(all) && InChildren(all, k + 1)
  {
    var later := At([Content(k)], below);
    AtInOrder(Content(k), below);
    forall u, v | u in before && v in later ensures Before(u.path, v.path) {
      assert v.path[0] == Content(k);
    }
  }

  /** The list is strictly in visiting order, so it has one entry per offender. */
  lemma {:induction false} ListInOrder(al: Allowlist, node: Node)
    ensures InOrder(Violations(al, node))
    decreases node, |node.content| + 1
  {
    if node.kind in al.nodes {
      OwnInOrder(al, node);
      ContentInOrder(al, node, |node.content|);
      OwnBeforeContent(OwnViolations(al, node), ContentViolations(al, node, |node.content|), |node.content|, Violations(al, node));
    }
  }

  lemma OwnInOrder(al: Allowlist, node: Node)
    ensures InOrder(OwnViolations(al, node))
    ensures forall v :: v in OwnViolations(al, node) ==> |v.path| > 0 && !v.path[0].Content?
  {
    MarksInOrder(al, node.marks, |node.marks|);
  }

  lemma OwnBeforeContent(own: seq<Violation>, below: seq<Violation>, k: nat, all: seq<Violation>)
    requires InOrder(own) && InOrder(below) && InChildren(below, k) && all == own + below
    requires forall v :: v in own ==> |v.path| > 0 && !v.path[0].Content?
    ensures InOrder(all)
  {
    forall u, v | u in own && v in below ensures Before(u.path, v.path) {
    }
  }

  /** The document conforms: every node type, mark and heading level is allowed. */
  ghost predicate Conforms(al: Allowlist, node: Node)
    decreases node
  {
    && node.kind in al.nodes && !OutOfRange(al, node)
    && (forall m :: m in node.marks ==> m.kind in al.marks)
    && (forall c :: c in node.content ==> Conforms(al, c))
  }

  lemma {:induction false} ConformingInnocent(al: Allowlist, node: Node, v: Violation)
    requires Conforms(al, node)
    ensures !Offends(al, node, v)
    decreases |v.path|
  {
    if |v.path| > 0 && v.path[0].Content? && v.path[0].i < |node.content| {
      ConformingInnocent(al, node.content[v.path[0].i], Violation(v.path[1..], v.code));
    }
  }

  lemma {:induction false} OffenderIn(al: Allowlist, node: Node) returns (v: Violation)
    requires !Conforms(al, node)
    ensures Offends(al, node, v)
    decreases node
  {
    if node.kind !in al.nodes {
      v := Violation([], NodeDisallowed);
    } else if OutOfRange(al, node) {
      v := Violation([Level], LevelOutOfRange);
    } else if i :| 0 <= i < |node.marks| && node.marks[i].kind !in al.marks {
      v := Violation([MarkAt(i)], MarkDisallowed);
    } else {
      var i :| 0 <= i < |node.content| && !Conforms(al, node.content[i]);
      var below := OffenderIn(al, node.content[i]);
      v := Violation([Content(i)] + below.path, below.code);
      assert v.path[1..] == below.path;
    }
  }

  /** No violation is reported exactly when the document conforms. */
  lemma SoundAndComplete(al: Allowlist, node: Node)
    ensures Violations(al, node) == [] <==> Conforms(al, node)
  {
    if Conforms(al, node) {
      if |Violations(al, node)| > 0 {
        ListsOffenders(al, node, Violations(al, node)[0]);
        ConformingInnocent(al, node, Violations(al, node)[0]);
      }
    } else {
      var v := OffenderIn(al, node);
      ListsOffenders(al, node, v);
    }
  }

  // ---------------------------------------------------------------- the two editors

  /** The full editor takes a heading of level 1, 2 or 3 and no other number, the lite editor none. */
  lemma HeadingLevels(n: real)
    ensures var heading := Node("heading", map["level" := Num(n)], [], None, []);
      && (Violations(FULL, heading) == [] <==> 1.0 <= n <= 3.0)
      && Violations(LITE, heading) == [Violation([], NodeDisallowed)]
  {
    var heading := Node("heading", map["level" := Num(n)], [], None, []);
    SoundAndComplete(FULL, heading);
  }

  ghost predicate Mentionless(node: Node)
    decreases node
  {
    node.kind != "mention" && forall c :: c in node.content ==> Mentionless(c)
  }

  /** What the lite editor takes the full one takes too, but for mentions. */
  lemma {:induction false} LiteWithinFull(node: Node)
    requires Conforms(LITE, node) && Mentionless(node)
    ensures Conforms(FULL, node)
    decreases node
  {
    forall c | c in node.content ensures Conforms(FULL, c) {
      LiteWithinFull(c);
    }
  }

  /** And with the same attributes. */
  lemma LiteAttrsWithinFull(kind: string, k: string)
    ensures kind != "mention" && Lists(LITE.nodeAttrs, kind, k) ==> Lists(FULL.nodeAttrs, kind, k)
    ensures Lists(LITE.markAttrs, kind, k) ==> Lists(FULL.markAttrs, kind, k)
  {
  }

  // ---------------------------------------------------------------- what the output is

  lemma CleanTwice(al: Allowlist, m: Mark)
    ensures CleanMark(al, CleanMark(al, m)) == CleanMark(al, m)
  {
    var once := CleanMark(al, m);
    var twice := CleanMark(al, once);
    if m.kind == "link" {
      assert once.attrs.Keys == Restricted(m.attrs, Allowed(al.markAttrs, m.kind)).Keys + {"rel", "target"};
      assert twice.attrs == once.attrs;
    }
  }

  lemma {:induction false} MarksTwice(al: Allowlist, marks: seq<Mark>, k: nat)
    requires k <= |marks| && forall m :: m in marks ==> m.kind in al.marks
    ensures var once := CleanMarks(al, marks, k);
      |once| == k && (forall i :: 0 <= i < k ==> once[i] == CleanMark(al, marks[i]) && once[i].kind == marks[i].kind)
  {
    if k > 0 {
      MarksTwice(al, marks, k - 1);
    }
  }

  ghost predicate MarksFixed(al: Allowlist, marks: seq<Mark>) {
    forall i :: 0 <= i < |marks| ==> CleanMark(al, marks[i]) == marks[i]
  }

  lemma MarksCopied(al: Allowlist, marks: seq<Mark>)
    requires forall m :: m in marks ==> m.kind in al.marks
    ensures CleanMarks(al, marks, |marks|) == marks <==> MarksFixed(al, marks)
  {
    MarksTwice(al, marks, |marks|);
    var out := CleanMarks(al, marks, |marks|);
    assert forall i :: 0 <= i < |marks| ==> out[i] == CleanMark(al, marks[i]);
  }

  /** For a conforming document, sanitizing changes neither its tree nor its text, leaves it
      conforming, and sanitizing again changes nothing. */
  lemma {:induction false} Idempotent(al: Allowlist, node: Node)
    requires Conforms(al, node)
    ensures Conforms(al, Sanitized(al, node))
    ensures Sanitized(al, Sanitized(al, node)) == Sanitized(al, node)
    decreases node
  {
    var out := Sanitized(al, node);
    MarksTwice(al, node.marks, |node.marks|);
    MarksIdempotent(al, node.marks, out.marks);
    forall i | 0 <= i < |node.content|
      ensures Conforms(al, out.content[i]) && Sanitized(al, out.content[i]) == out.content[i]
    {
      Idempotent(al, node.content[i]);
    }
    assert SanitizedContent(al, out, |out.content|) == out.content;
    assert Restricted(out.attrs, Allowed(al.nodeAttrs, out.kind)) == out.attrs;
  }

  lemma MarksIdempotent(al: Allowlist, marks: seq<Mark>, once: seq<Mark>)
    requires |once| == |marks| && forall i :: 0 <= i < |marks| ==> once[i] == CleanMark(al, marks[i])
    requires forall i :: 0 <= i < |marks| ==> marks[i].kind in al.marks
    ensures CleanMarks(al, once, |once|) == once
  {
    forall i | 0 <= i < |once| ensures CleanMark(al, once[i]) == once[i] {
      CleanTwice(al, marks[i]);
    }
    forall m | m in once ensures m.kind in al.marks {
      var i :| 0 <= i < |once| && once[i] == m;
      assert once[i].kind == marks[i].kind;
    }
    MarksCopied(al, once);
  }

  /** At any depth, every link mark has the forced `rel` and some target. */
  ghost predicate LinksForced(node: Node)
    decreases node
  {
    && (forall m :: m in node.marks && m.kind == "link" ==>
         "rel" in m.attrs && m.attrs["rel"] == Str("noopener nofollow") && "target" in m.attrs && !Falsy(m.attrs["target"]))
    && (forall c :: c in node.content ==> LinksForced(c))
  }

  lemma {:induction false} MarksForced(al: Allowlist, marks: seq<Mark>, k: nat, m: Mark)
    requires k <= |marks| && m in CleanMarks(al, marks, k) && m.kind == "link"
    ensures "rel" in m.attrs && m.attrs["rel"] == Str("noopener nofollow") && "target" in m.attrs && !Falsy(m.attrs["target"])
  {
    if m != CleanMark(al, marks[k - 1]) {
      MarksForced(al, marks, k - 1, m);
    }
  }

  lemma {:induction false} OutputLinksForced(al: Allowlist, node: Node)
    ensures LinksForced(Sanitized(al, node))
    decreases node
  {
    var out := Sanitized(al, node);
    forall m | m in out.marks && m.kind == "link"
      ensures "rel" in m.attrs && m.attrs["rel"] == Str("noopener nofollow") && "target" in m.attrs && !Falsy(m.attrs["target"])
    {
      MarksForced(al, node.marks, |node.marks|, m);
    }
    forall c | c in out.content ensures LinksForced(c) {
      var i :| 0 <= i < |out.content| && out.content[i] == c;
      OutputLinksForced(al, node.content[i]);
    }
  }

  /** At any depth, only attributes the allowlist names. */
  ghost predicate AttrsAllowed(al: Allowlist, node: Node)
    decreases node
  {
    && (forall k :: k in node.attrs ==> Lists(al.nodeAttrs, node.kind, k))
    && (forall m, k :: m in node.marks && k in m.attrs ==> Lists(al.markAttrs, m.kind, k))
    && (forall c :: c in node.content ==> AttrsAllowed(al, c))
  }

  /** A link may carry what the walk forces on it. */
  predicate AllowsForced(al: Allowlist) {
    Lists(al.markAttrs, "link", "rel") && Lists(al.markAttrs, "link", "target")
  }

  /** Both do, so `UnchangedExactly` holds of either editor's documents. */
  lemma ShippedAllowForced()
    ensures AllowsForced(FULL) && AllowsForced(LITE)
  {
  }

  ghost predicate MarkSettled(al: Allowlist, m: Mark) {
    && (forall k :: k in m.attrs ==> Lists(al.markAttrs, m.kind, k))
    && (m.kind == "link" ==> "rel" in m.attrs && m.attrs["rel"] == Str("noopener nofollow") && "target" in m.attrs && !Falsy(m.attrs["target"]))
  }

  lemma MarkUnchanged(al: Allowlist, m: Mark)
    requires AllowsForced(al)
    ensures CleanMark(al, m) == m <==> MarkSettled(al, m)
  {
    var attrs := Restricted(m.attrs, Allowed(al.markAttrs, m.kind));
    assert forall k :: k in attrs ==> Lists(al.markAttrs, m.kind, k);
    if MarkSettled(al, m) {
      assert attrs == m.attrs;
      assert m.kind == "link" ==> m.attrs["rel" := REL]["target" := m.attrs["target"]] == m.attrs;
    }
  }

  ghost predicate ContentFixed(al: Allowlist, node: Node) {
    forall i :: 0 <= i < |node.content| ==> Sanitized(al, node.content[i]) == node.content[i]
  }

  ghost predicate MarksSettled(al: Allowlist, marks: seq<Mark>) {
    forall m :: m in marks ==> MarkSettled(al, m)
  }

  /** At any depth, allowed attributes only and links as the walk would force them. */
  ghost predicate Settled(al: Allowlist, node: Node) {
    AttrsAllowed(al, node) && LinksForced(node)
  }

  lemma SettledNode(al: Allowlist, node: Node)
    ensures Settled(al, node) <==>
      && (forall k :: k in node.attrs ==> Lists(al.nodeAttrs, node.kind, k)) && MarksSettled(al, node.marks)
      && forall c :: c in node.content ==> Settled(al, c)
  {
  }

  lemma MarksUnchanged(al: Allowlist, marks: seq<Mark>)
    requires AllowsForced(al)
    ensures MarksFixed(al, marks) <==> MarksSettled(al, marks)
  {
    if MarksFixed(al, marks) {
      forall m | m in marks ensures MarkSettled(al, m) {
        var i :| 0 <= i < |marks| && marks[i] == m;
        MarkUnchanged(al, marks[i]);
      }
    }
    if MarksSettled(al, marks) {
      forall i | 0 <= i < |marks| ensures CleanMark(al, marks[i]) == marks[i] {
        MarkUnchanged(al, marks[i]);
      }
    }
  }

  lemma ContentCopied(al: Allowlist, node: Node)
    ensures SanitizedContent(al, node, |node.content|) == node.content <==> ContentFixed(al, node)
  {
    var out := SanitizedContent(al, node, |node.content|);
    assert forall i :: 0 <= i < |out| ==> out[i] == Sanitized(al, node.content[i]);
  }

  lemma AttrsCopied(attrs: map<string, Json>, allowed: set<string>)
    ensures Restricted(attrs, allowed) == attrs <==> attrs.Keys <= allowed
  {
    assert Restricted(attrs, allowed).Keys <= allowed;
    if attrs.Keys <= allowed {
      assert Restricted(attrs, allowed) == attrs;
    }
  }

  lemma NodeUnchanged(al: Allowlist, node: Node)
    requires Conforms(al, node)
    ensures Sanitized(al, node) == node <==>
      (forall k :: k in node.attrs ==> Lists(al.nodeAttrs, node.kind, k)) && MarksFixed(al, node.marks) && ContentFixed(al, node)
  {
    AttrsCopied(node.attrs, Allowed(al.nodeAttrs, node.kind));
    MarksCopied(al, node.marks);
    ContentCopied(al, node);
  }

  lemma ContentUnchanged(al: Allowlist, node: Node)
    requires forall i :: 0 <= i < |node.content| ==> (Sanitized(al, node.content[i]) == node.content[i] <==> Settled(al, node.content[i]))
    ensures ContentFixed(al, node) <==> forall c :: c in node.content ==> Settled(al, c)
  {
    if ContentFixed(al, node) {
      forall c | c in node.content ensures Settled(al, c) {
        var i :| 0 <= i < |node.content| && node.content[i] == c;
        assert Sanitized(al, node.content[i]) == node.content[i];
      }
    }
  }

  /** A conforming document comes back unchanged if and only if it carries allowed attributes only
      and its links are already as the walk would force them. */
  lemma {:induction false} UnchangedExactly(al: Allowlist, node: Node)
    requires AllowsForced(al) && Conforms(al, node)
    ensures Sanitized(al, node) == node <==> AttrsAllowed(al, node) && LinksForced(node)
    decreases node
  {
    forall i | 0 <= i < |node.content|
      ensures Sanitized(al, node.content[i]) == node.content[i] <==> Settled(al, node.content[i])
    {
      UnchangedExactly(al, node.content[i]);
    }
    NodeUnchanged(al, node);
    MarksUnchanged(al, node.marks);
    ContentUnchanged(al, node);
    SettledNode(al, node);
  }

  /** Of a mark's attributes those stay that the allowlist names, with their values; a link also has
      the forced `rel`, and the forced `target` unless one that counts was kept. */
  ghost predicate MarkKept(al: Allowlist, m: Mark, out: Mark) {
    && out.kind == m.kind
    && (forall k :: k in out.attrs <==>
          (k in m.attrs && Lists(al.markAttrs, m.kind, k)) || (m.kind == "link" && k in {"rel", "target"}))
    && (forall k :: k in out.attrs && !(m.kind == "link" && k in {"rel", "target"}) ==>
          k in m.attrs && out.attrs[k] == m.attrs[k])
    && (m.kind == "link" ==>
          && "rel" in out.attrs && out.attrs["rel"] == Str("noopener nofollow")
          && "target" in out.attrs && out.attrs["target"] ==
               if "target" in m.attrs && Lists(al.markAttrs, "link", "target") && !Falsy(m.attrs["target"])
               then m.attrs["target"] else Str("_blank"))
  }

  ghost predicate Kept(al: Allowlist, node: Node, out: Node)
    decreases node
  {
    && out.kind == node.kind && out.text == node.text
    && |out.marks| == |node.marks| && |out.content| == |node.content|
    && (forall k :: k in out.attrs <==> k in node.attrs && Lists(al.nodeAttrs, node.kind, k))
    && (forall k :: k in out.attrs && k in node.attrs ==> out.attrs[k] == node.attrs[k])
    && (forall i :: 0 <= i < |node.marks| ==> MarkKept(al, node.marks[i], out.marks[i]))
    && (forall i :: 0 <= i < |node.content| ==> Kept(al, node.content[i], out.content[i]))
  }

  lemma MarkKeeps(al: Allowlist, m: Mark)
    ensures MarkKept(al, m, CleanMark(al, m))
  {
  }

  lemma MarksKeep(al: Allowlist, marks: seq<Mark>)
    requires forall m :: m in marks ==> m.kind in al.marks
    ensures var out := CleanMarks(al, marks, |marks|);
      |out| == |marks| && forall i :: 0 <= i < |marks| ==> MarkKept(al, marks[i], out[i])
  {
    MarksTwice(al, marks, |marks|);
    forall i | 0 <= i < |marks| ensures MarkKept(al, marks[i], CleanMarks(al, marks, |marks|)[i]) {
      MarkKeeps(al, marks[i]);
    }
  }

  /** Of a conforming document nothing is lost but attributes the allowlist does not name, and nothing
      is added but what is forced on links. */
  lemma {:induction false} NothingElseLost(al: Allowlist, node: Node)
    requires Conforms(al, node)
    ensures Kept(al, node, Sanitized(al, node))
    decreases node
  {
    MarksKeep(al, node.marks);
    var content := SanitizedContent(al, node, |node.content|);
    forall i | 0 <= i < |node.content| ensures Kept(al, node.content[i], content[i]) {
      NothingElseLost(al, node.content[i]);
    }
  }

  /** The texts of a document in reading order. */
  ghost function Texts(node: Node): seq<string>
    decreases node, |node.content| + 1
  {
    (if node.text.Some? then [node.text.value] else []) + ContentTexts(node, |node.content|)
  }

  ghost function ContentTexts(node: Node, k: nat): seq<string>
    requires k <= |node.content|
    decreases node, k
  {
    if k == 0 then [] else ContentTexts(node, k - 1) + Texts(node.content[k - 1])
  }

  lemma {:induction false} TextKept(al: Allowlist, node: Node)
    requires Conforms(al, node)
    ensures Texts(Sanitized(al, node)) == Texts(node)
    decreases node, |node.content| + 1
  {
    ContentTextKept(al, node, |node.content|);
  }

  lemma {:induction false} ContentTextKept(al: Allowlist, node: Node, k: nat)
    requires Conforms(al, node) && k <= |node.content|
    ensures |Sanitized(al, node).content| == |node.content|
    ensures ContentTexts(Sanitized(al, node), k) == ContentTexts(node, k)
    decreases node, k
  {
    if k > 0 {
      ContentTextKept(al, node, k - 1);
      TextKept(al, node.content[k - 1]);
    }
  }

  // ---------------------------------------------------------------- paths as text

  ghost function StepText(s: PathStep): string {
    match s
    case Level => ".attrs.level"
    case MarkAt(i) => ".marks[" + Decimal(i) + "]"
    case Content(i) => ".content[" + Decimal(i) + "]"
  }

  ghost function StepsText(path: Path): string {
    if |path| == 0 then "" else StepText(path[0]) + StepsText(path[1..])
  }

  /** The `path` field of a reported violation. */
  ghost function Render(path: Path): string {
    "$" + StepsText(path)
  }

  lemma {:induction false} DigitsThenBracket(a: string, b: string, x: string, y: string)
    requires Lacks(a, ']') && Lacks(b, ']') && a + "]" + x == b + "]" + y
    ensures a == b && x == y
  {
    var s := a + "]" + x;
    assert s[|a|] == ']' && s[|b|] == ']';
    assert forall k :: 0 <= k < |a| ==> s[k] == a[k] && a[k] in a;
    assert forall k :: 0 <= k < |b| ==> s[k] == b[k] && b[k] in b;
    assert |a| == |b|;
    assert a == s[..|a|] && b == s[..|b|];
    assert x == s[|a| + 1..] && y == s[|b| + 1..];
  }

  lemma IndexText(open: string, i: nat, j: nat, x: string, y: string)
    requires (open + Decimal(i) + "]") + x == (open + Decimal(j) + "]") + y
    ensures i == j && x == y
  {
    DecimalDigits(i);
    DecimalDigits(j);
    var a, b := Decimal(i) + "]" + x, Decimal(j) + "]" + y;
    assert (open + Decimal(i) + "]") + x == open + a && (open + Decimal(j) + "]") + y == open + b;
    assert a == (open + a)[|open|..] && b == (open + b)[|open|..];
    DigitsThenBracket(Decimal(i), Decimal(j), x, y);
    DecimalInjective(i, j);
  }

  /** A step can be read off the front of a rendered path in only one way. */
  lemma StepTextUnique(s: PathStep, t: PathStep, x: string, y: string)
    requires StepText(s) + x == StepText(t) + y
    ensures s == t && x == y
  {
    var whole := StepText(s) + x;
    assert whole[1] == StepText(s)[1] && whole[1] == StepText(t)[1];
    match (s, t)
    case (Level, Level) =>
      assert x == whole[|".attrs.level"|..] && y == whole[|".attrs.level"|..];
    case (MarkAt(i), MarkAt(j)) => IndexText(".marks[", i, j, x, y);
    case (Content(i), Content(j)) => IndexText(".content[", i, j, x, y);
    case (_, _) =>
  }

  /** Two violations reported at one path text are at one place. */
  lemma {:induction false} RenderInjective(p: Path, q: Path)
    requires Render(p) == Render(q)
    ensures p == q
    decreases |p|
  {
    assert StepsText(p) == Render(p)[1..] && StepsText(q) == Render(q)[1..];
    if |p| > 0 && |q| > 0 {
      StepTextUnique(p[0], q[0], StepsText(p[1..]), StepsText(q[1..]));
      assert Render(p[1..]) == Render(q[1..]);
      RenderInjective(p[1..], q[1..]);
      assert p == [p[0]] + p[1..] && q == [q[0]] + q[1..];
    }
  }
}
