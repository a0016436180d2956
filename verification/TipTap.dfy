/** The TipTap sanitizer (`validate.ts`): one walk copies the document, keeping only what the
    allowlist names, and lists what it may not contain. An absent or empty attribute object, mark
    list or content list all walk alike, so the model has no separate absent value for them. */
module TipTap {
  import opened Json
  import opened Options

  datatype Mark = Mark(kind: string, attrs: map<string, Json>)
  datatype Node = Node(kind: string, attrs: map<string, Json>, marks: seq<Mark>, text: Option<string>, content: seq<Node>)

  datatype Allowlist = Allowlist(nodes: set<string>, marks: set<string>,
                                 nodeAttrs: map<string, set<string>>, markAttrs: map<string, set<string>>,
                                 maxBytes: nat, maxHeadingLevel: Option<int>)

  const FULL := Allowlist(
    {"doc", "paragraph", "heading", "bulletList", "orderedList", "listItem", "blockquote", "codeBlock", "image",
     "video", "embed", "horizontalRule", "hardBreak", "table", "tableRow", "tableCell", "tableHeader", "text"},
    {"bold", "italic", "underline", "strike", "code", "link", "highlight", "textStyle", "subscript", "superscript"},
    map["heading" := {"level"},
        "image" := {"src", "alt", "title", "width", "height"},
        "video" := {"src", "poster", "width", "height"},
        "embed" := {"src", "provider"},
        "codeBlock" := {"language"},
        "tableCell" := {"colspan", "rowspan", "colwidth"},
        "tableHeader" := {"colspan", "rowspan", "colwidth"}],
    map["link" := {"href", "target", "rel"}, "highlight" := {"color"}, "textStyle" := {"color"}],
    100 * 1024, Some(3))

  const LITE := Allowlist(
    {"doc", "paragraph", "bulletList", "orderedList", "listItem", "codeBlock", "hardBreak", "text", "mention", "image"},
    {"bold", "italic", "code", "link"},
    map["codeBlock" := {"language"}, "mention" := {"id", "label"}, "image" := {"src", "alt", "title"}],
    map["link" := {"href", "target", "rel"}],
    24 * 1024, None)

  /** A path into a document; it renders as `.content[i]`, `.marks[i]` and `.attrs.level`. */
  datatype PathStep = Level | MarkAt(i: nat) | Content(i: nat)
  type Path = seq<PathStep>
  datatype Code = NodeDisallowed | MarkDisallowed | LevelOutOfRange
  datatype Violation = Violation(path: Path, code: Code)

  // ---------------------------------------------------------------- what the walk computes

  predicate LevelBad(al: Allowlist, node: Node) {
    node.kind == "heading" && "level" in node.attrs && node.attrs["level"].Num? &&
    (node.attrs["level"].n < 1.0 || node.attrs["level"].n > al.maxHeadingLevel.GetOr(3) as real)
  }

  function Restricted(attrs: map<string, Json>, allowed: set<string>): map<string, Json> {
    map k | k in attrs && k in allowed :: attrs[k]
  }

  function Allowed(table: map<string, set<string>>, kind: string): set<string> {
    if kind in table then table[kind] else {}
  }

  const REL := Str("noopener nofollow")

  ghost function CleanMark(al: Allowlist, m: Mark): Mark {
    var attrs := Restricted(m.attrs, Allowed(al.markAttrs, m.kind));
    Mark(m.kind,
         if m.kind != "link" then attrs
         else attrs["rel" := REL]["target" := if "target" in attrs && Truthy(attrs["target"]) then attrs["target"] else Str("_blank")])
  }

  /** The marks kept of the first `k`. */
  ghost function CleanMarks(al: Allowlist, marks: seq<Mark>, k: nat): seq<Mark>
    requires k <= |marks|
  {
    if k == 0 then []
    else CleanMarks(al, marks, k - 1) + if marks[k - 1].kind in al.marks then [CleanMark(al, marks[k - 1])] else []
  }

  ghost function Sanitized(al: Allowlist, node: Node): Node
    decreases node, |node.content| + 1
  {
    if node.kind !in al.nodes then Node(node.kind, map[], [], None, [])
    else Node(node.kind, Restricted(node.attrs, Allowed(al.nodeAttrs, node.kind)),
              CleanMarks(al, node.marks, |node.marks|), node.text, SanitizedContent(al, node, |node.content|))
  }

  ghost function SanitizedContent(al: Allowlist, node: Node, k: nat): (r: seq<Node>)
    requires k <= |node.content|
    ensures |r| == k && forall i :: 0 <= i < k ==> r[i] == Sanitized(al, node.content[i])
    decreases node, k
  {
    if k == 0 then [] else SanitizedContent(al, node, k - 1) + [Sanitized(al, node.content[k - 1])]
  }

  /** Violations found below `path`. */
  ghost function At(path: Path, vs: seq<Violation>): seq<Violation> {
    seq(|vs|, i requires 0 <= i < |vs| => Violation(path + vs[i].path, vs[i].code))
  }

  ghost function LevelViolations(al: Allowlist, node: Node): seq<Violation> {
    if LevelBad(al, node) then [Violation([Level], LevelOutOfRange)] else []
  }

  ghost function MarkViolation(al: Allowlist, m: Mark, i: nat): seq<Violation> {
    if m.kind in al.marks then [] else [Violation([MarkAt(i)], MarkDisallowed)]
  }

  ghost function MarkViolations(al: Allowlist, marks: seq<Mark>, k: nat): seq<Violation>
    requires k <= |marks|
  {
    if k == 0 then []
    else MarkViolations(al, marks, k - 1) + MarkViolation(al, marks[k - 1], k - 1)
  }

  ghost function OwnViolations(al: Allowlist, node: Node): seq<Violation> {
    LevelViolations(al, node) + MarkViolations(al, node.marks, |node.marks|)
  }

  ghost function Violations(al: Allowlist, node: Node): seq<Violation>
    decreases node, |node.content| + 1
  {
    if node.kind !in al.nodes then [Violation([], NodeDisallowed)]
    else OwnViolations(al, node) + ContentViolations(al, node, |node.content|)
  }

  ghost function ContentViolations(al: Allowlist, node: Node, k: nat): seq<Violation>
    requires k <= |node.content|
    decreases node, k
  {
    if k == 0 then []
    else ContentViolations(al, node, k - 1) + At([Content(k - 1)], Violations(al, node.content[k - 1]))
  }

  // ---------------------------------------------------------------- the walk

  class WalkState {
    const allowlist: Allowlist
    var violations: seq<Violation>

    constructor (allowlist: Allowlist)
      ensures this.allowlist == allowlist && violations == []
    {
      this.allowlist, violations := allowlist, [];
    }

    method Push(path: Path, code: Code)
      modifies this
      ensures violations == old(violations) + [Violation(path, code)]
    {
      violations := violations + [Violation(path, code)];
    }
  }

  /** `for (const [k, v] of Object.entries(attrs)) if (allowed.has(k)) filtered[k] = v`. */
  method FilterAttrs(attrs: map<string, Json>, allowed: set<string>) returns (filtered: map<string, Json>)
    ensures filtered == Restricted(attrs, allowed)
  {
    filtered := map[];
    var todo := attrs.Keys;
    while todo != {}
      invariant todo <= attrs.Keys
      invariant filtered == map k | k in attrs && k !in todo && k in allowed :: attrs[k]
      decreases todo
    {
      var k :| k in todo;
      if k in allowed {
        filtered := filtered[k := attrs[k]];
      }
      todo := todo - {k};
    }
  }

  method CleanAttrs(al: Allowlist, m: Mark) returns (attrs: map<string, Json>)
    ensures attrs == CleanMark(al, m).attrs
  {
    attrs := map[];
    if m.kind in al.markAttrs {
      attrs := FilterAttrs(m.attrs, al.markAttrs[m.kind]);
    } else {
      assert Restricted(m.attrs, {}) == map[];
    }
    if m.kind == "link" {
      ghost var kept := attrs;
      attrs := attrs["rel" := REL];
      if !("target" in attrs && Truthy(attrs["target"])) {
        attrs := attrs["target" := Str("_blank")];
      }
      assert "target" in attrs && attrs["target"] == CleanMark(al, m).attrs["target"];
      assert attrs == CleanMark(al, m).attrs;
    }
  }

  method WalkMarks(node: Node, path: Path, state: WalkState) returns (safe: seq<Mark>)
    modifies state
    ensures safe == CleanMarks(state.allowlist, node.marks, |node.marks|)
    ensures state.violations == old(state.violations) + At(path, MarkViolations(state.allowlist, node.marks, |node.marks|))
  {
    safe := [];
    var i := 0;
    while i < |node.marks|
      invariant i <= |node.marks|
      invariant safe == CleanMarks(state.allowlist, node.marks, i)
      invariant state.violations == old(state.violations) + At(path, MarkViolations(state.allowlist, node.marks, i))
    {
      var mark := node.marks[i];
      if mark.kind in state.allowlist.marks {
        var attrs := CleanAttrs(state.allowlist, mark);
        safe := safe + [Mark(mark.kind, attrs)];
      } else {
        state.Push(path + [MarkAt(i)], MarkDisallowed);
      }
      i := i + 1;
    }
  }

  method Walk(node: Node, path: Path, state: WalkState) returns (out: Node)
    modifies state
    ensures out == Sanitized(state.allowlist, node)
    ensures state.violations == old(state.violations) + At(path, Violations(state.allowlist, node))
    decreases node, 1
  {
    ghost var al := state.allowlist;
    out := Node(node.kind, map[], [], None, []);
    if node.kind !in state.allowlist.nodes {
      assert path + [] == path;
      state.Push(path, NodeDisallowed);
      return;
    }
    CheckHeading(node, path, state);
    var attrs: map<string, Json> := map[];
    if node.kind in state.allowlist.nodeAttrs {
      attrs := FilterAttrs(node.attrs, state.allowlist.nodeAttrs[node.kind]);
    } else {
      assert Restricted(node.attrs, {}) == map[];
    }
    var marks := WalkMarks(node, path, state);
    var content := WalkContent(node, path, state);
    out := Node(node.kind, attrs, marks, node.text, content);
    AtGrow(old(state.violations), path, LevelViolations(al, node), MarkViolations(al, node.marks, |node.marks|));
    AtGrow(old(state.violations), path, OwnViolations(al, node), ContentViolations(al, node, |node.content|));
  }

  method CheckHeading(node: Node, path: Path, state: WalkState)
    modifies state
    ensures state.violations == old(state.violations) + At(path, LevelViolations(state.allowlist, node))
  {
    if node.kind == "heading" && "level" in node.attrs && node.attrs["level"].Num? {
      var max := state.allowlist.maxHeadingLevel.GetOr(3);
      if node.attrs["level"].n < 1.0 || node.attrs["level"].n > max as real {
        state.Push(path + [Level], LevelOutOfRange);
      }
    }
  }

  method WalkContent(node: Node, path: Path, state: WalkState) returns (content: seq<Node>)
    modifies state
    ensures content == SanitizedContent(state.allowlist, node, |node.content|)
    ensures state.violations == old(state.violations) + At(path, ContentViolations(state.allowlist, node, |node.content|))
    decreases node, 0
  {
    content := [];
    var i := 0;
    while i < |node.content|
      invariant i <= |node.content|
      invariant content == SanitizedContent(state.allowlist, node, i)
      invariant state.violations == old(state.violations) + At(path, ContentViolations(state.allowlist, node, i))
    {
      var child := Walk(node.content[i], path + [Content(i)], state);
      AtAt(path, [Content(i)], Violations(state.allowlist, node.content[i]));
      AtGrow(old(state.violations), path, ContentViolations(state.allowlist, node, i),
             At([Content(i)], Violations(state.allowlist, node.content[i])));
      content := content + [child];
      i := i + 1;
    }
  }

  /** What arrives from a client: possibly no object at all; `bytes` is its serialized size. */
  datatype Input = NotAnObject | Document(root: Node, bytes: nat)
  datatype Rejection = NotObject | TooLarge | WrongRoot | Disallowed(violations: seq<Violation>)

  method ValidateTipTap(doc: Input, al: Allowlist) returns (r: Result<Node, Rejection>)
    ensures r == match doc
      case NotAnObject => Err(NotObject)
      case Document(root, bytes) =>
        if bytes > al.maxBytes then Err(TooLarge)
        else if root.kind != "doc" then Err(WrongRoot)
        else if Violations(al, root) != [] then Err(Disallowed(Violations(al, root)))
        else Ok(Sanitized(al, root))
  {
    if doc.NotAnObject? {
      return Err(NotObject);
    }
    if doc.bytes > al.maxBytes {
      return Err(TooLarge);
    }
    if doc.root.kind != "doc" {
      return Err(WrongRoot);
    }
    var state := new WalkState(al);
    var sanitized := Walk(doc.root, [], state);
    AtRoot(Violations(al, doc.root));
    assert state.violations == Violations(al, doc.root);
    if |state.violations| > 0 {
      return Err(Disallowed(state.violations));
    }
    return Ok(sanitized);
  }

  lemma AtRoot(vs: seq<Violation>)
    ensures At([], vs) == vs
  {
    forall i | 0 <= i < |vs| ensures At([], vs)[i] == vs[i] {
      assert [] + vs[i].path == vs[i].path;
    }
  }

  lemma AtAt(p: Path, q: Path, vs: seq<Violation>)
    ensures At(p, At(q, vs)) == At(p + q, vs)
  {
    forall i | 0 <= i < |vs| ensures At(p, At(q, vs))[i] == At(p + q, vs)[i] {
      assert p + (q + vs[i].path) == p + q + vs[i].path;
    }
  }

  lemma AtGrow(before: seq<Violation>, p: Path, a: seq<Violation>, b: seq<Violation>)
    ensures before + At(p, a) + At(p, b) == before + At(p, a + b)
  {
  }
}
