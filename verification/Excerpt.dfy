/** The plain-text excerpt of a comment (`comments.service.ts`): the texts of the document joined
    by spaces and cut to a number of UTF-16 units, as JavaScript counts them, so that a cut may
    fall inside a surrogate pair. Sanitizing the document first changes nothing. */
module Excerpt {
  import opened Options
  import opened Text
  import opened TipTap
  import opened TipTapTheorems

  const EXCERPT_LENGTH := 140

  /** `words.join(' ')`, nothing for no words. */
  function JoinWords(words: seq<string>): string {
    if |words| == 0 then "" else Join(words, ' ')
  }

  /** The units of UTF-16 a string is made of: one up to 0xFFFF, else a surrogate pair. */
  function Units(s: string): seq<nat> {
    if |s| == 0 then []
    else
      var c := s[0] as nat;
      (if c < 0x1_0000 then [c] else [0xD800 + (c - 0x1_0000) / 0x400, 0xDC00 + (c - 0x1_0000) % 0x400]) + Units(s[1..])
  }

  /** `slice(0, 140)` counts units, and may part a surrogate pair. */
  function Clipped(s: string): seq<nat> {
    if |Units(s)| <= EXCERPT_LENGTH then Units(s) else Units(s)[..EXCERPT_LENGTH]
  }

  class Buffer {
    var words: seq<string>

    constructor ()
      ensures words == []
    {
      words := [];
    }

    method Collect(node: Node)
      modifies this
      ensures words == old(words) + Texts(node)
      decreases node
    {
      if node.text.Some? {
        words := words + [node.text.value];
      }
      var i := 0;
      while i < |node.content|
        invariant i <= |node.content|
        invariant words == old(words) + (if node.text.Some? then [node.text.value] else []) + ContentTexts(node, i)
      {
        Collect(node.content[i]);
        i := i + 1;
      }
    }
  }

  method ExcerptOf(doc: Node) returns (s: seq<nat>)
    ensures s == Clipped(JoinWords(Texts(doc)))
    ensures |s| == if |Units(JoinWords(Texts(doc)))| < 140 then |Units(JoinWords(Texts(doc)))| else 140
    ensures s <= Units(JoinWords(Texts(doc)))
    ensures Texts(doc) == [] ==> s == []
  {
    var buffer := new Buffer();
    buffer.Collect(doc);
    assert buffer.words == Texts(doc);
    s := Clipped(JoinWords(buffer.words));
  }

  /** The excerpt of the stored document is the excerpt of the submitted one. */
  lemma ExcerptKept(al: Allowlist, doc: Node)
    requires Conforms(al, doc)
    ensures Clipped(JoinWords(Texts(Sanitized(al, doc)))) == Clipped(JoinWords(Texts(doc)))
  {
    TextKept(al, doc);
  }

  /** The words can be told apart again at the spaces, if they have none themselves. */
  lemma WordsApart(words: seq<string>)
    requires |words| > 0 && forall w :: w in words ==> Lacks(w, ' ')
    ensures Split(JoinWords(words), ' ') == words
  {
    SplitJoin(words, ' ');
  }

  /** What UTF-16 text the units are: section 3.9 of the Unicode Standard. */
  function Points(units: seq<nat>): seq<nat> {
    if |units| == 0 then []
    else if |units| > 1 && 0xD800 <= units[0] < 0xDC00 && 0xDC00 <= units[1] < 0xE000 then
      [0x1_0000 + (units[0] - 0xD800) * 0x400 + (units[1] - 0xDC00)] + Points(units[2..])
    else [units[0]] + Points(units[1..])
  }

  /** The units of a string are those of its characters, in order. */
  lemma {:induction false} UnitsDecode(s: string)
    ensures |Points(Units(s))| == |s| && forall i :: 0 <= i < |s| ==> Points(Units(s))[i] == s[i] as nat
  {
    if |s| > 0 {
      UnitsDecode(s[1..]);
      var c, rest := s[0] as nat, Units(s[1..]);
      if c < 0x1_0000 {
        assert Units(s) == [c] + rest && Units(s)[1..] == rest;
      } else {
        assert Units(s)[2..] == rest;
      }
    }
  }
}
