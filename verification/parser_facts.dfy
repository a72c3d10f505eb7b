/** What the loop of `HTMLParser.parse` does to `currentNode` and the tree,
    one token at a time and over a whole token list. */
module ParserFacts {
  import opened Tokens
  import opened Dom
  import opened Parser

  /** An open tag appends an empty element as the last child of
      `currentNode` and makes that element the new `currentNode`. */
  lemma OpenEnters(b: Builder, name: string, attrs: seq<Attribute>)
    requires Inv(b)
    ensures
      var r := Step(b, TagOpen(name, attrs));
      && r.depth == b.depth + 1
      && r.tree == AppendAt(b.tree, b.depth, Node(Element, name, attrs, []))
      && SpineAt(r.tree, r.depth) == Node(Element, name, attrs, [])
      && SpineAt(r.tree, b.depth).children == SpineAt(b.tree, b.depth).children + [Node(Element, name, attrs, [])]
  {
  }

  /** Text and comments append a childless node to `currentNode`, which
      stays where it is. */
  lemma LeafStays(b: Builder, t: Token)
    requires Inv(b) && (t.Text? || t.Comment?)
    ensures
      var r := Step(b, t);
      && r.depth == b.depth
      && r.tree == AppendAt(b.tree, b.depth, NodeOf(t))
      && NodeOf(t).children == []
      && SpineAt(r.tree, b.depth).children == SpineAt(b.tree, b.depth).children + [NodeOf(t)]
  {
  }

  /** A close tag moves `currentNode` to its parent, whatever its name, and
      leaves the tree alone. */
  lemma CloseIgnoresName(b: Builder, name: string, other: string)
    requires Inv(b) && b.depth > 0
    ensures Step(b, TagClose(name)) == Builder(b.tree, b.depth - 1)
    ensures Step(b, TagClose(name)) == Step(b, TagClose(other))
  {
  }

  /** A close tag at the root changes nothing: the root has no parent. */
  lemma CloseAtRoot(t: Node, name: string)
    requires Inv(Builder(t, 0))
    ensures Step(Builder(t, 0), TagClose(name)) == Builder(t, 0)
  {
  }

  /** A doctype token is dropped. */
  lemma DoctypeDropped(b: Builder, v: string)
    requires Inv(b)
    ensures Step(b, Doctype(v)) == b
  {
  }

  /** An open tag closed right away leaves an empty element behind and
      `currentNode` where it was. */
  lemma EmptyElement(b: Builder, name: string, attrs: seq<Attribute>)
    requires Inv(b)
    ensures
      var r := Step(Step(b, TagOpen(name, attrs)), TagClose(name));
      r == Builder(AppendAt(b.tree, b.depth, Node(Element, name, attrs, [])), b.depth)
  {
    OpenEnters(b, name, attrs);
  }

  function Opens(ts: seq<Token>): nat {
    if ts == [] then 0 else (if ts[0].TagOpen? then 1 else 0) + Opens(ts[1..])
  }

  function Closes(ts: seq<Token>): nat {
    if ts == [] then 0 else (if ts[0].TagClose? then 1 else 0) + Closes(ts[1..])
  }

  /** Starting at depth `d`, no prefix of `ts` has more close tags than
      `d` plus its open tags. */
  predicate Balanced(d: nat, ts: seq<Token>)
    decreases |ts|
  {
    ts == [] ||
      if ts[0].TagOpen? then Balanced(d + 1, ts[1..])
      else if ts[0].TagClose? then d > 0 && Balanced(d - 1, ts[1..])
      else Balanced(d, ts[1..])
  }

  /** When no close tag meets the root, the depth of `currentNode` after the
      loop is the start depth plus the open tags minus the close tags. */
  lemma {:induction false} DepthIsBalance(b: Builder, ts: seq<Token>)
    requires Inv(b) && Balanced(b.depth, ts)
    ensures BuildFrom(b, ts).depth == b.depth + Opens(ts) - Closes(ts)
    decreases |ts|
  {
    if ts != [] {
      var s := Step(b, ts[0]);
      DepthIsBalance(s, ts[1..]);
    }
  }

  /** `currentNode` never goes deeper than the open tags take it. */
  lemma {:induction false} DepthAtMostOpens(b: Builder, ts: seq<Token>)
    requires Inv(b)
    ensures BuildFrom(b, ts).depth <= b.depth + Opens(ts)
    decreases |ts|
  {
    if ts != [] {
      DepthAtMostOpens(Step(b, ts[0]), ts[1..]);
    }
  }

  /** The number of nodes of a tree. */
  function Size(n: Node): nat
    decreases n, 1
  {
    1 + SizeAll(n.children)
  }

  function SizeAll(cs: seq<Node>): nat
    decreases cs, 0
  {
    if cs == [] then 0 else SizeAll(cs[..|cs| - 1]) + Size(cs[|cs| - 1])
  }

  /** The walk lists every node once. */
  lemma {:induction false} WalkSize(n: Node, d: nat)
    ensures |Walk(n, d)| == Size(n)
    decreases n, 1
  {
    WalkAllSize(n.children, d + 1);
  }

  lemma {:induction false} WalkAllSize(cs: seq<Node>, d: nat)
    ensures |WalkAll(cs, d)| == SizeAll(cs)
    decreases cs, 0
  {
    if cs != [] {
      WalkAllSize(cs[..|cs| - 1], d);
      WalkSize(cs[|cs| - 1], d);
    }
  }

  /** Each token adds at most one entry; only close tags and doctypes add
      none. */
  lemma {:induction false} TokenEntriesLength(ts: seq<Token>, d: nat)
    ensures |TokenEntries(ts, d)| <= |ts|
    ensures |TokenEntries(ts, d)| == |ts| <==> forall t :: t in ts ==> !t.TagClose? && !t.Doctype?
    decreases |ts|
  {
    if ts != [] {
      TokenEntriesLength(ts[1..], NextDepth(ts[0], d));
      assert forall t :: t in ts <==> t == ts[0] || t in ts[1..];
    }
  }

  /** The tree has the root plus one node per open tag, text and comment. */
  lemma NodeCount(ts: seq<Token>)
    ensures Size(Build(ts)) == 1 + |TokenEntries(ts, 0)|
    ensures Size(Build(ts)) <= 1 + |ts|
  {
    WalkSize(Build(ts), 0);
    TokenEntriesLength(ts, 0);
  }
}

/** Whole documents run through the tokenizer and the tree builder. */
module Examples {
  import opened Outcomes
  import opened Tokens
  import opened Dom
  import opened Parser
  import ParserFacts
  import TokenizerExamples

  /** The loop over a non-empty token list is one step and then the loop
      over the rest. */
  lemma BuildFromStep(b: Builder, ts: seq<Token>)
    requires Inv(b) && ts != []
    ensures BuildFrom(b, ts) == BuildFrom(Parser.Step(b, ts[0]), ts[1..])
  {
  }

  /** An open tag at the root makes the new element the root's only child
      and the current node. */
  lemma OpenAtRoot(name: string, attrs: seq<Attribute>)
    ensures Parser.Step(Builder(RootNode(), 0), TagOpen(name, attrs)) ==
      Builder(Node(Root, "root", [], [Node(Element, name, attrs, [])]), 1)
  {
    ParserFacts.OpenEnters(Builder(RootNode(), 0), name, attrs);
    assert [] + [Node(Element, name, attrs, [])] == [Node(Element, name, attrs, [])];
  }

  /** A text inside the root's only child becomes that child's last child. */
  lemma TextInChild(e: Node, v: string)
    requires Inv(Builder(Node(Root, "root", [], [e]), 1))
    ensures Parser.Step(Builder(Node(Root, "root", [], [e]), 1), Text(v)) ==
      Builder(Node(Root, "root", [], [e.(children := e.children + [Node(TextNode, v, [], [])])]), 1)
  {
    var b := Builder(Node(Root, "root", [], [e]), 1);
    ParserFacts.LeafStays(b, Text(v));
    assert [e][..0] == [];
  }

  /** An open tag, a text and its close tag build the root holding the
      element holding the text. */
  lemma ElementBuild(name: string, attrs: seq<Attribute>, v: string)
    ensures Build([TagOpen(name, attrs), Text(v), TagClose(name)]) ==
      Node(Root, "root", [], [Node(Element, name, attrs, [Node(TextNode, v, [], [])])])
  {
    var ts := [TagOpen(name, attrs), Text(v), TagClose(name)];
    var e := Node(Element, name, attrs, []);
    var b0 := Builder(RootNode(), 0);
    var b1 := Parser.Step(b0, ts[0]);
    OpenAtRoot(name, attrs);
    var b2 := Parser.Step(b1, ts[1]);
    TextInChild(e, v);
    assert e.children + [Node(TextNode, v, [], [])] == [Node(TextNode, v, [], [])];
    var b3 := Parser.Step(b2, ts[2]);
    ParserFacts.CloseIgnoresName(b2, name, name);
    BuildFromStep(b0, ts);
    BuildFromStep(b1, ts[1..]);
    BuildFromStep(b2, ts[1..][1..]);
    assert ts[1..][1..][1..] == [];
  }

  /** A comment and then an open tag give the root a comment node and an
      element, side by side. */
  lemma CommentThenOpenBuild(c: string, name: string)
    ensures Build([Comment(c), TagOpen(name, [])]) ==
      Node(Root, "root", [], [Node(CommentNode, c, [], []), Node(Element, name, [], [])])
  {
    var ts := [Comment(c), TagOpen(name, [])];
    var k := Node(CommentNode, c, [], []);
    var b0 := Builder(RootNode(), 0);
    ParserFacts.LeafStays(b0, ts[0]);
    var b1 := Parser.Step(b0, ts[0]);
    assert b1 == Builder(Node(Root, "root", [], [k]), 0) by {
      assert [] + [k] == [k];
    }
    ParserFacts.OpenEnters(b1, name, []);
    var b2 := Parser.Step(b1, ts[1]);
    assert b2.tree == Node(Root, "root", [], [k, Node(Element, name, [], [])]) by {
      assert [k] + [Node(Element, name, [], [])] == [k, Node(Element, name, [], [])];
    }
    BuildFromStep(b0, ts);
    BuildFromStep(b1, ts[1..]);
    assert ts[1..][1..] == [];
  }

  /** `<!--a--><b><i>` parses to a comment and an `i` element under the
      root: the `<b>` is skipped with the comment's terminator. */
  lemma CommentEatsTagParse()
    ensures Parse("<!--a--><b><i>") ==
      Ok(Node(Root, "root", [], [Node(CommentNode, "a", [], []), Node(Element, "i", [], [])]))
  {
    TokenizerExamples.CommentEatsTag();
    CommentThenOpenBuild("a", "i");
  }
}
