/** `HTMLParser.parse` of `src/html-parser.mjs`. Each node the loop appends
    becomes the last child of `currentNode`, so `currentNode` always lies on
    the path of last children from the root, and a depth on that path stands
    for the pointer. */
module Parser {
  import opened Chars
  import opened Outcomes
  import opened Tokens
  import opened Dom
  import Tokenizer

  /** A node that never receives children: text and comments. */
  predicate IsLeaf(k: NodeType) {
    k == TextNode || k == CommentNode
  }

  /** Text and comment nodes have no children anywhere in the tree. */
  predicate Proper(n: Node)
    decreases n
  {
    (IsLeaf(n.kind) ==> n.children == []) && forall c :: c in n.children ==> Proper(c)
  }

  /** The number of steps along last children from `n`. */
  function SpineLength(n: Node): nat
    decreases n
  {
    if n.children == [] then 0 else 1 + SpineLength(n.children[|n.children| - 1])
  }

  /** The node `d` steps down the path of last children. */
  function SpineAt(n: Node, d: nat): Node
    requires d <= SpineLength(n)
    decreases d
  {
    if d == 0 then n else SpineAt(n.children[|n.children| - 1], d - 1)
  }

  /** An inner node of the last-child path has children, so in a proper tree
      it is the root or an element. */
  lemma {:induction false} SpineInner(n: Node, d: nat)
    requires Proper(n) && d < SpineLength(n)
    ensures !IsLeaf(SpineAt(n, d).kind)
    decreases d
  {
    if d > 0 {
      var last := n.children[|n.children| - 1];
      assert last in n.children;
      SpineInner(last, d - 1);
    }
  }

  /** `currentNode.children.push(child)` with `currentNode` `d` steps down the
      path of last children. */
  function AppendAt(n: Node, d: nat, child: Node): (r: Node)
    requires d <= SpineLength(n)
    ensures r.kind == n.kind && r.name == n.name && r.attributes == n.attributes
    ensures SpineLength(r) == d + 1 + SpineLength(child)
    ensures d < SpineLength(r) && SpineAt(r, d).children == SpineAt(n, d).children + [child]
    ensures d < SpineLength(r) && SpineAt(r, d).kind == SpineAt(n, d).kind
    ensures d + 1 <= SpineLength(r) && SpineAt(r, d + 1) == child
    decreases d
  {
    if d == 0 then
      n.(children := n.children + [child])
    else
      var k := |n.children| - 1;
      n.(children := n.children[..k] + [AppendAt(n.children[k], d - 1, child)])
  }

  /** A node without its children. */
  datatype Label = Label(kind: NodeType, name: string, attributes: seq<Attribute>)

  function LabelOf(n: Node): Label {
    Label(n.kind, n.name, n.attributes)
  }

  /** An entry of the pre-order walk: a node without its children, and its
      depth below the root. */
  datatype Entry = Entry(node: Label, depth: nat)

  /** The entries of the tree `n`, whose root lies at depth `d`, in document
      (pre-)order. */
  function Walk(n: Node, d: nat): seq<Entry>
    decreases n, 1
  {
    [Entry(LabelOf(n), d)] + WalkAll(n.children, d + 1)
  }

  /** The walks of a list of siblings at depth `d`, one after the other. */
  function WalkAll(cs: seq<Node>, d: nat): seq<Entry>
    decreases cs, 0
  {
    if cs == [] then [] else WalkAll(cs[..|cs| - 1], d) + Walk(cs[|cs| - 1], d)
  }

  /** A walk starts with its root at depth `d`; every later entry is deeper. */
  lemma {:induction false} WalkDepths(n: Node, d: nat)
    ensures Walk(n, d)[0] == Entry(LabelOf(n), d)
    ensures forall k :: 1 <= k < |Walk(n, d)| ==> Walk(n, d)[k].depth > d
    decreases n, 1
  {
    WalkAllDepths(n.children, d + 1);
  }

  lemma {:induction false} WalkAllDepths(cs: seq<Node>, d: nat)
    ensures forall k :: 0 <= k < |WalkAll(cs, d)| ==> WalkAll(cs, d)[k].depth >= d
    decreases cs, 0
  {
    if cs != [] {
      var a: seq<Entry> := WalkAll(cs[..|cs| - 1], d);
      var w: seq<Entry> := Walk(cs[|cs| - 1], d);
      WalkAllDepths(cs[..|cs| - 1], d);
      WalkDepths(cs[|cs| - 1], d);
      forall k | 0 <= k < |a + w|
        ensures (a + w)[k].depth >= d
      {
        if k >= |a| {
          assert (a + w)[k] == w[k - |a|];
        } else {
          assert (a + w)[k] == a[k];
        }
      }
    }
  }

  /** The walk with depths determines the tree: two trees with the same walk
      are equal. */
  lemma {:induction false} WalkUnique(a: Node, b: Node, d: nat)
    requires Walk(a, d) == Walk(b, d)
    ensures a == b
    decreases a, 1
  {
    assert Walk(a, d)[0] == Walk(b, d)[0];
    assert WalkAll(a.children, d + 1) == Walk(a, d)[1..] == Walk(b, d)[1..] == WalkAll(b.children, d + 1);
    WalkAllUnique(a.children, b.children, d + 1);
  }

  /** Two ways of writing one walk as a prefix followed by a subtree's walk
      at depth `d` agree on where the subtree starts. */
  lemma RootSplit(a: seq<Entry>, x: seq<Entry>, b: seq<Entry>, y: seq<Entry>, d: nat)
    requires a + x == b + y
    requires |x| >= 1 && x[0].depth == d && forall k :: 1 <= k < |x| ==> x[k].depth > d
    requires |y| >= 1 && y[0].depth == d && forall k :: 1 <= k < |y| ==> y[k].depth > d
    ensures |a| == |b|
  {
    var w := a + x;
    assert w[|b|] == y[0] && w[|a|] == x[0];
    assert (b + y)[|a|] == w[|a|];
  }

  /** The walk of a list of siblings determines the list: each sibling's walk
      starts at the next entry of depth `d`. */
  lemma {:induction false} WalkAllUnique(cs: seq<Node>, ds: seq<Node>, d: nat)
    requires WalkAll(cs, d) == WalkAll(ds, d)
    ensures cs == ds
    decreases cs, 0
  {
    if cs != [] && ds != [] {
      var ci, cl := cs[..|cs| - 1], cs[|cs| - 1];
      var di, dl := ds[..|ds| - 1], ds[|ds| - 1];
      var a, b := WalkAll(ci, d), WalkAll(di, d);
      var w := a + Walk(cl, d);
      assert w == b + Walk(dl, d);
      WalkDepths(cl, d);
      WalkDepths(dl, d);
      RootSplit(a, Walk(cl, d), b, Walk(dl, d), d);
      assert a == w[..|a|] == b;
      assert Walk(cl, d) == w[|a|..] == Walk(dl, d);
      WalkAllUnique(ci, di, d);
      WalkUnique(cl, dl, d);
      assert cs == ci + [cl] && ds == di + [dl];
    }
  }

  /** The position the node appended `d` steps down the last-child path
      takes: after the current last child. */
  function NewPath(n: Node, d: nat): Path
    requires d <= SpineLength(n)
    decreases d
  {
    if d == 0 then [|n.children|]
    else [|n.children| - 1] + NewPath(n.children[|n.children| - 1], d - 1)
  }

  /** `r` is `n` with `child` put at position `np`, and nothing else changed,
      as far as the position `p` can tell: `p` is a node of `r` exactly when
      it is a node of `n` or of the new subtree; a node of `n` keeps its
      label and lies outside the new subtree; a node of the new subtree is
      the node of `child` at the rest of the path. */
  predicate Framed(n: Node, r: Node, np: Path, child: Node, p: Path) {
    && (ValidPath(r, p) <==> ValidPath(n, p) || (np <= p && ValidPath(child, p[|np|..])))
    && (ValidPath(n, p) ==> ValidPath(r, p) && !(np <= p) && LabelOf(At(r, p)) == LabelOf(At(n, p)))
    && (np <= p && ValidPath(child, p[|np|..]) ==> ValidPath(r, p) && At(r, p) == At(child, p[|np|..]))
  }

  /** Appending a child to `n` itself. */
  lemma HereFrame(n: Node, child: Node, p: Path)
    ensures Framed(n, n.(children := n.children + [child]), [|n.children|], child, p)
  {
    var r := n.(children := n.children + [child]);
    var cs := n.children;
    if p != [] {
      var i, q := p[0], p[1..];
      if i < |cs| {
        assert r.children[i] == cs[i];
      } else if i == |cs| {
        assert r.children[i] == child;
        assert p[1..] == q;
      }
    }
  }

  /** A change inside the last child of `n` that leaves the other children
      alone is a change of `n` at the same position one level down. */
  lemma DownFrame(n: Node, r: Node, np: Path, child: Node, p: Path)
    requires |n.children| >= 1 && |r.children| == |n.children| && LabelOf(r) == LabelOf(n)
    requires r.children[..|n.children| - 1] == n.children[..|n.children| - 1]
    requires p != [] && p[0] == |n.children| - 1 ==>
      Framed(n.children[|n.children| - 1], r.children[|n.children| - 1], np, child, p[1..])
    ensures Framed(n, r, [|n.children| - 1] + np, child, p)
  {
    var k := |n.children| - 1;
    if p != [] {
      var i, q := p[0], p[1..];
      if i < k {
        assert r.children[i] == r.children[..k][i] == n.children[i];
      } else if i == k {
        assert [k] + np <= p <==> np <= q;
        if np <= q {
          assert p[|[k] + np|..] == q[|np|..];
        }
      }
    }
  }

  /** Appending changes nothing else: every node of `n` keeps its position and
      label, no old position lies in the new subtree, and the only new
      positions are those of the appended subtree. */
  lemma {:induction false} AppendAtFrame(n: Node, d: nat, child: Node, p: Path)
    requires d <= SpineLength(n)
    ensures Framed(n, AppendAt(n, d, child), NewPath(n, d), child, p)
    decreases d
  {
    if d == 0 {
      HereFrame(n, child, p);
    } else {
      var cs := n.children;
      var k := |cs| - 1;
      var r := AppendAt(n, d, child);
      assert r.children == cs[..k] + [AppendAt(cs[k], d - 1, child)];
      if p != [] && p[0] == k {
        AppendAtFrame(cs[k], d - 1, child, p[1..]);
      }
      DownFrame(n, r, NewPath(cs[k], d - 1), child, p);
    }
  }

  /** The appended subtree comes last in the walk, one level below the node
      it was appended to. */
  lemma {:induction false} AppendAtLabels(n: Node, d: nat, child: Node, e: nat)
    requires d <= SpineLength(n)
    ensures Walk(AppendAt(n, d, child), e) == Walk(n, e) + Walk(child, e + d + 1)
    decreases d
  {
    var r := AppendAt(n, d, child);
    var cs := n.children;
    var rc := r.children;
    var w := Walk(child, e + d + 1);
    if d == 0 {
      assert rc[..|cs|] == cs && rc[|cs|] == child;
      assert WalkAll(rc, e + 1) == WalkAll(cs, e + 1) + w;
      EntriesAppend([Entry(LabelOf(n), e)], WalkAll(cs, e + 1), w);
    } else {
      var k := |cs| - 1;
      var last := AppendAt(cs[k], d - 1, child);
      AppendAtLabels(cs[k], d - 1, child, e + 1);
      assert rc[..k] == cs[..k] && rc[k] == last;
      assert WalkAll(rc, e + 1) == WalkAll(cs[..k], e + 1) + (Walk(cs[k], e + 1) + w);
      EntriesAppend(WalkAll(cs[..k], e + 1), Walk(cs[k], e + 1), w);
      EntriesAppend([Entry(LabelOf(n), e)], WalkAll(cs, e + 1), w);
    }
  }

  /** Appending a proper subtree below a node that is not text or a comment
      keeps the tree proper. */
  lemma {:induction false} AppendAtProper(n: Node, d: nat, child: Node)
    requires d <= SpineLength(n) && Proper(n) && Proper(child)
    requires !IsLeaf(SpineAt(n, d).kind)
    ensures Proper(AppendAt(n, d, child))
    decreases d
  {
    var r := AppendAt(n, d, child);
    if d == 0 {
      forall c | c in r.children
        ensures Proper(c)
      {
        if c != child {
          assert c in n.children;
        }
      }
    } else {
      var k := |n.children| - 1;
      assert n.children[k] in n.children;
      AppendAtProper(n.children[k], d - 1, child);
      forall c | c in r.children
        ensures Proper(c)
      {
        if c != r.children[k] {
          assert c in n.children[..k];
        }
      }
    }
  }

  /** The loop state: the tree built so far and the depth of `currentNode`. */
  datatype Builder = Builder(tree: Node, depth: nat)

  /** `currentNode` is a node of the last-child path that can take children,
      and leaves stay childless. */
  predicate Inv(b: Builder) {
    b.depth <= SpineLength(b.tree) && Proper(b.tree) && !IsLeaf(SpineAt(b.tree, b.depth).kind)
  }

  /** Moving `currentNode` to its parent keeps it on the tree and able to
      take children. */
  lemma SpineUp(b: Builder)
    requires Inv(b) && b.depth > 0
    ensures Inv(Builder(b.tree, b.depth - 1))
  {
    SpineInner(b.tree, b.depth - 1);
  }

  /** The depth of `currentNode` after the token `t`, starting at `d`: an
      open tag enters the new element, a close tag moves to the parent (the
      root has none), anything else stays. */
  function NextDepth(t: Token, d: nat): nat {
    match t
    case TagOpen(_, _) => d + 1
    case TagClose(_) => if d > 0 then d - 1 else 0
    case _ => d
  }

  /** The walk entries one token adds with `currentNode` at depth `d`: a node
      one level below it for an open tag, a text or a comment, nothing for a
      close tag or a doctype. */
  function TokenEntry(t: Token, d: nat): seq<Entry> {
    match t
    case TagOpen(name, attrs) => [Entry(Label(Element, name, attrs), d + 1)]
    case Text(v) => [Entry(Label(TextNode, v, []), d + 1)]
    case Comment(v) => [Entry(Label(CommentNode, v, []), d + 1)]
    case TagClose(_) => []
    case Doctype(_) => []
  }

  /** The entries of a token list read with `currentNode` starting at depth
      `d`: the depth follows the open and close tags seen so far. */
  function TokenEntries(ts: seq<Token>, d: nat): seq<Entry>
    decreases |ts|
  {
    if ts == [] then [] else TokenEntry(ts[0], d) + TokenEntries(ts[1..], NextDepth(ts[0], d))
  }

  /** The node a token appends: an element (entered next) for an open tag, a
      leaf for text and comments. */
  function NodeOf(t: Token): Node
    requires t.TagOpen? || t.Text? || t.Comment?
  {
    match t
    case TagOpen(name, attrs) => Node(Element, name, attrs, [])
    case Text(v) => Node(TextNode, v, [], [])
    case Comment(v) => Node(CommentNode, v, [], [])
  }

  /** One iteration of the loop of `parse`: the walk grows by the token's
      entry one level below `currentNode`, and `currentNode` moves as the
      open and close tags say. */
  function Step(b: Builder, t: Token): (r: Builder)
    requires Inv(b)
    ensures Inv(r)
    ensures r.depth == NextDepth(t, b.depth)
    ensures Walk(r.tree, 0) == Walk(b.tree, 0) + TokenEntry(t, b.depth)
    ensures LabelOf(r.tree) == LabelOf(b.tree)
  {
    if t.TagClose? then
      if b.depth > 0 then SpineUp(b); Builder(b.tree, b.depth - 1) else b
    else if t.Doctype? then
      b
    else
      AppendStep(b, t);
      Builder(AppendAt(b.tree, b.depth, NodeOf(t)), if t.TagOpen? then b.depth + 1 else b.depth)
  }

  /** An open tag, a text or a comment appends its node below `currentNode`;
      an open tag then enters it. */
  lemma AppendStep(b: Builder, t: Token)
    requires Inv(b) && (t.TagOpen? || t.Text? || t.Comment?)
    ensures
      var r := Builder(AppendAt(b.tree, b.depth, NodeOf(t)), if t.TagOpen? then b.depth + 1 else b.depth);
      && Inv(r)
      && Walk(r.tree, 0) == Walk(b.tree, 0) + TokenEntry(t, b.depth)
      && LabelOf(r.tree) == LabelOf(b.tree)
  {
    var e := NodeOf(t);
    NodeOfFacts(t, b.depth);
    AppendAtLabels(b.tree, b.depth, e, 0);
    AppendAtProper(b.tree, b.depth, e);
  }

  /** The node a token adds is a proper childless node whose walk is the
      token's entry. */
  lemma NodeOfFacts(t: Token, d: nat)
    requires t.TagOpen? || t.Text? || t.Comment?
    ensures NodeOf(t).children == [] && Proper(NodeOf(t)) && SpineLength(NodeOf(t)) == 0
    ensures Walk(NodeOf(t), d + 1) == TokenEntry(t, d)
    ensures t.TagOpen? <==> !IsLeaf(NodeOf(t).kind)
  {
    assert WalkAll([], d + 2) == [];
  }

  lemma EntriesAppend(a: seq<Entry>, b: seq<Entry>, c: seq<Entry>)
    ensures (a + b) + c == a + (b + c)
  {
  }

  /** The loop of `parse` over the remaining tokens. */
  function BuildFrom(b: Builder, ts: seq<Token>): (r: Builder)
    requires Inv(b)
    ensures Inv(r)
    ensures Walk(r.tree, 0) == Walk(b.tree, 0) + TokenEntries(ts, b.depth)
    ensures LabelOf(r.tree) == LabelOf(b.tree)
    decreases |ts|
  {
    if ts == [] then b
    else
      var s := Step(b, ts[0]);
      var r := BuildFrom(s, ts[1..]);
      EntriesAppend(Walk(b.tree, 0), TokenEntry(ts[0], b.depth), TokenEntries(ts[1..], s.depth));
      r
  }

  /** The root node `new HTMLNode('root', 'root')`. */
  function RootNode(): Node {
    Node(Root, "root", [], [])
  }

  /** `parse()` on a list of tokens: the root, whose walk after the root lists
      the open-tag, text and comment tokens in order, each one level below the
      open tags still unclosed before it; leaves stay childless. */
  function Build(ts: seq<Token>): (r: Node)
    ensures r.kind == Root && r.name == "root" && r.attributes == []
    ensures Walk(r, 0) == [Entry(LabelOf(RootNode()), 0)] + TokenEntries(ts, 0)
    ensures Proper(r)
  {
    BuildFrom(Builder(RootNode(), 0), ts).tree
  }

  /** The tree `parse()` builds is the only tree with that walk: the walk of
      `Build` pins down every node's children. */
  lemma BuildUnique(ts: seq<Token>, t: Node)
    requires Walk(t, 0) == [Entry(LabelOf(RootNode()), 0)] + TokenEntries(ts, 0)
    ensures t == Build(ts)
  {
    WalkUnique(t, Build(ts), 0);
  }

  /** `new HTMLParser(html).parse()`: fails exactly when tokenizing fails,
      and otherwise builds the tree from the tokens. */
  function Parse(html: string): (r: Result<Node>)
    ensures r.Err? <==> Tokenizer.Tokenize(html).Err?
    ensures r.Ok? ==>
      && r.value.kind == Root && r.value.name == "root" && r.value.attributes == []
      && Proper(r.value)
      && Walk(r.value, 0) == [Entry(LabelOf(RootNode()), 0)] + TokenEntries(Tokenizer.Tokenize(html).value, 0)
  {
    var ts := Tokenizer.Tokenize(html);
    if ts.Err? then Err(ts.error) else Ok(Build(ts.value))
  }
}
