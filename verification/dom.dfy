/** `HTMLNode` of `src/html-parser.mjs`, without its `parent` back-pointer:
    an immutable tree in which a position is a path of child indices. */
module Dom {
  import opened Outcomes
  import opened Tokens

  /** The `type` field: `'root'`, `'element'`, `'text'` or `'comment'`. */
  datatype NodeType = Root | Element | TextNode | CommentNode

  /** `new HTMLNode(type, name, attributes)` with its `children`. A text or
      comment node carries its text in `name`. */
  datatype Node = Node(kind: NodeType, name: string, attributes: seq<Attribute>, children: seq<Node>)

  /** `getAttribute`: the value of the first attribute called `key`, or `null`. */
  function Lookup(attrs: seq<Attribute>, key: string): (r: Option<string>)
    ensures r.None? <==> forall a :: a in attrs ==> a.name != key
    ensures r.Some? ==> Attribute(key, r.value) in attrs
  {
    if attrs == [] then None
    else if attrs[0].name == key then Some(attrs[0].value)
    else Lookup(attrs[1..], key)
  }

  /** `getAttribute` returns the value of the first attribute with the name,
      even when later ones share it. */
  lemma {:induction false} LookupFirst(attrs: seq<Attribute>, key: string, k: nat)
    requires k < |attrs| && attrs[k].name == key
    requires forall m :: 0 <= m < k ==> attrs[m].name != key
    ensures Lookup(attrs, key) == Some(attrs[k].value)
  {
    if k > 0 {
      assert attrs[0].name != key;
      LookupFirst(attrs[1..], key, k - 1);
    }
  }

  /** A position below a node: the child index at each level. */
  type Path = seq<nat>

  /** `p` leads to a node of the tree `n`. */
  predicate ValidPath(n: Node, p: Path)
    decreases p
  {
    p == [] || (p[0] < |n.children| && ValidPath(n.children[p[0]], p[1..]))
  }

  /** The node at position `p`. */
  function At(n: Node, p: Path): Node
    requires ValidPath(n, p)
    decreases p
  {
    if p == [] then n else At(n.children[p[0]], p[1..])
  }

  /** Document (pre-)order: an ancestor comes before its descendants, and a
      node before the nodes of its later siblings. */
  predicate Before(p: Path, q: Path)
    decreases |p|
  {
    q != [] && (p == [] || p[0] < q[0] || (p[0] == q[0] && Before(p[1..], q[1..])))
  }

  /** No position comes before itself, so a sorted list has no repeats. */
  lemma {:induction false} BeforeIrreflexive(p: Path)
    ensures !Before(p, p)
    decreases |p|
  {
    if p != [] {
      BeforeIrreflexive(p[1..]);
    }
  }

  lemma {:induction false} BeforeTransitive(p: Path, q: Path, r: Path)
    requires Before(p, q) && Before(q, r)
    ensures Before(p, r)
    decreases |p|
  {
    if p != [] && p[0] == q[0] && q[0] == r[0] {
      BeforeTransitive(p[1..], q[1..], r[1..]);
    }
  }

  predicate Sorted(ps: seq<Path>) {
    forall i, j :: 0 <= i < j < |ps| ==> Before(ps[i], ps[j])
  }

  /** A sorted list of positions holds each position at most once. */
  lemma SortedNoRepeats(ps: seq<Path>)
    requires Sorted(ps)
    ensures forall i, j :: 0 <= i < j < |ps| ==> ps[i] != ps[j]
  {
    forall i, j | 0 <= i < j < |ps|
      ensures ps[i] != ps[j]
    {
      BeforeIrreflexive(ps[i]);
    }
  }

  /** Two sorted lists, the first wholly before the second, make a sorted list. */
  lemma SortedConcat(a: seq<Path>, b: seq<Path>)
    requires Sorted(a) && Sorted(b)
    requires forall x, y :: x in a && y in b ==> Before(x, y)
    ensures Sorted(a + b)
  {
    var c := a + b;
    forall i, j | 0 <= i < j < |c|
      ensures Before(c[i], c[j])
    {
      if j < |a| {
        assert c[i] == a[i] && c[j] == a[j];
      } else if i >= |a| {
        assert c[i] == b[i - |a|] && c[j] == b[j - |a|];
      } else {
        assert c[i] == a[i] && c[j] == b[j - |a|];
      }
    }
  }

  /** The positions `ps` of the `i`-th child, seen from its parent. */
  function Under(i: nat, ps: seq<Path>): (r: seq<Path>)
    ensures |r| == |ps| && forall k :: 0 <= k < |ps| ==> r[k] == [i] + ps[k]
  {
    if ps == [] then [] else [[i] + ps[0]] + Under(i, ps[1..])
  }

  /** A position is among those put below child `i` exactly when it starts
      with `i` and its remainder is one of them. */
  lemma UnderIn(i: nat, ps: seq<Path>, p: Path)
    ensures p in Under(i, ps) <==> |p| >= 1 && p[0] == i && p[1..] in ps
  {
    var u := Under(i, ps);
    if p in u {
      var k :| 0 <= k < |u| && u[k] == p;
      assert p[1..] == ps[k];
    }
    if |p| >= 1 && p[0] == i && p[1..] in ps {
      var k :| 0 <= k < |ps| && ps[k] == p[1..];
      assert u[k] == p;
    }
  }

  /** Putting the same child index in front of positions keeps their order. */
  lemma UnderSorted(i: nat, ps: seq<Path>)
    ensures Sorted(Under(i, ps)) <==> Sorted(ps)
  {
    var u := Under(i, ps);
    forall a, b | 0 <= a < b < |ps|
      ensures Before(u[a], u[b]) <==> Before(ps[a], ps[b])
    {
      assert u[a][1..] == ps[a] && u[b][1..] == ps[b];
    }
  }
}
