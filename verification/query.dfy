/** `traverse` and `querySelector` of `src/html-parser.mjs`. A search gives
    the positions of the nodes the source pushes onto `results`, in push
    order, relative to the node the search starts from. */
module Query {
  import opened Chars
  import opened Outcomes
  import opened Dom
  import opened Selector

  /** What a search ends with: the pushed positions, or a `TypeError` that
      escapes `querySelector` and discards everything pushed so far. */
  datatype Hits = Found(paths: seq<Path>) | Crash

  /** `traverse(node, selectors, results)`. A matching component moves on to
      the rest of the list in the children (or pushes the node when it was
      the last one). A `>` that does not itself match tests the component
      after it instead, and on failure stops without visiting the children.
      Any other non-matching component is tried again in every child. */
  function Traverse(n: Node, sels: seq<string>): (r: Hits)
    ensures sels == [] ==> r == Found([])
    decreases n, |n.children| + 1
  {
    if sels == [] then Found([])
    else
      var m := Match(n, sels[0]);
      if m.None? then Crash
      else if m.value then
        if |sels| == 1 then Found([[]]) else TraverseFrom(n, 0, sels[1..])
      else if sels[0] == ">" then
        if |sels| < 2 then Crash
        else
          var m1 := Match(n, sels[1]);
          if m1.None? then Crash
          else if !m1.value then Found([])
          else if |sels| == 2 then Found([[]])
          else TraverseFrom(n, 0, sels[2..])
      else
        TraverseFrom(n, 0, sels)
  }

  /** `for (const child of node.children) this.traverse(child, …)` from the
      `i`-th child on: each child's hits, below that child's index, in order. */
  function TraverseFrom(n: Node, i: nat, sels: seq<string>): (r: Hits)
    requires i <= |n.children|
    decreases n, |n.children| - i
  {
    if i == |n.children| then Found([])
    else
      var h := Traverse(n.children[i], sels);
      var t := TraverseFrom(n, i + 1, sels);
      if h.Crash? || t.Crash? then Crash else Found(Under(i, h.paths) + t.paths)
  }

  /** The child loop throws exactly when the search of some child throws. */
  lemma {:induction false} TraverseFromFound(n: Node, i: nat, sels: seq<string>)
    requires i <= |n.children|
    ensures TraverseFrom(n, i, sels).Found? <==>
      forall k :: i <= k < |n.children| ==> Traverse(n.children[k], sels).Found?
    decreases |n.children| - i
  {
    if i < |n.children| {
      TraverseFromFound(n, i + 1, sels);
    }
  }

  /** The hits of a child loop that does not throw are exactly the hits of
      the children, each below its child's index. */
  lemma {:induction false} TraverseFromIn(n: Node, i: nat, sels: seq<string>, p: Path)
    requires i <= |n.children| && TraverseFrom(n, i, sels).Found?
    ensures
      p in TraverseFrom(n, i, sels).paths <==>
        && |p| >= 1 && i <= p[0] < |n.children|
        && Traverse(n.children[p[0]], sels).Found?
        && p[1..] in Traverse(n.children[p[0]], sels).paths
    decreases |n.children| - i
  {
    if i < |n.children| {
      TraverseFromIn(n, i + 1, sels, p);
      UnderIn(i, Traverse(n.children[i], sels).paths, p);
    }
  }

  /** Every hit is a node of the searched tree. */
  lemma TraverseValid(n: Node, sels: seq<string>)
    ensures Traverse(n, sels).Found? ==>
      forall p :: p in Traverse(n, sels).paths ==> ValidPath(n, p)
    decreases n, |n.children| + 1
  {
    if sels != [] && |n.children| > 0 {
      TraverseFromValid(n, 0, sels);
      if |sels| > 1 {
        TraverseFromValid(n, 0, sels[1..]);
      }
      if |sels| > 2 {
        TraverseFromValid(n, 0, sels[2..]);
      }
    }
  }

  /** Every hit of the child loop is a node below one of the children. */
  lemma TraverseFromValid(n: Node, i: nat, sels: seq<string>)
    requires i <= |n.children|
    ensures TraverseFrom(n, i, sels).Found? ==>
      forall p :: p in TraverseFrom(n, i, sels).paths ==> ValidPath(n, p)
    decreases n, |n.children| - i
  {
    var r := TraverseFrom(n, i, sels);
    if i < |n.children| && r.Found? {
      TraverseValid(n.children[i], sels);
      TraverseFromValid(n, i + 1, sels);
      forall p | p in r.paths
        ensures ValidPath(n, p)
      {
        TraverseFromIn(n, i, sels, p);
        var c := n.children[p[0]];
        if p[0] != i {
          TraverseFromIn(n, i + 1, sels, p);
        }
        TraverseValid(c, sels);
      }
    }
  }

  /** The nodes at the positions `ps`. */
  function NodesAt(n: Node, ps: seq<Path>): (r: seq<Node>)
    requires forall p :: p in ps ==> ValidPath(n, p)
    ensures |r| == |ps| && forall k :: 0 <= k < |ps| ==> r[k] == At(n, ps[k])
  {
    if ps == [] then [] else [At(n, ps[0])] + NodesAt(n, ps[1..])
  }

  /** `querySelector(selector)` on the node `n`: `None` is the `TypeError`
      that escapes it; otherwise the nodes pushed, in push order. */
  function QuerySelector(n: Node, selector: string): (r: Option<seq<Node>>)
    ensures r.None? <==> Traverse(n, SplitSelector(selector)).Crash?
    ensures r.Some? ==>
      var ps := Traverse(n, SplitSelector(selector)).paths;
      && |r.value| == |ps|
      && forall k :: 0 <= k < |ps| ==> ValidPath(n, ps[k]) && r.value[k] == At(n, ps[k])
  {
    var sels := SplitSelector(selector);
    var h := Traverse(n, sels);
    if h.Crash? then None
    else
      TraverseValid(n, sels);
      Some(NodesAt(n, h.paths))
  }
}
