/** What a selector search finds: hits in document order, soundness, when it
    cannot throw, and exactly which nodes one component and `a > b` find. */
module QueryFacts {
  import opened Chars
  import opened Outcomes
  import opened Tokens
  import opened Dom
  import opened Selector
  import opened Query

  /** Hits come in document (pre-)order, so none is repeated. */
  lemma TraverseSorted(n: Node, sels: seq<string>)
    ensures Traverse(n, sels).Found? ==> Sorted(Traverse(n, sels).paths)
    decreases n, |n.children| + 1
  {
    if sels != [] {
      TraverseFromSorted(n, 0, sels);
      if |sels| > 1 {
        TraverseFromSorted(n, 0, sels[1..]);
      }
      if |sels| > 2 {
        TraverseFromSorted(n, 0, sels[2..]);
      }
    }
  }

  /** The child loop's hits are in document order and lie below the children
      it visits. */
  lemma TraverseFromSorted(n: Node, i: nat, sels: seq<string>)
    requires i <= |n.children|
    ensures TraverseFrom(n, i, sels).Found? ==>
      && Sorted(TraverseFrom(n, i, sels).paths)
      && forall p :: p in TraverseFrom(n, i, sels).paths ==> |p| >= 1 && i <= p[0]
    decreases n, |n.children| - i
  {
    var r := TraverseFrom(n, i, sels);
    if i < |n.children| && r.Found? {
      var h := Traverse(n.children[i], sels);
      var t := TraverseFrom(n, i + 1, sels);
      TraverseSorted(n.children[i], sels);
      TraverseFromSorted(n, i + 1, sels);
      UnderSorted(i, h.paths);
      var u := Under(i, h.paths);
      forall x, y | x in u && y in t.paths
        ensures Before(x, y)
      {
        UnderIn(i, h.paths, x);
      }
      SortedConcat(u, t.paths);
      forall p | p in r.paths
        ensures |p| >= 1 && i <= p[0]
      {
        if p in u {
          UnderIn(i, h.paths, p);
        }
      }
    }
  }

  /** The last component of a non-empty list. */
  function LastOf(sels: seq<string>): string
    requires sels != []
  {
    sels[|sels| - 1]
  }

  /** Every hit is a node of the tree that matches the last component. */
  lemma TraverseSound(n: Node, sels: seq<string>, p: Path)
    requires sels != [] && Traverse(n, sels).Found? && p in Traverse(n, sels).paths
    ensures ValidPath(n, p) && Match(At(n, p), LastOf(sels)) == Some(true)
    decreases n, |n.children| + 1
  {
    var m := Match(n, sels[0]);
    if m.value {
      if |sels| > 1 {
        TraverseFromSound(n, 0, sels[1..], p);
        assert LastOf(sels[1..]) == LastOf(sels);
      }
    } else if sels[0] == ">" {
      if |sels| > 2 {
        TraverseFromSound(n, 0, sels[2..], p);
        assert LastOf(sels[2..]) == LastOf(sels);
      }
    } else {
      TraverseFromSound(n, 0, sels, p);
    }
  }

  lemma TraverseFromSound(n: Node, i: nat, sels: seq<string>, p: Path)
    requires sels != [] && i <= |n.children|
    requires TraverseFrom(n, i, sels).Found? && p in TraverseFrom(n, i, sels).paths
    ensures ValidPath(n, p) && Match(At(n, p), LastOf(sels)) == Some(true)
    decreases n, |n.children| - i
  {
    TraverseFromIn(n, i, sels, p);
    TraverseSound(n.children[p[0]], sels, p[1..]);
  }

  /** A component list on which the search cannot throw: no component is a
      throwing attribute test, and the list does not end with `>`. */
  predicate Safe(sels: seq<string>) {
    (forall s :: s in sels ==> !Throws(s)) && (sels == [] || LastOf(sels) != ">")
  }

  /** A safe component list never makes the search throw. */
  lemma NoCrash(n: Node, sels: seq<string>)
    requires Safe(sels)
    ensures Traverse(n, sels).Found?
    decreases n, |n.children| + 1
  {
    if sels != [] {
      assert sels[0] in sels;
      if |sels| > 1 {
        assert sels[1] in sels;
        SafeTail(sels, 1);
        NoCrashFrom(n, 0, sels[1..]);
      }
      if |sels| > 2 {
        SafeTail(sels, 2);
        NoCrashFrom(n, 0, sels[2..]);
      }
      NoCrashFrom(n, 0, sels);
    }
  }

  lemma NoCrashFrom(n: Node, i: nat, sels: seq<string>)
    requires Safe(sels) && i <= |n.children|
    ensures TraverseFrom(n, i, sels).Found?
    decreases n, |n.children| - i
  {
    if i < |n.children| {
      NoCrash(n.children[i], sels);
      NoCrashFrom(n, i + 1, sels);
    }
  }

  /** A non-empty suffix of a safe list is safe. */
  lemma SafeTail(sels: seq<string>, k: nat)
    requires Safe(sels) && k < |sels|
    ensures Safe(sels[k..])
  {
    assert LastOf(sels[k..]) == LastOf(sels);
    forall s | s in sels[k..]
      ensures s in sels
    {
    }
  }

  /** `p` leads to a node matching `sel` none of whose ancestors, up to and
      including the start node, matches it: a first match along its path. */
  predicate FirstHit(n: Node, sel: string, p: Path)
    decreases p
  {
    if Match(n, sel) == Some(true) then p == []
    else p != [] && p[0] < |n.children| && FirstHit(n.children[p[0]], sel, p[1..])
  }

  /** A first match is a node of the tree and matches. */
  lemma {:induction false} FirstHitMatches(n: Node, sel: string, p: Path)
    requires FirstHit(n, sel, p)
    ensures ValidPath(n, p) && Match(At(n, p), sel) == Some(true)
    decreases p
  {
    if p != [] {
      FirstHitMatches(n.children[p[0]], sel, p[1..]);
    }
  }

  /** A one-component search finds exactly the first matches along each path,
      for any component other than `>` that cannot throw. */
  lemma {:induction false} OneComponent(n: Node, sel: string, p: Path)
    requires !Throws(sel) && sel != ">"
    ensures Traverse(n, [sel]).Found?
    ensures p in Traverse(n, [sel]).paths <==> FirstHit(n, sel, p)
    decreases p
  {
    assert sel in [sel];
    NoCrash(n, [sel]);
    if Match(n, sel) != Some(true) {
      assert Traverse(n, [sel]) == TraverseFrom(n, 0, [sel]);
      TraverseFromIn(n, 0, [sel], p);
      if p != [] && p[0] < |n.children| {
        OneComponent(n.children[p[0]], sel, p[1..]);
      }
    }
  }

  /** No first match lies strictly below another on the same path. */
  lemma {:induction false} FirstMatchUnique(n: Node, sel: string, p: Path, q: Path)
    requires FirstHit(n, sel, p) && FirstHit(n, sel, q) && p <= q
    ensures p == q
    decreases p
  {
    if p != [] {
      FirstMatchUnique(n.children[p[0]], sel, p[1..], q[1..]);
    }
  }

  /** For one component, no hit lies inside the subtree of another hit. */
  lemma NoNestedHits(n: Node, sel: string, p: Path, q: Path)
    requires !Throws(sel) && sel != ">"
    requires Traverse(n, [sel]).Found?
    requires p in Traverse(n, [sel]).paths && q in Traverse(n, [sel]).paths && p <= q
    ensures p == q
  {
    OneComponent(n, sel, p);
    OneComponent(n, sel, q);
    FirstMatchUnique(n, sel, p, q);
  }

  /** No node of the tree is named `>`, so the `>` component never matches. */
  predicate NoArrow(n: Node)
    decreases n
  {
    n.name != ">" && forall c :: c in n.children ==> NoArrow(c)
  }

  /** `>` followed by `b`, on a node not named `>`: the node itself is the
      only possible hit, exactly when it matches `b`; its children are never
      visited. */
  lemma ArrowStep(c: Node, b: string)
    requires c.name != ">" && !Throws(b)
    ensures Traverse(c, [">", b]) == if Match(c, b) == Some(true) then Found([[]]) else Found([])
  {
    NameForm(c, ">");
  }

  /** Below a match of `a`, the child loop of `> b` keeps exactly the
      children that match `b`. */
  lemma ArrowChildren(n: Node, b: string, p: Path)
    requires !Throws(b) && b != ">" && NoArrow(n)
    ensures TraverseFrom(n, 0, [">", b]).Found?
    ensures p in TraverseFrom(n, 0, [">", b]).paths <==>
      |p| == 1 && p[0] < |n.children| && Match(n.children[p[0]], b) == Some(true)
  {
    NoCrashFrom(n, 0, [">", b]) by {
      assert forall s :: s in [">", b] ==> s == ">" || s == b;
    }
    TraverseFromIn(n, 0, [">", b], p);
    if p != [] && p[0] < |n.children| {
      var c := n.children[p[0]];
      assert c in n.children;
      assert NoArrow(c);
      ArrowStep(c, b);
      assert p[1..] == [] <==> |p| == 1;
    }
  }

  /** The hits of `a > b`: a position below a first match of `a` one level
      down, exactly when that child matches `b`; never the start node. */
  lemma {:induction false} ChildCombinator(n: Node, a: string, b: string, q: Path, k: nat)
    requires !Throws(a) && !Throws(b) && a != ">" && b != ">" && NoArrow(n)
    ensures Traverse(n, [a, ">", b]).Found?
    ensures [] !in Traverse(n, [a, ">", b]).paths
    ensures q + [k] in Traverse(n, [a, ">", b]).paths <==>
      && FirstHit(n, a, q) && ValidPath(n, q)
      && k < |At(n, q).children| && Match(At(n, q).children[k], b) == Some(true)
    decreases n
  {
    var sels := [a, ">", b];
    assert sels[0] in sels && sels[1] in sels && sels[2] in sels;
    NoCrash(n, sels);
    var p := q + [k];
    if Match(n, a) == Some(true) {
      assert Traverse(n, sels) == TraverseFrom(n, 0, [">", b]);
      ArrowChildren(n, b, []);
      ArrowChildren(n, b, p);
    } else {
      assert Traverse(n, sels) == TraverseFrom(n, 0, sels);
      NoCrashFrom(n, 0, sels);
      TraverseFromIn(n, 0, sels, []);
      TraverseFromIn(n, 0, sels, p);
      if q == [] {
        if k < |n.children| {
          assert n.children[k] in n.children;
          ChildCombinator(n.children[k], a, b, [], 0);
        }
      } else if q[0] < |n.children| {
        assert n.children[q[0]] in n.children;
        ChildCombinator(n.children[q[0]], a, b, q[1..], k);
        assert p[1..] == q[1..] + [k];
      }
    }
  }

  /** `querySelector` with a selector that trims to one component returns
      the first matches along each path, in document order. */
  lemma QueryOneComponent(n: Node, selector: string, p: Path)
    requires forall k :: 0 <= k < |Trim(selector)| ==> !IsSpace(Trim(selector)[k])
    requires !Throws(Trim(selector)) && Trim(selector) != ">"
    ensures SplitSelector(selector) == [Trim(selector)]
    ensures QuerySelector(n, selector).Some?
    ensures Sorted(Traverse(n, [Trim(selector)]).paths)
    ensures p in Traverse(n, [Trim(selector)]).paths <==> FirstHit(n, Trim(selector), p)
  {
    OneComponent(n, Trim(selector), p);
    TraverseSorted(n, [Trim(selector)]);
  }

  /** A node `a` with a child `x` that holds a `b`. */
  function Nested(): Node {
    Node(Element, "a", [], [Node(Element, "x", [], [Node(Element, "b", [], [])])])
  }

  /** `a b` finds the grandchild `b`. */
  lemma DescendantFindsGrandchild()
    ensures Traverse(Nested(), ["a", "b"]) == Found([[0, 0]])
  {
    var x := Nested().children[0];
    var b := x.children[0];
    NameForm(Nested(), "a");
    NameForm(x, "b");
    NameForm(b, "b");
    assert Traverse(b, ["b"]) == Found([[]]);
    assert [0] + [] == [0];
    assert Under(0, [[]]) == [[0]];
    assert TraverseFrom(x, 1, ["b"]) == Found([]);
    assert TraverseFrom(x, 0, ["b"]) == Found([[0]]);
    assert Traverse(x, ["b"]) == Found([[0]]);
    assert [0] + [0] == [0, 0];
    assert Under(0, [[0]]) == [[0, 0]];
    assert TraverseFrom(Nested(), 1, ["b"]) == Found([]);
    assert TraverseFrom(Nested(), 0, ["b"]) == Found([[0, 0]]);
    assert ["a", "b"][1..] == ["b"];
  }

  /** `a > b` misses the grandchild `b` that `a b` finds. */
  lemma ChildNotGrandchild()
    ensures Traverse(Nested(), ["a", ">", "b"]) == Found([])
    ensures Traverse(Nested(), ["a", "b"]) == Found([[0, 0]])
  {
    var x := Nested().children[0];
    NameForm(Nested(), "a");
    NameForm(x, ">");
    NameForm(x, "b");
    assert Traverse(x, [">", "b"]) == Found([]);
    DescendantFindsGrandchild();
  }
}
