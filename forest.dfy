/**
 * Traversals of the resource forest held in an arena: the pre-order walk
 * behind createMetaLists, the descendant searches getGroupByClass and
 * getGroupById of a node, and the facts that make them terminate on a
 * compiled forest.
 */
module Forest {
  import opened Wrappers
  import opened Nodes

  /** Every path of child links from `i` has at most `h` steps. */
  ghost predicate WithinHeight(nodes: seq<Node>, i: Ref, h: nat)
    decreases h
  {
    i < |nodes| &&
    forall c :: c in Children(nodes[i]) ==> h > 0 && WithinHeight(nodes, c, h - 1)
  }

  ghost predicate AllWithinHeight(nodes: seq<Node>, refs: seq<Ref>, h: nat)
  {
    forall r :: r in refs ==> WithinHeight(nodes, r, h)
  }

  /** Unfolds AllWithinHeight at the head of a non-empty forest. */
  lemma HeadWithin(nodes: seq<Node>, refs: seq<Ref>, h: nat)
    requires AllWithinHeight(nodes, refs, h) && refs != []
    ensures refs[0] < |nodes|
    ensures Children(nodes[refs[0]]) != [] ==> h > 0 && AllWithinHeight(nodes, Children(nodes[refs[0]]), h - 1)
    ensures AllWithinHeight(nodes, refs[1..], h)
  {
    assert refs[0] in refs;
    ChildrenWithin(nodes, refs[0], h);
    forall r | r in refs[1..] ensures WithinHeight(nodes, r, h) {
      assert r in refs;
    }
  }

  /** Unfolds WithinHeight at one node. */
  lemma ChildrenWithin(nodes: seq<Node>, i: Ref, h: nat)
    requires WithinHeight(nodes, i, h)
    ensures Children(nodes[i]) != [] ==> h > 0 && AllWithinHeight(nodes, Children(nodes[i]), h - 1)
  {
    var ch := Children(nodes[i]);
    if ch != [] {
      assert ch[0] in ch;
    }
  }

  /** The nodes of the forest `refs` in depth-first pre-order: each node, then its subtree, then its next sibling. */
  function PreOrder(nodes: seq<Node>, refs: seq<Ref>, ghost h: nat): (order: seq<Ref>)
    requires AllWithinHeight(nodes, refs, h)
    ensures forall x :: x in order ==> x < |nodes|
    ensures forall i :: 0 <= i < |order| ==> order[i] < |nodes|
    decreases h, |refs|
  {
    if refs == [] then []
    else
      HeadWithin(nodes, refs, h);
      var ch := Children(nodes[refs[0]]);
      [refs[0]] + (if ch == [] then [] else PreOrder(nodes, ch, h - 1)) + PreOrder(nodes, refs[1..], h)
  }

  /** Every listed node is visited. */
  lemma {:induction false} PreOrderContainsRefs(nodes: seq<Node>, refs: seq<Ref>, h: nat)
    requires AllWithinHeight(nodes, refs, h)
    ensures forall r :: r in refs ==> r in PreOrder(nodes, refs, h)
    decreases |refs|
  {
    if refs != [] {
      HeadWithin(nodes, refs, h);
      PreOrderContainsRefs(nodes, refs[1..], h);
      forall r | r in refs ensures r in PreOrder(nodes, refs, h) {
        if r != refs[0] { assert r in refs[1..]; }
      }
    }
  }

  /** The visited set is closed under children: a child of a visited node is visited. */
  lemma {:induction false} PreOrderClosed(nodes: seq<Node>, refs: seq<Ref>, h: nat, x: Ref, c: Ref)
    requires AllWithinHeight(nodes, refs, h)
    requires x in PreOrder(nodes, refs, h) && c in Children(nodes[x])
    ensures c in PreOrder(nodes, refs, h)
    decreases h, |refs|
  {
    HeadWithin(nodes, refs, h);
    var ch := Children(nodes[refs[0]]);
    var sub := if ch == [] then [] else PreOrder(nodes, ch, h - 1);
    var rest := PreOrder(nodes, refs[1..], h);
    assert PreOrder(nodes, refs, h) == [refs[0]] + sub + rest;
    if x == refs[0] {
      assert ch != [];
      PreOrderContainsRefs(nodes, ch, h - 1);
    } else if x in sub {
      PreOrderClosed(nodes, ch, h - 1, x, c);
    } else {
      assert x in rest;
      PreOrderClosed(nodes, refs[1..], h, x, c);
    }
  }

  /** Nothing else is visited: each visited node is listed or is a child of a visited node. */
  lemma {:induction false} PreOrderMinimal(nodes: seq<Node>, refs: seq<Ref>, h: nat, x: Ref)
    requires AllWithinHeight(nodes, refs, h)
    requires x in PreOrder(nodes, refs, h)
    ensures x in refs || exists y :: y in PreOrder(nodes, refs, h) && x in Children(nodes[y])
    decreases h, |refs|
  {
    HeadWithin(nodes, refs, h);
    var ch := Children(nodes[refs[0]]);
    var sub := if ch == [] then [] else PreOrder(nodes, ch, h - 1);
    var rest := PreOrder(nodes, refs[1..], h);
    assert PreOrder(nodes, refs, h) == [refs[0]] + sub + rest;
    if x == refs[0] {
    } else if x in sub {
      PreOrderMinimal(nodes, ch, h - 1, x);
      if x in ch {
        assert refs[0] in PreOrder(nodes, refs, h) && x in Children(nodes[refs[0]]);
      } else {
        var y :| y in sub && x in Children(nodes[y]);
        assert y in PreOrder(nodes, refs, h);
      }
    } else {
      assert x in rest;
      PreOrderMinimal(nodes, refs[1..], h, x);
      if x !in refs[1..] {
        var y :| y in rest && x in Children(nodes[y]);
        assert y in PreOrder(nodes, refs, h);
      }
    }
  }

  // ---------------------------------------------------------------------------
  // Descendant search (getGroupByClass / getGroupById of a node)
  // ---------------------------------------------------------------------------

  /** The first element of `order` whose node satisfies `p`. */
  function FirstMatch(nodes: seq<Node>, order: seq<Ref>, p: Node -> bool): Option<Ref>
    requires forall x :: x in order ==> x < |nodes|
  {
    if order == [] then None
    else
      assert order[0] in order;
      assert forall x :: x in order[1..] ==> x in order;
      if p(nodes[order[0]]) then Some(order[0])
      else FirstMatch(nodes, order[1..], p)
  }

  lemma {:induction false} FirstMatchAppend(nodes: seq<Node>, a: seq<Ref>, b: seq<Ref>, p: Node -> bool)
    requires forall x :: x in a ==> x < |nodes|
    requires forall x :: x in b ==> x < |nodes|
    ensures FirstMatch(nodes, a + b, p) ==
      if FirstMatch(nodes, a, p).Some? then FirstMatch(nodes, a, p) else FirstMatch(nodes, b, p)
    decreases |a|
  {
    if a != [] {
      assert a[0] in a;
      assert (a + b)[0] == a[0];
      assert (a + b)[1..] == a[1..] + b;
      assert forall x :: x in a[1..] ==> x in a;
      FirstMatchAppend(nodes, a[1..], b, p);
      if p(nodes[a[0]]) {
        assert FirstMatch(nodes, a, p) == Some(a[0]);
        assert FirstMatch(nodes, a + b, p) == Some(a[0]);
      } else {
        assert FirstMatch(nodes, a, p) == FirstMatch(nodes, a[1..], p);
        assert FirstMatch(nodes, a + b, p) == FirstMatch(nodes, a[1..] + b, p);
      }
    } else {
      assert a + b == b;
    }
  }

  /** A found element is in the order and matches; nothing is found exactly when nothing matches. */
  lemma {:induction false} FirstMatchSpec(nodes: seq<Node>, order: seq<Ref>, p: Node -> bool)
    requires forall x :: x in order ==> x < |nodes|
    ensures FirstMatch(nodes, order, p).Some? ==>
      FirstMatch(nodes, order, p).value in order && p(nodes[FirstMatch(nodes, order, p).value])
    ensures FirstMatch(nodes, order, p).None? <==> forall x :: x in order ==> !p(nodes[x])
    decreases |order|
  {
    if order != [] {
      assert forall x :: x in order[1..] ==> x in order;
      FirstMatchSpec(nodes, order[1..], p);
      if FirstMatch(nodes, order, p).None? {
        forall x | x in order ensures !p(nodes[x]) {
          if x != order[0] { assert x in order[1..]; }
        }
      }
    }
  }

  /** The loop of getGroupByClass: each listed node, then its own search, then the next sibling. */
  function SearchForest(nodes: seq<Node>, refs: seq<Ref>, p: Node -> bool, ghost h: nat): Option<Ref>
    requires AllWithinHeight(nodes, refs, h)
    decreases h, |refs|
  {
    if refs == [] then None
    else
      HeadWithin(nodes, refs, h);
      if p(nodes[refs[0]]) then Some(refs[0])
      else
        var ch := Children(nodes[refs[0]]);
        var inner := if ch == [] then None else SearchForest(nodes, ch, p, h - 1);
        if inner.Some? then inner else SearchForest(nodes, refs[1..], p, h)
  }

  /** The recursive search finds the first match in pre-order. */
  lemma {:induction false} SearchIsFirstInPreOrder(nodes: seq<Node>, refs: seq<Ref>, p: Node -> bool, h: nat)
    requires AllWithinHeight(nodes, refs, h)
    ensures SearchForest(nodes, refs, p, h) == FirstMatch(nodes, PreOrder(nodes, refs, h), p)
    decreases h, |refs|
  {
    if refs != [] {
      HeadWithin(nodes, refs, h);
      var ch := Children(nodes[refs[0]]);
      var sub := if ch == [] then [] else PreOrder(nodes, ch, h - 1);
      var rest := PreOrder(nodes, refs[1..], h);
      assert PreOrder(nodes, refs, h) == [refs[0]] + (sub + rest);
      if !p(nodes[refs[0]]) {
        assert ([refs[0]] + (sub + rest))[1..] == sub + rest;
        FirstMatchAppend(nodes, sub, rest, p);
        if ch != [] {
          SearchIsFirstInPreOrder(nodes, ch, p, h - 1);
        }
        SearchIsFirstInPreOrder(nodes, refs[1..], p, h);
      }
    }
  }

  predicate HasClass(className: string, n: Node)
  {
    n.variant.Resource? && n.variant.className == className
  }

  predicate HasId(id: string, n: Node)
  {
    n.id == id
  }

  /** The proper descendants of `i`, in pre-order. */
  function Descendants(nodes: seq<Node>, i: Ref, ghost h: nat): (order: seq<Ref>)
    requires WithinHeight(nodes, i, h)
    ensures forall x :: x in order ==> x < |nodes|
  {
    ChildrenWithin(nodes, i, h);
    var ch := Children(nodes[i]);
    if ch == [] then [] else PreOrder(nodes, ch, h - 1)
  }

  /** The search of getGroupByClass and getGroupById on node `i`: its children's subtrees, never `i` itself. */
  function DescendantSearch(nodes: seq<Node>, i: Ref, p: Node -> bool, ghost h: nat): Option<Ref>
    requires WithinHeight(nodes, i, h)
  {
    ChildrenWithin(nodes, i, h);
    var ch := Children(nodes[i]);
    if ch == [] then None else SearchForest(nodes, ch, p, h - 1)
  }

  /** The descendant search is the first match in the pre-order of the proper descendants. */
  lemma DescendantSearchIsFirst(nodes: seq<Node>, i: Ref, p: Node -> bool, h: nat)
    requires WithinHeight(nodes, i, h)
    ensures DescendantSearch(nodes, i, p, h) == FirstMatch(nodes, Descendants(nodes, i, h), p)
  {
    ChildrenWithin(nodes, i, h);
    var ch := Children(nodes[i]);
    if ch != [] {
      SearchIsFirstInPreOrder(nodes, ch, p, h - 1);
    }
  }

  /** The descendant search finds a matching proper descendant, and nothing exactly when none matches. */
  lemma DescendantSearchSpec(nodes: seq<Node>, i: Ref, p: Node -> bool, h: nat)
    requires WithinHeight(nodes, i, h)
    ensures DescendantSearch(nodes, i, p, h) == FirstMatch(nodes, Descendants(nodes, i, h), p)
    ensures DescendantSearch(nodes, i, p, h).None? <==> forall x :: x in Descendants(nodes, i, h) ==> !p(nodes[x])
    ensures DescendantSearch(nodes, i, p, h).Some? ==>
      DescendantSearch(nodes, i, p, h).value in Descendants(nodes, i, h) && p(nodes[DescendantSearch(nodes, i, p, h).value])
  {
    DescendantSearchIsFirst(nodes, i, p, h);
    FirstMatchSpec(nodes, Descendants(nodes, i, h), p);
  }

  /** `getGroupByClass($className)` on node `i`. */
  function GetGroupByClass(nodes: seq<Node>, i: Ref, className: string, ghost h: nat): Option<Ref>
    requires WithinHeight(nodes, i, h)
  {
    DescendantSearch(nodes, i, n => HasClass(className, n), h)
  }

  /** `getGroupById($id)` on node `i`. */
  function GetGroupById(nodes: seq<Node>, i: Ref, id: string, ghost h: nat): Option<Ref>
    requires WithinHeight(nodes, i, h)
  {
    DescendantSearch(nodes, i, n => HasId(id, n), h)
  }

  /** getGroupByClass finds a proper descendant of that class, the first in pre-order, and nothing exactly when there is none. */
  lemma GetGroupByClassSpec(nodes: seq<Node>, i: Ref, className: string, h: nat)
    requires WithinHeight(nodes, i, h)
    ensures GetGroupByClass(nodes, i, className, h) == FirstMatch(nodes, Descendants(nodes, i, h), n => HasClass(className, n))
    ensures GetGroupByClass(nodes, i, className, h).None? <==>
      forall x :: x in Descendants(nodes, i, h) ==> !HasClass(className, nodes[x])
    ensures GetGroupByClass(nodes, i, className, h).Some? ==>
      GetGroupByClass(nodes, i, className, h).value in Descendants(nodes, i, h) &&
      HasClass(className, nodes[GetGroupByClass(nodes, i, className, h).value])
  {
    DescendantSearchSpec(nodes, i, n => HasClass(className, n), h);
  }

  /** getGroupById finds a proper descendant with that id, the first in pre-order, and nothing exactly when there is none. */
  lemma GetGroupByIdSpec(nodes: seq<Node>, i: Ref, id: string, h: nat)
    requires WithinHeight(nodes, i, h)
    ensures GetGroupById(nodes, i, id, h) == FirstMatch(nodes, Descendants(nodes, i, h), n => HasId(id, n))
    ensures GetGroupById(nodes, i, id, h).None? <==>
      forall x :: x in Descendants(nodes, i, h) ==> nodes[x].id != id
    ensures GetGroupById(nodes, i, id, h).Some? ==>
      GetGroupById(nodes, i, id, h).value in Descendants(nodes, i, h) &&
      nodes[GetGroupById(nodes, i, id, h).value].id == id
  {
    DescendantSearchSpec(nodes, i, n => HasId(id, n), h);
  }

  // ---------------------------------------------------------------------------
  // A linked arena has bounded height below its parentless resources
  // ---------------------------------------------------------------------------

  /** A chain of child links starting at a parentless node, without repetition. */
  ghost predicate ChildPath(nodes: seq<Node>, path: seq<Ref>)
  {
    && |path| >= 1
    && (forall k :: 0 <= k < |path| ==> path[k] < |nodes|)
    && nodes[path[0]].parent.None?
    && (forall k :: 1 <= k < |path| ==> nodes[path[k]].parent == Some(path[k - 1]))
    && (forall a, b :: 0 <= a < b < |path| ==> path[a] != path[b])
  }

  /** Distinct numbers below `n` are at most `n` many. */
  lemma {:induction false} DistinctBelow(s: seq<nat>, n: nat)
    requires forall k :: 0 <= k < |s| ==> s[k] < n
    requires forall a, b :: 0 <= a < b < |s| ==> s[a] != s[b]
    ensures |s| <= n
    decreases n
  {
    if |s| > 0 {
      assert s[0] < n;
      // drop the element n - 1 (if present) and recurse below n - 1
      var rest := RemoveValue(s, n - 1);
      DistinctBelow(rest, n - 1);
    }
  }

  /** `s` without the occurrences of `v`; if `s` is repetition-free and below `v + 1`, everything left is below `v`. */
  function RemoveValue(s: seq<nat>, v: nat): (r: seq<nat>)
    requires forall a, b :: 0 <= a < b < |s| ==> s[a] != s[b]
    requires forall k :: 0 <= k < |s| ==> s[k] <= v
    ensures |r| >= |s| - 1
    ensures v !in s ==> |r| == |s|
    ensures forall k :: 0 <= k < |r| ==> r[k] < v
    ensures forall a, b :: 0 <= a < b < |r| ==> r[a] != r[b]
    ensures forall x :: x in r ==> x in s
  {
    if s == [] then []
    else
      var tail := RemoveValue(s[1..], v);
      if s[0] == v then
        assert v !in s[1..] by {
          assert forall k :: 0 <= k < |s[1..]| ==> s[1..][k] == s[k + 1];
        }
        tail
      else
        assert s[0] !in tail by {
          assert forall k :: 0 <= k < |s[1..]| ==> s[1..][k] != s[0];
        }
        [s[0]] + tail
  }

  /** A child of the path's last node extends the path. */
  lemma ExtendChildPath(nodes: seq<Node>, path: seq<Ref>, c: Ref)
    requires Linked(nodes) && ChildPath(nodes, path)
    requires c in Children(nodes[path[|path| - 1]])
    ensures ChildPath(nodes, path + [c])
  {
    var last := path[|path| - 1];
    assert ChildLinked(nodes, last, c);
    forall a | 0 <= a < |path| ensures path[a] != c {
      if a == 0 {
        assert nodes[path[0]].parent.None?;
      } else {
        assert nodes[path[a]].parent == Some(path[a - 1]);
        assert path[a - 1] != last;
      }
    }
  }

  /** Below the end of a child path of length d, no chain of children is longer than |nodes| - d. */
  lemma {:induction false} ChildPathHeight(nodes: seq<Node>, path: seq<Ref>)
    requires Linked(nodes) && ChildPath(nodes, path)
    ensures |path| <= |nodes|
    ensures WithinHeight(nodes, path[|path| - 1], |nodes| - |path|)
    decreases |nodes| - |path|
  {
    DistinctBelow(path, |nodes|);
    var last := path[|path| - 1];
    forall c | c in Children(nodes[last])
      ensures |nodes| - |path| > 0 && WithinHeight(nodes, c, |nodes| - |path| - 1)
    {
      ExtendChildPath(nodes, path, c);
      DistinctBelow(path + [c], |nodes|);
      ChildPathHeight(nodes, path + [c]);
      assert (path + [c])[|path + [c]| - 1] == c;
    }
  }

  /** In a linked arena every parentless node has height below |nodes|: traversals from roots terminate. */
  lemma RootHeight(nodes: seq<Node>, r: Ref)
    requires Linked(nodes) && r < |nodes| && nodes[r].parent.None?
    ensures WithinHeight(nodes, r, |nodes|)
  {
    SingletonPath(nodes, r);
    ChildPathHeight(nodes, [r]);
    assert [r][|[r]| - 1] == r;
    WithinHeightMonotone(nodes, r, |nodes| - 1, |nodes|);
  }

  lemma SingletonPath(nodes: seq<Node>, r: Ref)
    requires r < |nodes| && nodes[r].parent.None?
    ensures ChildPath(nodes, [r])
  {
  }

  lemma {:induction false} WithinHeightMonotone(nodes: seq<Node>, i: Ref, h: nat, h': nat)
    requires WithinHeight(nodes, i, h) && h <= h'
    ensures WithinHeight(nodes, i, h')
    decreases h
  {
    forall c | c in Children(nodes[i]) ensures h' > 0 && WithinHeight(nodes, c, h' - 1) {
      WithinHeightMonotone(nodes, c, h - 1, h' - 1);
    }
  }

  /** The roots of a compiled forest: parentless nodes of the arena. */
  ghost predicate Roots(nodes: seq<Node>, roots: seq<Ref>)
  {
    forall r :: r in roots ==> r < |nodes| && nodes[r].parent.None? && nodes[r].variant.Resource?
  }

  lemma RootsWithinHeight(nodes: seq<Node>, roots: seq<Ref>)
    requires Linked(nodes) && Roots(nodes, roots)
    ensures AllWithinHeight(nodes, roots, |nodes|)
  {
    forall r | r in roots ensures WithinHeight(nodes, r, |nodes|) {
      RootHeight(nodes, r);
    }
  }

  /** Every node of a linked forest, and each of its accessions, has a finite parent chain. */
  lemma {:induction false} PreOrderGrounded(nodes: seq<Node>, refs: seq<Ref>, h: nat)
    requires Linked(nodes) && AllWithinHeight(nodes, refs, h)
    requires forall r :: r in refs ==> Grounded(nodes, r)
    ensures forall x :: x in PreOrder(nodes, refs, h) ==> Grounded(nodes, x)
    ensures forall x, a :: x in PreOrder(nodes, refs, h) && a in Accessions(nodes[x]) ==> Grounded(nodes, a)
    decreases h, |refs|
  {
    if refs != [] {
      var r := refs[0];
      assert r in refs;
      var ch := Children(nodes[r]);
      HeadWithin(nodes, refs, h);
      var k := ChainBound(nodes, r);
      forall c | c in ch ensures Grounded(nodes, c) {
        assert ChildLinked(nodes, r, c);
        assert ChainEndsWithin(nodes, c, k + 1);
      }
      forall a | a in Accessions(nodes[r]) ensures Grounded(nodes, a) {
        assert AccessionLinked(nodes, r, a);
        assert ChainEndsWithin(nodes, a, k + 1);
      }
      if ch != [] {
        PreOrderGrounded(nodes, ch, h - 1);
      }
      PreOrderGrounded(nodes, refs[1..], h);
    }
  }

  lemma RootsGrounded(nodes: seq<Node>, roots: seq<Ref>)
    requires Roots(nodes, roots)
    ensures forall r :: r in roots ==> Grounded(nodes, r)
  {
    forall r | r in roots ensures Grounded(nodes, r) {
      assert ChainEndsWithin(nodes, r, 0);
    }
  }
}
