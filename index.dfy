/**
 * The lookup tables of Mapping (src/Mapping.php): createMetaLists flattens
 * the compiled forest, depth first, into four PHP arrays — groups by id and
 * by class name, operations by id and by "Class::method" — where a later
 * write to a key overwrites an earlier one.
 */
module Index {
  import opened Wrappers
  import opened Nodes
  import opened Forest

  /** One write `$list[key] = value`. */
  type Entry = (string, Ref)

  /** The writes `es`, in order, applied to `m`: a later write to a key replaces an earlier one. */
  function Put(m: map<string, Ref>, es: seq<Entry>): map<string, Ref>
    decreases |es|
  {
    if es == [] then m else Put(m[es[0].0 := es[0].1], es[1..])
  }

  /** The position of the last write to `k`, if any. */
  function LastFor(es: seq<Entry>, k: string): (r: Option<nat>)
    ensures r.Some? ==> r.value < |es| && es[r.value].0 == k && forall j :: r.value < j < |es| ==> es[j].0 != k
    ensures r.None? ==> forall j :: 0 <= j < |es| ==> es[j].0 != k
  {
    if es == [] then None
    else if es[|es| - 1].0 == k then Some(|es| - 1)
    else LastFor(es[..|es| - 1], k)
  }

  lemma {:induction false} PutAppend(m: map<string, Ref>, a: seq<Entry>, b: seq<Entry>)
    ensures Put(m, a + b) == Put(Put(m, a), b)
    decreases |a|
  {
    if a == [] {
      assert a + b == b;
    } else {
      assert (a + b)[1..] == a[1..] + b;
      PutAppend(m[a[0].0 := a[0].1], a[1..], b);
    }
  }

  /**
   * After the writes `es`, a key is present iff it was already or some write
   * names it; its value is that of the last write naming it, and otherwise
   * the old value.
   */
  lemma {:induction false} PutSpec(m: map<string, Ref>, es: seq<Entry>, k: string)
    ensures k in Put(m, es) <==> k in m || LastFor(es, k).Some?
    ensures LastFor(es, k).Some? ==> Put(m, es)[k] == es[LastFor(es, k).value].1
    ensures LastFor(es, k).None? && k in m ==> Put(m, es)[k] == m[k]
    decreases |es|
  {
    if es != [] {
      var init, last := es[..|es| - 1], es[|es| - 1];
      assert es == init + [last];
      PutAppend(m, init, [last]);
      PutSpec(m, init, k);
      assert Put(Put(m, init), [last]) == Put(m, init)[last.0 := last.1];
    }
  }

  // ---------------------------------------------------------------------------
  // The writes of createMetaLists
  // ---------------------------------------------------------------------------

  /** Every listed node is in the arena. */
  predicate InArena(nodes: seq<Node>, order: seq<Ref>)
  {
    forall i :: 0 <= i < |order| ==> order[i] < |nodes|
  }

  /** Every listed accession is an operation of the arena. */
  predicate Wired(nodes: seq<Node>, accs: seq<Ref>)
  {
    forall i :: 0 <= i < |accs| ==> accs[i] < |nodes| && nodes[accs[i]].variant.Operation?
  }

  lemma LinkedWired(nodes: seq<Node>, p: Ref)
    requires Linked(nodes) && p < |nodes|
    ensures Wired(nodes, Accessions(nodes[p]))
  {
    var accs := Accessions(nodes[p]);
    forall i | 0 <= i < |accs| ensures accs[i] < |nodes| && nodes[accs[i]].variant.Operation? {
      assert accs[i] in accs;
      assert AccessionLinked(nodes, p, accs[i]);
    }
  }

  /** `$group->getClassName()`. */
  function ClassNameOf(n: Node): string
  {
    if n.variant.Resource? then n.variant.className else ""
  }

  /** The key of an operation in the class list: `$group->getClassName() . "::" . $access->getMethodName()`. */
  function MethodKey(nodes: seq<Node>, g: Ref, a: Ref): string
    requires g < |nodes| && a < |nodes| && nodes[a].variant.Operation?
  {
    ClassNameOf(nodes[g]) + "::" + nodes[a].variant.methodName
  }

  /** `$groupList['id'][$group->getId()] = $group` for each visited group. */
  function GroupIds(nodes: seq<Node>, order: seq<Ref>): (es: seq<Entry>)
    requires InArena(nodes, order)
    ensures |es| == |order| && forall i :: 0 <= i < |order| ==> es[i] == (nodes[order[i]].id, order[i])
  {
    seq(|order|, i requires 0 <= i < |order| => (nodes[order[i]].id, order[i]))
  }

  /** `$groupList['class'][$group->getClassName()] = $group` for each visited group. */
  function GroupClasses(nodes: seq<Node>, order: seq<Ref>): (es: seq<Entry>)
    requires InArena(nodes, order)
    ensures |es| == |order| && forall i :: 0 <= i < |order| ==> es[i] == (ClassNameOf(nodes[order[i]]), order[i])
  {
    seq(|order|, i requires 0 <= i < |order| => (ClassNameOf(nodes[order[i]]), order[i]))
  }

  /** `$accessList['id'][$access->getId()] = $access` for the accessions of one group. */
  function AccIds(nodes: seq<Node>, accs: seq<Ref>): (es: seq<Entry>)
    requires Wired(nodes, accs)
    ensures |es| == |accs| && forall i :: 0 <= i < |accs| ==> es[i] == (nodes[accs[i]].id, accs[i])
  {
    seq(|accs|, i requires 0 <= i < |accs| => (nodes[accs[i]].id, accs[i]))
  }

  /** `$accessList['class'][<class>::<method>] = $access` for the accessions of group `g`. */
  function AccKeys(nodes: seq<Node>, g: Ref, accs: seq<Ref>): (es: seq<Entry>)
    requires g < |nodes| && Wired(nodes, accs)
    ensures |es| == |accs| && forall i :: 0 <= i < |accs| ==> es[i] == (MethodKey(nodes, g, accs[i]), accs[i])
  {
    seq(|accs|, i requires 0 <= i < |accs| => (MethodKey(nodes, g, accs[i]), accs[i]))
  }

  /** The operation writes of every visited group, in visiting order. */
  function AccessIds(nodes: seq<Node>, order: seq<Ref>): seq<Entry>
    requires Linked(nodes) && InArena(nodes, order)
  {
    if order == [] then []
    else
      LinkedWired(nodes, order[0]);
      AccIds(nodes, Accessions(nodes[order[0]])) + AccessIds(nodes, order[1..])
  }

  function AccessKeys(nodes: seq<Node>, order: seq<Ref>): seq<Entry>
    requires Linked(nodes) && InArena(nodes, order)
  {
    if order == [] then []
    else
      LinkedWired(nodes, order[0]);
      AccKeys(nodes, order[0], Accessions(nodes[order[0]])) + AccessKeys(nodes, order[1..])
  }

  /** The four lookup arrays: groups by id and by class name, operations by id and by "Class::method". */
  datatype Lists = Lists(
    groupById: map<string, Ref>,
    groupByClass: map<string, Ref>,
    accessById: map<string, Ref>,
    accessByClass: map<string, Ref>)

  const NoLists := Lists(map[], map[], map[], map[])

  /** The lists `l` after visiting the groups of `order`, each with its accessions. */
  function Meta(nodes: seq<Node>, l: Lists, order: seq<Ref>): Lists
    requires Linked(nodes) && InArena(nodes, order)
  {
    Lists(
      Put(l.groupById, GroupIds(nodes, order)),
      Put(l.groupByClass, GroupClasses(nodes, order)),
      Put(l.accessById, AccessIds(nodes, order)),
      Put(l.accessByClass, AccessKeys(nodes, order)))
  }

  lemma {:induction false} AccessIdsAppend(nodes: seq<Node>, a: seq<Ref>, b: seq<Ref>)
    requires Linked(nodes) && InArena(nodes, a) && InArena(nodes, b)
    ensures InArena(nodes, a + b)
    ensures AccessIds(nodes, a + b) == AccessIds(nodes, a) + AccessIds(nodes, b)
    decreases |a|
  {
    if a == [] {
      assert a + b == b;
    } else {
      assert (a + b)[0] == a[0] && (a + b)[1..] == a[1..] + b;
      AccessIdsAppend(nodes, a[1..], b);
      LinkedWired(nodes, a[0]);
      var head := AccIds(nodes, Accessions(nodes[a[0]]));
      assert AccessIds(nodes, a + b) == head + AccessIds(nodes, a[1..] + b);
      assert AccessIds(nodes, a) == head + AccessIds(nodes, a[1..]);
    }
  }

  lemma {:induction false} AccessKeysAppend(nodes: seq<Node>, a: seq<Ref>, b: seq<Ref>)
    requires Linked(nodes) && InArena(nodes, a) && InArena(nodes, b)
    ensures InArena(nodes, a + b)
    ensures AccessKeys(nodes, a + b) == AccessKeys(nodes, a) + AccessKeys(nodes, b)
    decreases |a|
  {
    if a == [] {
      assert a + b == b;
    } else {
      assert (a + b)[0] == a[0] && (a + b)[1..] == a[1..] + b;
      assert InArena(nodes, a[1..]);
      AccessKeysAppend(nodes, a[1..], b);
      LinkedWired(nodes, a[0]);
      var head := AccKeys(nodes, a[0], Accessions(nodes[a[0]]));
      calc {
        AccessKeys(nodes, a + b);
        head + AccessKeys(nodes, a[1..] + b);
        head + (AccessKeys(nodes, a[1..]) + AccessKeys(nodes, b));
        (head + AccessKeys(nodes, a[1..])) + AccessKeys(nodes, b);
        AccessKeys(nodes, a) + AccessKeys(nodes, b);
      }
    }
  }

  lemma GroupEntriesAppend(nodes: seq<Node>, a: seq<Ref>, b: seq<Ref>)
    requires InArena(nodes, a) && InArena(nodes, b)
    ensures InArena(nodes, a + b)
    ensures GroupIds(nodes, a + b) == GroupIds(nodes, a) + GroupIds(nodes, b)
    ensures GroupClasses(nodes, a + b) == GroupClasses(nodes, a) + GroupClasses(nodes, b)
  {
    assert InArena(nodes, a + b);
    assert GroupIds(nodes, a + b) == GroupIds(nodes, a) + GroupIds(nodes, b);
  }

  /** Visiting `a` then `b` is visiting `a + b`. */
  lemma MetaAppend(nodes: seq<Node>, l: Lists, a: seq<Ref>, b: seq<Ref>)
    requires Linked(nodes) && InArena(nodes, a) && InArena(nodes, b)
    ensures InArena(nodes, a + b)
    ensures Meta(nodes, l, a + b) == Meta(nodes, Meta(nodes, l, a), b)
  {
    GroupEntriesAppend(nodes, a, b);
    AccessIdsAppend(nodes, a, b);
    AccessKeysAppend(nodes, a, b);
    PutAppend(l.groupById, GroupIds(nodes, a), GroupIds(nodes, b));
    PutAppend(l.groupByClass, GroupClasses(nodes, a), GroupClasses(nodes, b));
    PutAppend(l.accessById, AccessIds(nodes, a), AccessIds(nodes, b));
    PutAppend(l.accessByClass, AccessKeys(nodes, a), AccessKeys(nodes, b));
  }

  /** One write. */
  lemma PutOne(m: map<string, Ref>, e: Entry)
    ensures Put(m, [e]) == m[e.0 := e.1]
  {
    assert [e][1..] == [];
  }

  /** Visiting one group: its id and class name map to it, then each of its accessions is written. */
  lemma MetaOne(nodes: seq<Node>, l: Lists, g: Ref)
    requires Linked(nodes) && g < |nodes|
    ensures InArena(nodes, [g]) && Wired(nodes, Accessions(nodes[g]))
    ensures Meta(nodes, l, [g]) == Lists(
      l.groupById[nodes[g].id := g],
      l.groupByClass[ClassNameOf(nodes[g]) := g],
      Put(l.accessById, AccIds(nodes, Accessions(nodes[g]))),
      Put(l.accessByClass, AccKeys(nodes, g, Accessions(nodes[g]))))
  {
    LinkedWired(nodes, g);
    var accs := Accessions(nodes[g]);
    assert GroupIds(nodes, [g]) == [(nodes[g].id, g)];
    assert GroupClasses(nodes, [g]) == [(ClassNameOf(nodes[g]), g)];
    PutOne(l.groupById, (nodes[g].id, g));
    PutOne(l.groupByClass, (ClassNameOf(nodes[g]), g));
    assert AccessIds(nodes, [g]) == AccIds(nodes, accs) + AccessIds(nodes, []);
    assert AccessIds(nodes, [g]) == AccIds(nodes, accs);
    assert AccessKeys(nodes, [g]) == AccKeys(nodes, g, accs) + AccessKeys(nodes, []);
    assert AccessKeys(nodes, [g]) == AccKeys(nodes, g, accs);
  }

  /** The body of the loop of createMetaLists for group `g`, before the recursive call. */
  method VisitGroup(nodes: seq<Node>, g: Ref, l: Lists) returns (r: Lists)
    requires Linked(nodes) && g < |nodes|
    ensures InArena(nodes, [g]) && r == Meta(nodes, l, [g])
  {
    MetaOne(nodes, l, g);
    r := l.(groupById := l.groupById[nodes[g].id := g], groupByClass := l.groupByClass[ClassNameOf(nodes[g]) := g]);
    var accs := Accessions(nodes[g]);
    var j := 0;
    while j < |accs|
      invariant 0 <= j <= |accs|
      invariant r.groupById == l.groupById[nodes[g].id := g]
      invariant r.groupByClass == l.groupByClass[ClassNameOf(nodes[g]) := g]
      invariant r.accessById == Put(l.accessById, AccIds(nodes, accs[..j]))
      invariant r.accessByClass == Put(l.accessByClass, AccKeys(nodes, g, accs[..j]))
    {
      var a := accs[j];
      assert AccIds(nodes, accs[..j + 1]) == AccIds(nodes, accs[..j]) + [(nodes[a].id, a)];
      assert AccKeys(nodes, g, accs[..j + 1]) == AccKeys(nodes, g, accs[..j]) + [(MethodKey(nodes, g, a), a)];
      PutAppend(l.accessById, AccIds(nodes, accs[..j]), [(nodes[a].id, a)]);
      PutAppend(l.accessByClass, AccKeys(nodes, g, accs[..j]), [(MethodKey(nodes, g, a), a)]);
      PutOne(r.accessById, (nodes[a].id, a));
      PutOne(r.accessByClass, (MethodKey(nodes, g, a), a));
      r := r.(accessById := r.accessById[nodes[a].id := a],
              accessByClass := r.accessByClass[ClassNameOf(nodes[g]) + "::" + nodes[a].variant.methodName := a]);
      j := j + 1;
    }
    assert accs[..j] == accs;
  }

  /** The visit of the first of `refs` splits off the visit of the rest. */
  lemma MetaHead(nodes: seq<Node>, l: Lists, refs: seq<Ref>, h: nat)
    requires Linked(nodes) && AllWithinHeight(nodes, refs, h) && refs != []
    ensures refs[0] < |nodes| && AllWithinHeight(nodes, refs[1..], h)
    ensures Children(nodes[refs[0]]) != [] ==> h > 0 && AllWithinHeight(nodes, Children(nodes[refs[0]]), h - 1)
    ensures
      var ch := Children(nodes[refs[0]]);
      var sub := if ch == [] then [] else PreOrder(nodes, ch, h - 1);
      InArena(nodes, [refs[0]]) && InArena(nodes, sub) && InArena(nodes, [refs[0]] + sub) &&
      Meta(nodes, l, PreOrder(nodes, refs, h)) ==
        Meta(nodes, Meta(nodes, Meta(nodes, l, [refs[0]]), sub), PreOrder(nodes, refs[1..], h))
  {
    HeadWithin(nodes, refs, h);
    var g := refs[0];
    var ch := Children(nodes[g]);
    var sub := if ch == [] then [] else PreOrder(nodes, ch, h - 1);
    var tail := PreOrder(nodes, refs[1..], h);
    assert PreOrder(nodes, refs, h) == [g] + sub + tail;
    MetaAppend(nodes, l, [g], sub);
    MetaAppend(nodes, l, [g] + sub, tail);
  }

  /**
   * `createMetaLists($groups, &$groupList, &$accessList)`: for each group in
   * order, record it by id and by class name, record each of its accessions
   * by id and by "Class::method", then recurse into its children. The lists
   * passed by reference become the result.
   */
  method CreateMetaLists(nodes: seq<Node>, groups: seq<Ref>, l: Lists, ghost h: nat) returns (r: Lists)
    requires Linked(nodes) && AllWithinHeight(nodes, groups, h)
    ensures r == Meta(nodes, l, PreOrder(nodes, groups, h))
    decreases h, |groups|, 1
  {
    r := l;
    var i := 0;
    assert groups[0..] == groups;
    while i < |groups|
      invariant 0 <= i <= |groups|
      invariant AllWithinHeight(nodes, groups[i..], h)
      invariant Meta(nodes, r, PreOrder(nodes, groups[i..], h)) == Meta(nodes, l, PreOrder(nodes, groups, h))
    {
      r := VisitTree(nodes, groups[i..], r, h);
      assert groups[i..][1..] == groups[i + 1..];
      i := i + 1;
    }
    assert groups[i..] == [];
  }

  /** One pass of the loop of createMetaLists: the first group of `refs`, then the recursive call on its children. */
  method VisitTree(nodes: seq<Node>, refs: seq<Ref>, l: Lists, ghost h: nat) returns (r: Lists)
    requires Linked(nodes) && AllWithinHeight(nodes, refs, h) && refs != []
    ensures AllWithinHeight(nodes, refs[1..], h)
    ensures Meta(nodes, r, PreOrder(nodes, refs[1..], h)) == Meta(nodes, l, PreOrder(nodes, refs, h))
    decreases h, |refs|, 0
  {
    HeadWithin(nodes, refs, h);
    var g := refs[0];
    var first := VisitGroup(nodes, g, l);
    var ch := Children(nodes[g]);
    if ch == [] {
      r := first;
      LeafStep(nodes, l, refs, h);
    } else {
      r := CreateMetaLists(nodes, ch, first, h - 1);
      TreeStep(nodes, l, refs, h);
    }
  }

  /** A first group without children: the lists after it, then the rest, are the lists after all of `refs`. */
  lemma LeafStep(nodes: seq<Node>, l: Lists, refs: seq<Ref>, h: nat)
    requires Linked(nodes) && AllWithinHeight(nodes, refs, h) && refs != [] && refs[0] < |nodes|
    requires Children(nodes[refs[0]]) == []
    ensures InArena(nodes, [refs[0]]) && AllWithinHeight(nodes, refs[1..], h)
    ensures Meta(nodes, Meta(nodes, l, [refs[0]]), PreOrder(nodes, refs[1..], h)) == Meta(nodes, l, PreOrder(nodes, refs, h))
  {
    MetaHead(nodes, l, refs, h);
    MetaNone(nodes, Meta(nodes, l, [refs[0]]));
  }

  /** A first group with children: the lists after it, its subtree, then the rest, are the lists after all of `refs`. */
  lemma TreeStep(nodes: seq<Node>, l: Lists, refs: seq<Ref>, h: nat)
    requires Linked(nodes) && AllWithinHeight(nodes, refs, h) && refs != [] && refs[0] < |nodes|
    requires Children(nodes[refs[0]]) != [] && h > 0 && AllWithinHeight(nodes, Children(nodes[refs[0]]), h - 1)
    ensures InArena(nodes, [refs[0]]) && AllWithinHeight(nodes, refs[1..], h)
    ensures
      var sub := PreOrder(nodes, Children(nodes[refs[0]]), h - 1);
      InArena(nodes, sub) &&
      Meta(nodes, Meta(nodes, Meta(nodes, l, [refs[0]]), sub), PreOrder(nodes, refs[1..], h)) == Meta(nodes, l, PreOrder(nodes, refs, h))
  {
    MetaHead(nodes, l, refs, h);
  }

  /** Visiting no group changes nothing. */
  lemma MetaNone(nodes: seq<Node>, l: Lists)
    requires Linked(nodes)
    ensures InArena(nodes, []) && Meta(nodes, l, []) == l
  {
  }

  // ---------------------------------------------------------------------------
  // What the lists hold
  // ---------------------------------------------------------------------------

  /** The operation writes by id are exactly one per accession of each visited group. */
  lemma {:induction false} AccessIdsSpec(nodes: seq<Node>, order: seq<Ref>, e: Entry)
    requires Linked(nodes) && InArena(nodes, order)
    ensures e in AccessIds(nodes, order) <==>
      exists i, a :: 0 <= i < |order| && a in Accessions(nodes[order[i]]) && a < |nodes| && e == (nodes[a].id, a)
    decreases |order|
  {
    if order != [] {
      AccessIdsSpec(nodes, order[1..], e);
      LinkedWired(nodes, order[0]);
      var accs := Accessions(nodes[order[0]]);
      if e in AccIds(nodes, accs) {
        var k :| 0 <= k < |accs| && AccIds(nodes, accs)[k] == e;
        assert accs[k] in Accessions(nodes[order[0]]);
      }
      if exists i, a :: 0 <= i < |order| && a in Accessions(nodes[order[i]]) && a < |nodes| && e == (nodes[a].id, a) {
        var i, a :| 0 <= i < |order| && a in Accessions(nodes[order[i]]) && a < |nodes| && e == (nodes[a].id, a);
        if i == 0 {
          var k :| 0 <= k < |accs| && accs[k] == a;
          assert AccIds(nodes, accs)[k] == e;
        } else {
          assert order[1..][i - 1] == order[i];
        }
      }
    }
  }

  /** `e` is the "Class::method" write for accession `a` of group `g`. */
  predicate KeyWrite(nodes: seq<Node>, g: Ref, a: Ref, e: Entry)
  {
    g < |nodes| && a in Accessions(nodes[g]) && IsOperation(nodes, a) && e == (MethodKey(nodes, g, a), a)
  }

  /** The operation writes by "Class::method" are exactly one per accession of each visited group. */
  lemma {:induction false} AccessKeysSpec(nodes: seq<Node>, order: seq<Ref>, e: Entry)
    requires Linked(nodes) && InArena(nodes, order)
    ensures e in AccessKeys(nodes, order) <==> exists i, a :: 0 <= i < |order| && KeyWrite(nodes, order[i], a, e)
    decreases |order|
  {
    if order != [] {
      AccessKeysSpec(nodes, order[1..], e);
      LinkedWired(nodes, order[0]);
      var accs := Accessions(nodes[order[0]]);
      if e in AccKeys(nodes, order[0], accs) {
        var k :| 0 <= k < |accs| && AccKeys(nodes, order[0], accs)[k] == e;
        assert accs[k] in Accessions(nodes[order[0]]);
        assert KeyWrite(nodes, order[0], accs[k], e);
      }
      if e in AccessKeys(nodes, order[1..]) {
        var i, a :| 0 <= i < |order[1..]| && KeyWrite(nodes, order[1..][i], a, e);
        assert KeyWrite(nodes, order[i + 1], a, e);
      }
      if exists i, a :: 0 <= i < |order| && KeyWrite(nodes, order[i], a, e) {
        var i, a :| 0 <= i < |order| && KeyWrite(nodes, order[i], a, e);
        if i == 0 {
          var k :| 0 <= k < |accs| && accs[k] == a;
          assert AccKeys(nodes, order[0], accs)[k] == e;
          assert e in AccKeys(nodes, order[0], accs);
        } else {
          assert order[1..][i - 1] == order[i];
          assert KeyWrite(nodes, order[1..][i - 1], a, e);
          assert e in AccessKeys(nodes, order[1..]);
        }
      }
    }
  }

  /** A later write with key `k` exists iff some write has key `k`. */
  lemma LastForSome(es: seq<Entry>, k: string)
    ensures LastFor(es, k).Some? <==> exists e :: e in es && e.0 == k
  {
    if exists e :: e in es && e.0 == k {
      var e :| e in es && e.0 == k;
      var i :| 0 <= i < |es| && es[i] == e;
    }
  }

  /**
   * Groups by id: an id is listed iff some visited group has it, and it maps
   * to the last visited group with that id.
   */
  lemma IndexGroupById(nodes: seq<Node>, order: seq<Ref>, id: string)
    requires Linked(nodes) && InArena(nodes, order)
    ensures id in Meta(nodes, NoLists, order).groupById <==> exists i :: 0 <= i < |order| && nodes[order[i]].id == id
    ensures id in Meta(nodes, NoLists, order).groupById ==>
      exists i :: 0 <= i < |order| && order[i] == Meta(nodes, NoLists, order).groupById[id]
        && nodes[order[i]].id == id && forall j :: i < j < |order| ==> nodes[order[j]].id != id
  {
    var es := GroupIds(nodes, order);
    PutSpec(map[], es, id);
    if exists i :: 0 <= i < |order| && nodes[order[i]].id == id {
      var i :| 0 <= i < |order| && nodes[order[i]].id == id;
      assert es[i].0 == id;
    }
  }

  /**
   * Groups by class: a class name is listed iff some visited group has it,
   * and it maps to the last visited group with that class name.
   */
  lemma IndexGroupByClass(nodes: seq<Node>, order: seq<Ref>, cls: string)
    requires Linked(nodes) && InArena(nodes, order)
    ensures cls in Meta(nodes, NoLists, order).groupByClass <==> exists i :: 0 <= i < |order| && ClassNameOf(nodes[order[i]]) == cls
    ensures cls in Meta(nodes, NoLists, order).groupByClass ==>
      exists i :: 0 <= i < |order| && order[i] == Meta(nodes, NoLists, order).groupByClass[cls]
        && ClassNameOf(nodes[order[i]]) == cls && forall j :: i < j < |order| ==> ClassNameOf(nodes[order[j]]) != cls
  {
    var es := GroupClasses(nodes, order);
    PutSpec(map[], es, cls);
    if exists i :: 0 <= i < |order| && ClassNameOf(nodes[order[i]]) == cls {
      var i :| 0 <= i < |order| && ClassNameOf(nodes[order[i]]) == cls;
      assert es[i].0 == cls;
    }
  }

  /**
   * Operations by id: an id is listed iff some accession of a visited group
   * has it; it maps to such an accession, the last one written.
   */
  lemma IndexAccessById(nodes: seq<Node>, order: seq<Ref>, id: string)
    requires Linked(nodes) && InArena(nodes, order)
    ensures id in Meta(nodes, NoLists, order).accessById <==>
      exists i, a :: 0 <= i < |order| && a in Accessions(nodes[order[i]]) && a < |nodes| && nodes[a].id == id
    ensures id in Meta(nodes, NoLists, order).accessById ==>
      var a := Meta(nodes, NoLists, order).accessById[id];
      && LastFor(AccessIds(nodes, order), id).Some?
      && a == AccessIds(nodes, order)[LastFor(AccessIds(nodes, order), id).value].1
      && exists i :: 0 <= i < |order| && a in Accessions(nodes[order[i]]) && a < |nodes| && nodes[a].id == id
  {
    var es := AccessIds(nodes, order);
    PutSpec(map[], es, id);
    LastForSome(es, id);
    if exists i, a :: 0 <= i < |order| && a in Accessions(nodes[order[i]]) && a < |nodes| && nodes[a].id == id {
      var i, a :| 0 <= i < |order| && a in Accessions(nodes[order[i]]) && a < |nodes| && nodes[a].id == id;
      AccessIdsSpec(nodes, order, (id, a));
    }
    if LastFor(es, id).Some? {
      var e := es[LastFor(es, id).value];
      AccessIdsSpec(nodes, order, e);
    }
  }

  /**
   * Operations by "Class::method": a key is listed iff it is the key of some
   * accession of a visited group; it maps to such an accession, the last one written.
   */
  lemma IndexAccessByClass(nodes: seq<Node>, order: seq<Ref>, key: string)
    requires Linked(nodes) && InArena(nodes, order)
    ensures key in Meta(nodes, NoLists, order).accessByClass <==>
      exists i, a :: 0 <= i < |order| && KeyWrite(nodes, order[i], a, (key, a))
    ensures key in Meta(nodes, NoLists, order).accessByClass ==>
      var a := Meta(nodes, NoLists, order).accessByClass[key];
      && LastFor(AccessKeys(nodes, order), key).Some?
      && a == AccessKeys(nodes, order)[LastFor(AccessKeys(nodes, order), key).value].1
      && exists i :: 0 <= i < |order| && KeyWrite(nodes, order[i], a, (key, a))
  {
    var es := AccessKeys(nodes, order);
    PutSpec(map[], es, key);
    LastForSome(es, key);
    if exists i, a :: 0 <= i < |order| && KeyWrite(nodes, order[i], a, (key, a)) {
      var i, a :| 0 <= i < |order| && KeyWrite(nodes, order[i], a, (key, a));
      AccessKeysSpec(nodes, order, (key, a));
    }
    if LastFor(es, key).Some? {
      var e := es[LastFor(es, key).value];
      AccessKeysSpec(nodes, order, e);
    }
  }
}
