/**
 * The Mapping service (src/Mapping.php): it loads the compiled forest from
 * the cache or, in compile mode, compiles it and saves it, then builds the
 * lookup lists; lookups are reads of those lists.
 */
module Mappings {
  import opened Wrappers
  import opened Nodes
  import opened Forest
  import opened Compiler
  import opened Index

  /** What the cache holds under "groups": the arena of the forest and its roots. */
  datatype Snapshot = Snapshot(nodes: seq<Node>, roots: seq<Ref>)

  /** `load("groups", [])` on a cache without that key. */
  const EmptySnapshot := Snapshot([], [])

  const GroupsKey := "groups"

  /** A forest as compiled: linked, its roots parentless resources. */
  ghost predicate Sound(s: Snapshot)
  {
    Linked(s.nodes) && Roots(s.nodes, s.roots)
  }

  /** The groups of a sound forest in the order createMetaLists visits them. */
  ghost function Visited(nodes: seq<Node>, roots: seq<Ref>): (order: seq<Ref>)
    requires Linked(nodes) && Roots(nodes, roots)
    ensures InArena(nodes, order)
  {
    RootsWithinHeight(nodes, roots);
    PreOrder(nodes, roots, |nodes|)
  }

  class Mapping {
    var nodes: seq<Node>
    var groups: seq<Ref>
    var lists: Lists

    /** The lists are those createMetaLists builds from the groups. */
    ghost predicate Valid()
      reads this
    {
      && Linked(nodes) && Roots(nodes, groups)
      && lists == Meta(nodes, NoLists, Visited(nodes, groups))
    }

    /** A mapping before initialisation: no groups and empty lists. */
    constructor ()
      ensures Valid() && nodes == [] && groups == [] && lists == NoLists
    {
      nodes := [];
      groups := [];
      lists := NoLists;
      assert Visited([], []) == [];
    }

    /**
     * `initialize()`: the groups are loaded from the cache (none when it has
     * no entry), or, when `compile` is set, compiled from `facts` and saved;
     * then the lists are built from them. A compile error leaves the mapping
     * and the cache as they were. Returns the cache afterwards.
     */
    method Initialize(compile: bool, cache: map<string, Snapshot>, facts: seq<ClassFact>, hash: string -> string)
      returns (r: Result<map<string, Snapshot>, MappingError>, ghost entries: seq<Ref>)
      requires GroupsKey in cache ==> Sound(cache[GroupsKey])
      requires DistinctNames(facts)
      modifies this
      ensures r.Err? <==> compile && CompileError(facts).Some?
      ensures r.Err? ==> r.error == CompileError(facts).value && unchanged(this)
      ensures r.Ok? ==> Valid() && (GroupsKey in r.value ==> Sound(r.value[GroupsKey]))
      ensures r.Ok? && !compile ==>
        r.value == cache && Snapshot(nodes, groups) == (if GroupsKey in cache then cache[GroupsKey] else EmptySnapshot)
      ensures r.Ok? && compile ==>
        && r.value == cache[GroupsKey := Snapshot(nodes, groups)]
        && Compiled(nodes, Declared(facts), entries, hash, |entries|)
        && groups == RootsOf(Declared(facts), entries, |entries|)
    {
      var snap := if GroupsKey in cache then cache[GroupsKey] else EmptySnapshot;
      var saved := cache;
      entries := [];
      if compile {
        var res, arena;
        res, arena, entries := CreateGroups(facts, hash);
        if res.Err? {
          return Err(res.error), entries;
        }
        snap := Snapshot(arena.nodes, res.value);
        saved := cache[GroupsKey := snap];
      }
      RootsWithinHeight(snap.nodes, snap.roots);
      var l := CreateMetaLists(snap.nodes, snap.roots, NoLists, |snap.nodes|);
      nodes, groups, lists := snap.nodes, snap.roots, l;
      r := Ok(saved);
    }

    /** `findById($id)`: a group with that id first, then an operation with that id, else none. */
    function FindById(id: string): Option<Ref>
      reads this
    {
      if id in lists.groupById then Some(lists.groupById[id])
      else if id in lists.accessById then Some(lists.accessById[id])
      else None
    }

    /** `findByClass($class)`: a group of that class first, then the operation keyed "Class::method", else none. */
    function FindByClass(cls: string): Option<Ref>
      reads this
    {
      if cls in lists.groupByClass then Some(lists.groupByClass[cls])
      else if cls in lists.accessByClass then Some(lists.accessByClass[cls])
      else None
    }

    /** `getGroupByClass($className)`. */
    function GetGroupByClass(cls: string): Option<Ref>
      reads this
    {
      if cls in lists.groupByClass then Some(lists.groupByClass[cls]) else None
    }

    /** `getGroupById($id)`. */
    function GetGroupById(id: string): Option<Ref>
      reads this
    {
      if id in lists.groupById then Some(lists.groupById[id]) else None
    }

    /** `getAccessByClass($className)`, keyed "Class::method". */
    function GetAccessByClass(key: string): Option<Ref>
      reads this
    {
      if key in lists.accessByClass then Some(lists.accessByClass[key]) else None
    }

    /** `getAccessByid($id)`. */
    function GetAccessById(id: string): Option<Ref>
      reads this
    {
      if id in lists.accessById then Some(lists.accessById[id]) else None
    }
  }

  // ---------------------------------------------------------------------------
  // The lookups against the forest
  // ---------------------------------------------------------------------------

  /** Some visited group has id `id`. */
  ghost predicate GroupWithId(nodes: seq<Node>, order: seq<Ref>, id: string)
    requires InArena(nodes, order)
  {
    exists i :: 0 <= i < |order| && nodes[order[i]].id == id
  }

  /** Some accession of a visited group has id `id`. */
  ghost predicate AccessWithId(nodes: seq<Node>, order: seq<Ref>, id: string)
    requires InArena(nodes, order)
  {
    exists i, a :: 0 <= i < |order| && a in Accessions(nodes[order[i]]) && a < |nodes| && nodes[a].id == id
  }

  /**
   * getGroupById finds the last group visited with that id, and finds
   * nothing exactly when no reachable group has it.
   */
  lemma GetGroupByIdSpec(m: Mapping, id: string)
    requires m.Valid()
    ensures var order := Visited(m.nodes, m.groups);
      && (m.GetGroupById(id).None? <==> !GroupWithId(m.nodes, order, id))
      && (m.GetGroupById(id).Some? ==>
            exists i :: 0 <= i < |order| && order[i] == m.GetGroupById(id).value
              && m.nodes[order[i]].id == id && forall j :: i < j < |order| ==> m.nodes[order[j]].id != id)
  {
    IndexGroupById(m.nodes, Visited(m.nodes, m.groups), id);
  }

  /**
   * getGroupByClass finds the last group visited of that class, and finds
   * nothing exactly when no reachable group is of it.
   */
  lemma GetGroupByClassSpec(m: Mapping, cls: string)
    requires m.Valid()
    ensures var order := Visited(m.nodes, m.groups);
      && (m.GetGroupByClass(cls).None? <==> forall i :: 0 <= i < |order| ==> ClassNameOf(m.nodes[order[i]]) != cls)
      && (m.GetGroupByClass(cls).Some? ==>
            exists i :: 0 <= i < |order| && order[i] == m.GetGroupByClass(cls).value
              && ClassNameOf(m.nodes[order[i]]) == cls && forall j :: i < j < |order| ==> ClassNameOf(m.nodes[order[j]]) != cls)
  {
    IndexGroupByClass(m.nodes, Visited(m.nodes, m.groups), cls);
  }

  /** getAccessById finds an operation of a reachable group with that id, and nothing exactly when there is none. */
  lemma GetAccessByIdSpec(m: Mapping, id: string)
    requires m.Valid()
    ensures var order := Visited(m.nodes, m.groups);
      && (m.GetAccessById(id).None? <==> !AccessWithId(m.nodes, order, id))
      && (m.GetAccessById(id).Some? ==>
            var a := m.GetAccessById(id).value;
            exists i :: 0 <= i < |order| && a in Accessions(m.nodes[order[i]]) && a < |m.nodes| && m.nodes[a].id == id)
  {
    IndexAccessById(m.nodes, Visited(m.nodes, m.groups), id);
  }

  /** getAccessByClass finds an operation of a reachable group under its "Class::method" key, and nothing exactly when there is none. */
  lemma GetAccessByClassSpec(m: Mapping, key: string)
    requires m.Valid()
    ensures var order := Visited(m.nodes, m.groups);
      && (m.GetAccessByClass(key).None? <==> forall i, a :: 0 <= i < |order| ==> !KeyWrite(m.nodes, order[i], a, (key, a)))
      && (m.GetAccessByClass(key).Some? ==>
            var a := m.GetAccessByClass(key).value;
            exists i :: 0 <= i < |order| && KeyWrite(m.nodes, order[i], a, (key, a)))
  {
    IndexAccessByClass(m.nodes, Visited(m.nodes, m.groups), key);
  }

  /**
   * findById prefers groups: with a reachable group of that id it is
   * getGroupById; otherwise it is getAccessById; it finds nothing exactly
   * when neither a reachable group nor one of their operations has the id.
   */
  lemma FindByIdSpec(m: Mapping, id: string)
    requires m.Valid()
    ensures var order := Visited(m.nodes, m.groups);
      && (GroupWithId(m.nodes, order, id) ==> m.FindById(id) == m.GetGroupById(id) && m.FindById(id).Some?)
      && (!GroupWithId(m.nodes, order, id) ==> m.FindById(id) == m.GetAccessById(id))
      && (m.FindById(id).None? <==> !GroupWithId(m.nodes, order, id) && !AccessWithId(m.nodes, order, id))
      && (m.FindById(id).Some? ==> m.FindById(id).value < |m.nodes| && m.nodes[m.FindById(id).value].id == id)
  {
    GetGroupByIdSpec(m, id);
    GetAccessByIdSpec(m, id);
  }

  /** findByClass prefers groups: a group of that class if any is reachable, else the operation keyed so. */
  lemma FindByClassSpec(m: Mapping, cls: string)
    requires m.Valid()
    ensures m.FindByClass(cls) == (if m.GetGroupByClass(cls).Some? then m.GetGroupByClass(cls) else m.GetAccessByClass(cls))
    ensures var order := Visited(m.nodes, m.groups);
      m.FindByClass(cls).None? <==>
        && (forall i :: 0 <= i < |order| ==> ClassNameOf(m.nodes[order[i]]) != cls)
        && (forall i, a :: 0 <= i < |order| ==> !KeyWrite(m.nodes, order[i], a, (cls, a)))
  {
    GetGroupByClassSpec(m, cls);
    GetAccessByClassSpec(m, cls);
  }

  /**
   * Whatever findByClass finds, and each operation of it, has a finite
   * parent chain, so `isAllowed(TRUE)` on it terminates.
   */
  lemma FoundGrounded(m: Mapping, cls: string)
    requires m.Valid()
    ensures m.FindByClass(cls).Some? ==>
      && m.FindByClass(cls).value < |m.nodes| && Grounded(m.nodes, m.FindByClass(cls).value)
      && forall a :: a in Accessions(m.nodes[m.FindByClass(cls).value]) ==> Grounded(m.nodes, a)
  {
    if m.GetGroupByClass(cls).Some? {
      GroupFoundGrounded(m, cls);
    } else if m.GetAccessByClass(cls).Some? {
      AccessFoundGrounded(m, cls);
    }
  }

  /** Every group createMetaLists visits, and each of its operations, has a finite parent chain. */
  lemma VisitedGrounded(m: Mapping)
    requires m.Valid()
    ensures forall x :: x in Visited(m.nodes, m.groups) ==> Grounded(m.nodes, x)
    ensures forall x, a :: x in Visited(m.nodes, m.groups) && a in Accessions(m.nodes[x]) ==> Grounded(m.nodes, a)
  {
    RootsWithinHeight(m.nodes, m.groups);
    RootsGrounded(m.nodes, m.groups);
    PreOrderGrounded(m.nodes, m.groups, |m.nodes|);
  }

  lemma GroupFoundGrounded(m: Mapping, cls: string)
    requires m.Valid() && m.GetGroupByClass(cls).Some?
    ensures var g := m.GetGroupByClass(cls).value;
      g < |m.nodes| && Grounded(m.nodes, g) && forall a :: a in Accessions(m.nodes[g]) ==> Grounded(m.nodes, a)
  {
    var order := Visited(m.nodes, m.groups);
    VisitedGrounded(m);
    GetGroupByClassSpec(m, cls);
    var i :| 0 <= i < |order| && order[i] == m.GetGroupByClass(cls).value;
    assert order[i] in order;
  }

  lemma AccessFoundGrounded(m: Mapping, cls: string)
    requires m.Valid() && m.GetAccessByClass(cls).Some?
    ensures var x := m.GetAccessByClass(cls).value;
      x < |m.nodes| && Grounded(m.nodes, x) && Accessions(m.nodes[x]) == []
  {
    var x := m.GetAccessByClass(cls).value;
    var g := AccessOwner(m, cls);
    VisitedAccessGrounded(m, g, x);
  }

  /** The group whose "Class::method" write put the operation found under `key` in the list. */
  lemma AccessOwner(m: Mapping, key: string) returns (g: Ref)
    requires m.Valid() && m.GetAccessByClass(key).Some?
    ensures g in Visited(m.nodes, m.groups) && KeyWrite(m.nodes, g, m.GetAccessByClass(key).value, (key, m.GetAccessByClass(key).value))
  {
    var order := Visited(m.nodes, m.groups);
    GetAccessByClassSpec(m, key);
    var a := m.GetAccessByClass(key).value;
    var i :| 0 <= i < |order| && KeyWrite(m.nodes, order[i], a, (key, a));
    g := order[i];
  }

  /** An operation of a visited group has a finite parent chain. */
  lemma VisitedAccessGrounded(m: Mapping, g: Ref, x: Ref)
    requires m.Valid() && g in Visited(m.nodes, m.groups) && g < |m.nodes| && x in Accessions(m.nodes[g]) && IsOperation(m.nodes, x)
    ensures Grounded(m.nodes, x) && Accessions(m.nodes[x]) == []
  {
    var nodes, order := m.nodes, Visited(m.nodes, m.groups);
    VisitedGrounded(m);
    assert g in order && x in Accessions(nodes[g]);
    assert Grounded(nodes, x);
    assert nodes[x].variant.Operation?;
  }
}
