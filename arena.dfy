/**
 * The mutable side of the node model: an arena object owning every node,
 * whose methods are the constructors of Control, Group, Action and Access
 * and the setters and adders of AMappingSignal, Control and Group. Each
 * method states the whole new arena in terms of the pure node functions.
 */
module Arenas {
  import opened Wrappers
  import opened Text
  import opened Nodes

  /** Appending a node with no children and no accessions keeps the arena linked. */
  lemma AppendKeepsLinked(nodes: seq<Node>, n: Node)
    requires Linked(nodes) && Children(n) == [] && Accessions(n) == []
    ensures Linked(nodes + [n])
  {
    var after := nodes + [n];
    forall p, c | 0 <= p < |after| && c in Children(after[p]) ensures ChildLinked(after, p, c) {
      assert p < |nodes| && after[p] == nodes[p];
      assert ChildLinked(nodes, p, c);
    }
    forall p, a | 0 <= p < |after| && a in Accessions(after[p]) ensures AccessionLinked(after, p, a) {
      assert p < |nodes| && after[p] == nodes[p];
      assert AccessionLinked(nodes, p, a);
    }
  }

  /** Adding to a resource an operation whose parent is that resource keeps the arena linked. */
  lemma AddAccessionKeepsLinked(nodes: seq<Node>, i: Ref, a: Ref)
    requires i < |nodes| && nodes[i].variant.Resource?
    requires Linked(nodes) && AccessionLinked(nodes, i, a)
    ensures Linked(nodes[i := nodes[i].(variant := nodes[i].variant.(accession := nodes[i].variant.accession + [a]))])
  {
    var after := nodes[i := nodes[i].(variant := nodes[i].variant.(accession := nodes[i].variant.accession + [a]))];
    forall p, c | 0 <= p < |after| && c in Children(after[p]) ensures ChildLinked(after, p, c) {
      assert c in Children(nodes[p]);
      assert ChildLinked(nodes, p, c);
    }
    forall p, x | 0 <= p < |after| && x in Accessions(after[p]) ensures AccessionLinked(after, p, x) {
      if !(p == i && x == a) {
        assert x in Accessions(nodes[p]);
        assert AccessionLinked(nodes, p, x);
      }
    }
  }

  /** Changing the flag or the message of a node leaves every link as it was. */
  lemma FlagsKeepLinked(nodes: seq<Node>, i: Ref, n: Node)
    requires i < |nodes| && Linked(nodes)
    requires n.parent == nodes[i].parent && n.variant == nodes[i].variant
    ensures Linked(nodes[i := n])
  {
    var after := nodes[i := n];
    forall p, c | 0 <= p < |after| && c in Children(after[p]) ensures ChildLinked(after, p, c) {
      assert c in Children(nodes[p]);
      assert ChildLinked(nodes, p, c);
    }
    forall p, x | 0 <= p < |after| && x in Accessions(after[p]) ensures AccessionLinked(after, p, x) {
      assert x in Accessions(nodes[p]);
      assert AccessionLinked(nodes, p, x);
    }
  }

  class Arena {
    var nodes: seq<Node>

    /** An empty arena. */
    constructor ()
      ensures nodes == []
    {
      nodes := [];
    }

    /** An arena holding a previously saved forest. */
    constructor Load(snapshot: seq<Node>)
      ensures nodes == snapshot
    {
      nodes := snapshot;
    }

    /** `new Control($class, $annotation)`: name default, message, alphabetic check, id choice. */
    method NewControl(cls: ClassInfo, ann: ClassAnnotation, hash: string -> string) returns (r: Result<Ref, MappingError>)
      modifies this
      ensures ControlNode(cls, ann, hash).Err? ==> r == Err(InvalidName(cls.name)) && nodes == old(nodes)
      ensures ControlNode(cls, ann, hash).Ok? ==>
        r == Ok(|old(nodes)|) && nodes == old(nodes) + [ControlNode(cls, ann, hash).value]
      ensures Linked(old(nodes)) ==> Linked(nodes)
    {
      var name := ann.name;
      if !Truthy(name) {
        name := cls.shortName;
      }
      var message := ann.message;
      if !IsAlpha(name) {
        return Err(InvalidName(cls.name));
      }
      var id := ann.id;
      if !Truthy(id) {
        id := hash(cls.fileName);
      }
      var n := Node(id, name, ann.description, message, ann.options, false, None, Resource(cls.name, [], []));
      if Linked(nodes) {
        AppendKeepsLinked(nodes, n);
      }
      nodes := nodes + [n];
      r := Ok(|nodes| - 1);
    }

    /** `new Group($class, $annotation)`: name default, alphabetic check, id from the file name. */
    method NewGroup(cls: ClassInfo, ann: ClassAnnotation, hash: string -> string) returns (r: Result<Ref, MappingError>)
      modifies this
      ensures GroupNode(cls, ann, hash).Err? ==> r == Err(InvalidName(cls.name)) && nodes == old(nodes)
      ensures GroupNode(cls, ann, hash).Ok? ==>
        r == Ok(|old(nodes)|) && nodes == old(nodes) + [GroupNode(cls, ann, hash).value]
      ensures Linked(old(nodes)) ==> Linked(nodes)
    {
      var name := ann.name;
      if !Truthy(name) {
        name := cls.shortName;
      }
      if !IsAlpha(name) {
        return Err(InvalidName(cls.name));
      }
      var n := Node(hash(cls.fileName), name, ann.description, None, ann.options, false, None, Resource(cls.name, [], []));
      if Linked(nodes) {
        AppendKeepsLinked(nodes, n);
      }
      nodes := nodes + [n];
      r := Ok(|nodes| - 1);
    }

    /** `new Action($control, $method, $annotation, $type, $suffix)`: the owning control becomes the parent. */
    method NewAction(owner: Ref, m: MethodInfo, ann: MethodAnnotation, opType: string, suffix: string, hash: string -> string)
      returns (a: Ref)
      modifies this
      ensures a == |old(nodes)| && nodes == old(nodes) + [ActionNode(owner, m, ann, opType, suffix, hash)]
      ensures Linked(old(nodes)) ==> Linked(nodes)
    {
      var name := ann.name;
      if !Truthy(name) {
        name := LcFirst(suffix);
      }
      var n := Node(hash(m.declaringClass + "::" + m.name), name, ann.description, ann.message, ann.options,
                    false, Some(owner), Operation(opType, suffix, m.name));
      if Linked(nodes) {
        AppendKeepsLinked(nodes, n);
      }
      nodes := nodes + [n];
      a := |nodes| - 1;
    }

    /** `new Access($method, $annotation, $type, $suffix)`. */
    method NewAccess(m: MethodInfo, ann: MethodAnnotation, opType: string, suffix: string, hash: string -> string)
      returns (a: Ref)
      modifies this
      ensures a == |old(nodes)| && nodes == old(nodes) + [AccessNode(m, ann, opType, suffix, hash)]
      ensures Linked(old(nodes)) ==> Linked(nodes)
    {
      var name := ann.name;
      if !Truthy(name) {
        name := LcFirst(suffix);
      }
      var n := Node(hash(m.declaringClass + "::" + m.name), name, ann.description, None, ann.options,
                    false, None, Operation(opType, suffix, m.name));
      if Linked(nodes) {
        AppendKeepsLinked(nodes, n);
      }
      nodes := nodes + [n];
      a := |nodes| - 1;
    }

    /** `setAllowed($allowed)`: only the flag of node `i` changes; returns the node itself. */
    method SetAllowed(i: Ref, allowed: bool) returns (self: Ref)
      requires i < |nodes|
      modifies this
      ensures self == i && nodes == old(nodes)[i := old(nodes)[i].(allowed := allowed)]
      ensures Linked(old(nodes)) ==> Linked(nodes)
    {
      if Linked(nodes) {
        FlagsKeepLinked(nodes, i, nodes[i].(allowed := allowed));
      }
      nodes := nodes[i := nodes[i].(allowed := allowed)];
      self := i;
    }

    /** `setMessage($message)`: only the message of node `i` changes; returns the node itself. */
    method SetMessage(i: Ref, message: Option<string>) returns (self: Ref)
      requires i < |nodes|
      modifies this
      ensures self == i && nodes == old(nodes)[i := old(nodes)[i].(message := message)]
      ensures Linked(old(nodes)) ==> Linked(nodes)
    {
      if Linked(nodes) {
        FlagsKeepLinked(nodes, i, nodes[i].(message := message));
      }
      nodes := nodes[i := nodes[i].(message := message)];
      self := i;
    }

    /** `setParent($parent)`: only the parent of node `i` changes, to a node or to none; returns the node itself, as `Group::setParent` does. */
    method SetParent(i: Ref, parent: Option<Ref>) returns (self: Ref)
      requires i < |nodes|
      modifies this
      ensures self == i && nodes == old(nodes)[i := old(nodes)[i].(parent := parent)]
    {
      nodes := nodes[i := nodes[i].(parent := parent)];
      self := i;
    }

    /** `addAccession($access)`: appends to the accessions of resource `i`, nothing else changes. */
    method AddAccession(i: Ref, a: Ref)
      requires i < |nodes| && nodes[i].variant.Resource?
      modifies this
      ensures nodes == old(nodes)[i := old(nodes)[i].(variant := old(nodes)[i].variant.(accession := old(nodes)[i].variant.accession + [a]))]
      ensures Linked(old(nodes)) && AccessionLinked(old(nodes), i, a) ==> Linked(nodes)
    {
      if Linked(nodes) && AccessionLinked(nodes, i, a) {
        AddAccessionKeepsLinked(nodes, i, a);
      }
      nodes := nodes[i := nodes[i].(variant := nodes[i].variant.(accession := nodes[i].variant.accession + [a]))];
    }

    /** `addChildren($child)`: appends to the children of resource `i`, nothing else changes. */
    method AddChildren(i: Ref, c: Ref)
      requires i < |nodes| && nodes[i].variant.Resource?
      modifies this
      ensures nodes == old(nodes)[i := old(nodes)[i].(variant := old(nodes)[i].variant.(children := old(nodes)[i].variant.children + [c]))]
    {
      nodes := nodes[i := nodes[i].(variant := nodes[i].variant.(children := nodes[i].variant.children + [c]))];
    }

    /**
     * The link step of the compiler with the child's back-reference set:
     * `c` is appended to the children of `p` and `p` becomes the parent of `c`.
     */
    method Link(p: Ref, c: Ref)
      requires p < |nodes| && c < |nodes| && nodes[p].variant.Resource?
      modifies this
      ensures nodes == LinkIntended(old(nodes), p, c)
      ensures Linked(old(nodes)) && old(nodes)[c].variant.Resource? && old(nodes)[c].parent.None? ==> Linked(nodes)
    {
      if Linked(nodes) && nodes[c].variant.Resource? && nodes[c].parent.None? {
        LinkIntendedKeepsLinked(nodes, p, c);
      }
      AddChildren(p, c);
      var _ := SetParent(c, Some(p));
    }

    /** The link step as the compiler writes it: the parent, not the child, receives the parent. */
    method LinkAsWrittenStep(p: Ref, c: Ref)
      requires p < |nodes| && c < |nodes| && nodes[p].variant.Resource?
      modifies this
      ensures nodes == LinkAsWritten(old(nodes), p, c)
    {
      AddChildren(p, c);
      var _ := SetParent(p, Some(p));
    }
  }
}
