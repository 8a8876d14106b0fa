/**
 * The policy-node model: one record shape for resources (Control/Group) and
 * operations (Action/Access), held in an arena and referred to by index.
 * A `Node` carries the state of AMappingSignal (allowed flag, message, parent)
 * and the per-variant fields of Control/Group (class name, accessions,
 * children) or of Action/Access (type, suffix, method name).
 */
module Nodes {
  import opened Wrappers
  import opened Text

  /** A reference to a node: its index in the arena. */
  type Ref = nat

  /** The annotation's free-form `options` array. */
  type Options = map<string, string>

  /** Operation types, named by the method prefix that selects them. */
  const HandleType := "handle"
  const RenderType := "render"
  const ActionType := "action"
  const CreateComponentType := "createComponent"

  datatype Variant =
    | Resource(className: string, accession: seq<Ref>, children: seq<Ref>)
    | Operation(opType: string, suffix: string, methodName: string)

  datatype Node = Node(
    id: string,
    name: string,
    description: Option<string>,
    message: Option<string>,
    options: Options,
    allowed: bool,
    parent: Option<Ref>,
    variant: Variant)

  /** What reflection tells about a class. */
  datatype ClassInfo = ClassInfo(name: string, shortName: string, fileName: string)

  /** What reflection tells about a method. */
  datatype MethodInfo = MethodInfo(name: string, declaringClass: string)

  /**
   * The class-level annotation. An absent `name`, `parent` or `id` is the
   * empty string; the @Group annotation the compiler reads has no `id` and no
   * `message`, so those are "" and None for it.
   */
  datatype ClassAnnotation = ClassAnnotation(
    name: string,
    parent: string,
    id: string,
    description: Option<string>,
    message: Option<string>,
    options: Options)

  /** The method-level annotation (@Access / @Action). */
  datatype MethodAnnotation = MethodAnnotation(
    name: string,
    description: Option<string>,
    message: Option<string>,
    options: Options)

  /** Failures of compilation. */
  datatype MappingError =
    | InvalidName(className: string)   // Assert::alpha on the display name
    | GroupUndefined(parent: string)   // MappingExceptions::groupUndefine

  function Accessions(n: Node): seq<Ref>
  {
    if n.variant.Resource? then n.variant.accession else []
  }

  function Children(n: Node): seq<Ref>
  {
    if n.variant.Resource? then n.variant.children else []
  }

  // ---------------------------------------------------------------------------
  // Construction of nodes (the four constructors)
  // ---------------------------------------------------------------------------

  /** The display name of a resource: the annotated name, or the short class name when it is empty. */
  function ResourceName(cls: ClassInfo, ann: ClassAnnotation): string
  {
    if Truthy(ann.name) then ann.name else cls.shortName
  }

  /** The display name of an operation: the annotated name, or the suffix with its first letter lowercased. */
  function OperationName(ann: MethodAnnotation, suffix: string): string
  {
    if Truthy(ann.name) then ann.name else LcFirst(suffix)
  }

  /** The id of an operation: the hash of `declaringClass::methodName`. */
  function OperationId(m: MethodInfo, hash: string -> string): string
  {
    hash(m.declaringClass + "::" + m.name)
  }

  /** `new Control($class, $annotation)`. */
  function ControlNode(cls: ClassInfo, ann: ClassAnnotation, hash: string -> string): Result<Node, MappingError>
  {
    var name := ResourceName(cls, ann);
    if !IsAlpha(name) then Err(InvalidName(cls.name))
    else
      var id := if Truthy(ann.id) then ann.id else hash(cls.fileName);
      Ok(Node(id, name, ann.description, ann.message, ann.options, false, None, Resource(cls.name, [], [])))
  }

  /** `new Group($class, $annotation)`: no declared id and no message. */
  function GroupNode(cls: ClassInfo, ann: ClassAnnotation, hash: string -> string): Result<Node, MappingError>
  {
    var name := ResourceName(cls, ann);
    if !IsAlpha(name) then Err(InvalidName(cls.name))
    else Ok(Node(hash(cls.fileName), name, ann.description, None, ann.options, false, None, Resource(cls.name, [], [])))
  }

  /** `new Action($control, $method, $annotation, $type, $suffix)`: the owning control is the parent. */
  function ActionNode(owner: Ref, m: MethodInfo, ann: MethodAnnotation, opType: string, suffix: string, hash: string -> string): Node
  {
    Node(OperationId(m, hash), OperationName(ann, suffix), ann.description, ann.message, ann.options,
         false, Some(owner), Operation(opType, suffix, m.name))
  }

  /** `new Access($method, $annotation, $type, $suffix)`: no parent and no message. */
  function AccessNode(m: MethodInfo, ann: MethodAnnotation, opType: string, suffix: string, hash: string -> string): Node
  {
    Node(OperationId(m, hash), OperationName(ann, suffix), ann.description, None, ann.options,
         false, None, Operation(opType, suffix, m.name))
  }

  /** A resource is built, not denied by default, exactly when its display name is alphabetic; its id is the declared one or the file hash. */
  lemma ControlNodeSpec(cls: ClassInfo, ann: ClassAnnotation, hash: string -> string)
    ensures ControlNode(cls, ann, hash).Ok? <==> IsAlpha(ResourceName(cls, ann))
    ensures ControlNode(cls, ann, hash).Err? ==> ControlNode(cls, ann, hash).error == InvalidName(cls.name)
    ensures ControlNode(cls, ann, hash).Ok? ==>
      var n := ControlNode(cls, ann, hash).value;
      && !n.allowed && n.parent == None
      && n.variant == Resource(cls.name, [], [])
      && (Truthy(ann.id) ==> n.id == ann.id)
      && (!Truthy(ann.id) ==> n.id == hash(cls.fileName))
      && (Truthy(ann.name) ==> n.name == ann.name)
      && (!Truthy(ann.name) ==> n.name == cls.shortName)
  {
  }

  /** Group and Control agree when the annotation declares neither an id nor a message. */
  lemma GroupIsControlWithoutIdOrMessage(cls: ClassInfo, ann: ClassAnnotation, hash: string -> string)
    requires !Truthy(ann.id) && ann.message == None
    ensures GroupNode(cls, ann, hash) == ControlNode(cls, ann, hash)
  {
  }

  /** Access and Action agree except that Action records its owner as parent and carries the message. */
  lemma AccessIsActionWithoutOwner(owner: Ref, m: MethodInfo, ann: MethodAnnotation, opType: string, suffix: string, hash: string -> string)
    ensures AccessNode(m, ann, opType, suffix, hash)
         == ActionNode(owner, m, ann, opType, suffix, hash).(parent := None, message := None)
  {
  }

  // ---------------------------------------------------------------------------
  // Linear searches over accessions
  // ---------------------------------------------------------------------------

  /** The index of the first element satisfying `p`, if any. */
  function FirstIndex<T>(xs: seq<T>, p: T -> bool): (r: Option<nat>)
    ensures r.Some? ==> r.value < |xs| && p(xs[r.value]) && forall j :: 0 <= j < r.value ==> !p(xs[j])
    ensures r.None? ==> forall j :: 0 <= j < |xs| ==> !p(xs[j])
  {
    if xs == [] then None
    else if p(xs[0]) then Some(0)
    else match FirstIndex(xs[1..], p)
      case None => None
      case Some(k) => Some(k + 1)
  }

  predicate IsOperation(nodes: seq<Node>, a: Ref)
  {
    a < |nodes| && nodes[a].variant.Operation?
  }

  /** Operation `a` has the given type and suffix. */
  predicate OpMatches(nodes: seq<Node>, a: Ref, opType: string, suffix: string)
  {
    IsOperation(nodes, a) && nodes[a].variant.opType == opType && nodes[a].variant.suffix == suffix
  }

  /** Operation `a` was declared by a method of that name. */
  predicate OpHasMethod(nodes: seq<Node>, a: Ref, methodName: string)
  {
    IsOperation(nodes, a) && nodes[a].variant.methodName == methodName
  }

  /** Operation `a` has that suffix. */
  predicate OpHasSuffix(nodes: seq<Node>, a: Ref, suffix: string)
  {
    IsOperation(nodes, a) && nodes[a].variant.suffix == suffix
  }

  /** `getAccess(type, name)`: the first accession with that type and suffix. */
  function GetAccess(nodes: seq<Node>, i: Ref, opType: string, suffix: string): (r: Option<Ref>)
    requires i < |nodes|
    ensures r.None? <==> forall a :: a in Accessions(nodes[i]) ==> !OpMatches(nodes, a, opType, suffix)
    ensures r.Some? ==>
      exists k ::
        && 0 <= k < |Accessions(nodes[i])| && Accessions(nodes[i])[k] == r.value
        && OpMatches(nodes, r.value, opType, suffix)
        && (forall j :: 0 <= j < k ==> !OpMatches(nodes, Accessions(nodes[i])[j], opType, suffix))
  {
    var accs := Accessions(nodes[i]);
    match FirstIndex(accs, a => OpMatches(nodes, a, opType, suffix))
    case None => None
    case Some(k) => Some(accs[k])
  }

  /** The first accession declared by a method of the given name. */
  function GetAccessByMethod(nodes: seq<Node>, i: Ref, methodName: string): (r: Option<Ref>)
    requires i < |nodes|
    ensures r.None? <==> forall a :: a in Accessions(nodes[i]) ==> !OpHasMethod(nodes, a, methodName)
    ensures r.Some? ==>
      exists k ::
        && 0 <= k < |Accessions(nodes[i])| && Accessions(nodes[i])[k] == r.value
        && OpHasMethod(nodes, r.value, methodName)
        && (forall j :: 0 <= j < k ==> !OpHasMethod(nodes, Accessions(nodes[i])[j], methodName))
  {
    var accs := Accessions(nodes[i]);
    match FirstIndex(accs, a => OpHasMethod(nodes, a, methodName))
    case None => None
    case Some(k) => Some(accs[k])
  }

  /** The first accession with the given suffix. */
  function GetAccessBySuffix(nodes: seq<Node>, i: Ref, suffix: string): (r: Option<Ref>)
    requires i < |nodes|
    ensures r.None? <==> forall a :: a in Accessions(nodes[i]) ==> !OpHasSuffix(nodes, a, suffix)
    ensures r.Some? ==>
      exists k ::
        && 0 <= k < |Accessions(nodes[i])| && Accessions(nodes[i])[k] == r.value
        && OpHasSuffix(nodes, r.value, suffix)
        && (forall j :: 0 <= j < k ==> !OpHasSuffix(nodes, Accessions(nodes[i])[j], suffix))
  {
    var accs := Accessions(nodes[i]);
    match FirstIndex(accs, a => OpHasSuffix(nodes, a, suffix))
    case None => None
    case Some(k) => Some(accs[k])
  }

  // ---------------------------------------------------------------------------
  // isAllowed over the parent chain
  // ---------------------------------------------------------------------------

  /**
   * `isAllowed(TRUE)` returns from `i` within `k` steps: it stops at a denied
   * node or at a node without parent, and follows the parent of an allowed one.
   */
  ghost predicate CheckEndsWithin(nodes: seq<Node>, i: Ref, k: nat)
    decreases k
  {
    i < |nodes| &&
    (!nodes[i].allowed || nodes[i].parent.None? || (k > 0 && CheckEndsWithin(nodes, nodes[i].parent.value, k - 1)))
  }

  /** The parent chain from `i` reaches a node without parent within `k` steps; then `isAllowed(TRUE)` returns too. */
  ghost predicate ChainEndsWithin(nodes: seq<Node>, i: Ref, k: nat)
    ensures ChainEndsWithin(nodes, i, k) ==> CheckEndsWithin(nodes, i, k)
    decreases k
  {
    i < |nodes| &&
    (nodes[i].parent.None? || (k > 0 && ChainEndsWithin(nodes, nodes[i].parent.value, k - 1)))
  }

  /** Some finite parent chain starts at `i`: `isAllowed(TRUE)` terminates on it. */
  ghost predicate Grounded(nodes: seq<Node>, i: Ref)
  {
    exists k :: ChainEndsWithin(nodes, i, k)
  }

  ghost function ChainBound(nodes: seq<Node>, i: Ref): (k: nat)
    requires Grounded(nodes, i)
    ensures ChainEndsWithin(nodes, i, k)
  {
    var k :| ChainEndsWithin(nodes, i, k); k
  }

  /**
   * `isAllowed($parents)`: the node's own flag, and with `parents` also the
   * parent's `isAllowed(TRUE)` once the own flag holds.
   */
  function IsAllowed(nodes: seq<Node>, i: Ref, parents: bool, ghost k: nat): bool
    requires i < |nodes| && (parents ==> CheckEndsWithin(nodes, i, k))
    decreases k
  {
    if parents && nodes[i].allowed && nodes[i].parent.Some? then
      assert k > 0 && CheckEndsWithin(nodes, nodes[i].parent.value, k - 1);
      IsAllowed(nodes, nodes[i].parent.value, true, k - 1)
    else
      nodes[i].allowed
  }

  /** The node and all its ancestors, nearest first. */
  ghost function Ancestry(nodes: seq<Node>, i: Ref, k: nat): (chain: seq<Ref>)
    requires ChainEndsWithin(nodes, i, k)
    ensures |chain| >= 1 && chain[0] == i
    ensures forall j :: 0 <= j < |chain| ==> chain[j] < |nodes|
    decreases k
  {
    if nodes[i].parent.None? then [i]
    else [i] + Ancestry(nodes, nodes[i].parent.value, k - 1)
  }

  /** `isAllowed(TRUE)` is the conjunction of the flags along the whole parent chain. */
  lemma {:induction false} IsAllowedIsChainConjunction(nodes: seq<Node>, i: Ref, k: nat)
    requires ChainEndsWithin(nodes, i, k)
    ensures IsAllowed(nodes, i, true, k) <==>
      forall j :: 0 <= j < |Ancestry(nodes, i, k)| ==> nodes[Ancestry(nodes, i, k)[j]].allowed
    decreases k
  {
    if nodes[i].parent.Some? {
      var p := nodes[i].parent.value;
      IsAllowedIsChainConjunction(nodes, p, k - 1);
      var chain := Ancestry(nodes, i, k);
      var rest := Ancestry(nodes, p, k - 1);
      assert chain == [i] + rest;
      if nodes[i].allowed {
        assert IsAllowed(nodes, i, true, k) == IsAllowed(nodes, p, true, k - 1);
        if forall j :: 0 <= j < |rest| ==> nodes[rest[j]].allowed {
          forall j | 0 <= j < |chain| ensures nodes[chain[j]].allowed {
            if j > 0 { assert chain[j] == rest[j - 1]; }
          }
        } else {
          var j :| 0 <= j < |rest| && !nodes[rest[j]].allowed;
          assert chain[j + 1] == rest[j];
          assert j + 1 < |chain| && !nodes[chain[j + 1]].allowed;
          assert !nodes[Ancestry(nodes, p, k - 1)[j]].allowed;
        }
      } else {
        assert !nodes[chain[0]].allowed;
      }
    } else {
      assert Ancestry(nodes, i, k) == [i];
    }
  }

  /** `isAllowed(FALSE)` is the node's own flag, whatever its ancestors say. */
  lemma IsAllowedOwnFlag(nodes: seq<Node>, i: Ref, k: nat)
    requires i < |nodes|
    ensures IsAllowed(nodes, i, false, k) == nodes[i].allowed
  {
  }

  /** The answer does not depend on which bound is used. */
  lemma {:induction false} IsAllowedBoundIrrelevant(nodes: seq<Node>, i: Ref, k1: nat, k2: nat, parents: bool)
    requires i < |nodes| && (parents ==> CheckEndsWithin(nodes, i, k1) && CheckEndsWithin(nodes, i, k2))
    ensures IsAllowed(nodes, i, parents, k1) == IsAllowed(nodes, i, parents, k2)
    decreases k1
  {
    if parents && nodes[i].allowed && nodes[i].parent.Some? {
      IsAllowedBoundIrrelevant(nodes, nodes[i].parent.value, k1 - 1, k2 - 1, true);
    }
  }

  /** A denied ancestor denies every descendant checked with `parents`. */
  lemma {:induction false} DeniedAncestorDenies(nodes: seq<Node>, i: Ref, k: nat, j: nat)
    requires ChainEndsWithin(nodes, i, k)
    requires j < |Ancestry(nodes, i, k)| && !nodes[Ancestry(nodes, i, k)[j]].allowed
    ensures !IsAllowed(nodes, i, true, k)
  {
    IsAllowedIsChainConjunction(nodes, i, k);
  }

  // ---------------------------------------------------------------------------
  // Linked arenas: children and accessions point back to their owner
  // ---------------------------------------------------------------------------

  predicate ChildLinked(nodes: seq<Node>, p: Ref, c: Ref)
  {
    c < |nodes| && nodes[c].variant.Resource? && nodes[c].parent == Some(p)
  }

  predicate AccessionLinked(nodes: seq<Node>, p: Ref, a: Ref)
  {
    a < |nodes| && nodes[a].variant.Operation? && nodes[a].parent == Some(p)
  }

  /** Every child is a resource whose parent is its owner, every accession an operation whose parent is its owner. */
  ghost predicate Linked(nodes: seq<Node>)
  {
    && (forall p, c :: 0 <= p < |nodes| && c in Children(nodes[p]) ==> ChildLinked(nodes, p, c))
    && (forall p, a :: 0 <= p < |nodes| && a in Accessions(nodes[p]) ==> AccessionLinked(nodes, p, a))
  }

  /** The link the compiler intends: `c` becomes the last child of `p` and `p` becomes its parent. */
  function LinkIntended(nodes: seq<Node>, p: Ref, c: Ref): seq<Node>
    requires p < |nodes| && c < |nodes| && nodes[p].variant.Resource?
  {
    var withChild := nodes[p := nodes[p].(variant := nodes[p].variant.(children := nodes[p].variant.children + [c]))];
    withChild[c := withChild[c].(parent := Some(p))]
  }

  /** The link as Mapping.php writes it: the child is appended but the parent is made its own parent. */
  function LinkAsWritten(nodes: seq<Node>, p: Ref, c: Ref): seq<Node>
    requires p < |nodes| && c < |nodes| && nodes[p].variant.Resource?
  {
    var withChild := nodes[p := nodes[p].(variant := nodes[p].variant.(children := nodes[p].variant.children + [c]))];
    withChild[p := withChild[p].(parent := Some(p))]
  }

  /** Linking a parentless resource under a resource keeps the arena linked. */
  lemma LinkIntendedKeepsLinked(nodes: seq<Node>, p: Ref, c: Ref)
    requires p < |nodes| && c < |nodes| && nodes[p].variant.Resource? && nodes[c].variant.Resource?
    requires Linked(nodes) && nodes[c].parent.None?
    ensures Linked(LinkIntended(nodes, p, c))
  {
    var after := LinkIntended(nodes, p, c);
    forall q, x | 0 <= q < |after| && x in Children(after[q]) ensures ChildLinked(after, q, x) {
      if q == p && x == c {
      } else {
        assert x in Children(nodes[q]);
        assert ChildLinked(nodes, q, x);
        assert x != c;
      }
    }
    forall q, x | 0 <= q < |after| && x in Accessions(after[q]) ensures AccessionLinked(after, q, x) {
      assert x in Accessions(nodes[q]);
      assert AccessionLinked(nodes, q, x);
    }
  }

  /** After the intended link, the child is checked together with its new parent. */
  lemma LinkIntendedChainsChild(nodes: seq<Node>, p: Ref, c: Ref, k: nat)
    requires p < |nodes| && c < |nodes| && nodes[p].variant.Resource? && p != c
    requires ChainEndsWithin(LinkIntended(nodes, p, c), p, k)
    ensures ChainEndsWithin(LinkIntended(nodes, p, c), c, k + 1)
    ensures IsAllowed(LinkIntended(nodes, p, c), c, true, k + 1)
        == (nodes[c].allowed && IsAllowed(LinkIntended(nodes, p, c), p, true, k))
  {
  }

  /**
   * A node that is its own parent has no finite chain; once it is allowed,
   * `isAllowed(TRUE)` cannot return on it.
   */
  lemma {:induction false} SelfParentNeverEnds(nodes: seq<Node>, p: Ref, k: nat)
    requires p < |nodes| && nodes[p].parent == Some(p)
    ensures !ChainEndsWithin(nodes, p, k)
    ensures nodes[p].allowed ==> !CheckEndsWithin(nodes, p, k)
    decreases k
  {
    if k > 0 {
      SelfParentNeverEnds(nodes, p, k - 1);
    }
  }

  /**
   * As written, linking a child makes the parent its own parent and leaves the
   * child's parent untouched: the parent is no longer grounded, `isAllowed(TRUE)`
   * on it cannot return once it is allowed, and the child's check ignores the parent.
   */
  lemma LinkAsWrittenBreaksChain(nodes: seq<Node>, p: Ref, c: Ref)
    requires p < |nodes| && c < |nodes| && nodes[p].variant.Resource? && p != c
    ensures LinkAsWritten(nodes, p, c)[p].parent == Some(p)
    ensures LinkAsWritten(nodes, p, c)[c].parent == nodes[c].parent
    ensures !Grounded(LinkAsWritten(nodes, p, c), p)
    ensures nodes[p].allowed ==> forall k :: !CheckEndsWithin(LinkAsWritten(nodes, p, c), p, k)
  {
    var after := LinkAsWritten(nodes, p, c);
    if Grounded(after, p) {
      var k :| ChainEndsWithin(after, p, k);
      SelfParentNeverEnds(after, p, k);
    }
    forall k | nodes[p].allowed ensures !CheckEndsWithin(after, p, k) {
      SelfParentNeverEnds(after, p, k);
    }
  }

  /** A denied node that is its own parent is checked at once: `isAllowed(TRUE)` returns FALSE. */
  lemma SelfParentDeniedReturns(nodes: seq<Node>, p: Ref)
    requires p < |nodes| && nodes[p].parent == Some(p) && !nodes[p].allowed
    ensures CheckEndsWithin(nodes, p, 0) && !IsAllowed(nodes, p, true, 0)
  {
  }

  /** Both links append the same child list. */
  lemma LinksAgreeOnChildren(nodes: seq<Node>, p: Ref, c: Ref)
    requires p < |nodes| && c < |nodes| && nodes[p].variant.Resource?
    ensures Children(LinkAsWritten(nodes, p, c)[p]) == Children(LinkIntended(nodes, p, c)[p]) == Children(nodes[p]) + [c]
  {
  }
}
