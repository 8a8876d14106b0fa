/**
 * The policy compiler of Mapping.php: classification of methods by name
 * prefix (getMethods) and the construction of the resource forest from the
 * declared classes (createGroups). Reflection and annotation reading are
 * replaced by a sequence of class facts given as input.
 */
module Compiler {
  import opened Wrappers
  import opened Text
  import opened Nodes
  import opened Arenas
  import opened Forest

  /** The method prefixes, in the order they are tried. */
  const MethodTypes: seq<string> := [HandleType, RenderType, ActionType, CreateComponentType]

  /** A method of a class, with its @Access annotation if it has one. */
  datatype MethodFact = MethodFact(info: MethodInfo, access: Option<MethodAnnotation>)

  /** A declared class, as reflection and the annotation reader see it. */
  datatype ClassFact = ClassFact(
    info: ClassInfo,
    isAbstract: bool,
    annotation: Option<ClassAnnotation>,
    methods: seq<MethodFact>)

  /** An entry of getMethods: the matched type, the method, and the name with the type removed. */
  datatype Classified = Classified(opType: string, fact: MethodFact, suffix: string)

  // ---------------------------------------------------------------------------
  // Classification by prefix (getMethods)
  // ---------------------------------------------------------------------------

  /** The first type, in the order of MethodTypes, that the name starts with, and the rest of the name. */
  function Classify(name: string): (r: Option<(string, string)>)
    ensures r.None? <==> forall t :: t in MethodTypes ==> !StartsWith(name, t)
    ensures r.Some? ==>
      exists k ::
        && 0 <= k < |MethodTypes| && r.value.0 == MethodTypes[k]
        && StartsWith(name, MethodTypes[k]) && r.value.1 == name[|MethodTypes[k]|..]
        && (forall j :: 0 <= j < k ==> !StartsWith(name, MethodTypes[j]))
  {
    match FirstIndex(MethodTypes, t => StartsWith(name, t))
    case None => None
    case Some(k) => Some((MethodTypes[k], name[|MethodTypes[k]|..]))
  }

  /** No two method types are prefixes of the same name: they start with different letters. */
  lemma TypesExclusive(name: string, t1: string, t2: string)
    requires t1 in MethodTypes && t2 in MethodTypes
    requires StartsWith(name, t1) && StartsWith(name, t2)
    ensures t1 == t2
  {
    assert name[0] == name[..|t1|][0] == t1[0];
    assert name[0] == name[..|t2|][0] == t2[0];
  }

  /** Classification is determined by the name alone: a name is classified as (t, s) exactly when t is a type that prefixes it and s is the rest. */
  lemma ClassifyIff(name: string, t: string, s: string)
    ensures Classify(name) == Some((t, s)) <==> t in MethodTypes && StartsWith(name, t) && s == name[|t|..]
  {
    if t in MethodTypes && StartsWith(name, t) && s == name[|t|..] {
      var r := Classify(name);
      assert r.Some?;
      var k :| 0 <= k < |MethodTypes| && r.value.0 == MethodTypes[k] && StartsWith(name, MethodTypes[k])
        && r.value.1 == name[|MethodTypes[k]|..];
      TypesExclusive(name, t, MethodTypes[k]);
    }
  }

  function ClassifyOne(m: MethodFact): seq<Classified>
  {
    match Classify(m.info.name)
    case None => []
    case Some(ts) => [Classified(ts.0, m, ts.1)]
  }

  /** getMethods as a function: the classified methods, in declaration order, dropping the unmatched. */
  function ClassifyAll(ms: seq<MethodFact>): seq<Classified>
  {
    if ms == [] then [] else ClassifyAll(ms[..|ms| - 1]) + ClassifyOne(ms[|ms| - 1])
  }

  /** Every entry comes from a listed method and carries its classification; every classifiable method has an entry. */
  lemma {:induction false} ClassifyAllSpec(ms: seq<MethodFact>)
    ensures forall c :: c in ClassifyAll(ms) ==> c.fact in ms && Classify(c.fact.info.name) == Some((c.opType, c.suffix))
    ensures forall m :: m in ms && Classify(m.info.name).Some? ==> exists c :: c in ClassifyAll(ms) && c.fact == m
    ensures |ClassifyAll(ms)| <= |ms|
  {
    if ms != [] {
      var init := ms[..|ms| - 1];
      var last := ms[|ms| - 1];
      ClassifyAllSpec(init);
      assert ms == init + [last];
      forall m | m in ms && Classify(m.info.name).Some?
        ensures exists c :: c in ClassifyAll(ms) && c.fact == m
      {
        if m == last {
          var ts := Classify(m.info.name).value;
          assert Classified(ts.0, m, ts.1) in ClassifyAll(ms);
        } else {
          assert m in init;
          var c :| c in ClassifyAll(init) && c.fact == m;
          assert c in ClassifyAll(ms);
        }
      }
    }
  }

  /** `getMethods($class)`: each method, tried against the types in order; the first match is kept and the search stops. */
  method GetMethods(ms: seq<MethodFact>) returns (methods: seq<Classified>)
    ensures methods == ClassifyAll(ms)
  {
    methods := [];
    var i := 0;
    while i < |ms|
      invariant 0 <= i <= |ms|
      invariant methods == ClassifyAll(ms[..i])
    {
      assert ms[..i + 1][..i] == ms[..i];
      var entry := ClassifyMethod(ms[i]);
      methods := methods + entry;
      i := i + 1;
    }
    assert ms[..|ms|] == ms;
  }

  /** The inner loop of getMethods for one method: the first type its name starts with, if any. */
  method ClassifyMethod(m: MethodFact) returns (entry: seq<Classified>)
    ensures entry == ClassifyOne(m)
  {
    var name := m.info.name;
    var j := 0;
    while j < |MethodTypes|
      invariant 0 <= j <= |MethodTypes|
      invariant forall k :: 0 <= k < j ==> !StartsWith(name, MethodTypes[k])
    {
      var t := MethodTypes[j];
      if |t| <= |name| && name[..|t|] == t {
        assert FirstIndex(MethodTypes, t => StartsWith(name, t)) == Some(j);
        return [Classified(t, m, name[|t|..])];
      }
      j := j + 1;
    }
    assert FirstIndex(MethodTypes, t => StartsWith(name, t)).None?;
    return [];
  }

  // ---------------------------------------------------------------------------
  // The declared classes and what the compiler must build from them
  // ---------------------------------------------------------------------------

  /** A class the compiler turns into a node: concrete and carrying the class annotation. */
  predicate IsDeclared(f: ClassFact)
  {
    !f.isAbstract && f.annotation.Some?
  }

  /** The declared parent of a class; an absent one is the empty string. */
  function ParentOf(f: ClassFact): string
  {
    if f.annotation.Some? then f.annotation.value.parent else ""
  }

  /** Class names are unique, as reflection guarantees for declared classes. */
  ghost predicate DistinctNames(facts: seq<ClassFact>)
  {
    forall a, b :: 0 <= a < b < |facts| ==> facts[a].info.name != facts[b].info.name
  }

  /** The declared classes, in discovery order. */
  function Declared(facts: seq<ClassFact>): (ds: seq<ClassFact>)
    ensures forall d :: d in ds ==> IsDeclared(d) && d in facts
    ensures |ds| <= |facts|
  {
    if facts == [] then []
    else
      var init := facts[..|facts| - 1];
      var last := facts[|facts| - 1];
      Declared(init) + (if IsDeclared(last) then [last] else [])
  }

  /** The operations of a class: its classified methods that carry @Access, in method order. */
  function Annotated(cs: seq<Classified>): (ops: seq<Classified>)
    ensures forall o :: o in ops ==> o.fact.access.Some? && o in cs
  {
    if cs == [] then []
    else
      var init := cs[..|cs| - 1];
      var last := cs[|cs| - 1];
      Annotated(init) + (if last.fact.access.Some? then [last] else [])
  }

  function Ops(f: ClassFact): seq<Classified>
  {
    Annotated(ClassifyAll(f.methods))
  }

  /** The class names of the declared classes. */
  ghost function Names(ds: seq<ClassFact>): set<string>
  {
    set k | 0 <= k < |ds| :: ds[k].info.name
  }

  /** The display name of a declared class fails the alphabetic check. */
  predicate BadName(d: ClassFact)
  {
    d.annotation.Some? && !IsAlpha(ResourceName(d.info, d.annotation.value))
  }

  /** A declared class whose non-empty parent is not among the declared classes. */
  predicate Dangling(names: set<string>, d: ClassFact)
  {
    Truthy(ParentOf(d)) && ParentOf(d) !in names
  }

  /**
   * The failure of compilation, if any: the first declared class with a
   * non-alphabetic name, else the first declared class whose parent is
   * undefined (every class is built before any link is made).
   */
  ghost function CompileError(facts: seq<ClassFact>): Option<MappingError>
  {
    var ds := Declared(facts);
    match FirstIndex(ds, BadName)
    case Some(k) => Some(InvalidName(ds[k].info.name))
    case None =>
      match FirstIndex(ds, d => Dangling(Names(ds), d))
      case Some(k) => Some(GroupUndefined(ParentOf(ds[k])))
      case None => None
  }

  /** A node as its constructor left it: no parent, no accessions, no children. */
  function Strip(n: Node): Node
    requires n.variant.Resource?
  {
    n.(parent := None, variant := Resource(n.variant.className, [], []))
  }

  /** Accession `a` of resource `e` is the operation built from `o`. */
  predicate OpBuilt(nodes: seq<Node>, e: Ref, a: Ref, o: Classified, hash: string -> string)
  {
    && a < |nodes| && o.fact.access.Some?
    && nodes[a] == ActionNode(e, o.fact.info, o.fact.access.value, o.opType, LcFirst(o.suffix), hash)
  }

  /** The accessions of resource `e` are the operations built from `ops`, in order. */
  ghost predicate OpsBuilt(nodes: seq<Node>, e: Ref, ops: seq<Classified>, hash: string -> string)
  {
    && e < |nodes| && nodes[e].variant.Resource?
    && |nodes[e].variant.accession| == |ops|
    && forall j :: 0 <= j < |ops| ==> OpBuilt(nodes, e, nodes[e].variant.accession[j], ops[j], hash)
  }

  /** Node `e` is the resource built from class `d`, with its operations. */
  ghost predicate Built(nodes: seq<Node>, e: Ref, d: ClassFact, hash: string -> string)
  {
    && d.annotation.Some?
    && e < |nodes| && nodes[e].variant.Resource?
    && ControlNode(d.info, d.annotation.value, hash).Ok?
    && Strip(nodes[e]) == ControlNode(d.info, d.annotation.value, hash).value
    && OpsBuilt(nodes, e, Ops(d), hash)
  }

  /** The children that the first `n` links give the class named `name`: the classes declaring it as parent, in order. */
  function ChildrenOf(ds: seq<ClassFact>, refs: seq<Ref>, name: string, n: nat): seq<Ref>
    requires n <= |ds| == |refs|
  {
    if n == 0 then []
    else
      ChildrenOf(ds, refs, name, n - 1)
      + (if Truthy(ParentOf(ds[n - 1])) && ParentOf(ds[n - 1]) == name then [refs[n - 1]] else [])
  }

  /** The roots among the first `n` classes: those with an empty parent, in order. */
  function RootsOf(ds: seq<ClassFact>, refs: seq<Ref>, n: nat): seq<Ref>
    requires n <= |ds| == |refs|
  {
    if n == 0 then []
    else RootsOf(ds, refs, n - 1) + (if !Truthy(ParentOf(ds[n - 1])) then [refs[n - 1]] else [])
  }

  /** The node of the declared parent of class `k`, if it has one. */
  function ExpectedParent(ds: seq<ClassFact>, refs: seq<Ref>, k: nat): Option<Ref>
    requires k < |ds| == |refs|
  {
    if !Truthy(ParentOf(ds[k])) then None
    else
      match FirstIndex(ds, (d: ClassFact) => d.info.name == ParentOf(ds[k]))
      case Some(j) => Some(refs[j])
      case None => None
  }

  /** The node of class `k` after `n` link steps: built, with the children and the parent those steps give it. */
  ghost predicate ClassAt(nodes: seq<Node>, ds: seq<ClassFact>, refs: seq<Ref>, hash: string -> string, n: nat, k: nat)
    requires n <= |ds| == |refs| && k < |ds|
  {
    && Built(nodes, refs[k], ds[k], hash)
    && Children(nodes[refs[k]]) == ChildrenOf(ds, refs, ds[k].info.name, n)
    && nodes[refs[k]].parent == (if k < n then ExpectedParent(ds, refs, k) else None)
  }

  /** Nodes are created in class order. */
  predicate Increasing(refs: seq<Ref>)
  {
    forall a, b :: 0 <= a < b < |refs| ==> refs[a] < refs[b]
  }

  /** The arena holds the forest compiled from `ds` after `n` link steps. */
  ghost predicate Compiled(nodes: seq<Node>, ds: seq<ClassFact>, refs: seq<Ref>, hash: string -> string, n: nat)
  {
    && n <= |ds| == |refs|
    && Increasing(refs)
    && (forall k :: 0 <= k < |ds| ==> ClassAt(nodes, ds, refs, hash, n, k))
  }

  // ---------------------------------------------------------------------------
  // Facts about the declared classes
  // ---------------------------------------------------------------------------

  lemma DeclaredStep(facts: seq<ClassFact>, i: nat)
    requires i < |facts|
    ensures Declared(facts[..i + 1]) == Declared(facts[..i]) + (if IsDeclared(facts[i]) then [facts[i]] else [])
  {
    assert facts[..i + 1][..i] == facts[..i];
  }

  /** Discovering more classes only extends the declared list. */
  lemma {:induction false} DeclaredPrefix(facts: seq<ClassFact>, i: nat)
    requires i <= |facts|
    ensures Declared(facts[..i]) <= Declared(facts)
    decreases |facts| - i
  {
    if i < |facts| {
      DeclaredStep(facts, i);
      DeclaredPrefix(facts, i + 1);
    } else {
      assert facts[..i] == facts;
    }
  }

  lemma {:induction false} DeclaredDistinct(facts: seq<ClassFact>)
    requires DistinctNames(facts)
    ensures DistinctNames(Declared(facts))
  {
    if facts != [] {
      var init := facts[..|facts| - 1];
      var last := facts[|facts| - 1];
      assert DistinctNames(init);
      DeclaredDistinct(init);
      forall d | d in Declared(init) ensures d.info.name != last.info.name {
        var k :| 0 <= k < |init| && init[k] == d;
      }
    }
  }

  lemma AnnotatedStep(cs: seq<Classified>, j: nat)
    requires j < |cs|
    ensures Annotated(cs[..j + 1]) == Annotated(cs[..j]) + (if cs[j].fact.access.Some? then [cs[j]] else [])
  {
    assert cs[..j + 1][..j] == cs[..j];
  }

  /** Appending nodes keeps every built resource built. */
  lemma BuiltExtends(nodes: seq<Node>, more: seq<Node>, e: Ref, d: ClassFact, hash: string -> string)
    requires Built(nodes, e, d, hash)
    ensures Built(nodes + more, e, d, hash)
  {
    var after := nodes + more;
    var accs := nodes[e].variant.accession;
    forall j | 0 <= j < |Ops(d)| ensures OpBuilt(after, e, accs[j], Ops(d)[j], hash) {
      assert OpBuilt(nodes, e, accs[j], Ops(d)[j], hash);
    }
  }

  /** Changing resources other than the operations of `e`, and keeping the constructor fields and accessions of `e`, keeps `e` built. */
  lemma BuiltFrame(nodes: seq<Node>, after: seq<Node>, e: Ref, d: ClassFact, hash: string -> string)
    requires Built(nodes, e, d, hash) && |after| == |nodes|
    requires forall y :: 0 <= y < |nodes| && after[y] != nodes[y] ==> nodes[y].variant.Resource? && after[y].variant.Resource?
    requires Strip(after[e]) == Strip(nodes[e]) && after[e].variant.accession == nodes[e].variant.accession
    ensures Built(after, e, d, hash)
  {
    var accs := nodes[e].variant.accession;
    forall j | 0 <= j < |Ops(d)| ensures OpBuilt(after, e, accs[j], Ops(d)[j], hash) {
      assert OpBuilt(nodes, e, accs[j], Ops(d)[j], hash);
      assert nodes[accs[j]].variant.Operation?;
    }
  }

  // ---------------------------------------------------------------------------
  // createGroups
  // ---------------------------------------------------------------------------

  /** Adding one more built operation to the accessions of `e`. */
  lemma OpsBuiltStep(nodes: seq<Node>, e: Ref, ops: seq<Classified>, o: Classified, hash: string -> string)
    requires OpsBuilt(nodes, e, ops, hash) && o.fact.access.Some?
    ensures
      var a := |nodes|;
      var withOp := nodes + [ActionNode(e, o.fact.info, o.fact.access.value, o.opType, LcFirst(o.suffix), hash)];
      OpsBuilt(withOp[e := withOp[e].(variant := withOp[e].variant.(accession := withOp[e].variant.accession + [a]))], e, ops + [o], hash)
  {
    var a := |nodes|;
    var withOp := nodes + [ActionNode(e, o.fact.info, o.fact.access.value, o.opType, LcFirst(o.suffix), hash)];
    var after := withOp[e := withOp[e].(variant := withOp[e].variant.(accession := withOp[e].variant.accession + [a]))];
    var accs := after[e].variant.accession;
    forall j | 0 <= j < |ops + [o]| ensures OpBuilt(after, e, accs[j], (ops + [o])[j], hash) {
      if j < |ops| {
        assert OpBuilt(nodes, e, nodes[e].variant.accession[j], ops[j], hash);
        assert accs[j] == nodes[e].variant.accession[j];
        assert nodes[accs[j]].variant.Operation?;
      }
    }
  }

  /**
   * One class of the first loop of createGroups: the node built by the
   * Control constructor, then one operation per classified method carrying
   * @Access, appended in method order with its suffix's first letter lowercased.
   */
  method BuildClass(arena: Arena, f: ClassFact, hash: string -> string) returns (r: Result<Ref, MappingError>)
    requires IsDeclared(f) && Linked(arena.nodes)
    modifies arena
    ensures r.Err? <==> BadName(f)
    ensures r.Err? ==> r.error == InvalidName(f.info.name)
    ensures r.Ok? ==>
      && r.value == |old(arena.nodes)| < |arena.nodes|
      && arena.nodes[..|old(arena.nodes)|] == old(arena.nodes)
      && Built(arena.nodes, r.value, f, hash)
      && Children(arena.nodes[r.value]) == [] && arena.nodes[r.value].parent.None?
    ensures Linked(arena.nodes)
  {
    ghost var base := arena.nodes;
    var created := arena.NewControl(f.info, f.annotation.value, hash);
    if created.Err? {
      return created;
    }
    var e := created.value;
    ghost var ctl := ControlNode(f.info, f.annotation.value, hash).value;
    BuildingStart(arena.nodes, base, ctl, hash);
    var methods := GetMethods(f.methods);
    AddOperations(arena, e, methods, hash, base, ctl);
    assert Building(arena.nodes, base, e, ctl, Ops(f), hash);
    r := Ok(e);
  }

  /** The loop over the classified methods of one class, appending each operation that carries @Access. */
  method AddOperations(arena: Arena, e: Ref, methods: seq<Classified>, hash: string -> string,
                       ghost base: seq<Node>, ghost ctl: Node)
    requires Building(arena.nodes, base, e, ctl, [], hash)
    modifies arena
    ensures Building(arena.nodes, base, e, ctl, Annotated(methods), hash)
  {
    var j := 0;
    while j < |methods|
      invariant 0 <= j <= |methods|
      invariant Building(arena.nodes, base, e, ctl, Annotated(methods[..j]), hash)
    {
      AnnotatedStep(methods, j);
      if methods[j].fact.access.Some? {
        AddOperation(arena, e, methods[j], hash, base, ctl, Annotated(methods[..j]));
      }
      j := j + 1;
    }
    assert methods[..j] == methods;
  }

  /** The node the Control constructor appended starts the building of its class. */
  lemma BuildingStart(nodes: seq<Node>, base: seq<Node>, ctl: Node, hash: string -> string)
    requires nodes == base + [ctl] && Linked(nodes)
    requires ctl.variant.Resource? && ctl.variant.accession == [] && ctl.variant.children == [] && ctl.parent.None?
    ensures Building(nodes, base, |base|, ctl, [], hash)
  {
    assert nodes[..|base|] == base;
  }

  /** The state of createGroups while the operations of the class at `e` are appended. */
  ghost predicate Building(nodes: seq<Node>, base: seq<Node>, e: Ref, ctl: Node, ops: seq<Classified>, hash: string -> string)
  {
    && e == |base| < |nodes| && nodes[..|base|] == base
    && nodes[e].variant.Resource? && Strip(nodes[e]) == ctl
    && Children(nodes[e]) == [] && nodes[e].parent.None?
    && OpsBuilt(nodes, e, ops, hash)
    && Linked(nodes)
  }

  /** One annotated method of a class: its operation is built and appended to the class's accessions. */
  method AddOperation(arena: Arena, e: Ref, m: Classified, hash: string -> string,
                      ghost base: seq<Node>, ghost ctl: Node, ghost ops: seq<Classified>)
    requires m.fact.access.Some? && Building(arena.nodes, base, e, ctl, ops, hash)
    modifies arena
    ensures Building(arena.nodes, base, e, ctl, ops + [m], hash)
  {
    OpsBuiltStep(arena.nodes, e, ops, m, hash);
    var a := arena.NewAction(e, m.fact.info, m.fact.access.value, m.opType, LcFirst(m.suffix), hash);
    arena.AddAccession(e, a);
  }

  /** The first match is at `k` when `k` matches and nothing before it does. */
  lemma FirstIndexAt<T>(xs: seq<T>, p: T -> bool, k: nat)
    requires k < |xs| && p(xs[k]) && forall j :: 0 <= j < k ==> !p(xs[j])
    ensures FirstIndex(xs, p) == Some(k)
  {
  }

  /** With unique names, the declared parent of class `n` is the node of the class `j` bearing that name. */
  lemma ExpectedParentIs(ds: seq<ClassFact>, refs: seq<Ref>, n: nat, j: nat)
    requires n < |ds| == |refs| && j < |ds| && DistinctNames(ds)
    requires Truthy(ParentOf(ds[n])) && ds[j].info.name == ParentOf(ds[n])
    ensures ExpectedParent(ds, refs, n) == Some(refs[j])
  {
    forall i | 0 <= i < j ensures ds[i].info.name != ParentOf(ds[n]) {
      assert ds[i].info.name != ds[j].info.name;
    }
    FirstIndexAt(ds, (d: ClassFact) => d.info.name == ParentOf(ds[n]), j);
  }

  /** Distinct classes have distinct nodes. */
  lemma RefsDistinct(refs: seq<Ref>, a: nat, b: nat)
    requires a < |refs| && b < |refs| && a != b && Increasing(refs)
    ensures refs[a] != refs[b]
  {
    if a < b { assert refs[a] < refs[b]; } else { assert refs[b] < refs[a]; }
  }

  /** A link step keeps every class's node built. */
  lemma LinkKeepsBuilt(nodes: seq<Node>, p: Ref, c: Ref, e: Ref, d: ClassFact, hash: string -> string)
    requires Built(nodes, e, d, hash)
    requires p < |nodes| && c < |nodes| && nodes[p].variant.Resource? && nodes[c].variant.Resource?
    ensures Built(LinkIntended(nodes, p, c), e, d, hash)
  {
    BuiltFrame(nodes, LinkIntended(nodes, p, c), e, d, hash);
  }

  /** After link step `n` the node of class `k` is as `n + 1` steps leave it. */
  lemma LinkClassAt(nodes: seq<Node>, ds: seq<ClassFact>, refs: seq<Ref>, hash: string -> string, n: nat, j: nat, k: nat)
    requires n < |ds| == |refs| && DistinctNames(ds) && Increasing(refs)
    requires Truthy(ParentOf(ds[n])) && j < |ds| && ds[j].info.name == ParentOf(ds[n])
    requires k < |ds| && ClassAt(nodes, ds, refs, hash, n, k)
    requires refs[j] < |nodes| && refs[n] < |nodes| && nodes[refs[j]].variant.Resource? && nodes[refs[n]].variant.Resource?
    ensures ClassAt(LinkIntended(nodes, refs[j], refs[n]), ds, refs, hash, n + 1, k)
  {
    var after := LinkIntended(nodes, refs[j], refs[n]);
    LinkKeepsBuilt(nodes, refs[j], refs[n], refs[k], ds[k], hash);
    if k != j {
      RefsDistinct(refs, k, j);
      assert ds[k].info.name != ds[j].info.name;
    }
    if k == n {
      ExpectedParentIs(ds, refs, n, j);
    } else {
      RefsDistinct(refs, k, n);
    }
  }

  /** The node of a compiled class is a resource, unlinked until its own link step. */
  lemma ClassAtResource(nodes: seq<Node>, ds: seq<ClassFact>, refs: seq<Ref>, hash: string -> string, n: nat, k: nat)
    requires Compiled(nodes, ds, refs, hash, n) && k < |ds|
    ensures refs[k] < |nodes| && nodes[refs[k]].variant.Resource?
    ensures n <= k ==> nodes[refs[k]].parent.None?
  {
    assert ClassAt(nodes, ds, refs, hash, n, k);
  }

  /** A link step under the declared parent: the child joins the parent's children and receives it as parent. */
  lemma LinkStep(nodes: seq<Node>, ds: seq<ClassFact>, refs: seq<Ref>, hash: string -> string, n: nat, j: nat)
    requires Compiled(nodes, ds, refs, hash, n) && n < |ds| && DistinctNames(ds)
    requires Truthy(ParentOf(ds[n])) && j < |ds| && ds[j].info.name == ParentOf(ds[n])
    ensures refs[j] < |nodes| && refs[n] < |nodes| && nodes[refs[j]].variant.Resource?
    ensures nodes[refs[n]].variant.Resource? && nodes[refs[n]].parent.None?
    ensures Compiled(LinkIntended(nodes, refs[j], refs[n]), ds, refs, hash, n + 1)
  {
    ClassAtResource(nodes, ds, refs, hash, n, j);
    ClassAtResource(nodes, ds, refs, hash, n, n);
    var next := n + 1;
    forall k | 0 <= k < |ds| ensures ClassAt(LinkIntended(nodes, refs[j], refs[n]), ds, refs, hash, next, k) {
      assert ClassAt(nodes, ds, refs, hash, n, k);
      LinkClassAt(nodes, ds, refs, hash, n, j, k);
    }
  }

  /** A link step for a class without a parent: it is listed among the roots and nothing changes. */
  lemma RootStep(nodes: seq<Node>, ds: seq<ClassFact>, refs: seq<Ref>, hash: string -> string, n: nat)
    requires Compiled(nodes, ds, refs, hash, n) && n < |ds| && !Truthy(ParentOf(ds[n]))
    ensures Compiled(nodes, ds, refs, hash, n + 1)
  {
    var next := n + 1;
    forall k | 0 <= k < |ds| ensures ClassAt(nodes, ds, refs, hash, next, k) {
      assert ClassAt(nodes, ds, refs, hash, n, k);
    }
  }

  /** Appending the node of one more class, unlinked, to an arena compiled with no link step. */
  lemma CompiledExtend(before: seq<Node>, after: seq<Node>, ds: seq<ClassFact>, refs: seq<Ref>, f: ClassFact, e: Ref, hash: string -> string)
    requires Compiled(before, ds, refs, hash, 0)
    requires e == |before| < |after| && after[..|before|] == before
    requires Built(after, e, f, hash) && Children(after[e]) == [] && after[e].parent.None?
    ensures Compiled(after, ds + [f], refs + [e], hash, 0)
  {
    var more := after[|before|..];
    assert after == before + more;
    var ds', refs' := ds + [f], refs + [e];
    forall k | 0 <= k < |ds'| ensures ClassAt(after, ds', refs', hash, 0, k) {
      if k < |ds| {
        assert ClassAt(before, ds, refs, hash, 0, k);
        BuiltExtends(before, more, refs[k], ds[k], hash);
        assert ds'[k] == ds[k] && refs'[k] == refs[k];
      }
    }
    forall a, b | 0 <= a < b < |refs'| ensures refs'[a] < refs'[b] {
      assert ClassAt(before, ds, refs, hash, 0, a);
      if b < |refs| {
        assert refs[a] < refs[b];
      }
    }
  }

  /** None of the first `n` classes has an undefined parent. */
  predicate NoneDangling(names: set<string>, ds: seq<ClassFact>, n: nat)
    requires n <= |ds|
  {
    n == 0 || (NoneDangling(names, ds, n - 1) && !Dangling(names, ds[n - 1]))
  }

  lemma {:induction false} NoneDanglingBefore(names: set<string>, ds: seq<ClassFact>, n: nat, k: nat)
    requires n <= |ds| && NoneDangling(names, ds, n) && k < n
    ensures !Dangling(names, ds[k])
    decreases n
  {
    if k < n - 1 {
      NoneDanglingBefore(names, ds, n - 1, k);
    }
  }

  /** Class `k`'s name maps to its node. */
  predicate NamedAt(byClass: map<string, Ref>, ds: seq<ClassFact>, refs: seq<Ref>, k: nat)
    requires k < |ds| == |refs|
  {
    ds[k].info.name in byClass && byClass[ds[k].info.name] == refs[k]
  }

  /** The name table of the first loop: each declared class name maps to its node. */
  ghost predicate NameTable(byClass: map<string, Ref>, ds: seq<ClassFact>, refs: seq<Ref>)
    requires |ds| == |refs|
  {
    && byClass.Keys == Names(ds)
    && forall k :: 0 <= k < |ds| ==> NamedAt(byClass, ds, refs, k)
  }

  /** A class name not yet in the table extends it. */
  lemma NameTableExtend(byClass: map<string, Ref>, ds: seq<ClassFact>, refs: seq<Ref>, f: ClassFact, e: Ref)
    requires |ds| == |refs| && NameTable(byClass, ds, refs) && f.info.name !in Names(ds)
    ensures NameTable(byClass[f.info.name := e], ds + [f], refs + [e])
  {
    var ds', refs', t := ds + [f], refs + [e], byClass[f.info.name := e];
    forall k | 0 <= k < |ds'| ensures NamedAt(t, ds', refs', k) {
      if k < |ds| {
        assert NamedAt(byClass, ds, refs, k);
        assert ds[k].info.name in Names(ds);
        assert ds'[k] == ds[k] && refs'[k] == refs[k];
      }
    }
    assert Names(ds') == Names(ds) + {f.info.name} by {
      forall x | x in Names(ds') ensures x in Names(ds) + {f.info.name} {
        var k :| 0 <= k < |ds'| && ds'[k].info.name == x;
        if k < |ds| { assert ds[k] == ds'[k]; }
      }
      forall x | x in Names(ds) ensures x in Names(ds') {
        var k :| 0 <= k < |ds| && ds[k].info.name == x;
        assert ds'[k] == ds[k];
      }
      assert ds'[|ds|] == f;
    }
  }

  /** The class discovered at position `i` bears a name not yet declared. */
  lemma FreshName(facts: seq<ClassFact>, i: nat)
    requires DistinctNames(facts) && i < |facts|
    ensures facts[i].info.name !in Names(Declared(facts[..i]))
  {
    var ds := Declared(facts[..i]);
    forall k | 0 <= k < |ds| ensures ds[k].info.name != facts[i].info.name {
      assert ds[k] in facts[..i];
      var m :| 0 <= m < i && facts[..i][m] == ds[k];
      assert facts[m].info.name != facts[i].info.name;
    }
  }

  /** A bad name met after only good ones is the first bad name among all declared classes. */
  lemma FirstBadName(facts: seq<ClassFact>, i: nat)
    requires i < |facts| && IsDeclared(facts[i]) && BadName(facts[i])
    requires forall k :: 0 <= k < |Declared(facts[..i])| ==> !BadName(Declared(facts[..i])[k])
    ensures FirstIndex(Declared(facts), BadName) == Some(|Declared(facts[..i])|)
    ensures Declared(facts)[|Declared(facts[..i])|] == facts[i]
  {
    var ds := Declared(facts[..i]);
    DeclaredStep(facts, i);
    DeclaredPrefix(facts, i + 1);
    var all := Declared(facts);
    assert all[|ds|] == facts[i];
    assert forall k :: 0 <= k < |ds| ==> all[k] == ds[k];
    FirstIndexAt(all, BadName, |ds|);
  }

  /** The first loop of createGroups: every declared class built, or the first invalid name. */
  method BuildClasses(facts: seq<ClassFact>, hash: string -> string)
    returns (err: Option<MappingError>, arena: Arena, byClass: map<string, Ref>, refs: seq<Ref>, parents: seq<string>)
    requires DistinctNames(facts)
    ensures fresh(arena)
    ensures err.Some? ==> FirstIndex(Declared(facts), BadName).Some? && err == Some(InvalidName(Declared(facts)[FirstIndex(Declared(facts), BadName).value].info.name))
    ensures err.None? ==>
      && FirstIndex(Declared(facts), BadName).None?
      && |refs| == |Declared(facts)| == |parents|
      && (forall k :: 0 <= k < |parents| ==> parents[k] == ParentOf(Declared(facts)[k]))
      && Compiled(arena.nodes, Declared(facts), refs, hash, 0)
      && NameTable(byClass, Declared(facts), refs)
      && Linked(arena.nodes)
  {
    arena := new Arena();
    byClass := map[];
    refs := [];
    parents := [];
    ghost var ds: seq<ClassFact> := [];
    var i := 0;
    while i < |facts|
      invariant 0 <= i <= |facts|
      invariant ds == Declared(facts[..i])
      invariant Declaring(arena.nodes, ds, refs, parents, byClass, hash)
    {
      var f := facts[i];
      DeclaredStep(facts, i);
      if f.isAbstract || f.annotation.None? {
        i := i + 1;
        continue;
      }
      ghost var before := arena.nodes;
      var built := BuildClass(arena, f, hash);
      if built.Err? {
        FirstBadName(facts, i);
        err := Some(built.error);
        return;
      }
      var e := built.value;
      FreshName(facts, i);
      DeclaringStep(before, arena.nodes, ds, refs, parents, byClass, f, e, hash);
      byClass := byClass[f.info.name := e];
      refs := refs + [e];
      parents := parents + [f.annotation.value.parent];
      ds := ds + [f];
      i := i + 1;
    }
    assert facts[..|facts|] == facts;
    err := None;
  }

  /** What the first loop of createGroups has built for the declared classes `ds` so far. */
  ghost predicate Declaring(nodes: seq<Node>, ds: seq<ClassFact>, refs: seq<Ref>, parents: seq<string>, byClass: map<string, Ref>, hash: string -> string)
  {
    && |refs| == |ds| == |parents|
    && (forall k :: 0 <= k < |ds| ==> parents[k] == ParentOf(ds[k]) && !BadName(ds[k]))
    && Compiled(nodes, ds, refs, hash, 0)
    && NameTable(byClass, ds, refs)
    && Linked(nodes)
  }

  /** Declaring one more class, whose resource was just appended at `e`. */
  lemma DeclaringStep(before: seq<Node>, after: seq<Node>, ds: seq<ClassFact>, refs: seq<Ref>, parents: seq<string>,
                      byClass: map<string, Ref>, f: ClassFact, e: Ref, hash: string -> string)
    requires Declaring(before, ds, refs, parents, byClass, hash) && Linked(after)
    requires e == |before| < |after| && after[..|before|] == before
    requires Built(after, e, f, hash) && Children(after[e]) == [] && after[e].parent.None?
    requires f.info.name !in Names(ds) && !BadName(f)
    ensures Declaring(after, ds + [f], refs + [e], parents + [ParentOf(f)], byClass[f.info.name := e], hash)
  {
    CompiledExtend(before, after, ds, refs, f, e, hash);
    NameTableExtend(byClass, ds, refs, f, e);
  }

  /** The second loop of createGroups: roots listed, other classes linked under their parent, or the first undefined parent. */
  method LinkClasses(arena: Arena, ghost ds: seq<ClassFact>, byClass: map<string, Ref>, refs: seq<Ref>, parents: seq<string>, hash: string -> string)
    returns (r: Result<seq<Ref>, MappingError>, ghost failedAt: nat)
    requires |refs| == |ds| == |parents| && DistinctNames(ds)
    requires forall k :: 0 <= k < |parents| ==> parents[k] == ParentOf(ds[k])
    requires Compiled(arena.nodes, ds, refs, hash, 0) && NameTable(byClass, ds, refs) && Linked(arena.nodes)
    modifies arena
    ensures r.Err? ==>
      && failedAt < |ds| && NoneDangling(Names(ds), ds, failedAt) && Dangling(Names(ds), ds[failedAt])
      && r.error == GroupUndefined(ParentOf(ds[failedAt]))
    ensures r.Ok? ==>
      && NoneDangling(Names(ds), ds, |ds|)
      && Compiled(arena.nodes, ds, refs, hash, |refs|)
      && r.value == RootsOf(ds, refs, |refs|)
      && Linked(arena.nodes)
  {
    var list: seq<Ref> := [];
    var n := 0;
    failedAt := 0;
    while n < |refs|
      invariant 0 <= n <= |refs|
      invariant Compiled(arena.nodes, ds, refs, hash, n)
      invariant list == RootsOf(ds, refs, n)
      invariant NoneDangling(Names(ds), ds, n)
      invariant Linked(arena.nodes)
    {
      var parent := parents[n];
      if !Truthy(parent) {
        RootStep(arena.nodes, ds, refs, hash, n);
        list := list + [refs[n]];
      } else if parent !in byClass {
        return Err(GroupUndefined(parent)), n;
      } else {
        LinkOne(arena, ds, byClass, refs, hash, n, parent);
      }
      n := n + 1;
    }
    r := Ok(list);
  }

  /** One link step of the second loop, for a class whose declared parent is a declared class. */
  method LinkOne(arena: Arena, ghost ds: seq<ClassFact>, byClass: map<string, Ref>, refs: seq<Ref>, hash: string -> string, n: nat, parent: string)
    requires n < |refs| == |ds| && DistinctNames(ds)
    requires parent == ParentOf(ds[n]) && Truthy(parent) && parent in byClass
    requires Compiled(arena.nodes, ds, refs, hash, n) && NameTable(byClass, ds, refs) && Linked(arena.nodes)
    modifies arena
    ensures Compiled(arena.nodes, ds, refs, hash, n + 1) && Linked(arena.nodes)
  {
    assert parent in Names(ds);
    ghost var j :| 0 <= j < |ds| && ds[j].info.name == parent;
    assert NamedAt(byClass, ds, refs, j);
    LinkStep(arena.nodes, ds, refs, hash, n, j);
    arena.Link(byClass[parent], refs[n]);
  }

  // ---------------------------------------------------------------------------
  // The shape of the compiled forest
  // ---------------------------------------------------------------------------

  /** The roots among the first `n` classes are the nodes of exactly those classes with an empty parent. */
  lemma {:induction false} RootsOfSpec(ds: seq<ClassFact>, refs: seq<Ref>, n: nat, x: Ref)
    requires n <= |ds| == |refs|
    ensures x in RootsOf(ds, refs, n) <==> exists k :: 0 <= k < n && refs[k] == x && !Truthy(ParentOf(ds[k]))
  {
    if n > 0 {
      RootsOfSpec(ds, refs, n - 1, x);
      if !Truthy(ParentOf(ds[n - 1])) && refs[n - 1] == x {
        assert x in RootsOf(ds, refs, n);
      }
    }
  }

  /** The children that the first `n` links give `name` are the nodes of exactly the classes declaring it as parent. */
  lemma {:induction false} ChildrenOfSpec(ds: seq<ClassFact>, refs: seq<Ref>, name: string, n: nat, x: Ref)
    requires n <= |ds| == |refs|
    ensures x in ChildrenOf(ds, refs, name, n) <==>
      exists k :: 0 <= k < n && refs[k] == x && Truthy(ParentOf(ds[k])) && ParentOf(ds[k]) == name
  {
    if n > 0 {
      ChildrenOfSpec(ds, refs, name, n - 1, x);
      if Truthy(ParentOf(ds[n - 1])) && ParentOf(ds[n - 1]) == name && refs[n - 1] == x {
        assert x in ChildrenOf(ds, refs, name, n);
      }
    }
  }

  /** Roots are listed in discovery order, each once. */
  lemma {:induction false} RootsOfOrdered(ds: seq<ClassFact>, refs: seq<Ref>, n: nat)
    requires n <= |ds| == |refs| && Increasing(refs)
    ensures Increasing(RootsOf(ds, refs, n))
  {
    if n > 0 {
      RootsOfOrdered(ds, refs, n - 1);
      var prev := RootsOf(ds, refs, n - 1);
      forall x | x in prev ensures x < refs[n - 1] {
        RootsOfSpec(ds, refs, n - 1, x);
        var k :| 0 <= k < n - 1 && refs[k] == x && !Truthy(ParentOf(ds[k]));
      }
      if !Truthy(ParentOf(ds[n - 1])) {
        var all := prev + [refs[n - 1]];
        forall a, b | 0 <= a < b < |all| ensures all[a] < all[b] {
          assert all[a] == prev[a] && prev[a] in prev;
          if b < |prev| { assert all[b] == prev[b]; }
        }
      }
    }
  }

  /** Children keep declaration order, each once. */
  lemma {:induction false} ChildrenOfOrdered(ds: seq<ClassFact>, refs: seq<Ref>, name: string, n: nat)
    requires n <= |ds| == |refs| && Increasing(refs)
    ensures Increasing(ChildrenOf(ds, refs, name, n))
  {
    if n > 0 {
      ChildrenOfOrdered(ds, refs, name, n - 1);
      var prev := ChildrenOf(ds, refs, name, n - 1);
      forall x | x in prev ensures x < refs[n - 1] {
        ChildrenOfSpec(ds, refs, name, n - 1, x);
        var k :| 0 <= k < n - 1 && refs[k] == x && Truthy(ParentOf(ds[k])) && ParentOf(ds[k]) == name;
      }
      if Truthy(ParentOf(ds[n - 1])) && ParentOf(ds[n - 1]) == name {
        var all := prev + [refs[n - 1]];
        forall a, b | 0 <= a < b < |all| ensures all[a] < all[b] {
          assert all[a] == prev[a] && prev[a] in prev;
          if b < |prev| { assert all[b] == prev[b]; }
        }
      }
    }
  }

  /**
   * In a fully compiled forest without undefined parents, the listed roots
   * are exactly the class nodes without a parent, and each of them is a
   * parentless resource.
   */
  lemma CompiledRoots(nodes: seq<Node>, ds: seq<ClassFact>, refs: seq<Ref>, hash: string -> string)
    requires Compiled(nodes, ds, refs, hash, |ds|) && DistinctNames(ds)
    requires FirstIndex(ds, d => Dangling(Names(ds), d)).None?
    ensures Roots(nodes, RootsOf(ds, refs, |ds|))
    ensures forall k :: 0 <= k < |ds| ==>
      refs[k] < |nodes| && (refs[k] in RootsOf(ds, refs, |ds|) <==> nodes[refs[k]].parent.None?)
  {
    var roots := RootsOf(ds, refs, |ds|);
    forall x | x in roots ensures x < |nodes| && nodes[x].parent.None? && nodes[x].variant.Resource? {
      RootsOfSpec(ds, refs, |ds|, x);
      var k :| 0 <= k < |ds| && refs[k] == x && !Truthy(ParentOf(ds[k]));
      assert ClassAt(nodes, ds, refs, hash, |ds|, k);
    }
    forall k | 0 <= k < |ds| ensures refs[k] < |nodes| && (refs[k] in roots <==> nodes[refs[k]].parent.None?) {
      assert ClassAt(nodes, ds, refs, hash, |ds|, k);
      RootsOfSpec(ds, refs, |ds|, refs[k]);
      if Truthy(ParentOf(ds[k])) {
        assert !Dangling(Names(ds), ds[k]);
        var j :| 0 <= j < |ds| && ds[j].info.name == ParentOf(ds[k]);
        ExpectedParentIs(ds, refs, k, j);
        forall m | 0 <= m < |ds| && m != k ensures refs[m] != refs[k] {
          RefsDistinct(refs, m, k);
        }
      }
    }
  }

  /**
   * In a fully compiled forest, a class with a non-empty parent naming class
   * `j` hangs under `j`'s node: it is among `j`'s children and has `j`'s node
   * as its parent.
   */
  lemma CompiledParentLink(nodes: seq<Node>, ds: seq<ClassFact>, refs: seq<Ref>, hash: string -> string, k: nat, j: nat)
    requires Compiled(nodes, ds, refs, hash, |ds|) && DistinctNames(ds)
    requires k < |ds| && j < |ds| && Truthy(ParentOf(ds[k])) && ds[j].info.name == ParentOf(ds[k])
    ensures refs[k] < |nodes| && nodes[refs[k]].parent == Some(refs[j])
    ensures refs[j] < |nodes| && refs[k] in Children(nodes[refs[j]])
  {
    assert ClassAt(nodes, ds, refs, hash, |ds|, k);
    assert ClassAt(nodes, ds, refs, hash, |ds|, j);
    ExpectedParentIs(ds, refs, k, j);
    ChildrenOfSpec(ds, refs, ds[j].info.name, |ds|, refs[k]);
  }

  /** In a fully compiled forest, every child of a class node is the node of a class declaring it as parent, in declaration order. */
  lemma CompiledChildren(nodes: seq<Node>, ds: seq<ClassFact>, refs: seq<Ref>, hash: string -> string, j: nat, x: Ref)
    requires Compiled(nodes, ds, refs, hash, |ds|) && j < |ds|
    ensures refs[j] < |nodes| && Increasing(Children(nodes[refs[j]]))
    ensures x in Children(nodes[refs[j]]) <==>
      exists k :: 0 <= k < |ds| && refs[k] == x && Truthy(ParentOf(ds[k])) && ParentOf(ds[k]) == ds[j].info.name
  {
    assert ClassAt(nodes, ds, refs, hash, |ds|, j);
    ChildrenOfSpec(ds, refs, ds[j].info.name, |ds|, x);
    ChildrenOfOrdered(ds, refs, ds[j].info.name, |ds|);
  }

  /**
   * `createGroups()`: first every declared class is built with its
   * operations, in discovery order; then, in the same order, each class with
   * an empty parent is listed as a root and each other class is linked under
   * its declared parent, which must be a declared class. The link is the
   * intended `$group->setParent($parent)`; `Nodes.LinkAsWritten` models the
   * link as written.
   */
  method CreateGroups(facts: seq<ClassFact>, hash: string -> string)
    returns (r: Result<seq<Ref>, MappingError>, arena: Arena, ghost entries: seq<Ref>)
    requires DistinctNames(facts)
    ensures fresh(arena)
    ensures r.Err? <==> CompileError(facts).Some?
    ensures r.Err? ==> r.error == CompileError(facts).value
    ensures r.Ok? ==>
      && Compiled(arena.nodes, Declared(facts), entries, hash, |entries|)
      && r.value == RootsOf(Declared(facts), entries, |entries|)
      && Roots(arena.nodes, r.value)
      && Linked(arena.nodes)
  {
    var err, byClass, refs, parents;
    err, arena, byClass, refs, parents := BuildClasses(facts, hash);
    entries := refs;
    if err.Some? {
      return Err(err.value), arena, entries;
    }
    DeclaredDistinct(facts);
    ghost var ds := Declared(facts);
    ghost var failedAt;
    r, failedAt := LinkClasses(arena, ds, byClass, refs, parents, hash);
    if r.Err? {
      forall k | 0 <= k < failedAt ensures !Dangling(Names(ds), ds[k]) {
        NoneDanglingBefore(Names(ds), ds, failedAt, k);
      }
      FirstIndexAt(ds, d => Dangling(Names(ds), d), failedAt);
    } else {
      forall k | 0 <= k < |ds| ensures !Dangling(Names(ds), ds[k]) {
        NoneDanglingBefore(Names(ds), ds, |ds|, k);
      }
      CompiledRoots(arena.nodes, ds, refs, hash);
    }
  }
}
