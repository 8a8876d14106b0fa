/**
 * The ACL service (src/ACL.php): it verifies a presenter and the operations
 * a request names when the presenter starts, walks the components a signal
 * names when the deferred startup callback runs, and answers the
 * is*Accessed queries from the mapping. The two hooks are modelled by what
 * they are given: every chain handed to onAccessVerify and every exception
 * handed to onAccessDenied is recorded in order.
 */
module Acl {
  import opened Wrappers
  import opened Text
  import opened Nodes
  import opened Forest
  import opened Index
  import opened Mappings
  import opened Signals
  import opened Checks
  import opened Destinations

  /** The startup callback presenterSignal registers, with what it captured. */
  datatype Startup = Startup(denied: Option<Denial>, presenter: Component, request: Request, signal: Signal?,
                             signalName: Option<string>)

  /** `hasHandleType`: the first character changes under lower-casing. */
  function HasHandleType(s: string): (r: bool)
    ensures r <==> |s| > 0 && IsUpper(s[0])
  {
    |s| > 0 && ToLower(s[0]) != s[0]
  }

  /** The chain of a signal, or no chain for no signal. */
  ghost function ChainOf(s: Signal?): seq<Frame>
    reads s
  {
    if s == null then [] else s.chain
  }

  /** componentSignal as a value: nothing for a name of the handle type, otherwise the walk over its `-` pieces. */
  function ComponentOutcome(verify: Verifier, groups: map<string, Ref>, host: Host, presenter: Component, name: string,
                            frames: seq<Frame>, request: Request): (o: Outcome)
    ensures HasHandleType(name) ==> o == Outcome([], None)
    ensures !HasHandleType(name) ==> o == Walk(verify, groups, host, presenter, Split(name, '-'), frames, request)
  {
    if HasHandleType(name) then Outcome([], None) else Walk(verify, groups, host, presenter, Split(name, '-'), frames, request)
  }

  /** Every node of `chain` is in the arena and allowed. */
  ghost predicate AllAllowed(nodes: seq<Node>, chain: seq<Ref>)
  {
    forall j :: 0 <= j < |chain| ==> chain[j] < |nodes| && nodes[chain[j]].allowed
  }

  /** The node has a finite parent chain, and it and all its ancestors are allowed. */
  ghost predicate ChainAllowed(nodes: seq<Node>, x: Ref)
  {
    Grounded(nodes, x) && AllAllowed(nodes, Ancestry(nodes, x, ChainBound(nodes, x)))
  }

  /** The groups listed by class are nodes of the forest. */
  lemma GroupsInArena(m: Mapping)
    requires m.Valid()
    ensures forall c :: c in m.lists.groupByClass ==> m.lists.groupByClass[c] < |m.nodes|
  {
    forall c | c in m.lists.groupByClass ensures m.lists.groupByClass[c] < |m.nodes| {
      Mappings.GetGroupByClassSpec(m, c);
    }
  }

  /** `isAllowed(TRUE)` on a node with a finite chain, with the bound chosen for it. */
  function AllowedWithParents(nodes: seq<Node>, x: Ref): (r: bool)
    requires Grounded(nodes, x)
    ensures r <==> ChainAllowed(nodes, x)
  {
    var k := ChainBound(nodes, x);
    var chain := Ancestry(nodes, x, k);
    IsAllowedIsChainConjunction(nodes, x, k);
    assert AllAllowed(nodes, chain) <==> forall j :: 0 <= j < |chain| ==> nodes[chain[j]].allowed;
    assert ChainAllowed(nodes, x) == AllAllowed(nodes, chain);
    assert IsAllowed(nodes, x, true, k) <==> forall j :: 0 <= j < |Ancestry(nodes, x, k)| ==> nodes[Ancestry(nodes, x, k)[j]].allowed;
    assert IsAllowed(nodes, x, true, k) <==> forall j :: 0 <= j < |chain| ==> nodes[chain[j]].allowed;
    IsAllowed(nodes, x, true, k)
  }

  /** The methods getMappingItemByDest tries, in order: action, render, and the signal method only for `!`. */
  function LookupOrder(d: Dest): (ms: seq<string>)
    ensures |ms| == if d.signal then 3 else 2
    ensures ms[0] == "action" + UcFirst(d.action) && ms[1] == "render" + UcFirst(d.action)
    ensures d.signal ==> ms[2] == "handle" + UcFirst(d.action)
  {
    var u := UcFirst(d.action);
    ["action" + u, "render" + u] + (if d.signal then ["handle" + u] else [])
  }

  /**
   * The ordered fallback of getMappingItemByDest: the first of the method
   * names, in order, that an accession of node `x` is declared by, and that
   * accession.
   */
  function FirstByMethod(nodes: seq<Node>, x: Ref, methods: seq<string>): (r: Option<Ref>)
    requires x < |nodes|
    ensures r.None? <==> forall k :: 0 <= k < |methods| ==> GetAccessByMethod(nodes, x, methods[k]).None?
    ensures r.Some? ==>
      exists k :: 0 <= k < |methods| && GetAccessByMethod(nodes, x, methods[k]) == r
        && forall j :: 0 <= j < k ==> GetAccessByMethod(nodes, x, methods[j]).None?
  {
    match FirstIndex(methods, m => GetAccessByMethod(nodes, x, m).Some?)
    case None => None
    case Some(k) => GetAccessByMethod(nodes, x, methods[k])
  }

  class ACL {
    const mapping: Mapping
    const verify: Verifier
    /** `getPresenterClass`: none where it raises InvalidPresenterException. */
    const presenterClass: string -> Option<string>
    /** The chains handed to onAccessVerify, in order. */
    var verified: seq<seq<Frame>>
    /** The exceptions handed to onAccessDenied, in order. */
    var reported: seq<Denial>

    constructor (mapping: Mapping, verify: Verifier, presenterClass: string -> Option<string>)
      ensures this.mapping == mapping && this.verify == verify && this.presenterClass == presenterClass
      ensures verified == [] && reported == []
    {
      this.mapping := mapping;
      this.verify := verify;
      this.presenterClass := presenterClass;
      verified := [];
      reported := [];
    }

    /**
     * `access($signal)`: the verify hook is run on the signal's chain; no
     * denial when it returns, the AccessDenied of that signal when it raises.
     */
    method Access(s: Signal) returns (d: Option<Denial>)
      requires s.Valid()
      modifies this
      ensures verified == old(verified) + [s.chain] && reported == old(reported)
      ensures d.None? <==> verify(s.chain).None?
      ensures d.Some? ==> d.value == AccessDenied(s, verify(s.chain).value)
    {
      verified := verified + [s.Frames()];
      match verify(s.Frames())
      case None => d := None;
      case Some(msg) => d := Some(AccessDenied(s, msg));
    }

    /** `accessDenied($exception)`: the denied hook receives the exception. */
    method ReportDenied(e: Denial)
      modifies this
      ensures reported == old(reported) + [e] && verified == old(verified)
    {
      reported := reported + [e];
    }

    /**
     * `presenterSignal($presenter, $request)`: verifies the presenter's group
     * and then the operations the request names, as PresenterOutcome says;
     * registers a startup callback exactly when the request carries a signal
     * or a denial was captured.
     */
    method PresenterSignal(presenter: Component, host: Host, request: Request)
      returns (startup: Option<Startup>, ghost o: Outcome)
      requires mapping.Valid()
      modifies this
      ensures GroupsInArenaHolds()
      ensures o == PresenterOutcome(verify, mapping.nodes, mapping.lists.groupByClass, presenter, host.classOf(presenter), request)
      ensures verified == old(verified) + o.calls && reported == old(reported)
      ensures startup.Some? <==> TruthyOpt(Param(request, SignalKey)) || o.denied.Some?
      ensures startup.Some? ==>
        && startup.value.presenter == presenter && startup.value.request == request
        && startup.value.signalName == Param(request, SignalKey)
        && (startup.value.denied.Some? <==> o.denied.Some?)
        && (startup.value.signal == null <==> host.classOf(presenter) !in mapping.lists.groupByClass)
      ensures startup.Some? && startup.value.denied.Some? ==>
        && startup.value.denied.value.message == o.denied.value
        && startup.value.denied.value.signal.Valid()
        && startup.value.denied.value.signal.chain == o.calls[|o.calls| - 1]
      ensures startup.Some? && startup.value.signal != null ==>
        startup.value.signal.Valid() && startup.value.signal.chain == o.calls[0]
    {
      GroupsInArena(mapping);
      var signal, denied;
      signal, denied, o := CheckPresenter(presenter, host.classOf(presenter), request);
      var signalName := Param(request, SignalKey);
      if TruthyOpt(signalName) || denied.Some? {
        startup := Some(Startup(denied, presenter, request, signal, signalName));
      } else {
        startup := None;
      }
    }

    /**
     * The checks of presenterSignal: none when the presenter's class `cls`
     * has no group, otherwise those of its group, as PresenterOutcome says.
     */
    method CheckPresenter(presenter: Component, cls: string, request: Request)
      returns (signal: Signal?, denied: Option<Denial>, ghost o: Outcome)
      requires GroupsInArenaHolds()
      modifies this
      ensures GroupsInArenaHolds()
      ensures o == PresenterOutcome(verify, mapping.nodes, mapping.lists.groupByClass, presenter, cls, request)
      ensures verified == old(verified) + o.calls && reported == old(reported)
      ensures signal == null <==> cls !in mapping.lists.groupByClass
      ensures signal != null ==> signal.Valid() && signal.chain == o.calls[0]
      ensures denied.Some? <==> o.denied.Some?
      ensures denied.Some? ==>
        && denied.value.message == o.denied.value && denied.value.signal.Valid()
        && denied.value.signal.chain == o.calls[|o.calls| - 1]
    {
      var group := mapping.GetGroupByClass(cls);
      if group.Some? {
        signal, denied := CheckGroup(presenter, group.value, request);
        o := GroupOutcome(verify, mapping.nodes, group.value, presenter, request);
      } else {
        signal, denied, o := null, None, Outcome([], None);
      }
    }

    /**
     * The checks of presenterSignal for a presenter mapped to group `g`: a
     * root signal carrying the request is verified, then the slots, as
     * GroupOutcome says.
     */
    method CheckGroup(presenter: Component, g: Ref, request: Request) returns (signal: Signal, denied: Option<Denial>)
      requires g < |mapping.nodes|
      modifies this
      ensures var o := GroupOutcome(verify, mapping.nodes, g, presenter, request);
        && verified == old(verified) + o.calls && reported == old(reported)
        && signal.Valid() && signal.chain == o.calls[0]
        && (denied.Some? <==> o.denied.Some?)
        && (denied.Some? ==>
              denied.value.message == o.denied.value && denied.value.signal.Valid()
              && denied.value.signal.chain == o.calls[|o.calls| - 1])
    {
      ghost var root := [Frame(presenter, g, Some(request))];
      signal := new Signal(presenter, g);
      signal.SetRequest(request);
      assert signal.chain == root;
      denied := Access(signal);
      if denied.None? {
        ghost var slots := SlotWalk(verify, mapping.nodes, g, presenter, root, request, Slots(request));
        assert GroupOutcome(verify, mapping.nodes, g, presenter, request) == Then([root], slots);
        denied := CheckSlots(presenter, g, signal, request);
        assert signal.chain == root;
        AppendAssoc(old(verified), [root], slots.calls);
      } else {
        assert GroupOutcome(verify, mapping.nodes, g, presenter, request) == Outcome([root], verify(root));
      }
    }

    /**
     * The slot loop of presenterSignal: each slot that names an operation of
     * group `g` gets a new signal under the root `signal`, verified in turn
     * until the first denial, as SlotWalk says.
     */
    method CheckSlots(presenter: Component, g: Ref, signal: Signal, request: Request) returns (denied: Option<Denial>)
      requires g < |mapping.nodes| && signal.Valid()
      modifies this
      ensures var o := SlotWalk(verify, mapping.nodes, g, presenter, signal.chain, request, Slots(request));
        && verified == old(verified) + o.calls && reported == old(reported)
        && (denied.Some? <==> o.denied.Some?)
        && (denied.Some? ==>
              && |o.calls| > 0 && denied.value.message == o.denied.value && denied.value.signal.Valid()
              && denied.value.signal.chain == o.calls[|o.calls| - 1])
    {
      ghost var root := signal.chain;
      var types := Slots(request);
      ghost var whole := SlotWalk(verify, mapping.nodes, g, presenter, root, request, types);
      ghost var done: seq<seq<Frame>> := [];
      denied := None;
      var i := 0;
      while i < |types|
        invariant 0 <= i <= |types|
        invariant denied.None? && reported == old(reported) && root == signal.chain
        invariant verified == old(verified) + done
        invariant whole == Then(done, SlotWalk(verify, mapping.nodes, g, presenter, root, request, types[i..]))
      {
        denied, done := VisitSlot(presenter, g, signal, request, types, i, whole, old(verified), done);
        if denied.Some? {
          return;
        }
        i := i + 1;
      }
      assert types[i..] == [];
      assert whole.calls == done && whole.denied.None?;
    }

    /**
     * One pass of the slot loop of presenterSignal, in a walk `whole` of
     * which the chains `done` are verified (on top of `base`); `after` is
     * what has then been verified.
     */
    method VisitSlot(presenter: Component, g: Ref, signal: Signal, request: Request, types: seq<(string, Option<string>)>, i: nat,
                     ghost whole: Outcome, ghost base: seq<seq<Frame>>, ghost done: seq<seq<Frame>>)
      returns (denied: Option<Denial>, ghost after: seq<seq<Frame>>)
      requires g < |mapping.nodes| && signal.Valid() && i < |types|
      requires verified == base + done
      requires whole == Then(done, SlotWalk(verify, mapping.nodes, g, presenter, signal.chain, request, types[i..]))
      modifies this
      ensures verified == base + after && reported == old(reported)
      ensures denied.Some? ==>
        && whole.calls == after && whole.denied.Some? && |after| > 0
        && denied.value.message == whole.denied.value && denied.value.signal.Valid()
        && denied.value.signal.chain == after[|after| - 1]
      ensures denied.None? ==> whole == Then(after, SlotWalk(verify, mapping.nodes, g, presenter, signal.chain, request, types[i + 1..]))
    {
      ghost var root := signal.chain;
      ghost var step := SlotStep(verify, mapping.nodes, g, presenter, root, request, types[i]);
      SlotLoopStep(verify, mapping.nodes, g, presenter, root, request, types, i, done);
      denied := CheckSlot(presenter, g, signal, request, types[i]);
      assert root == signal.chain;
      AppendAssoc(base, done, step.calls);
      after := done + step.calls;
    }

    /**
     * One slot of presenterSignal: when the slot names an operation of group
     * `g`, a new signal for it, child of the root `signal`, is verified.
     */
    method CheckSlot(presenter: Component, g: Ref, signal: Signal, request: Request, slot: (string, Option<string>))
      returns (denied: Option<Denial>)
      requires g < |mapping.nodes| && signal.Valid()
      modifies this
      ensures var step := SlotStep(verify, mapping.nodes, g, presenter, signal.chain, request, slot);
        && verified == old(verified) + step.calls && reported == old(reported)
        && (denied.Some? <==> step.denied.Some?)
        && (denied.Some? ==>
              denied.value.message == step.denied.value && denied.value.signal.Valid() && denied.value.signal.chain == step.calls[0])
    {
      var (opType, suffix) := slot;
      if !TruthyOpt(suffix) {
        return None;
      }
      var access := GetAccess(mapping.nodes, g, opType, LcFirst(suffix.value));
      if access.None? {
        return None;
      }
      var typeSignal := new Signal(presenter, access.value);
      typeSignal.SetParent(signal);
      typeSignal.SetRequest(request);
      denied := Access(typeSignal);
    }

    /**
     * `componentSignal($presenter, $componentName, $parentSignal)`: nothing
     * for a name of the handle type; otherwise the components the name's `-`
     * pieces lead to are walked as ComponentOutcome says, the first denial
     * going to the denied hook.
     */
    method ComponentSignal(presenter: Component, host: Host, name: string, parentSignal: Signal?, request: Request)
      returns (ghost o: Outcome, ghost report: Option<Denial>)
      requires parentSignal == null || parentSignal.Valid()
      modifies this
      ensures o == ComponentOutcome(verify, mapping.lists.groupByClass, host, presenter, name, ChainOf(parentSignal), request)
      ensures verified == old(verified) + o.calls
      ensures o.denied.None? ==> report.None? && reported == old(reported)
      ensures o.denied.Some? ==>
        && |o.calls| > 0 && report.Some? && reported == old(reported) + [report.value]
        && report.value.message == o.denied.value && report.value.signal.Valid()
        && report.value.signal.chain == o.calls[|o.calls| - 1]
    {
      if HasHandleType(name) {
        return Outcome([], None), None;
      }
      var denied;
      denied, o := WalkComponents(presenter, host, Split(name, '-'), parentSignal, request);
      report := denied;
      if denied.Some? {
        ReportDenied(denied.value);
      }
    }

    /**
     * The loop of componentSignal: from the presenter, each name leads to a
     * child component, until one is missing; each child whose class has a
     * group gets a signal, child of the previous one, that is verified; the
     * first denial ends the walk and is returned for the denied hook.
     */
    method WalkComponents(presenter: Component, host: Host, names: seq<string>, parentSignal: Signal?, request: Request)
      returns (denied: Option<Denial>, ghost o: Outcome)
      requires parentSignal == null || parentSignal.Valid()
      modifies this
      ensures o == Walk(verify, mapping.lists.groupByClass, host, presenter, names, ChainOf(parentSignal), request)
      ensures verified == old(verified) + o.calls && reported == old(reported)
      ensures denied.Some? <==> o.denied.Some?
      ensures denied.Some? ==>
        && |o.calls| > 0 && denied.value.message == o.denied.value && denied.value.signal.Valid()
        && denied.value.signal.chain == o.calls[|o.calls| - 1]
    {
      ghost var groups := mapping.lists.groupByClass;
      o := Walk(verify, groups, host, presenter, names, ChainOf(parentSignal), request);
      ghost var done: seq<seq<Frame>> := [];
      var control := presenter;
      var parent := parentSignal;
      var i := 0;
      while i < |names|
        invariant 0 <= i <= |names| && (parent == null || parent.Valid())
        invariant verified == old(verified) + done && reported == old(reported)
        invariant o == Then(done, Walk(verify, groups, host, control, names[i..], ChainOf(parent), request))
      {
        var stop, next, nextParent;
        stop, next, nextParent, denied, done := VisitComponent(host, control, names, i, parent, request, groups, o, old(verified), done);
        if stop {
          assert denied.Some? ==> denied.value.signal.Valid();
          return;
        }
        control, parent := next, nextParent;
        i := i + 1;
      }
      assert names[i..] == [];
      denied := None;
    }

    /**
     * One name of componentSignal's loop, from `control` under `parent`, in a
     * walk `o` of which the chains `done` are verified (on top of `base`): a
     * missing child stops the walk; an unmapped child is passed through; a
     * mapped one gets a signal, child of `parent`, that is verified, a denial
     * stopping the walk. `after` is what has then been verified.
     */
    method VisitComponent(host: Host, control: Component, names: seq<string>, i: nat, parent: Signal?, request: Request,
                          ghost groups: map<string, Ref>, ghost o: Outcome, ghost base: seq<seq<Frame>>, ghost done: seq<seq<Frame>>)
      returns (stop: bool, next: Component, nextParent: Signal?, denied: Option<Denial>, ghost after: seq<seq<Frame>>)
      requires i < |names| && (parent == null || parent.Valid()) && groups == mapping.lists.groupByClass
      requires verified == base + done
      requires o == Then(done, Walk(verify, groups, host, control, names[i..], ChainOf(parent), request))
      modifies this
      ensures verified == base + after && reported == old(reported)
      ensures nextParent == null || nextParent.Valid()
      ensures stop ==> o.calls == after && (denied.Some? <==> o.denied.Some?)
      ensures stop && denied.Some? ==>
        && |o.calls| > 0 && denied.value.message == o.denied.value
        && denied.value.signal.Valid() && denied.value.signal.chain == o.calls[|o.calls| - 1]
      ensures !stop ==> denied.None?
      ensures !stop ==> o == Then(after, Walk(verify, groups, host, next, names[i + 1..], ChainOf(nextParent), request))
    {
      WalkLoopStep(verify, groups, host, control, names, i, ChainOf(parent), request, done);
      if (control, names[i]) !in host.child {
        return true, control, parent, None, done;
      }
      next := host.child[(control, names[i])];
      var group := mapping.GetGroupByClass(host.classOf(next));
      if group.None? {
        return false, next, parent, None, done;
      }
      var signal;
      signal, denied := CheckComponent(next, group.value, parent, request);
      AppendAssoc(base, done, [signal.chain]);
      after := done + [signal.chain];
      nextParent := signal;
      stop := denied.Some?;
    }

    /**
     * One mapped component of componentSignal: a new signal carrying the
     * request, child of `parent`, is verified.
     */
    method CheckComponent(component: Component, g: Ref, parent: Signal?, request: Request)
      returns (signal: Signal, denied: Option<Denial>)
      requires parent == null || parent.Valid()
      modifies this
      ensures fresh(signal) && signal.Valid() && signal.chain == [Frame(component, g, Some(request))] + ChainOf(parent)
      ensures verified == old(verified) + [signal.chain] && reported == old(reported)
      ensures denied.None? <==> verify(signal.chain).None?
      ensures denied.Some? ==> denied.value.signal == signal && denied.value.message == verify(signal.chain).value
    {
      signal := new Signal(component, g);
      signal.SetRequest(request);
      signal.SetParent(parent);
      denied := Access(signal);
    }

    /**
     * The startup callback: a captured denial goes to the denied hook and
     * nothing is walked; otherwise the component walk of the signal name
     * runs under the presenter's signal, as ComponentOutcome says.
     */
    method RunStartup(st: Startup, host: Host) returns (ghost o: Outcome, ghost report: Option<Denial>)
      requires st.denied.Some? || st.signalName.Some?
      requires st.signal == null || st.signal.Valid()
      modifies this
      ensures st.denied.Some? ==> o == Outcome([], None) && report == st.denied
      ensures st.denied.None? ==>
        o == ComponentOutcome(verify, mapping.lists.groupByClass, host, st.presenter, st.signalName.value, ChainOf(st.signal), st.request)
      ensures verified == old(verified) + o.calls
      ensures report.None? ==> reported == old(reported)
      ensures report.Some? ==> reported == old(reported) + [report.value]
      ensures st.denied.None? && o.denied.Some? ==>
        && |o.calls| > 0 && report.Some? && report.value.message == o.denied.value && report.value.signal.Valid()
        && report.value.signal.chain == o.calls[|o.calls| - 1]
      ensures st.denied.None? && o.denied.None? ==> report.None?
    {
      if st.denied.Some? {
        ReportDenied(st.denied.value);
        return Outcome([], None), st.denied;
      }
      o, report := ComponentSignal(st.presenter, host, st.signalName.value, st.signal, st.request);
    }

    /**
     * `isClassAccessed($className)`: what findByClass finds is allowed
     * together with all its parents; false when nothing is found.
     */
    function IsClassAccessed(cls: string): (r: bool)
      reads mapping
      requires mapping.Valid()
      ensures r <==> mapping.FindByClass(cls).Some? && ChainAllowed(mapping.nodes, mapping.FindByClass(cls).value)
    {
      FoundGrounded(mapping, cls);
      match mapping.FindByClass(cls)
      case None => false
      case Some(x) => AllowedWithParents(mapping.nodes, x)
    }

    /**
     * `isActionAccessed($className, $actionName)`: the first operation of
     * what findByClass finds with that suffix is allowed together with all
     * its parents; false when there is no such operation.
     */
    function IsActionAccessed(cls: string, action: string): (r: bool)
      reads mapping
      requires mapping.Valid()
      ensures mapping.FindByClass(cls).Some? ==> mapping.FindByClass(cls).value < |mapping.nodes|
      ensures r <==>
        && mapping.FindByClass(cls).Some?
        && GetAccessBySuffix(mapping.nodes, mapping.FindByClass(cls).value, action).Some?
        && ChainAllowed(mapping.nodes, GetAccessBySuffix(mapping.nodes, mapping.FindByClass(cls).value, action).value)
    {
      FoundGrounded(mapping, cls);
      match mapping.FindByClass(cls)
      case None => false
      case Some(x) =>
        match GetAccessBySuffix(mapping.nodes, x, action)
        case None => false
        case Some(a) => AllowedWithParents(mapping.nodes, a)
    }

    /**
     * `getMappingItemByDest($dest)`: a malformed destination or an unknown
     * presenter is an invalid link; an unmapped presenter class gives
     * nothing; otherwise the first operation found by the action, render and
     * (for `!` only) signal method names, else the mapped item itself.
     */
    function GetMappingItemByDest(dest: string): (r: Result<Option<Ref>, LinkError>)
      reads mapping
      requires mapping.Valid()
    {
      match ParseDest(dest)
      case Err(e) => Err(e)
      case Ok(d) =>
        match presenterClass(d.presenter)
        case None => Err(InvalidPresenter(d.presenter))
        case Some(cls) =>
          FoundGrounded(mapping, cls);
          match mapping.FindByClass(cls)
          case None => Ok(None)
          case Some(x) =>
            match FirstByMethod(mapping.nodes, x, LookupOrder(d))
            case Some(a) => Ok(Some(a))
            case None => Ok(Some(x))
    }

    /**
     * getMappingItemByDest: a destination outside the pattern is an invalid
     * link and an unknown presenter an invalid presenter; an unmapped class
     * gives nothing; a mapped one gives the operation of the first method
     * name in the lookup order that one of its operations is declared by,
     * and the mapped item itself when there is none.
     */
    lemma GetMappingItemByDestSpec(dest: string)
      requires mapping.Valid()
      ensures var r := GetMappingItemByDest(dest);
        && (ParseDest(dest).Err? ==> r == Err(InvalidLink(dest)))
        && (ParseDest(dest).Ok? && presenterClass(ParseDest(dest).value.presenter).None? ==>
              r == Err(InvalidPresenter(ParseDest(dest).value.presenter)))
        && (r.Ok? <==> ParseDest(dest).Ok? && presenterClass(ParseDest(dest).value.presenter).Some?)
    {
      ParseDestIff(dest);
    }

    /** With a known presenter class, what getMappingItemByDest finds, as above. */
    lemma GetMappingItemFound(dest: string, d: Dest, cls: string)
      requires mapping.Valid() && ParseDest(dest) == Ok(d) && presenterClass(d.presenter) == Some(cls)
      ensures var r := GetMappingItemByDest(dest);
        && (r == Ok(None) <==> mapping.FindByClass(cls).None?)
        && (mapping.FindByClass(cls).Some? ==>
              var x := mapping.FindByClass(cls).value;
              && x < |mapping.nodes|
              && ((forall k :: 0 <= k < |LookupOrder(d)| ==> GetAccessByMethod(mapping.nodes, x, LookupOrder(d)[k]).None?) ==> r == Ok(Some(x)))
              && (FirstByMethod(mapping.nodes, x, LookupOrder(d)).Some? ==>
                    r == Ok(FirstByMethod(mapping.nodes, x, LookupOrder(d)))
                    && FirstByMethod(mapping.nodes, x, LookupOrder(d)).value in Accessions(mapping.nodes[x])))
    {
      FoundGrounded(mapping, cls);
      if mapping.FindByClass(cls).Some? {
        var x := mapping.FindByClass(cls).value;
        var y := FirstByMethod(mapping.nodes, x, LookupOrder(d));
        if y.Some? {
          var k :| 0 <= k < |LookupOrder(d)| && GetAccessByMethod(mapping.nodes, x, LookupOrder(d)[k]) == y;
        }
      }
    }

    /**
     * `isLinkAccessed($dest)`: the item getMappingItemByDest finds is allowed
     * together with all its parents; true when it finds nothing; its errors
     * pass through.
     */
    function IsLinkAccessed(dest: string): (r: Result<bool, LinkError>)
      reads mapping
      requires mapping.Valid()
      ensures GetMappingItemByDest(dest).Err? ==> r == Err(GetMappingItemByDest(dest).error)
      ensures GetMappingItemByDest(dest) == Ok(None) ==> r == Ok(true)
      ensures GetMappingItemByDest(dest).Ok? && GetMappingItemByDest(dest).value.Some? ==>
        && GetMappingItemByDest(dest).value.value < |mapping.nodes|
        && r == Ok(ChainAllowed(mapping.nodes, GetMappingItemByDest(dest).value.value))
    {
      ItemGrounded(dest);
      match GetMappingItemByDest(dest)
      case Err(e) => Err(e)
      case Ok(None) => Ok(true)
      case Ok(Some(y)) => Ok(AllowedWithParents(mapping.nodes, y))
    }

    /** Whatever getMappingItemByDest finds has a finite parent chain. */
    lemma ItemGrounded(dest: string)
      requires mapping.Valid()
      ensures GetMappingItemByDest(dest).Ok? && GetMappingItemByDest(dest).value.Some? ==>
        Grounded(mapping.nodes, GetMappingItemByDest(dest).value.value)
    {
      match ParseDest(dest)
      case Err(_) =>
      case Ok(d) =>
        match presenterClass(d.presenter)
        case None =>
        case Some(cls) =>
          FoundGrounded(mapping, cls);
          match mapping.FindByClass(cls)
          case None =>
          case Some(x) =>
            var a := FirstByMethod(mapping.nodes, x, LookupOrder(d));
            if a.Some? {
              var k :| 0 <= k < |LookupOrder(d)| && GetAccessByMethod(mapping.nodes, x, LookupOrder(d)[k]) == a;
            }
    }

    /** Chains logged in two stretches. */
    static lemma AppendAssoc(a: seq<seq<Frame>>, b: seq<seq<Frame>>, c: seq<seq<Frame>>)
      ensures (a + b) + c == a + (b + c)
    {
    }

    /** The groups the mapping lists by class are nodes of its forest. */
    ghost predicate GroupsInArenaHolds()
      reads mapping
    {
      forall c :: c in mapping.lists.groupByClass ==> mapping.lists.groupByClass[c] < |mapping.nodes|
    }
  }
}
