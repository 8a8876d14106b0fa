/**
 * What the resolution engine of src/ACL.php verifies, as values: the chains
 * of frames handed to the verify hook, in order, and the denial that stopped
 * the run. The walks the engine performs (the operation slots of a presenter,
 * the components named by a signal) are defined step by step as the code
 * takes them, and each is proved equal to one run of checks over a list of
 * candidates that does not depend on the hook.
 */
module Checks {
  import opened Wrappers
  import opened Text
  import opened Nodes
  import opened Signals

  /** The verify hook: the message of the AccessDenied it raises for a chain, or none when it returns. */
  type Verifier = seq<Frame> -> Option<string>

  /** The chains handed to the verify hook, in order, and the message of the denial that ended the run. */
  datatype Outcome = Outcome(calls: seq<seq<Frame>>, denied: Option<string>)

  /** Chains already verified, followed by a run. */
  function Then(done: seq<seq<Frame>>, o: Outcome): (r: Outcome)
    ensures |r.calls| == |done| + |o.calls| && r.calls[..|done|] == done && r.calls[|done|..] == o.calls && r.denied == o.denied
  {
    Outcome(done + o.calls, o.denied)
  }

  // ---------------------------------------------------------------------------
  // A run of checks over a fixed list of candidates
  // ---------------------------------------------------------------------------

  /** Each candidate in turn is handed to the hook, until the first denial. */
  function RunChecks(verify: Verifier, cands: seq<seq<Frame>>): Outcome
    decreases |cands|
  {
    if cands == [] then Outcome([], None)
    else match verify(cands[0])
      case Some(msg) => Outcome([cands[0]], Some(msg))
      case None => Then([cands[0]], RunChecks(verify, cands[1..]))
  }

  /**
   * A run verifies a prefix of the candidates; it is denied exactly when some
   * candidate is, then by the last chain it verified, every earlier one having
   * passed; without a denial it verifies all of them.
   */
  lemma RunChecksSpec(verify: Verifier, cands: seq<seq<Frame>>)
    ensures var o := RunChecks(verify, cands);
      && |o.calls| <= |cands| && o.calls == cands[..|o.calls|]
      && (o.denied.None? <==> forall k :: 0 <= k < |cands| ==> verify(cands[k]).None?)
      && (o.denied.None? ==> o.calls == cands)
      && (o.denied.Some? ==> |o.calls| > 0 && verify(o.calls[|o.calls| - 1]) == o.denied)
      && (forall k :: 0 <= k < |o.calls| - 1 ==> verify(o.calls[k]).None?)
  {
    RunChecksPrefix(verify, cands);
    RunChecksDenial(verify, cands);
  }

  /** The chains a run verifies are a prefix of the candidates; all but the last passed, and a denial comes from the last. */
  lemma {:induction false} RunChecksPrefix(verify: Verifier, cands: seq<seq<Frame>>)
    ensures var o := RunChecks(verify, cands);
      && |o.calls| <= |cands| && o.calls == cands[..|o.calls|]
      && (o.denied.Some? ==> |o.calls| > 0 && verify(o.calls[|o.calls| - 1]) == o.denied)
      && (forall k :: 0 <= k < |o.calls| - 1 ==> verify(o.calls[k]).None?)
    decreases |cands|
  {
    if cands != [] && verify(cands[0]).None? {
      var rest := RunChecks(verify, cands[1..]);
      RunChecksPrefix(verify, cands[1..]);
      var o := RunChecks(verify, cands);
      assert o.calls == [cands[0]] + rest.calls;
      assert cands[..|o.calls|] == [cands[0]] + cands[1..][..|rest.calls|];
      forall k | 0 <= k < |o.calls| - 1 ensures verify(o.calls[k]).None? {
        if k > 0 { assert o.calls[k] == rest.calls[k - 1]; }
      }
    }
  }

  /** A run is denied exactly when some candidate is; without a denial it verifies them all. */
  lemma {:induction false} RunChecksDenial(verify: Verifier, cands: seq<seq<Frame>>)
    ensures var o := RunChecks(verify, cands);
      && (o.denied.None? <==> forall k :: 0 <= k < |cands| ==> verify(cands[k]).None?)
      && (o.denied.None? ==> o.calls == cands)
    decreases |cands|
  {
    if cands != [] && verify(cands[0]).None? {
      var rest := RunChecks(verify, cands[1..]);
      RunChecksDenial(verify, cands[1..]);
      var o := RunChecks(verify, cands);
      assert o == Outcome([cands[0]] + rest.calls, rest.denied);
      if o.denied.None? {
        assert cands == [cands[0]] + cands[1..];
        forall k | 0 <= k < |cands| ensures verify(cands[k]).None? {
          if k > 0 { assert cands[k] == cands[1..][k - 1]; }
        }
      } else {
        var k :| 0 <= k < |cands[1..]| && verify(cands[1..][k]).Some?;
        assert verify(cands[k + 1]).Some?;
      }
    }
  }

  // ---------------------------------------------------------------------------
  // Chaining signals
  // ---------------------------------------------------------------------------

  /**
   * The chains of a sequence of new signals, each the child of the one before
   * and the first the child of the chain `parent`.
   */
  function Chained(heads: seq<(Component, Ref)>, parent: seq<Frame>, request: Request): seq<seq<Frame>>
    decreases |heads|
  {
    if heads == [] then []
    else
      var f := [Frame(heads[0].0, heads[0].1, Some(request))] + parent;
      [f] + Chained(heads[1..], f, request)
  }

  /** Chain `k` starts with the frame of head `k` and continues with the chain before it. */
  lemma {:induction false} ChainedSpec(heads: seq<(Component, Ref)>, parent: seq<Frame>, request: Request)
    ensures var cs := Chained(heads, parent, request);
      && |cs| == |heads|
      && (forall k :: 0 <= k < |cs| ==> |cs[k]| >= 1 && cs[k][0] == Frame(heads[k].0, heads[k].1, Some(request)))
      && (forall k :: 0 <= k < |cs| ==> cs[k][1..] == if k == 0 then parent else cs[k - 1])
    decreases |heads|
  {
    if heads != [] {
      var f := [Frame(heads[0].0, heads[0].1, Some(request))] + parent;
      var cs := Chained(heads, parent, request);
      var rest := Chained(heads[1..], f, request);
      ChainedSpec(heads[1..], f, request);
      assert cs == [f] + rest;
      forall k | 0 < k < |cs| ensures cs[k][0] == Frame(heads[k].0, heads[k].1, Some(request)) {
        assert cs[k] == rest[k - 1] && heads[1..][k - 1] == heads[k];
      }
      forall k | 0 < k < |cs| ensures cs[k][1..] == cs[k - 1] {
        assert cs[k] == rest[k - 1];
      }
    }
  }

  // ---------------------------------------------------------------------------
  // The component walk of componentSignal
  // ---------------------------------------------------------------------------

  /**
   * The host application's component tree: `getComponent($name, FALSE)` as a
   * partial map from (component, name) to component, and `get_class` as a
   * total function.
   */
  datatype Host = Host(child: map<(Component, string), Component>, classOf: Component -> string)

  /** The component before step `k` of a path from `control`. */
  function Before(control: Component, path: seq<Component>, k: nat): Component
    requires k <= |path|
  {
    if k == 0 then control else path[k - 1]
  }

  /** The components reached by following `names` from `control`, up to the first one missing. */
  function Path(host: Host, control: Component, names: seq<string>): (path: seq<Component>)
    ensures |path| <= |names|
    ensures forall k :: 0 <= k < |path| ==>
      (Before(control, path, k), names[k]) in host.child && path[k] == host.child[(Before(control, path, k), names[k])]
    ensures |path| < |names| ==> (Before(control, path, |path|), names[|path|]) !in host.child
    decreases |names|
  {
    if names == [] || (control, names[0]) !in host.child then []
    else
      var c := host.child[(control, names[0])];
      var rest := Path(host, c, names[1..]);
      assert forall k :: 0 < k <= |rest| + 1 ==> Before(control, [c] + rest, k) == Before(c, rest, k - 1);
      [c] + rest
  }

  /** The components of `path` whose class has a group, in order, with that group. */
  function Mapped(host: Host, groups: map<string, Ref>, path: seq<Component>): (m: seq<(Component, Ref)>)
    ensures |m| <= |path|
    ensures forall k :: 0 <= k < |m| ==> host.classOf(m[k].0) in groups && m[k].1 == groups[host.classOf(m[k].0)]
    ensures forall c :: c in path && host.classOf(c) in groups ==> exists k :: 0 <= k < |m| && m[k].0 == c
    ensures forall k :: 0 <= k < |m| ==> m[k].0 in path
    decreases |path|
  {
    if path == [] then []
    else
      var rest := Mapped(host, groups, path[1..]);
      var cls := host.classOf(path[0]);
      var m := if cls in groups then [(path[0], groups[cls])] + rest else rest;
      assert forall c :: c in path[1..] && host.classOf(c) in groups ==> exists k :: 0 <= k < |m| && m[k].0 == c by {
        forall c | c in path[1..] && host.classOf(c) in groups ensures exists k :: 0 <= k < |m| && m[k].0 == c {
          var k :| 0 <= k < |rest| && rest[k].0 == c;
          if cls in groups { assert m[k + 1] == rest[k]; } else { assert m[k] == rest[k]; }
        }
      }
      assert forall c :: c in path ==> c == path[0] || c in path[1..];
      if cls in groups then assert m[0].0 == path[0]; m else m
  }

  /**
   * componentSignal's loop as written: look up the next component, stop if it
   * is missing, skip it if its class has no group, otherwise verify a new
   * signal chained to the previous mapped one and stop at its denial.
   */
  function Walk(verify: Verifier, groups: map<string, Ref>, host: Host, control: Component,
                names: seq<string>, frames: seq<Frame>, request: Request): Outcome
    decreases |names|
  {
    if names == [] || (control, names[0]) !in host.child then Outcome([], None)
    else
      var c := host.child[(control, names[0])];
      var cls := host.classOf(c);
      if cls !in groups then Walk(verify, groups, host, c, names[1..], frames, request)
      else
        var f := [Frame(c, groups[cls], Some(request))] + frames;
        match verify(f)
        case Some(msg) => Outcome([f], Some(msg))
        case None => Then([f], Walk(verify, groups, host, c, names[1..], f, request))
  }

  /**
   * The bookkeeping of componentSignal's loop: with `done` verified before
   * name `i`, a missing child ends the walk, an unmapped child moves on
   * without a check, and a mapped child's chain either ends the walk denied
   * or becomes the parent chain of the rest.
   */
  lemma WalkLoopStep(verify: Verifier, groups: map<string, Ref>, host: Host, control: Component,
                     names: seq<string>, i: nat, frames: seq<Frame>, request: Request, done: seq<seq<Frame>>)
    requires i < |names|
    ensures var rest := Then(done, Walk(verify, groups, host, control, names[i..], frames, request));
      && ((control, names[i]) !in host.child ==> rest == Outcome(done, None))
      && ((control, names[i]) in host.child && host.classOf(host.child[(control, names[i])]) !in groups ==>
            rest == Then(done, Walk(verify, groups, host, host.child[(control, names[i])], names[i + 1..], frames, request)))
      && ((control, names[i]) in host.child && host.classOf(host.child[(control, names[i])]) in groups ==>
            var c := host.child[(control, names[i])];
            var f := [Frame(c, groups[host.classOf(c)], Some(request))] + frames;
            && (verify(f).Some? ==> rest == Outcome(done + [f], verify(f)))
            && (verify(f).None? ==> rest == Then(done + [f], Walk(verify, groups, host, c, names[i + 1..], f, request))))
  {
    assert names[i..][0] == names[i] && names[i..][1..] == names[i + 1..];
    assert done + [] == done;
    if (control, names[i]) in host.child {
      var c := host.child[(control, names[i])];
      var cls := host.classOf(c);
      if cls in groups {
        var f := [Frame(c, groups[cls], Some(request))] + frames;
        ThenThen(done, [f], Walk(verify, groups, host, c, names[i + 1..], f, request));
      }
    }
  }

  /**
   * The walk verifies, up to the first denial, one chain per mapped component
   * on the path the names lead to, each chained to the previous one.
   */
  lemma {:induction false} WalkIsChecksOverPath(verify: Verifier, groups: map<string, Ref>, host: Host, control: Component,
                                                names: seq<string>, frames: seq<Frame>, request: Request)
    ensures Walk(verify, groups, host, control, names, frames, request)
         == RunChecks(verify, Chained(Mapped(host, groups, Path(host, control, names)), frames, request))
    decreases |names|
  {
    if names != [] && (control, names[0]) in host.child {
      var c := host.child[(control, names[0])];
      var cls := host.classOf(c);
      var rest := Path(host, c, names[1..]);
      assert Path(host, control, names) == [c] + rest;
      assert ([c] + rest)[1..] == rest;
      WalkIsChecksOverPath(verify, groups, host, c, names[1..], if cls in groups then [Frame(c, groups[cls], Some(request))] + frames else frames, request);
      if cls in groups {
        var f := [Frame(c, groups[cls], Some(request))] + frames;
        var m := Mapped(host, groups, rest);
        assert Mapped(host, groups, [c] + rest) == [(c, groups[cls])] + m;
        assert ([(c, groups[cls])] + m)[1..] == m;
        assert Chained([(c, groups[cls])] + m, frames, request) == [f] + Chained(m, f, request);
        assert ([f] + Chained(m, f, request))[1..] == Chained(m, f, request);
      } else {
        assert Mapped(host, groups, [c] + rest) == Mapped(host, groups, rest);
      }
    }
  }

  /**
   * A run over chained signals verifies chains each the child of the previous
   * one (the first of `parent`), a denial coming from the last chain verified.
   */
  lemma ChainedChecksSpec(verify: Verifier, heads: seq<(Component, Ref)>, parent: seq<Frame>, request: Request)
    ensures var o := RunChecks(verify, Chained(heads, parent, request));
      && |o.calls| <= |heads|
      && (forall k :: 0 <= k < |o.calls| ==> |o.calls[k]| >= 1 && o.calls[k][0].request == Some(request))
      && (forall k :: 0 <= k < |o.calls| ==> o.calls[k][1..] == if k == 0 then parent else o.calls[k - 1])
  {
    var cands := Chained(heads, parent, request);
    RunChecksSpec(verify, cands);
    ChainedSpec(heads, parent, request);
    var o := RunChecks(verify, cands);
    forall k | 0 <= k < |o.calls| ensures o.calls[k] == cands[k] {
      assert o.calls[k] == cands[..|o.calls|][k];
    }
  }

  /**
   * The walk's outcome: it verifies no more chains than there are names, each
   * the child of the previous chain (the first of `frames`), and a denial
   * comes from the last chain, every earlier one having passed.
   */
  lemma WalkSpec(verify: Verifier, groups: map<string, Ref>, host: Host, control: Component,
                 names: seq<string>, frames: seq<Frame>, request: Request)
    ensures var o := Walk(verify, groups, host, control, names, frames, request);
      && |o.calls| <= |names|
      && (forall k :: 0 <= k < |o.calls| ==> |o.calls[k]| >= 1 && o.calls[k][0].request == Some(request))
      && (forall k :: 0 <= k < |o.calls| ==> o.calls[k][1..] == if k == 0 then frames else o.calls[k - 1])
      && (o.denied.Some? ==> |o.calls| > 0 && verify(o.calls[|o.calls| - 1]) == o.denied)
      && (forall k :: 0 <= k < |o.calls| - 1 ==> verify(o.calls[k]).None?)
      && (o.denied.None? ==> forall k :: 0 <= k < |o.calls| ==> verify(o.calls[k]).None?)
  {
    var heads := Mapped(host, groups, Path(host, control, names));
    WalkIsChecksOverPath(verify, groups, host, control, names, frames, request);
    RunChecksSpec(verify, Chained(heads, frames, request));
    ChainedChecksSpec(verify, heads, frames, request);
  }

  // ---------------------------------------------------------------------------
  // The operation slots of presenterSignal
  // ---------------------------------------------------------------------------

  /** Presenter::ACTION_KEY and Presenter::SIGNAL_KEY. */
  const ActionKey := "action"
  const SignalKey := "do"

  /** The slots in the order presenterSignal checks them: operation type and the request parameter naming it. */
  function Slots(request: Request): (slots: seq<(string, Option<string>)>)
    ensures |slots| == 3
    ensures slots[0] == ("action", Param(request, ActionKey))
    ensures slots[1] == ("handle", Param(request, SignalKey))
    ensures slots[2] == ("render", Param(request, ActionKey))
  {
    [("action", Param(request, ActionKey)), ("handle", Param(request, SignalKey)), ("render", Param(request, ActionKey))]
  }

  /** The operation of group `g` a slot names: none when the parameter is empty or nothing matches. */
  function SlotAccess(nodes: seq<Node>, g: Ref, slot: (string, Option<string>)): (r: Option<Ref>)
    requires g < |nodes|
    ensures r.Some? ==>
      TruthyOpt(slot.1) && r.value in Accessions(nodes[g]) && OpMatches(nodes, r.value, slot.0, LcFirst(slot.1.value))
    ensures r.None? <==>
      (!TruthyOpt(slot.1) || forall a :: a in Accessions(nodes[g]) ==> !OpMatches(nodes, a, slot.0, LcFirst(slot.1.value)))
  {
    if !TruthyOpt(slot.1) then None else GetAccess(nodes, g, slot.0, LcFirst(slot.1.value))
  }

  /** The chains of the slots that name an operation, each a child of the root chain. */
  function SlotChains(nodes: seq<Node>, g: Ref, presenter: Component, root: seq<Frame>, request: Request,
                      slots: seq<(string, Option<string>)>): seq<seq<Frame>>
    requires g < |nodes|
    decreases |slots|
  {
    if slots == [] then []
    else match SlotAccess(nodes, g, slots[0])
      case None => SlotChains(nodes, g, presenter, root, request, slots[1..])
      case Some(a) => [[Frame(presenter, a, Some(request))] + root] + SlotChains(nodes, g, presenter, root, request, slots[1..])
  }

  /** Every slot chain is a new operation of the group under the root chain. */
  lemma {:induction false} SlotChainsSpec(nodes: seq<Node>, g: Ref, presenter: Component, root: seq<Frame>, request: Request,
                                          slots: seq<(string, Option<string>)>)
    requires g < |nodes|
    ensures var cs := SlotChains(nodes, g, presenter, root, request, slots);
      && |cs| <= |slots|
      && forall k :: 0 <= k < |cs| ==>
           |cs[k]| >= 1 && cs[k][1..] == root && cs[k][0].component == presenter && cs[k][0].request == Some(request)
           && cs[k][0].accessor in Accessions(nodes[g]) && IsOperation(nodes, cs[k][0].accessor)
    decreases |slots|
  {
    if slots != [] {
      var rest := SlotChains(nodes, g, presenter, root, request, slots[1..]);
      SlotChainsSpec(nodes, g, presenter, root, request, slots[1..]);
      match SlotAccess(nodes, g, slots[0])
      case None =>
      case Some(a) =>
        var cs := [[Frame(presenter, a, Some(request))] + root] + rest;
        forall k | 0 < k < |cs| ensures cs[k] == rest[k - 1] { }
    }
  }

  /**
   * One slot of presenterSignal: nothing when it names no operation,
   * otherwise the chain of a new signal for that operation under the root,
   * verified.
   */
  function SlotStep(verify: Verifier, nodes: seq<Node>, g: Ref, presenter: Component, root: seq<Frame>, request: Request,
                    slot: (string, Option<string>)): (o: Outcome)
    requires g < |nodes|
    ensures |o.calls| <= 1 && (o.denied.Some? ==> |o.calls| == 1 && verify(o.calls[0]) == o.denied)
    ensures |o.calls| == 1 <==> SlotAccess(nodes, g, slot).Some?
    ensures |o.calls| == 1 ==> o.calls[0] == [Frame(presenter, SlotAccess(nodes, g, slot).value, Some(request))] + root
  {
    match SlotAccess(nodes, g, slot)
    case None => Outcome([], None)
    case Some(a) =>
      var f := [Frame(presenter, a, Some(request))] + root;
      Outcome([f], verify(f))
  }

  /** presenterSignal's slot loop as written: slot after slot until the first denial. */
  function SlotWalk(verify: Verifier, nodes: seq<Node>, g: Ref, presenter: Component, root: seq<Frame>, request: Request,
                    slots: seq<(string, Option<string>)>): Outcome
    requires g < |nodes|
    decreases |slots|
  {
    if slots == [] then Outcome([], None)
    else
      var step := SlotStep(verify, nodes, g, presenter, root, request, slots[0]);
      if step.denied.Some? then step else Then(step.calls, SlotWalk(verify, nodes, g, presenter, root, request, slots[1..]))
  }

  /** One step of the slot loop, at slot `i`. */
  lemma SlotWalkStep(verify: Verifier, nodes: seq<Node>, g: Ref, presenter: Component, root: seq<Frame>, request: Request,
                     slots: seq<(string, Option<string>)>, i: nat)
    requires g < |nodes| && i < |slots|
    ensures var step := SlotStep(verify, nodes, g, presenter, root, request, slots[i]);
      SlotWalk(verify, nodes, g, presenter, root, request, slots[i..])
        == if step.denied.Some? then step else Then(step.calls, SlotWalk(verify, nodes, g, presenter, root, request, slots[i + 1..]))
  {
    assert slots[i..][0] == slots[i] && slots[i..][1..] == slots[i + 1..];
  }

  /** Chains verified in two stretches are the chains of both. */
  lemma ThenThen(a: seq<seq<Frame>>, b: seq<seq<Frame>>, o: Outcome)
    ensures Then(a, Then(b, o)) == Then(a + b, o)
  {
    assert a + (b + o.calls) == (a + b) + o.calls;
  }

  /**
   * The slot loop's bookkeeping: with `done` verified before slot `i`, a
   * denial at slot `i` ends the whole walk, and otherwise the walk goes on
   * with that slot's chains added.
   */
  lemma SlotLoopStep(verify: Verifier, nodes: seq<Node>, g: Ref, presenter: Component, root: seq<Frame>, request: Request,
                     slots: seq<(string, Option<string>)>, i: nat, done: seq<seq<Frame>>)
    requires g < |nodes| && i < |slots|
    ensures var step := SlotStep(verify, nodes, g, presenter, root, request, slots[i]);
      var rest := Then(done, SlotWalk(verify, nodes, g, presenter, root, request, slots[i..]));
      && (step.denied.Some? ==> rest == Then(done, step))
      && (step.denied.None? ==> rest == Then(done + step.calls, SlotWalk(verify, nodes, g, presenter, root, request, slots[i + 1..])))
  {
    var step := SlotStep(verify, nodes, g, presenter, root, request, slots[i]);
    SlotWalkStep(verify, nodes, g, presenter, root, request, slots, i);
    if step.denied.None? {
      ThenThen(done, step.calls, SlotWalk(verify, nodes, g, presenter, root, request, slots[i + 1..]));
    }
  }

  /** The slot loop is one run of checks over the chains of the slots that name an operation. */
  lemma {:induction false} SlotWalkIsChecks(verify: Verifier, nodes: seq<Node>, g: Ref, presenter: Component, root: seq<Frame>,
                                            request: Request, slots: seq<(string, Option<string>)>)
    requires g < |nodes|
    ensures SlotWalk(verify, nodes, g, presenter, root, request, slots)
         == RunChecks(verify, SlotChains(nodes, g, presenter, root, request, slots))
    decreases |slots|
  {
    if slots != [] {
      SlotWalkIsChecks(verify, nodes, g, presenter, root, request, slots[1..]);
      match SlotAccess(nodes, g, slots[0])
      case None =>
      case Some(a) =>
        var f := [Frame(presenter, a, Some(request))] + root;
        var rest := SlotChains(nodes, g, presenter, root, request, slots[1..]);
        assert ([f] + rest)[1..] == rest;
    }
  }

  /**
   * presenterSignal as a value: nothing when the presenter's class has no
   * group; otherwise the root chain, and only when it passes, the slots.
   */
  function PresenterOutcome(verify: Verifier, nodes: seq<Node>, groups: map<string, Ref>, presenter: Component,
                            cls: string, request: Request): Outcome
    requires forall c :: c in groups ==> groups[c] < |nodes|
  {
    if cls !in groups then Outcome([], None) else GroupOutcome(verify, nodes, groups[cls], presenter, request)
  }

  /** The checks of a presenter mapped to group `g`: the root chain, and only when it passes, the slots. */
  function GroupOutcome(verify: Verifier, nodes: seq<Node>, g: Ref, presenter: Component, request: Request): (o: Outcome)
    requires g < |nodes|
    ensures |o.calls| >= 1 && o.calls[0] == [Frame(presenter, g, Some(request))]
  {
    var root := [Frame(presenter, g, Some(request))];
    match verify(root)
    case Some(msg) => Outcome([root], Some(msg))
    case None => Then([root], SlotWalk(verify, nodes, g, presenter, root, request, Slots(request)))
  }

  /**
   * The checks of a mapped presenter: the root chain is verified first;
   * operation chains follow only when it passes, each a child of the root
   * naming an operation of the group; the run stops at the first denial,
   * which comes from the last chain verified.
   */
  lemma GroupOutcomeSpec(verify: Verifier, nodes: seq<Node>, g: Ref, presenter: Component, request: Request)
    requires g < |nodes|
    ensures var o := GroupOutcome(verify, nodes, g, presenter, request);
      && 1 <= |o.calls| <= 4
      && o.calls[0] == [Frame(presenter, g, Some(request))]
      && (|o.calls| > 1 ==> verify(o.calls[0]).None?)
      && (forall k :: 1 <= k < |o.calls| ==>
            |o.calls[k]| >= 1 && o.calls[k][1..] == o.calls[0] && o.calls[k][0].component == presenter
            && o.calls[k][0].accessor in Accessions(nodes[g]))
      && (o.denied.Some? ==> verify(o.calls[|o.calls| - 1]) == o.denied)
      && (forall k :: 0 <= k < |o.calls| - 1 ==> verify(o.calls[k]).None?)
      && (o.denied.None? ==> forall k :: 0 <= k < |o.calls| ==> verify(o.calls[k]).None?)
  {
    GroupOutcomeShape(verify, nodes, g, presenter, request);
    GroupOutcomeVerdicts(verify, nodes, g, presenter, request);
  }

  /** The root chain first, then at most three slot chains, each an operation of the group under the root. */
  lemma GroupOutcomeShape(verify: Verifier, nodes: seq<Node>, g: Ref, presenter: Component, request: Request)
    requires g < |nodes|
    ensures var o := GroupOutcome(verify, nodes, g, presenter, request);
      && 1 <= |o.calls| <= 4
      && o.calls[0] == [Frame(presenter, g, Some(request))]
      && (|o.calls| > 1 ==> verify(o.calls[0]).None?)
      && (forall k :: 1 <= k < |o.calls| ==>
            |o.calls[k]| >= 1 && o.calls[k][1..] == o.calls[0] && o.calls[k][0].component == presenter
            && o.calls[k][0].accessor in Accessions(nodes[g]))
  {
    var root := [Frame(presenter, g, Some(request))];
    if verify(root).None? {
      var cands := SlotChains(nodes, g, presenter, root, request, Slots(request));
      SlotWalkIsChecks(verify, nodes, g, presenter, root, request, Slots(request));
      RunChecksPrefix(verify, cands);
      SlotChainsSpec(nodes, g, presenter, root, request, Slots(request));
      var s := RunChecks(verify, cands);
      var o := GroupOutcome(verify, nodes, g, presenter, request);
      assert o.calls == [root] + s.calls;
      forall k | 1 <= k < |o.calls| ensures o.calls[k] == cands[k - 1] {
        assert o.calls[k] == s.calls[k - 1] == cands[..|s.calls|][k - 1];
      }
    }
  }

  /** Every chain but the last passed; a denial comes from the last; without one all passed. */
  predicate Verdicts(verify: Verifier, o: Outcome)
  {
    && (o.denied.Some? ==> |o.calls| > 0 && verify(o.calls[|o.calls| - 1]) == o.denied)
    && (forall k :: 0 <= k < |o.calls| - 1 ==> verify(o.calls[k]).None?)
    && (o.denied.None? ==> forall k :: 0 <= k < |o.calls| ==> verify(o.calls[k]).None?)
  }

  /** A chain that passed, followed by a run whose verdicts are consistent, gives consistent verdicts. */
  lemma ThenVerdicts(verify: Verifier, root: seq<Frame>, s: Outcome)
    requires verify(root).None? && Verdicts(verify, s)
    ensures Verdicts(verify, Then([root], s))
  {
    var o := Then([root], s);
    assert o.calls == [root] + s.calls;
    forall k | 1 <= k < |o.calls| ensures o.calls[k] == s.calls[k - 1] {
    }
  }

  lemma GroupOutcomeVerdicts(verify: Verifier, nodes: seq<Node>, g: Ref, presenter: Component, request: Request)
    requires g < |nodes|
    ensures Verdicts(verify, GroupOutcome(verify, nodes, g, presenter, request))
  {
    var root := [Frame(presenter, g, Some(request))];
    if verify(root).None? {
      var cands := SlotChains(nodes, g, presenter, root, request, Slots(request));
      SlotWalkIsChecks(verify, nodes, g, presenter, root, request, Slots(request));
      RunChecksSpec(verify, cands);
      ThenVerdicts(verify, root, RunChecks(verify, cands));
    }
  }

  /**
   * presenterSignal's checks: none for a presenter whose class has no
   * group, otherwise those of its group as GroupOutcomeSpec says.
   */
  lemma PresenterOutcomeSpec(verify: Verifier, nodes: seq<Node>, groups: map<string, Ref>, presenter: Component,
                             cls: string, request: Request)
    requires forall c :: c in groups ==> groups[c] < |nodes|
    ensures var o := PresenterOutcome(verify, nodes, groups, presenter, cls, request);
      && (cls !in groups ==> o.calls == [] && o.denied.None?)
      && (cls in groups ==> o == GroupOutcome(verify, nodes, groups[cls], presenter, request) && 1 <= |o.calls| <= 4)
      && (o.denied.Some? ==> |o.calls| > 0 && verify(o.calls[|o.calls| - 1]) == o.denied)
      && (o.denied.None? ==> forall k :: 0 <= k < |o.calls| ==> verify(o.calls[k]).None?)
  {
    if cls in groups {
      GroupOutcomeSpec(verify, nodes, groups[cls], presenter, request);
    }
  }
}
