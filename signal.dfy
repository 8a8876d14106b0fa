/**
 * The runtime Signal (src/Signal.php): one access check in progress — the
 * component being entered, the policy node it maps to, the request, and the
 * signal of the enclosing check, if any.
 */
module Signals {
  import opened Wrappers
  import opened Nodes

  /** A component instance of the host application (a presenter or a nested control), by identity. */
  type Component = nat

  /** An application request, reduced to its named parameters. */
  datatype Request = Request(params: map<string, string>)

  /** `$request->getParameter($key)`: the parameter, or none. */
  function Param(r: Request, key: string): (v: Option<string>)
    ensures v.Some? <==> key in r.params
    ensures v.Some? ==> v.value == r.params[key]
  {
    if key in r.params then Some(r.params[key]) else None
  }

  /** What a verify hook can observe of one signal: its component, its accessor and its request. */
  datatype Frame = Frame(component: Component, accessor: Ref, request: Option<Request>)

  /** The message `accessDenied()` uses when none is given. */
  const DefaultDenialMessage := "Access Denied"

  class Signal {
    const component: Component
    const accessor: Ref
    var parent: Signal?
    var request: Option<Request>

    /** This signal and its ancestors. */
    ghost var Repr: set<Signal>
    /** The frames of this signal and its ancestors, nearest first. */
    ghost var chain: seq<Frame>

    /** The parent chain is finite (no signal is its own ancestor) and `chain` is its frames. */
    ghost predicate Valid()
      reads this, Repr
      decreases Repr
    {
      && this in Repr
      && (parent == null ==> Repr == {this} && chain == [Frame(component, accessor, request)])
      && (parent != null ==>
            && parent in Repr && parent.Repr <= Repr && this !in parent.Repr
            && Repr == {this} + parent.Repr
            && chain == [Frame(component, accessor, request)] + parent.chain
            && parent.Valid())
    }

    /** What the verify hook sees: the frames of this signal and of its ancestors, nearest first. */
    function Frames(): (fs: seq<Frame>)
      reads this, Repr
      requires Valid()
      ensures fs == chain && |fs| >= 1 && fs[0] == Frame(component, accessor, request)
      ensures parent == null <==> |fs| == 1
      decreases Repr
    {
      [Frame(component, accessor, request)] + (if parent == null then [] else parent.Frames())
    }

    /** `new Signal($control, $accessor)`: no parent and no request yet. */
    constructor (component: Component, accessor: Ref)
      ensures this.component == component && this.accessor == accessor
      ensures parent == null && request == None
      ensures Valid() && Repr == {this} && chain == [Frame(component, accessor, None)]
    {
      this.component := component;
      this.accessor := accessor;
      parent := null;
      request := None;
      Repr := {this};
      chain := [Frame(component, accessor, None)];
    }

    /** `getAccessor()`: the accessor the signal was built with. */
    function GetAccessor(): (a: Ref)
      ensures a == accessor
    {
      accessor
    }

    /**
     * `setParent($signal)`: only the parent changes, to a signal or to none.
     * The chain stays finite when the new parent is not a descendant of this one.
     */
    method SetParent(p: Signal?)
      modifies this
      ensures parent == p && request == old(request)
      ensures Repr == if p == null then {this} else {this} + old(p.Repr)
      ensures chain == [Frame(component, accessor, request)] + (if p == null then [] else old(p.chain))
      ensures p == null || (p.Valid() && this !in p.Repr) ==> Valid()
    {
      parent := p;
      if p == null {
        Repr := {this};
        chain := [Frame(component, accessor, request)];
      } else {
        var pRepr, pChain := p.Repr, p.chain;
        Repr := {this} + pRepr;
        chain := [Frame(component, accessor, request)] + pChain;
      }
    }

    /** `setRequest($request)`: only the request changes, and with it the first frame. */
    method SetRequest(r: Request)
      modifies this
      ensures request == Some(r) && parent == old(parent) && Repr == old(Repr)
      ensures |old(chain)| >= 1 ==> chain == [Frame(component, accessor, Some(r))] + old(chain)[1..]
      ensures old(Valid()) ==> Valid()
    {
      request := Some(r);
      if |chain| >= 1 {
        chain := [Frame(component, accessor, Some(r))] + chain[1..];
      }
    }
  }

  /** The AccessDenied exception: the signal whose check failed and the message. */
  datatype Denial = Denial(signal: Signal, message: string)

  /**
   * `accessDenied($message)`: the exception it raises, carrying this signal;
   * without a message it says "Access Denied".
   */
  function AccessDenied(s: Signal, message: string := DefaultDenialMessage): (d: Denial)
    ensures d.signal == s && d.message == message
  {
    Denial(s, message)
  }

  /** A denial raised without a message carries the signal and the text "Access Denied". */
  lemma AccessDeniedDefaultMessage(s: Signal)
    ensures AccessDenied(s).signal == s
    ensures AccessDenied(s).message == "Access Denied"
  {
  }
}
