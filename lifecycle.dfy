/** The GPIO class's operations as functions on the abstract tree: what the
    acquisition sequence of the constructor and the read-then-write of
    ToggleState leave behind, and the properties they guarantee. The class
    in module Device is proved to follow these functions step by step. */
module Lifecycle {
  import opened Wrappers
  import opened PinText
  import opened Sysfs

  /** A node after SetDirection(d) and, for an output pin only, SetPinState(s). */
  function Configure(node: PinNode, d: Direction, s: State): (r: PinNode)
    ensures DecodeDirection(r.direction) == Success(d)
    ensures d == Out ==> DecodeState(r.value) == Success(s)
    ensures d == In ==> r.value == node.value
  {
    DirectionRoundTrip(d);
    StateRoundTrip(s);
    var directed := node.(direction := EncodeDirection(d));
    if d == Out then directed.(value := EncodeState(s)) else directed
  }

  /** How an acquisition ends, and the tree it leaves. */
  datatype Acquisition = Acquisition(outcome: Outcome<Error>, nodes: map<int, PinNode>)

  /** The constructor's sequence: unexport first when forced and the node
      exists, write `export`, give up with PortUnavailable when the node is
      still missing, otherwise configure the node. */
  function Acquire(k: Kernel, nodes: map<int, PinNode>, n: int, d: Direction, s: State, force: bool): (r: Acquisition)
    ensures r.outcome.Pass? <==> n in r.nodes
    ensures r.outcome.Fail? ==> r.outcome == Fail(PortUnavailable)
  {
    var cleared := if n in nodes && force then Unexported(nodes, n) else nodes;
    var exported := Exported(k, cleared, n);
    if n !in exported then Acquisition(Fail(PortUnavailable), exported)
    else Acquisition(Pass, exported[n := Configure(exported[n], d, s)])
  }

  /** Acquisition fails exactly when the kernel refuses the pin and no node
      of it is reused, and then with PortUnavailable. */
  lemma AcquireSucceedsIff(k: Kernel, nodes: map<int, PinNode>, n: int, d: Direction, s: State, force: bool)
    ensures Acquire(k, nodes, n, d, s, force).outcome.Pass? <==> (n in nodes && !force) || n !in k.unavailable
    ensures Acquire(k, nodes, n, d, s, force).outcome.Fail? ==> Acquire(k, nodes, n, d, s, force).outcome == Fail(PortUnavailable)
  {
  }

  /** A successful acquisition leaves the pin exported and reading back as
      direction `d`; an output pin reads back level `s`; an input pin's
      `value` text is not written: it is the reused node's, or the kernel's
      initial one. */
  lemma AcquireConfigures(k: Kernel, nodes: map<int, PinNode>, n: int, d: Direction, s: State, force: bool)
    requires Acquire(k, nodes, n, d, s, force).outcome.Pass?
    ensures n in Acquire(k, nodes, n, d, s, force).nodes
    ensures DecodeDirection(Acquire(k, nodes, n, d, s, force).nodes[n].direction) == Success(d)
    ensures d == Out ==> DecodeState(Acquire(k, nodes, n, d, s, force).nodes[n].value) == Success(s)
    ensures d == In ==> Acquire(k, nodes, n, d, s, force).nodes[n].value
                        == (if n in nodes && !force then nodes[n].value else k.initial.value)
  {
    DirectionRoundTrip(d);
    StateRoundTrip(s);
  }

  /** A failed acquisition writes no direction and no level: the pin has no
      node and every other node is as before. */
  lemma AcquireFailureWritesNothing(k: Kernel, nodes: map<int, PinNode>, n: int, d: Direction, s: State, force: bool)
    requires Acquire(k, nodes, n, d, s, force).outcome.Fail?
    ensures Acquire(k, nodes, n, d, s, force).nodes == Unexported(nodes, n)
  {
  }

  /** Acquiring one pin never touches another pin's node. */
  lemma AcquireTouchesOnlyItsPin(k: Kernel, nodes: map<int, PinNode>, n: int, d: Direction, s: State, force: bool, m: int)
    requires m != n
    ensures m in Acquire(k, nodes, n, d, s, force).nodes <==> m in nodes
    ensures m in nodes ==> Acquire(k, nodes, n, d, s, force).nodes[m] == nodes[m]
  {
  }

  /** A forced acquisition behaves as if the pin had never been exported:
      whatever a previous owner left in its node is discarded, and on
      success the node is the kernel's initial node configured as asked. */
  lemma ForcedAcquireIgnoresPriorOwner(k: Kernel, nodes: map<int, PinNode>, n: int, d: Direction, s: State)
    ensures Acquire(k, nodes, n, d, s, true) == Acquire(k, Unexported(nodes, n), n, d, s, false)
    ensures Acquire(k, nodes, n, d, s, true).outcome.Pass? ==>
              Acquire(k, nodes, n, d, s, true).nodes[n] == Configure(k.initial, d, s)
  {
  }

  /** Repeating a forced acquisition with the same arguments changes nothing. */
  lemma ForcedAcquireIdempotent(k: Kernel, nodes: map<int, PinNode>, n: int, d: Direction, s: State)
    ensures Acquire(k, Acquire(k, nodes, n, d, s, true).nodes, n, d, s, true)
            == Acquire(k, nodes, n, d, s, true)
  {
  }

  /** ToggleState on one node: read the direction; on an output pin read the
      level and write the other one; on an input pin write nothing. A text
      that does not decode stops the toggle with that error. */
  function ToggleNode(node: PinNode): (r: Result<PinNode, Error>)
    ensures r.Success? ==> r.value.direction == node.direction
    ensures DecodeDirection(node.direction).Failure? ==> r.Failure?
  {
    match DecodeDirection(node.direction)
    case Failure(e) => Failure(e)
    case Success(In) => Success(node)
    case Success(Out) =>
      match DecodeState(node.value)
      case Failure(e) => Failure(e)
      case Success(s) => Success(node.(value := EncodeState(Complement(s))))
  }

  /** On an input pin the toggle writes nothing. */
  lemma ToggleInputIsNoop(node: PinNode)
    requires DecodeDirection(node.direction) == Success(In)
    ensures ToggleNode(node) == Success(node)
  {
  }

  /** On an output pin the toggle keeps the direction text and makes the
      level read back as the complement of the level read before. */
  lemma ToggleComplements(node: PinNode, s: State)
    requires DecodeDirection(node.direction) == Success(Out)
    requires DecodeState(node.value) == Success(s)
    ensures ToggleNode(node).Success?
    ensures ToggleNode(node).value.direction == node.direction
    ensures DecodeDirection(ToggleNode(node).value.direction) == Success(Out)
    ensures DecodeState(ToggleNode(node).value.value) == Success(Complement(s))
  {
    StateRoundTrip(Complement(s));
  }

  /** The toggle fails exactly when a text it reads does not decode, and
      then carries that text. */
  lemma ToggleFailures(node: PinNode)
    ensures DecodeDirection(node.direction).Failure? ==>
              ToggleNode(node) == Failure(UnrecognizedDirection(node.direction))
    ensures DecodeDirection(node.direction) == Success(Out) && DecodeState(node.value).Failure? ==>
              ToggleNode(node) == Failure(UnrecognizedState(node.value))
    ensures ToggleNode(node).Failure? ==>
              DecodeDirection(node.direction).Failure?
              || (DecodeDirection(node.direction) == Success(Out) && DecodeState(node.value).Failure?)
  {
  }

  /** Two toggles of an output pin restore its level, and its node too once
      the level text is the one SetPinState writes. */
  lemma ToggleTwice(node: PinNode, s: State)
    requires DecodeDirection(node.direction) == Success(Out)
    requires DecodeState(node.value) == Success(s)
    ensures ToggleNode(node).Success? && ToggleNode(ToggleNode(node).value).Success?
    ensures ToggleNode(ToggleNode(node).value).value == node.(value := EncodeState(s))
    ensures node.value == EncodeState(s) ==> ToggleNode(ToggleNode(node).value).value == node
  {
  }

  /** `count` consecutive toggles, stopping at the first failure. */
  function ToggleTimes(node: PinNode, count: nat): (r: Result<PinNode, Error>)
    ensures r.Success? ==> r.value.direction == node.direction
    ensures count > 0 && DecodeDirection(node.direction).Failure? ==> r.Failure?
    decreases count
  {
    if count == 0 then Success(node)
    else
      match ToggleNode(node)
      case Failure(e) => Failure(e)
      case Success(next) => ToggleTimes(next, count - 1)
  }

  /** Toggling an output pin `count` times ends at the start level when
      `count` is even and at its complement when it is odd. */
  lemma {:induction false} ToggleParity(node: PinNode, s: State, count: nat)
    requires DecodeDirection(node.direction) == Success(Out)
    requires DecodeState(node.value) == Success(s)
    ensures ToggleTimes(node, count).Success?
    ensures DecodeDirection(ToggleTimes(node, count).value.direction) == Success(Out)
    ensures DecodeState(ToggleTimes(node, count).value.value)
            == Success(if count % 2 == 0 then s else Complement(s))
    decreases count
  {
    if count > 0 {
      ToggleComplements(node, s);
      ToggleParity(ToggleNode(node).value, Complement(s), count - 1);
    }
  }

  /** Hence the level after `count` toggles equals the start level if and
      only if `count` is even. */
  lemma ToggleParityIff(node: PinNode, s: State, count: nat)
    requires DecodeDirection(node.direction) == Success(Out)
    requires DecodeState(node.value) == Success(s)
    ensures ToggleTimes(node, count).Success?
    ensures DecodeState(ToggleTimes(node, count).value.value) == Success(s) <==> count % 2 == 0
  {
    ToggleParity(node, s, count);
  }
}
