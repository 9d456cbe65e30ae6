/** An abstract view of the legacy sysfs GPIO interface (`/sys/class/gpio`):
    the set of exported pins, each with the text of its `direction` and
    `value` nodes, and the `export`/`unexport` control points. Paths are
    replaced by the pin number that keys each node. */
module Sysfs {
  import opened Wrappers
  import opened PinText

  /** The two text files of one exported pin. */
  datatype PinNode = PinNode(direction: string, value: string)

  /** What the kernel does on export, given as parameters: the pins whose
      node never appears when exported, and the texts a new node starts with. */
  datatype Kernel = Kernel(unavailable: set<int>, initial: PinNode)

  /** Writing `n` to `export`: a pin already exported keeps its node, an
      unavailable pin gets none, any other pin gets a new node. */
  function Exported(k: Kernel, nodes: map<int, PinNode>, n: int): (r: map<int, PinNode>)
    ensures n in r <==> n in nodes || n !in k.unavailable
    ensures n in nodes ==> r[n] == nodes[n]
    ensures n !in nodes && n in r ==> r[n] == k.initial
    ensures forall m :: m != n ==> (m in r <==> m in nodes)
    ensures forall m :: m != n && m in r ==> r[m] == nodes[m]
  {
    if n in nodes || n in k.unavailable then nodes else nodes[n := k.initial]
  }

  /** Writing `n` to `unexport`: the pin's node disappears, every other
      node stays as it was. */
  function Unexported(nodes: map<int, PinNode>, n: int): (r: map<int, PinNode>)
    ensures n !in r
    ensures forall m :: m != n ==> (m in r <==> m in nodes)
    ensures forall m :: m != n && m in r ==> r[m] == nodes[m]
  {
    nodes - {n}
  }

  /** The tree, as a mutable object shared by every pin handle. */
  class Tree {
    var nodes: map<int, PinNode>
    const kernel: Kernel

    constructor (kernel: Kernel, nodes: map<int, PinNode>)
      ensures this.kernel == kernel && this.nodes == nodes
    {
      this.kernel := kernel;
      this.nodes := nodes;
    }

    /** `Directory.Exists` on the pin's node. */
    method NodeExists(n: int) returns (b: bool)
      ensures b <==> n in nodes
    {
      b := n in nodes;
    }

    method Export(n: int)
      modifies this
      ensures nodes == Exported(kernel, old(nodes), n)
    {
      nodes := Exported(kernel, nodes, n);
    }

    method Unexport(n: int)
      modifies this
      ensures nodes == Unexported(old(nodes), n)
    {
      nodes := Unexported(nodes, n);
    }

    /** Reads the pin's `direction` text; fails when the node is missing. */
    method ReadDirection(n: int) returns (r: Result<string, Error>)
      ensures n in nodes <==> r.Success?
      ensures r.Success? ==> r.value == nodes[n].direction
      ensures r.Failure? ==> r.error == IoFailure
    {
      if n in nodes {
        r := Success(nodes[n].direction);
      } else {
        r := Failure(IoFailure);
      }
    }

    /** Reads the pin's `value` text; fails when the node is missing. */
    method ReadValue(n: int) returns (r: Result<string, Error>)
      ensures n in nodes <==> r.Success?
      ensures r.Success? ==> r.value == nodes[n].value
      ensures r.Failure? ==> r.error == IoFailure
    {
      if n in nodes {
        r := Success(nodes[n].value);
      } else {
        r := Failure(IoFailure);
      }
    }

    /** Replaces the pin's `direction` text, leaving its `value` text and
        every other node alone; fails, writing nothing, when the node is missing. */
    method WriteDirection(n: int, text: string) returns (o: Outcome<Error>)
      modifies this
      ensures o == if n in old(nodes) then Pass else Fail(IoFailure)
      ensures nodes == if n in old(nodes) then old(nodes)[n := old(nodes)[n].(direction := text)] else old(nodes)
    {
      if n in nodes {
        nodes := nodes[n := nodes[n].(direction := text)];
        o := Pass;
      } else {
        o := Fail(IoFailure);
      }
    }

    /** Replaces the pin's `value` text, leaving its `direction` text and
        every other node alone; fails, writing nothing, when the node is missing. */
    method WriteValue(n: int, text: string) returns (o: Outcome<Error>)
      modifies this
      ensures o == if n in old(nodes) then Pass else Fail(IoFailure)
      ensures nodes == if n in old(nodes) then old(nodes)[n := old(nodes)[n].(value := text)] else old(nodes)
    {
      if n in nodes {
        nodes := nodes[n := nodes[n].(value := text)];
        o := Pass;
      } else {
        o := Fail(IoFailure);
      }
    }
  }
}
