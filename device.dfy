/** The GPIO class: one pin driven through the abstract sysfs tree. The pin
    number and name are constants, so no operation can change them; every
    operation changes at most the pin's own node. */
module Device {
  import opened Wrappers
  import opened PinText
  import opened Sysfs
  import opened Lifecycle

  class Gpio {
    const name: string
    const ioNumber: int
    const sysfs: Tree

    /** Records the number and the name; the acquisition itself is Open. */
    constructor Attach(sysfs: Tree, ioNum: int, name: string)
      ensures this.sysfs == sysfs && ioNumber == ioNum && this.name == name
    {
      this.name := name;
      this.ioNumber := ioNum;
      this.sysfs := sysfs;
    }

    /** The constructor's acquisition sequence. A pin whose node does not
        appear after the export write yields PortUnavailable and no handle;
        otherwise the handle is returned with its node configured. */
    static method Open(sysfs: Tree, ioNum: int, d: Direction, s: State, forceCreate: bool, name: string)
      returns (r: Result<Gpio, Error>)
      modifies sysfs
      ensures sysfs.nodes == Acquire(sysfs.kernel, old(sysfs.nodes), ioNum, d, s, forceCreate).nodes
      ensures r.Success? <==> Acquire(sysfs.kernel, old(sysfs.nodes), ioNum, d, s, forceCreate).outcome.Pass?
      ensures r.Failure? ==> r.error == PortUnavailable
      ensures r.Success? ==> fresh(r.value) && r.value.sysfs == sysfs
                             && r.value.ioNumber == ioNum && r.value.name == name
    {
      var g := new Gpio.Attach(sysfs, ioNum, name);
      var present := sysfs.NodeExists(ioNum);
      if present {
        if forceCreate {
          sysfs.Unexport(ioNum);
        }
      }
      sysfs.Export(ioNum);
      var appeared := sysfs.NodeExists(ioNum);
      if !appeared {
        return Failure(PortUnavailable);
      }
      var directed := g.SetDirection(d);
      if d == Out {
        var levelled := g.SetPinState(s);
      }
      r := Success(g);
    }

    /** Reads and decodes the `direction` node. */
    method GetDirection() returns (r: Result<Direction, Error>)
      ensures ioNumber in sysfs.nodes ==> r == DecodeDirection(sysfs.nodes[ioNumber].direction)
      ensures ioNumber !in sysfs.nodes ==> r == Failure(IoFailure)
    {
      var text := sysfs.ReadDirection(ioNumber);
      if text.Failure? {
        return Failure(text.error);
      }
      r := DecodeDirection(text.value);
    }

    /** Writes the direction's text to the `direction` node only; reading
        it back gives `d`. */
    method SetDirection(d: Direction) returns (o: Outcome<Error>)
      modifies sysfs
      ensures o == if ioNumber in old(sysfs.nodes) then Pass else Fail(IoFailure)
      ensures sysfs.nodes == if ioNumber in old(sysfs.nodes)
                             then old(sysfs.nodes)[ioNumber := old(sysfs.nodes)[ioNumber].(direction := EncodeDirection(d))]
                             else old(sysfs.nodes)
      ensures o.Pass? ==> DecodeDirection(sysfs.nodes[ioNumber].direction) == Success(d)
    {
      DirectionRoundTrip(d);
      match d
      case In => o := sysfs.WriteDirection(ioNumber, "in");
      case Out => o := sysfs.WriteDirection(ioNumber, "out");
    }

    /** Reads and decodes the `value` node. */
    method GetState() returns (r: Result<State, Error>)
      ensures ioNumber in sysfs.nodes ==> r == DecodeState(sysfs.nodes[ioNumber].value)
      ensures ioNumber !in sysfs.nodes ==> r == Failure(IoFailure)
    {
      var text := sysfs.ReadValue(ioNumber);
      if text.Failure? {
        return Failure(text.error);
      }
      r := DecodeState(text.value);
    }

    /** Writes the level's text to the `value` node only, whatever the
        direction; reading it back gives `s`. */
    method SetPinState(s: State) returns (o: Outcome<Error>)
      modifies sysfs
      ensures o == if ioNumber in old(sysfs.nodes) then Pass else Fail(IoFailure)
      ensures sysfs.nodes == if ioNumber in old(sysfs.nodes)
                             then old(sysfs.nodes)[ioNumber := old(sysfs.nodes)[ioNumber].(value := EncodeState(s))]
                             else old(sysfs.nodes)
      ensures o.Pass? ==> DecodeState(sysfs.nodes[ioNumber].value) == Success(s)
    {
      StateRoundTrip(s);
      match s
      case Hi => o := sysfs.WriteValue(ioNumber, "1");
      case Lo => o := sysfs.WriteValue(ioNumber, "0");
    }

    /** Reads the direction and, on an output pin, reads the level and
        writes the other one; on an input pin nothing is written. */
    method ToggleState() returns (o: Outcome<Error>)
      modifies sysfs
      ensures ioNumber !in old(sysfs.nodes) ==> o == Fail(IoFailure) && sysfs.nodes == old(sysfs.nodes)
      ensures ioNumber in old(sysfs.nodes) ==>
                var t := ToggleNode(old(sysfs.nodes)[ioNumber]);
                (t.Failure? ==> o == Fail(t.error) && sysfs.nodes == old(sysfs.nodes))
                && (t.Success? ==> o == Pass && sysfs.nodes == old(sysfs.nodes)[ioNumber := t.value])
    {
      var d := GetDirection();
      if d.Failure? {
        return Fail(d.error);
      }
      if d.value == Out {
        var s := GetState();
        if s.Failure? {
          return Fail(s.error);
        }
        if s.value == Hi {
          o := SetPinState(Lo);
        } else {
          o := SetPinState(Hi);
        }
      } else {
        o := Pass;
      }
    }

    /** Releases the pin: unexports exactly this pin number. */
    method Dispose()
      modifies sysfs
      ensures sysfs.nodes == Unexported(old(sysfs.nodes), ioNumber)
    {
      sysfs.Unexport(ioNumber);
    }
  }

  /** The demo's life of a pin on a tree with nothing exported: pin 12 is
      acquired as an output at Lo with forced creation; four toggles bring
      it back to Lo and a fifth leaves it at Hi; after release its
      direction can no longer be read. */
  method BlinkScenario(k: Kernel) returns (after4: Result<State, Error>, after5: Result<State, Error>,
                                          afterRelease: Result<Direction, Error>)
    requires 12 !in k.unavailable
    ensures after4 == Success(Lo)
    ensures after5 == Success(Hi)
    ensures afterRelease == Failure(IoFailure)
  {
    var tree := new Tree(k, map[]);
    AcquireSucceedsIff(k, map[], 12, Out, Lo, true);
    AcquireConfigures(k, map[], 12, Out, Lo, true);
    var acquired := Gpio.Open(tree, 12, Out, Lo, true, "test");
    assert acquired.Success?;
    var pin := acquired.value;
    var o := pin.ToggleState();
    o := pin.ToggleState();
    o := pin.ToggleState();
    o := pin.ToggleState();
    after4 := pin.GetState();
    o := pin.ToggleState();
    after5 := pin.GetState();
    pin.Dispose();
    afterRelease := pin.GetDirection();
  }
}
