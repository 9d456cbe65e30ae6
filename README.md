# GPIO pin over the sysfs interface — a Dafny model

The repository drives one pin of a single-board computer through the Linux
legacy sysfs GPIO interface (`/sys/class/gpio`). Its only logic is the
`GPIO` class in `gpio.cs`. The constructor acquires the pin: it optionally
unexports a stale node, writes the number to `export`, and checks that the
pin's node appeared. It then writes the direction and, for an output pin,
the level. `GetDirection`/`GetState` read a node's text and decode it with
first-match substring tests. `SetDirection`/`SetPinState` write the text for
an enum value. `ToggleState` reads the direction and, on an output pin, reads
the level and writes its complement. `Dispose` unexports the pin.

The model has five modules:

- `Wrappers` (`wrappers.dfy`): `Result` and `Outcome`. They carry the errors
  that the C# code throws as exceptions.
- `PinText` (`pin_text.dfy`): the `Direction`/`State` enums and the error
  kinds. It also holds `string.Contains` as a recursive predicate, checked
  against a reference definition (`Occurs`), and the encode/decode tables
  with their round-trip and first-match lemmas.
- `Sysfs` (`sysfs.dfy`): the sysfs tree as an object (`Tree`). It maps each
  exported pin number to the texts of its `direction` and `value` nodes. Its
  methods are the reads, the writes and the export/unexport control points.
  A `Kernel` value says which pins never get a node when exported, and what
  texts a new node starts with. This replaces the kernel's own behaviour.
- `Lifecycle` (`lifecycle.dfy`): the class's operations as functions on the
  tree: `Acquire` for the constructor, `ToggleNode` for `ToggleState`, and
  `ToggleTimes` for repeated toggles. It also holds the lemmas about them.
- `Device` (`device.dfy`): class `Gpio`. `ioNumber`, `name` and the tree are
  `const`, so no operation can change them. Every method is proved to do
  exactly what a `PinText`, `Lifecycle` or `Sysfs` definition describes.

Decisions:

- The C# constructor can throw after it has written `export`. A Dafny
  constructor cannot fail, so the acquisition is the static method
  `Gpio.Open`, which returns `Result<Gpio, Error>`. `Gpio.Attach` only
  records the number and the name, as the first two lines of the C#
  constructor do.
- The thrown exceptions become error values. The exception at gpio.cs:43
  is `PortUnavailable`. The one at gpio.cs:64 is `UnrecognizedDirection(raw)`
  and the one at gpio.cs:97 is `UnrecognizedState(raw)`; both carry the text
  that was read. A read or write of a missing node (.NET's
  `DirectoryNotFoundException`) becomes `IoFailure`.
- The source decodes by substring containment, not exact match, and the
  model does the same. So `"outin"` reads as `In`, `"01"` reads as `Hi`, and
  the kernel's trailing newline is harmless.

## Model

| member | source | states |
|---|---|---|
| `PinText.Contains` | gpio.cs:59 | ordinal `string.Contains`, a left-to-right scan of start positions (also used at gpio.cs:61, 92, 94); a contained pattern is no longer than the text, and the empty pattern is always contained |
| `PinText.ContainsIffOccurs` | gpio.cs:59-62 | the recursive left-to-right substring search used for `Contains` holds exactly when some window of the text equals the pattern |
| `PinText.EncodeDirection` | gpio.cs:73-81 | the SetDirection table: In is written as "in" and Out as "out"; the written text contains "in" exactly for In, and the text for Out contains "out" |
| `PinText.DecodeDirection` | gpio.cs:57-64 | GetDirection's first-match chain; a decoded direction's own text occurs in the input, and a failure carries the raw text (UnrecognizedDirection) |
| `PinText.EncodeState` | gpio.cs:106-114 | the SetPinState table: Hi is written as "1" and Lo as "0"; the text holds '1' exactly for Hi and '0' exactly for Lo |
| `PinText.DecodeState` | gpio.cs:90-97 | GetState's first-match chain; a decoded level's own text occurs in the input, and a failure carries the raw text (UnrecognizedState) |
| `PinText.DecodeDirectionSpec` | gpio.cs:55-65 | direction text decodes to In iff "in" occurs; to Out iff "in" does not occur and "out" does; fails iff neither occurs, and the failure carries the raw text |
| `PinText.DecodeStateSpec` | gpio.cs:88-98 | value text decodes to Hi iff it holds '1'; to Lo iff it holds '0' and no '1'; fails iff it holds neither digit, and the failure carries the raw text |
| `PinText.DirectionRoundTrip` | gpio.cs:71-82 | decoding the text SetDirection writes for `d` gives back `d`, also with a trailing newline |
| `PinText.StateRoundTrip` | gpio.cs:104-115 | decoding the text SetPinState writes for `s` gives back `s`, also with a trailing newline |
| `PinText.EncodingsInjective` | gpio.cs:71-82 | different directions (and different levels) are written as different texts |
| `PinText.FloatDirectionRejected` | gpio.cs:55-65 | a direction node holding "float" fails with UnrecognizedDirection("float") |
| `PinText.FirstMatchWins` | gpio.cs:59-62 | the "in" test comes first, so "outin" reads as In; the "1" test comes first, so "01" reads as Hi |
| `PinText.MissingCharNotContained` | gpio.cs:59-62 | a pattern with a character the text lacks is never contained in it |
| `PinText.Complement` | gpio.cs:124-127 | the complement of a level is the other level |
| `Sysfs.Exported` | gpio.cs:38 | the export write gives the pin a node unless the kernel refuses it; an existing node is kept; other nodes are untouched |
| `Sysfs.Unexported` | gpio.cs:35 | the unexport write removes exactly the pin's node |
| `Sysfs.Tree.NodeExists` | gpio.cs:31 | the existence check is true exactly when the pin is exported |
| `Sysfs.Tree.ReadDirection` | gpio.cs:57 | reading `direction` returns its text, or IoFailure when the node is missing |
| `Sysfs.Tree.ReadValue` | gpio.cs:90 | reading `value` returns its text, or IoFailure when the node is missing |
| `Sysfs.Tree.WriteDirection` | gpio.cs:76 | writing `direction` replaces only that text of only that pin; a missing node fails with nothing written |
| `Sysfs.Tree.WriteValue` | gpio.cs:109 | writing `value` replaces only that text of only that pin; a missing node fails with nothing written |
| `Sysfs.Tree.Export` | gpio.cs:38 | the export write leaves exactly the tree `Exported` describes |
| `Sysfs.Tree.Unexport` | gpio.cs:35 | the unexport write (also at gpio.cs:136) leaves exactly the tree `Unexported` describes |
| `Lifecycle.Configure` | gpio.cs:45-48 | the node after SetDirection(d) and, for Out only, SetPinState(s): it reads back direction `d`; an Out node reads back level `s`; an In node keeps its value text |
| `Lifecycle.Acquire` | gpio.cs:23-49 | the constructor's sequence on the tree (forced unexport, export, existence check, configure); it succeeds exactly when the pin has a node afterwards, and otherwise fails with PortUnavailable |
| `Lifecycle.AcquireSucceedsIff` | gpio.cs:31-43 | construction succeeds iff the node is reused (it exists and creation is not forced) or the kernel grants the pin; otherwise it fails with PortUnavailable |
| `Lifecycle.AcquireConfigures` | gpio.cs:45-48 | after a successful construction the pin is exported and reads back direction `d`; an Out pin reads back level `s`; an In pin's value text is not written |
| `Lifecycle.AcquireFailureWritesNothing` | gpio.cs:42-43 | a failed construction writes no direction and no level: the pin has no node and every other node is unchanged |
| `Lifecycle.AcquireTouchesOnlyItsPin` | gpio.cs:23-49 | constructing one pin never changes another pin's node |
| `Lifecycle.ForcedAcquireIgnoresPriorOwner` | gpio.cs:31-38 | with forced creation, an exported pin is unexported before the export write, so the result equals acquiring an unexported pin; on success the node is the kernel's initial node configured as asked |
| `Lifecycle.ForcedAcquireIdempotent` | gpio.cs:31-48 | repeating a forced construction with the same arguments leaves the same tree and the same outcome |
| `Lifecycle.ToggleNode` | gpio.cs:120-129 | ToggleState on one node: read the direction, and on Out read the level and write its complement; it never changes the direction text, and an undecodable direction makes it fail |
| `Lifecycle.ToggleTimes` | Program.cs:21-25 | `count` consecutive toggles stopping at the first failure, the shape of the demo's toggle loop; the direction text is never changed, and an undecodable direction makes any positive count fail |
| `Lifecycle.ToggleInputIsNoop` | gpio.cs:122 | toggling an In pin writes nothing: its node is unchanged |
| `Lifecycle.ToggleComplements` | gpio.cs:122-128 | toggling an Out pin keeps its direction and makes its level read back as the complement of the level before |
| `Lifecycle.ToggleFailures` | gpio.cs:120-129 | a toggle fails exactly when the direction text, or (on an Out pin) the value text, does not decode, and carries that text |
| `Lifecycle.ToggleTwice` | gpio.cs:120-129 | two toggles of an Out pin restore its level, and restore the node itself when its value text is canonical |
| `Lifecycle.ToggleParity` | gpio.cs:120-129 | after `n` toggles of an Out pin the level is the start level for even `n` and its complement for odd `n` |
| `Lifecycle.ToggleParityIff` | gpio.cs:120-129 | the level after `n` toggles equals the start level if and only if `n` is even |
| `Device.Gpio.Attach` | gpio.cs:25-26 | the handle records the pin number, the name and the tree, which are constants from then on |
| `Device.Gpio.Open` | gpio.cs:23-49 | runs the acquisition sequence step by step and leaves exactly the tree `Acquire` describes; it returns a fresh handle for this number and name on success, and PortUnavailable and no handle on failure |
| `Device.Gpio.GetDirection` | gpio.cs:55-65 | returns the decoding of the pin's current direction text, or IoFailure when the pin has no node |
| `Device.Gpio.SetDirection` | gpio.cs:71-82 | replaces only the pin's direction text with the encoding of `d`, which then reads back as `d`; fails with IoFailure and writes nothing when the pin has no node |
| `Device.Gpio.GetState` | gpio.cs:88-98 | returns the decoding of the pin's current value text, or IoFailure when the pin has no node |
| `Device.Gpio.SetPinState` | gpio.cs:104-115 | replaces only the pin's value text with the encoding of `s`, whatever the direction, which then reads back as `s`; fails with IoFailure and writes nothing when the pin has no node |
| `Device.Gpio.ToggleState` | gpio.cs:120-129 | leaves the tree that `ToggleNode` gives for the pin's node and reports its error; a missing node fails with IoFailure and nothing written |
| `Device.Gpio.Dispose` | gpio.cs:134-137 | unexports exactly this handle's pin number, removing its node and no other |
| `Device.BlinkScenario` | Program.cs:15-23 | a shortened version of the demo's toggle run (five toggles, not fifty), followed by a release step that Program.cs itself never performs: on an empty tree, pin 12 opened as Out/Lo with forced creation reads Lo after four toggles and Hi after a fifth; after release its direction read fails |

## Left out

- Real file I/O: the `/sys/class/gpio/...` path strings, `File.ReadAllText`, `File.WriteAllText`, `Directory.Exists` and `Encoding.Default` are replaced by the `Tree` object keyed by pin number.
- Only two things about the kernel are parameters (`Kernel`): which pins never get a node on export, and the texts a new node starts with. The rest is a fixed choice of `Sysfs.Exported` and `Sysfs.Unexported`. Exporting an already exported pin keeps its node, and unexporting a pin that has no node removes nothing. A real kernel rejects both writes (EBUSY, EINVAL), and .NET would then throw at gpio.cs:38, or at gpio.cs:136 (`Dispose` of a pin already released). So `Lifecycle.AcquireSucceedsIff` lets construction succeed by reusing an existing node when creation is not forced, where the real class would throw an IOException.
- OS errors such as permission denied or a generic IOException on a write are not modelled. The only I/O error is `IoFailure`, for a node that is missing.
- `Device.Gpio.Dispose`: has no error result. The source's unexport write could throw, but the model's unexport cannot fail.
- Concurrent changes to a pin by another process between the read and the write in `ToggleState` are not modelled; the handle is the only owner of its pin.
- Program.cs is not modelled. It is the console entry point that toggles pin 12 fifty times in a task with a 200 ms delay. Toggle parity is instead stated by `Lifecycle.ToggleParity`, and a short toggle run by `Device.BlinkScenario`.
- The unused local `portName` (gpio.cs:27) is not modelled.
- Use after release is not forbidden by a lifecycle flag. After `Dispose`, every read or write fails with `IoFailure` until the pin is exported again. A released handle then reads and writes whatever node the pin has, as the C# class does, since it has no disposed flag either.
- The C# constructor's default arguments (`In`, `Lo`, no forced creation, empty name) are not modelled; `Gpio.Open` takes every argument explicitly.
