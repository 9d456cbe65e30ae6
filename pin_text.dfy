/** The two enums of the GPIO class and the text forms that the sysfs
    `direction` and `value` nodes hold, with the encode tables of
    SetDirection/SetPinState and the first-match decode chains of
    GetDirection/GetState. */
module PinText {
  import opened Wrappers

  /** Signal direction (GPIO.Direction). */
  datatype Direction = In | Out

  /** Pin level (GPIO.State). */
  datatype State = Hi | Lo

  /** Everything that makes an operation of the class fail. */
  datatype Error =
    | PortUnavailable                     // the pin node did not appear after export
    | UnrecognizedDirection(raw: string)  // direction text with neither "in" nor "out"
    | UnrecognizedState(raw: string)      // value text with neither "1" nor "0"
    | IoFailure                           // the pin node is missing on a read or a write

  /** The opposite level. */
  function Complement(s: State): (r: State)
    ensures r != s
  {
    match s
    case Hi => Lo
    case Lo => Hi
  }

  /** `p` is a prefix of `s`. */
  predicate StartsWith(s: string, p: string)
  {
    |p| <= |s| && s[..|p|] == p
  }

  /** Ordinal substring search, as `string.Contains(string)`: scans the start
      positions of `s` from left to right. */
  predicate Contains(s: string, p: string)
    ensures Contains(s, p) ==> |p| <= |s|
    ensures p == [] ==> Contains(s, p)
    decreases |s|
  {
    StartsWith(s, p) || (|s| > 0 && Contains(s[1..], p))
  }

  /** The window of `s` starting at `i` equals `p`. */
  ghost predicate MatchesAt(s: string, p: string, i: int)
  {
    0 <= i <= |s| - |p| && s[i..i + |p|] == p
  }

  /** Reference definition of substring occurrence: some window of `s` equals `p`. */
  ghost predicate Occurs(s: string, p: string)
  {
    exists i :: MatchesAt(s, p, i)
  }

  lemma {:induction false} ContainsIffOccurs(s: string, p: string)
    ensures Contains(s, p) <==> Occurs(s, p)
    decreases |s|
  {
    if StartsWith(s, p) {
      assert MatchesAt(s, p, 0);
    }
    if |s| > 0 {
      ContainsIffOccurs(s[1..], p);
      if Occurs(s[1..], p) {
        var i :| MatchesAt(s[1..], p, i);
        assert s[i + 1..i + 1 + |p|] == s[1..][i..i + |p|];
        assert MatchesAt(s, p, i + 1);
      }
      if Occurs(s, p) && !StartsWith(s, p) {
        var i :| MatchesAt(s, p, i);
        assert i != 0;
        assert s[1..][i - 1..i - 1 + |p|] == s[i..i + |p|];
        assert MatchesAt(s[1..], p, i - 1);
      }
    } else {
      if Occurs(s, p) {
        var i :| MatchesAt(s, p, i);
        assert i == 0;
      }
    }
  }

  /** The text SetDirection writes to the `direction` node. */
  function EncodeDirection(d: Direction): (r: string)
    ensures Contains(r, "in") <==> d == In
    ensures d == Out ==> Contains(r, "out")
  {
    assert StartsWith("in", "in") && StartsWith("out", "out");
    MissingCharNotContained("out", "in", 0);
    match d
    case In => "in"
    case Out => "out"
  }

  /** GetDirection's decoding: "in" is tested first, then "out"; anything
      else fails with the raw text. */
  function DecodeDirection(text: string): (r: Result<Direction, Error>)
    ensures r.Success? ==> Contains(text, EncodeDirection(r.value))
    ensures r.Failure? ==> r.error == UnrecognizedDirection(text)
  {
    if Contains(text, "in") then Success(In)
    else if Contains(text, "out") then Success(Out)
    else Failure(UnrecognizedDirection(text))
  }

  /** The text SetPinState writes to the `value` node. */
  function EncodeState(s: State): (r: string)
    ensures '1' in r <==> s == Hi
    ensures '0' in r <==> s == Lo
  {
    match s
    case Hi => "1"
    case Lo => "0"
  }

  /** GetState's decoding: "1" is tested first, then "0"; anything else
      fails with the raw text. */
  function DecodeState(text: string): (r: Result<State, Error>)
    ensures r.Success? ==> Contains(text, EncodeState(r.value))
    ensures r.Failure? ==> r.error == UnrecognizedState(text)
  {
    if Contains(text, "1") then Success(Hi)
    else if Contains(text, "0") then Success(Lo)
    else Failure(UnrecognizedState(text))
  }

  /** A one-character pattern occurs exactly where that character is found. */
  lemma {:induction false} ContainsChar(s: string, c: char)
    ensures Contains(s, [c]) <==> c in s
    decreases |s|
  {
    if |s| > 0 {
      ContainsChar(s[1..], c);
      assert s == [s[0]] + s[1..];
    }
  }

  /** A pattern with a character that `s` lacks is not contained in `s`. */
  lemma {:induction false} MissingCharNotContained(s: string, p: string, k: int)
    requires 0 <= k < |p| && p[k] !in s
    ensures !Contains(s, p)
    decreases |s|
  {
    if |p| <= |s| {
      assert s[..|p|][k] in s;
    }
    if |s| > 0 {
      MissingCharNotContained(s[1..], p, k);
    }
  }

  /** Direction decoding, stated against the reference occurrence predicate:
      "in" wins whenever it occurs, "out" only when "in" does not, and any
      other text is rejected with that very text. */
  lemma DecodeDirectionSpec(text: string)
    ensures DecodeDirection(text) == Success(In) <==> Occurs(text, "in")
    ensures DecodeDirection(text) == Success(Out) <==> !Occurs(text, "in") && Occurs(text, "out")
    ensures DecodeDirection(text).Failure? <==> !Occurs(text, "in") && !Occurs(text, "out")
    ensures DecodeDirection(text).Failure? ==> DecodeDirection(text).error == UnrecognizedDirection(text)
  {
    ContainsIffOccurs(text, "in");
    ContainsIffOccurs(text, "out");
  }

  /** Level decoding: "1" wins whenever it is present, "0" only when "1" is
      not, and any other text is rejected with that very text. */
  lemma DecodeStateSpec(text: string)
    ensures DecodeState(text) == Success(Hi) <==> '1' in text
    ensures DecodeState(text) == Success(Lo) <==> '1' !in text && '0' in text
    ensures DecodeState(text).Failure? <==> '1' !in text && '0' !in text
    ensures DecodeState(text).Failure? ==> DecodeState(text).error == UnrecognizedState(text)
  {
    ContainsChar(text, '1');
    ContainsChar(text, '0');
  }

  /** SetDirection followed by GetDirection gives back the direction, also
      with the newline the kernel appends when the node is read. */
  lemma DirectionRoundTrip(d: Direction)
    ensures DecodeDirection(EncodeDirection(d)) == Success(d)
    ensures DecodeDirection(EncodeDirection(d) + "\n") == Success(d)
  {
    DecodeDirectionSpec(EncodeDirection(d));
    DecodeDirectionSpec(EncodeDirection(d) + "\n");
    if d == In {
      assert "in"[0..2] == "in";
      assert ("in" + "\n")[0..2] == "in";
    } else {
      assert "out"[0..3] == "out";
      assert ("out" + "\n")[0..3] == "out";
      MissingCharNotContained("out", "in", 0);
      MissingCharNotContained("out" + "\n", "in", 0);
    }
  }

  /** SetPinState followed by GetState gives back the level, also with a
      trailing newline. */
  lemma StateRoundTrip(s: State)
    ensures DecodeState(EncodeState(s)) == Success(s)
    ensures DecodeState(EncodeState(s) + "\n") == Success(s)
  {
    DecodeStateSpec(EncodeState(s));
    DecodeStateSpec(EncodeState(s) + "\n");
    assert EncodeState(s)[0] in EncodeState(s) + "\n";
  }

  /** Distinct directions and levels are written as distinct texts, so a
      decoded value determines the text that was written. */
  lemma EncodingsInjective(d1: Direction, d2: Direction, s1: State, s2: State)
    ensures EncodeDirection(d1) == EncodeDirection(d2) ==> d1 == d2
    ensures EncodeState(s1) == EncodeState(s2) ==> s1 == s2
  {
  }

  /** A direction node corrupted to "float" is rejected, carrying "float". */
  lemma FloatDirectionRejected()
    ensures DecodeDirection("float") == Failure(UnrecognizedDirection("float"))
  {
    DecodeDirectionSpec("float");
    MissingCharNotContained("float", "in", 0);
    MissingCharNotContained("float", "out", 1);
  }

  /** First match wins: text holding both "in" and "out" reads as In, and a
      value text holding both digits reads as Hi. */
  lemma FirstMatchWins()
    ensures DecodeDirection("outin") == Success(In)
    ensures DecodeState("01") == Success(Hi)
  {
  }
}
