/** The ASCII wire protocol between the host and the actuator firmware:
    setpoint frames (`GT,<v>;`, `GTR,<v>;`, `GR,<v>;`, `GRR,<v>;`), the
    decoding of `POS:` and `STATE:` response lines, and the rule by which a
    blocking request picks its response out of the incoming lines. */
module Protocol {
  import opened Text

  /** The state codes the firmware reports. */
  const IDLE := 0
  const MOVING := 1
  const ERROR := -1

  datatype Axis = Tilt | Rotation

  /** One setpoint command: an axis, absolute or relative, and the angle. */
  datatype Setpoint = Setpoint(axis: Axis, relative: bool, value: int)

  /** A decoded position answer, in degrees. */
  datatype Position = Position(tilt: int, rot: int)

  /** What a driver call raises. `NoMatchingLine` is not raised by the
      driver itself: it is the outcome when the finite supply of incoming
      lines runs out before a matching one arrives. */
  datatype Error =
    | MissingSemicolon  // RuntimeError: the command does not end with ';'
    | MissingPattern    // RuntimeError: a blocking request without a pattern
    | IndexError        // a response field the parser indexes is absent
    | ValueError        // a response field is not a number
    | NoMatchingLine

  datatype Result<+T> = Ok(value: T) | Err(error: Error)

  /** Python truthiness of an optional angle: absent and zero are false. */
  predicate Truthy(v: Option<int>) {
    v.Some? && v.value != 0
  }

  /** Python truthiness of an optional response pattern: absent and the
      empty string are false. */
  predicate TruthyText(p: Option<string>) {
    p.Some? && p.value != ""
  }

  // ---------------------------------------------------------------------
  // setpoint frames
  // ---------------------------------------------------------------------

  function Prefix(axis: Axis, relative: bool): string {
    match axis
    case Tilt => if relative then "GTR," else "GT,"
    case Rotation => if relative then "GRR," else "GR,"
  }

  /** The frame that carries one setpoint. */
  function Frame(sp: Setpoint): (frame: string)
    ensures |frame| == |Prefix(sp.axis, sp.relative)| + |Str(sp.value)| + 1
    ensures StartsWith(frame, Prefix(sp.axis, sp.relative)) && EndsWith(frame, ";")
    ensures frame[|Prefix(sp.axis, sp.relative)|..|frame| - 1] == Str(sp.value)
  {
    FrameParts(Prefix(sp.axis, sp.relative), sp.value);
    Prefix(sp.axis, sp.relative) + Str(sp.value) + ";"
  }

  /** The receiving side of a setpoint frame: `None` for anything that is
      not a well-formed setpoint frame. */
  function DecodeSetpoint(frame: string): Option<Setpoint> {
    if |frame| < 4 || frame[0] != 'G' || frame[|frame| - 1] != ';' then None
    else
      var axis := if frame[1] == 'T' then Some(Tilt) else if frame[1] == 'R' then Some(Rotation) else None;
      var relative := frame[2] == 'R';
      var start := if relative then 4 else 3;
      if axis.None? || |frame| <= start || frame[start - 1] != ',' then None
      else
        match ParseDecimal(frame[start..|frame| - 1])
        case None => None
        case Some(v) => Some(Setpoint(axis.value, relative, v))
  }

  /** How a frame splits into its prefix, its value and its terminator. */
  lemma FrameParts(prefix: string, v: int)
    ensures |prefix + Str(v) + ";"| == |prefix| + |Str(v)| + 1
    ensures (prefix + Str(v) + ";")[..|prefix|] == prefix
    ensures (prefix + Str(v) + ";")[|prefix|..|prefix| + |Str(v)|] == Str(v)
    ensures (prefix + Str(v) + ";")[|prefix| + |Str(v)|] == ';'
  {
  }

  /** Every setpoint frame is terminated and reads back as its setpoint. */
  lemma FrameRoundTrip(sp: Setpoint)
    ensures EndsWith(Frame(sp), ";")
    ensures DecodeSetpoint(Frame(sp)) == Some(sp)
  {
    var p := Prefix(sp.axis, sp.relative);
    var frame := Frame(sp);
    FrameParts(p, sp.value);
    assert frame[|frame| - 1..] == ";";
    assert p[0] == 'G' && p[1] == (if sp.axis == Tilt then 'T' else 'R');
    assert sp.relative ==> |p| == 4 && p[2] == 'R' && p[3] == ',';
    assert !sp.relative ==> |p| == 3 && p[2] == ',';
    assert frame[0] == p[0] && frame[1] == p[1] && frame[2] == p[2];
    assert frame[|p| - 1] == p[|p| - 1];
    StrRoundTrip(sp.value);
  }

  /** Distinct setpoints never share a frame. */
  lemma FrameInjective(a: Setpoint, b: Setpoint)
    requires Frame(a) == Frame(b)
    ensures a == b
  {
    FrameRoundTrip(a);
    FrameRoundTrip(b);
  }

  /** The setpoints one call of `set_position` sends, in order: the tilt
      when it is truthy, then the rotation when it is truthy. */
  function Setpoints(tilt: Option<int>, rot: Option<int>, relative: bool): (sps: seq<Setpoint>)
    ensures |sps| == (if Truthy(tilt) then 1 else 0) + (if Truthy(rot) then 1 else 0)
    ensures forall k :: 0 <= k < |sps| ==> sps[k].relative == relative
    ensures Truthy(tilt) ==> sps[0] == Setpoint(Tilt, relative, tilt.value)
    ensures Truthy(rot) ==> sps[|sps| - 1] == Setpoint(Rotation, relative, rot.value)
  {
    (if Truthy(tilt) then [Setpoint(Tilt, relative, tilt.value)] else [])
    + (if Truthy(rot) then [Setpoint(Rotation, relative, rot.value)] else [])
  }

  /** The frames one call of `set_position` writes. */
  function SetpointFrames(tilt: Option<int>, rot: Option<int>, relative: bool): (frames: seq<string>)
    ensures |frames| == (if Truthy(tilt) then 1 else 0) + (if Truthy(rot) then 1 else 0)
    ensures forall k :: 0 <= k < |frames| ==> EndsWith(frames[k], ";")
  {
    var sps := Setpoints(tilt, rot, relative);
    seq(|sps|, k requires 0 <= k < |sps| => Frame(sps[k]))
  }

  /** The frames of `set_position` are terminated and decode, one by one
      and in order, to exactly the requested setpoints. */
  lemma SetpointFramesDecode(tilt: Option<int>, rot: Option<int>, relative: bool)
    ensures |SetpointFrames(tilt, rot, relative)| == |Setpoints(tilt, rot, relative)|
    ensures forall k :: 0 <= k < |SetpointFrames(tilt, rot, relative)| ==>
      EndsWith(SetpointFrames(tilt, rot, relative)[k], ";") &&
      DecodeSetpoint(SetpointFrames(tilt, rot, relative)[k]) == Some(Setpoints(tilt, rot, relative)[k])
  {
    var sps := Setpoints(tilt, rot, relative);
    forall k | 0 <= k < |sps|
      ensures EndsWith(Frame(sps[k]), ";") && DecodeSetpoint(Frame(sps[k])) == Some(sps[k])
    {
      FrameRoundTrip(sps[k]);
    }
  }

  /** An angle of zero is treated exactly like an absent one. */
  lemma ZeroAngleIsAbsent(tilt: Option<int>, rot: Option<int>, relative: bool)
    ensures SetpointFrames(Some(0), rot, relative) == SetpointFrames(None, rot, relative)
    ensures SetpointFrames(tilt, Some(0), relative) == SetpointFrames(tilt, None, relative)
  {
  }

  /** The frames of `set_position`, branch by branch: nothing without a
      truthy angle, one frame for the one truthy axis, the tilt frame then
      the rotation frame when both are truthy. */
  lemma SetpointFramesCases(tilt: Option<int>, rot: Option<int>, relative: bool)
    ensures !Truthy(tilt) && !Truthy(rot) ==> SetpointFrames(tilt, rot, relative) == []
    ensures Truthy(tilt) && !Truthy(rot) ==>
      SetpointFrames(tilt, rot, relative) == [Frame(Setpoint(Tilt, relative, tilt.value))]
    ensures !Truthy(tilt) && Truthy(rot) ==>
      SetpointFrames(tilt, rot, relative) == [Frame(Setpoint(Rotation, relative, rot.value))]
    ensures Truthy(tilt) && Truthy(rot) ==>
      SetpointFrames(tilt, rot, relative) ==
        [Frame(Setpoint(Tilt, relative, tilt.value)), Frame(Setpoint(Rotation, relative, rot.value))]
  {
    var frames := SetpointFrames(tilt, rot, relative);
    var sps := Setpoints(tilt, rot, relative);
    if Truthy(tilt) && Truthy(rot) {
      assert sps == [Setpoint(Tilt, relative, tilt.value), Setpoint(Rotation, relative, rot.value)];
      assert frames[0] == Frame(sps[0]) && frames[1] == Frame(sps[1]);
    } else if Truthy(tilt) {
      assert sps == [Setpoint(Tilt, relative, tilt.value)];
      assert frames[0] == Frame(sps[0]);
    } else if Truthy(rot) {
      assert sps == [Setpoint(Rotation, relative, rot.value)];
      assert frames[0] == Frame(sps[0]);
    }
  }

  /** Worked cases of `set_position` with absolute angles. */
  lemma SetpointFramesExamples()
    ensures SetpointFrames(None, None, false) == []
    ensures SetpointFrames(Some(5), None, false) == ["GT,5;"]
    ensures SetpointFrames(None, Some(-2), false) == ["GR,-2;"]
  {
    SetpointFramesCases(None, None, false);
    SetpointFramesCases(Some(5), None, false);
    SetpointFramesCases(None, Some(-2), false);
    assert Str(-2) == "-" + Digits(2) == "-2";
    assert Frame(Setpoint(Tilt, false, 5)) == "GT,5;";
    assert Frame(Setpoint(Rotation, false, -2)) == "GR,-2;";
  }

  /** Worked cases of `set_position` with relative angles, the first being
      the call its own documentation shows. */
  lemma SetpointFramesRelativeExamples()
    ensures SetpointFrames(Some(2), Some(-5), true) == ["GTR,2;", "GRR,-5;"]
    ensures SetpointFrames(Some(5), Some(-2), true) == ["GTR,5;", "GRR,-2;"]
  {
    SetpointFramesCases(Some(2), Some(-5), true);
    SetpointFramesCases(Some(5), Some(-2), true);
    assert Str(-5) == "-" + Digits(5) == "-5";
    assert Str(-2) == "-" + Digits(2) == "-2";
    assert Frame(Setpoint(Tilt, true, 2)) == "GTR,2;";
    assert Frame(Setpoint(Rotation, true, -5)) == "GRR,-5;";
    assert Frame(Setpoint(Tilt, true, 5)) == "GTR,5;";
    assert Frame(Setpoint(Rotation, true, -2)) == "GRR,-2;";
  }

  // ---------------------------------------------------------------------
  // responses
  // ---------------------------------------------------------------------

  /** The name `_get_state` gives a state code: every code other than
      IDLE and MOVING, known or not, is an error. */
  function StateName(code: int): (name: string)
    ensures name == "IDLE" <==> code == IDLE
    ensures name == "MOVING" <==> code == MOVING
    ensures name == "ERROR" <==> code != IDLE && code != MOVING
  {
    if code == IDLE then "IDLE"
    else if code == MOVING then "MOVING"
    else "ERROR"
  }

  /** `_get_state` on a response line: the integer between the first and
      the second ':' (or the end of the line). */
  function DecodeState(line: string): (r: Result<string>)
    ensures ':' !in line ==> r == Err(IndexError)
    ensures r.Ok? ==> r.value == "IDLE" || r.value == "MOVING" || r.value == "ERROR"
    ensures r.Err? ==> r.error == IndexError || r.error == ValueError
  {
    SplitNoSeparatorIf(line, ':');
    var fields := Split(line, ':');
    if |fields| < 2 then Err(IndexError)
    else
      match ParseInt(fields[1])
      case None => Err(ValueError)
      case Some(code) => Ok(StateName(code))
  }

  /** The position payload: field 0 of its ','-split is the tilt, field 1
      the rotation, further fields are ignored. Fields are converted in the
      order the source does: the tilt, then the rotation. */
  function DecodePositionFields(payload: string): (r: Result<Position>)
    ensures ',' !in payload ==> r.Err?
    ensures r.Err? ==> r.error == IndexError || r.error == ValueError
  {
    SplitNoSeparatorIf(payload, ',');
    var parts := Split(payload, ',');
    match ParseInt(parts[0])
    case None => Err(ValueError)
    case Some(tilt) =>
      if |parts| < 2 then Err(IndexError)
      else
        match ParseInt(parts[1])
        case None => Err(ValueError)
        case Some(rot) => Ok(Position(tilt, rot))
  }

  /** `get_position` on a response line: the payload is the text between
      the first and the second ':' (or the end of the line). */
  function DecodePosition(line: string): (r: Result<Position>)
    ensures ':' !in line ==> r == Err(IndexError)
    ensures r.Err? ==> r.error == IndexError || r.error == ValueError
  {
    SplitNoSeparatorIf(line, ':');
    var fields := Split(line, ':');
    if |fields| < 2 then Err(IndexError) else DecodePositionFields(fields[1])
  }

  /** The position payload is the text after the first ':' up to the next
      one, whatever precedes or follows it. */
  lemma DecodePositionPayload(head: string, payload: string, tail: string)
    requires ':' !in head && ':' !in payload
    requires tail == [] || tail[0] == ':'
    ensures DecodePosition(head + [':'] + payload + tail) == DecodePositionFields(payload)
  {
    SplitSecondField(head, ':', payload, tail);
  }

  lemma NoSeparatorInStr(v: int, c: char)
    requires c != '-' && !IsDigit(c)
    ensures c !in Str(v)
  {
  }

  /** A position line as the firmware writes it, with any line
      terminator, decodes to that position. */
  lemma DecodePositionRoundTrip(p: Position, eol: string)
    requires AllSpace(eol)
    ensures DecodePosition("POS:" + Str(p.tilt) + "," + Str(p.rot) + eol) == Ok(p)
  {
    var payload := Str(p.tilt) + "," + (Str(p.rot) + eol);
    NoSeparatorInStr(p.tilt, ':');
    NoSeparatorInStr(p.rot, ':');
    NoSeparatorInStr(p.tilt, ',');
    NoSeparatorInStr(p.rot, ',');
    assert ':' !in eol && ',' !in eol by {
      forall k | 0 <= k < |eol| ensures eol[k] != ':' && eol[k] != ',' { assert IsSpace(eol[k]); }
    }
    assert ':' !in payload;
    assert "POS:" + Str(p.tilt) + "," + Str(p.rot) + eol == "POS" + [':'] + payload + [];
    DecodePositionPayload("POS", payload, []);
    assert ',' !in Str(p.rot) + eol;
    SplitAtFirst(Str(p.tilt), ',', Str(p.rot) + eol);
    SplitNoSeparator(Str(p.rot) + eol, ',');
    assert Split(payload, ',') == [Str(p.tilt), Str(p.rot) + eol];
    ParseIntStr(p.tilt, []);
    assert Str(p.tilt) + [] == Str(p.tilt);
    ParseIntStr(p.rot, eol);
  }

  /** A state line as the firmware writes it, with any line terminator,
      decodes to the name of its code. */
  lemma DecodeStateRoundTrip(code: int, eol: string)
    requires AllSpace(eol)
    ensures DecodeState("STATE:" + Str(code) + eol) == Ok(StateName(code))
  {
    var payload := Str(code) + eol;
    NoSeparatorInStr(code, ':');
    assert ':' !in eol by {
      forall k | 0 <= k < |eol| ensures eol[k] != ':' { assert IsSpace(eol[k]); }
    }
    assert "STATE:" + Str(code) + eol == "STATE" + [':'] + payload + [];
    SplitSecondField("STATE", ':', payload, []);
    ParseIntStr(code, eol);
  }

  /** A position response that keeps its ';' terminator is refused: the
      ';' stays in the rotation field, which then is not a number. */
  lemma TerminatedPositionRejected(tilt: string, rot: string)
    requires ':' !in tilt && ',' !in tilt && ':' !in rot && ',' !in rot
    ensures DecodePosition("POS:" + tilt + "," + rot + ";") == Err(ValueError)
  {
    var last := rot + ";";
    assert ':' !in last && ',' !in last;
    var payload := tilt + [','] + last;
    assert "POS:" + tilt + "," + rot + ";" == "POS" + [':'] + payload + [];
    DecodePositionPayload("POS", payload, []);
    SplitAtFirst(tilt, ',', last);
    SplitNoSeparator(last, ',');
    ParseIntRejectsTerminator(last);
  }

  /** A state response that keeps its ';' terminator is refused. */
  lemma TerminatedStateRejected(code: string)
    requires ':' !in code
    ensures DecodeState("STATE:" + code + ";") == Err(ValueError)
  {
    var payload := code + ";";
    assert ':' !in payload;
    assert "STATE:" + code + ";" == "STATE" + [':'] + payload + [];
    SplitSecondField("STATE", ':', payload, []);
    ParseIntRejectsTerminator(payload);
  }

  // ---------------------------------------------------------------------
  // waiting for a response
  // ---------------------------------------------------------------------

  datatype PollResult = Found(line: string, rest: seq<string>) | Exhausted

  /** The response a blocking request waits for: lines are read one by
      one and discarded until one contains the pattern, which is returned
      with the lines still unread. */
  function Poll(lines: seq<string>, pattern: string): (r: PollResult)
    ensures r.Found? ==> Contains(r.line, pattern) && |r.rest| < |lines|
    ensures r.Found? ==> r.line == lines[|lines| - |r.rest| - 1] && r.rest == lines[|lines| - |r.rest|..]
    decreases |lines|
  {
    if lines == [] then Exhausted
    else if Contains(lines[0], pattern) then Found(lines[0], lines[1..])
    else
      var r := Poll(lines[1..], pattern);
      assert r.Found? ==> lines[1..][|lines| - 1 - |r.rest|..] == lines[|lines| - |r.rest|..];
      r
  }

  /** A line without the separator splits into itself alone. */
  lemma SplitNoSeparatorIf(s: string, sep: char)
    ensures sep !in s ==> Split(s, sep) == [s]
  {
    if sep !in s {
      SplitNoSeparator(s, sep);
    }
  }

  /** The first line that contains the pattern wins; every line before it
      is consumed, every line after it stays unread. */
  lemma {:induction false} PollFindsFirstMatch(lines: seq<string>, pattern: string, k: nat)
    requires k < |lines| && Contains(lines[k], pattern)
    requires forall j :: 0 <= j < k ==> !Contains(lines[j], pattern)
    ensures Poll(lines, pattern) == Found(lines[k], lines[k + 1..])
  {
    if k > 0 {
      assert !Contains(lines[0], pattern);
      PollFindsFirstMatch(lines[1..], pattern, k - 1);
      assert lines[1..][k..] == lines[k + 1..];
    }
  }

  /** The wait runs out exactly when no line contains the pattern. */
  lemma {:induction false} PollExhaustedIffNoMatch(lines: seq<string>, pattern: string)
    ensures Poll(lines, pattern) == Exhausted <==>
      forall k :: 0 <= k < |lines| ==> !Contains(lines[k], pattern)
  {
    if lines != [] {
      PollExhaustedIffNoMatch(lines[1..], pattern);
      if !Contains(lines[0], pattern) {
        assert forall k :: 1 <= k < |lines| ==> lines[k] == lines[1..][k - 1];
      }
    }
  }
}
