/** `PVDriver`: the host side of the serial link. The port is abstracted
    as a log of the frames written to it and a finite queue of the lines
    `readline` will return (a read that times out is an empty or partial
    line in the queue). */
module Driver {
  import opened Text
  import opened Protocol

  class PVDriver {
    /** Every frame written to the port, oldest first. */
    var written: seq<string>
    /** The lines still to be returned by `readline`, in arrival order. */
    var incoming: seq<string>

    /** Only terminated frames ever reach the port. */
    ghost predicate Valid()
      reads this
    {
      forall k :: 0 <= k < |written| ==> EndsWith(written[k], ";")
    }

    /** A driver on a freshly opened port that will deliver `lines`. */
    constructor (lines: seq<string>)
      ensures Valid()
      ensures written == [] && incoming == lines
    {
      written := [];
      incoming := lines;
    }

    /** One `readline`: the next incoming line, or `None` once the queue is
        exhausted. */
    method ReadLine() returns (line: Option<string>)
      modifies this
      ensures written == old(written)
      ensures old(incoming) == [] ==> line == None && incoming == []
      ensures old(incoming) != [] ==> line == Some(old(incoming)[0]) && incoming == old(incoming)[1..]
    {
      if incoming == [] {
        line := None;
      } else {
        line := Some(incoming[0]);
        incoming := incoming[1..];
      }
    }

    /** `_send_command`: refuse an unterminated frame, write it, and for a
        blocking request wait for the first line containing the pattern. */
    method SendCommand(cmd: string, fbRequired: bool, resPattern: Option<string>)
      returns (r: Result<Option<string>>)
      requires Valid()
      modifies this
      ensures Valid()
      ensures !EndsWith(cmd, ";") ==>
        r == Err(MissingSemicolon) && written == old(written) && incoming == old(incoming)
      ensures EndsWith(cmd, ";") ==> written == old(written) + [cmd]
      ensures EndsWith(cmd, ";") && !fbRequired ==>
        r == Ok(None) && incoming == old(incoming)
      ensures EndsWith(cmd, ";") && fbRequired && !TruthyText(resPattern) ==>
        r == Err(MissingPattern) && incoming == old(incoming)
      ensures EndsWith(cmd, ";") && fbRequired && TruthyText(resPattern) ==>
        match Poll(old(incoming), resPattern.value)
        case Found(line, rest) => r == Ok(Some(line)) && incoming == rest
        case Exhausted => r == Err(NoMatchingLine) && incoming == []
    {
      if !EndsWith(cmd, ";") {
        return Err(MissingSemicolon);
      }
      written := written + [cmd];
      if !fbRequired {
        return Ok(None);
      }
      if !TruthyText(resPattern) {
        return Err(MissingPattern);
      }
      var pattern := resPattern.value;
      ghost var lines := incoming;
      var res := ReadLine();
      assert lines != [] ==> lines == [lines[0]] + lines[1..];
      while res.Some? && !Contains(res.value, pattern)
        invariant written == old(written) + [cmd]
        invariant res.None? ==> incoming == [] && Poll(lines, pattern) == Exhausted
        invariant res.Some? ==> Poll(lines, pattern) == Poll([res.value] + incoming, pattern)
        decreases |incoming| + (if res.Some? then 1 else 0)
      {
        assert ([res.value] + incoming)[1..] == incoming;
        ghost var before := incoming;
        res := ReadLine();
        assert before != [] ==> before == [before[0]] + before[1..];
      }
      if res.None? {
        return Err(NoMatchingLine);
      }
      return Ok(Some(res.value));
    }

    /** `set_position`: send the tilt and then the rotation setpoint, each
        only when its angle is truthy, without waiting for an answer. */
    method SetPosition(tilt: Option<int>, rot: Option<int>, relative: bool)
      requires Valid()
      modifies this
      ensures Valid()
      ensures written == old(written) + SetpointFrames(tilt, rot, relative)
      ensures incoming == old(incoming)
    {
      SetpointFramesCases(tilt, rot, relative);
      if Truthy(tilt) && Truthy(rot) {
        var cmdTilt, cmdRot;
        if relative {
          cmdTilt := "GTR," + Str(tilt.value) + ";";
          cmdRot := "GRR," + Str(rot.value) + ";";
        } else {
          cmdTilt := "GT," + Str(tilt.value) + ";";
          cmdRot := "GR," + Str(rot.value) + ";";
        }
        var sentTilt := SendCommand(cmdTilt, false, None);
        var sentRot := SendCommand(cmdRot, false, None);
      } else if Truthy(tilt) {
        var cmd;
        if relative {
          cmd := "GTR," + Str(tilt.value) + ";";
        } else {
          cmd := "GT," + Str(tilt.value) + ";";
        }
        var sent := SendCommand(cmd, false, None);
      } else if Truthy(rot) {
        var cmd;
        if relative {
          cmd := "GRR," + Str(rot.value) + ";";
        } else {
          cmd := "GR," + Str(rot.value) + ";";
        }
        var sent := SendCommand(cmd, false, None);
      }
    }

    /** `get_position`: request the position and decode the first `POS:`
        line that arrives. */
    method GetPosition() returns (r: Result<Position>)
      requires Valid()
      modifies this
      ensures Valid()
      ensures written == old(written) + ["RP;"]
      ensures match Poll(old(incoming), "POS:")
        case Found(line, rest) => r == DecodePosition(line) && incoming == rest
        case Exhausted => r == Err(NoMatchingLine) && incoming == []
    {
      var res := SendCommand("RP;", true, Some("POS:"));
      if res.Ok? && res.value.Some? {
        r := DecodePosition(res.value.value);
      } else {
        r := Err(NoMatchingLine);
      }
    }

    /** `_get_state`: request the state and name the code in the first
        `STATE:` line that arrives. */
    method GetState() returns (r: Result<string>)
      requires Valid()
      modifies this
      ensures Valid()
      ensures written == old(written) + ["RS;"]
      ensures match Poll(old(incoming), "STATE:")
        case Found(line, rest) => r == DecodeState(line) && incoming == rest
        case Exhausted => r == Err(NoMatchingLine) && incoming == []
    {
      var res := SendCommand("RS;", true, Some("STATE:"));
      if res.Ok? && res.value.Some? {
        r := DecodeState(res.value.value);
      } else {
        r := Err(NoMatchingLine);
      }
    }
  }

  /** A session on a port that first delivers a timed-out read and a noise
      line: the noise is discarded, the position and the unknown state code
      7 are decoded, and the setpoints go out tilt first. */
  method Session()
  {
    var posLine := "POS:" + Str(12) + "," + Str(-3) + "\r\n";
    var stateLine := "STATE:" + Str(7) + "\r\n";
    var lines := ["", "OK", posLine, stateLine];
    SessionLines(lines, posLine, stateLine);
    var driver := new PVDriver(lines);
    var p := driver.GetPosition();
    assert p == Ok(Position(12, -3)) && driver.incoming == [stateLine];
    var st := driver.GetState();
    assert st == Ok("ERROR") && driver.incoming == [];
    ghost var asked := driver.written;
    assert asked == ["RP;", "RS;"];
    driver.SetPosition(Some(5), Some(-2), true);
    SetpointFramesRelativeExamples();
    assert driver.written == asked + ["GTR,5;", "GRR,-2;"];
  }

  /** What the port of `Session` delivers to each of its two requests. */
  lemma SessionLines(lines: seq<string>, posLine: string, stateLine: string)
    requires posLine == "POS:" + Str(12) + "," + Str(-3) + "\r\n"
    requires stateLine == "STATE:" + Str(7) + "\r\n"
    requires lines == ["", "OK", posLine, stateLine]
    ensures Poll(lines, "POS:") == Found(posLine, [stateLine])
    ensures Poll([stateLine], "STATE:") == Found(stateLine, [])
    ensures DecodePosition(posLine) == Ok(Position(12, -3))
    ensures DecodeState(stateLine) == Ok("ERROR")
  {
    assert StartsWith(posLine[0..], "POS:");
    assert StartsWith(stateLine[0..], "STATE:");
    assert !Contains(lines[0], "POS:");
    assert !Contains(lines[1], "POS:");
    PollFindsFirstMatch(lines, "POS:", 2);
    assert lines[3..] == [stateLine];
    PollFindsFirstMatch([stateLine], "STATE:", 0);
    assert AllSpace("\r\n");
    DecodePositionRoundTrip(Position(12, -3), "\r\n");
    DecodeStateRoundTrip(7, "\r\n");
  }
}
