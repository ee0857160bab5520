/**
 * The state `main` and the interrupt handler update in place: the globals `mode`
 * and `CONTROL`, main's locals `reset`, `largest_lux`, `largest_acc`, `index`,
 * the 101-byte `message` buffer, and the bytes sent on UART3.  Each method is one
 * block of the main loop (or the interrupt handler) and is specified by
 * Control.Step, ReadFrom (the receive loop as a function) and Serial.Response.
 */
module Monitor {
  import opened Bytes
  import opened Control
  import opened Serial
  import Song

  /** What one round of the cooperative-mode receive loop reads, in program order. */
  datatype CoopInput = CoopInput(data: byte, sw4: bit, lux1: uint32, lux2: uint32, metric: int32)

  /** The bytes received in `xs`. */
  function Received(xs: seq<CoopInput>): (bytes: seq<byte>) {
    seq(|xs|, k requires 0 <= k < |xs| => xs[k].data)
  }

  /** The control-state events of the rounds `xs`. */
  function Ticks(xs: seq<CoopInput>): (evs: seq<Event>) {
    seq(|xs|, k requires 0 <= k < |xs| => CoopTick(xs[k].sw4, xs[k].lux1, xs[k].lux2, xs[k].metric))
  }

  /**
   * The do-while condition after the first `n` rounds, for a line reader that
   * started in control state `s0`: fewer than 100 bytes stored, the last byte not
   * a carriage return, and still in cooperative mode.
   */
  predicate ContinuesAfter(s0: CtrlState, xs: seq<CoopInput>, n: nat)
    requires 1 <= n <= |xs|
  {
    |Kept(Received(xs[..n]))| < 100 && xs[n - 1].data != CR && Run(s0, Ticks(xs[..n])).mode == 1
  }

  /** What round `c` adds: its stored byte, if any, and its control-state step. */
  lemma RoundEffect(s0: CtrlState, xs: seq<CoopInput>, c: nat)
    requires c < |xs|
    ensures Kept(Received(xs[..c + 1])) ==
      Kept(Received(xs[..c])) + (if IsStored(xs[c].data) then [xs[c].data] else [])
    ensures Run(s0, Ticks(xs[..c + 1])) ==
      Step(Run(s0, Ticks(xs[..c])), CoopTick(xs[c].sw4, xs[c].lux1, xs[c].lux2, xs[c].metric))
  {
    var r := Received(xs[..c + 1]);
    assert r[..|r| - 1] == Received(xs[..c]);
    var t := Ticks(xs[..c + 1]);
    assert t[..|t| - 1] == Ticks(xs[..c]);
  }

  /** Where the line reader stops: rounds consumed, whether its own condition ended it, the stored line, the control state. */
  datatype LineRead = LineRead(consumed: nat, complete: bool, line: seq<byte>, state: CtrlState)

  /**
   * The do-while receive loop from round `c` on, with `line` stored so far and
   * control state `s`: each round stores its byte unless it is CR or NUL and
   * steps the control state; the loop goes on while fewer than 100 bytes are
   * stored, the byte was not CR and the mode is still 1.
   */
  function ReadFrom(s: CtrlState, line: seq<byte>, xs: seq<CoopInput>, c: nat): (r: LineRead)
    requires c <= |xs|
    ensures c <= r.consumed <= |xs|
    ensures !r.complete ==> r.consumed == |xs|
    ensures r.complete ==> c < r.consumed
    decreases |xs| - c
  {
    if c == |xs| then LineRead(c, false, line, s)
    else
      var x := xs[c];
      var line' := line + (if IsStored(x.data) then [x.data] else []);
      var s' := Step(s, CoopTick(x.sw4, x.lux1, x.lux2, x.metric));
      if |line'| < 100 && x.data != CR && s'.mode == 1 then ReadFrom(s', line', xs, c + 1)
      else LineRead(c + 1, true, line', s')
  }

  /**
   * From a round `c` reached with the stored line and control state that the
   * first `c` rounds determine, the reader ends with the line and state of all
   * the rounds it consumed.
   */
  lemma {:induction false} ReadFromTracksPrefix(s0: CtrlState, xs: seq<CoopInput>, c: nat)
    requires c <= |xs|
    ensures var r := ReadFrom(Run(s0, Ticks(xs[..c])), Kept(Received(xs[..c])), xs, c);
      r.line == Kept(Received(xs[..r.consumed])) && r.state == Run(s0, Ticks(xs[..r.consumed]))
    decreases |xs| - c
  {
    if c < |xs| {
      RoundEffect(s0, xs, c);
      ReadFromTracksPrefix(s0, xs, c + 1);
    }
  }

  /** Every round before the last one the reader consumes from round `c` met the loop condition. */
  lemma {:induction false} ContinuesBeforeEnd(s0: CtrlState, xs: seq<CoopInput>, c: nat, n: nat)
    requires c < n <= |xs|
    requires n < ReadFrom(Run(s0, Ticks(xs[..c])), Kept(Received(xs[..c])), xs, c).consumed
    ensures ContinuesAfter(s0, xs, n)
    decreases |xs| - c
  {
    RoundEffect(s0, xs, c);
    if n > c + 1 {
      ContinuesBeforeEnd(s0, xs, c + 1, n);
    }
  }

  /** A reader that ends by its own condition ends after a round that fails it. */
  lemma {:induction false} StopsAtFailure(s0: CtrlState, xs: seq<CoopInput>, c: nat, s: CtrlState, line: seq<byte>)
    requires c <= |xs|
    requires s == Run(s0, Ticks(xs[..c])) && line == Kept(Received(xs[..c]))
    requires ReadFrom(s, line, xs, c).complete
    ensures !ContinuesAfter(s0, xs, ReadFrom(s, line, xs, c).consumed)
    decreases |xs| - c
  {
    RoundEffect(s0, xs, c);
    var x := xs[c];
    var s', line' := Step(s, CoopTick(x.sw4, x.lux1, x.lux2, x.metric)), line + (if IsStored(x.data) then [x.data] else []);
    if ReadFrom(s, line, xs, c) == ReadFrom(s', line', xs, c + 1) {
      StopsAtFailure(s0, xs, c + 1, s', line');
    }
  }

  /** A reader that runs out of rounds met the condition after the last one. */
  lemma {:induction false} RunsOutContinuing(s0: CtrlState, xs: seq<CoopInput>, c: nat, s: CtrlState, line: seq<byte>)
    requires c < |xs|
    requires s == Run(s0, Ticks(xs[..c])) && line == Kept(Received(xs[..c]))
    requires !ReadFrom(s, line, xs, c).complete
    ensures ContinuesAfter(s0, xs, |xs|)
    decreases |xs| - c
  {
    RoundEffect(s0, xs, c);
    var x := xs[c];
    var s', line' := Step(s, CoopTick(x.sw4, x.lux1, x.lux2, x.metric)), line + (if IsStored(x.data) then [x.data] else []);
    if c + 1 < |xs| {
      RunsOutContinuing(s0, xs, c + 1, s', line');
    }
  }

  /**
   * The receive loop from its start: it stores exactly the kept bytes of the
   * rounds it consumed, steps the control state through them, continues after
   * every round but the last, and stops after the first round that fails the
   * condition, or when the rounds run out.
   */
  lemma ReadFromStopsAtFirstEnd(s0: CtrlState, xs: seq<CoopInput>)
    ensures var r := ReadFrom(s0, [], xs, 0);
      && r.line == Kept(Received(xs[..r.consumed]))
      && r.state == Run(s0, Ticks(xs[..r.consumed]))
      && (forall n :: 1 <= n < r.consumed ==> ContinuesAfter(s0, xs, n))
      && (r.complete ==> 1 <= r.consumed && !ContinuesAfter(s0, xs, r.consumed))
      && (!r.complete ==> r.consumed == |xs| && (r.consumed == 0 || ContinuesAfter(s0, xs, r.consumed)))
  {
    assert xs[..0] == [];
    ReadFromTracksPrefix(s0, xs, 0);
    var r := ReadFrom(s0, [], xs, 0);
    if r.complete {
      StopsAtFailure(s0, xs, 0, s0, []);
    } else if 0 < |xs| {
      RunsOutContinuing(s0, xs, 0, s0, []);
    }
    forall n | 1 <= n < ReadFrom(s0, [], xs, 0).consumed
      ensures ContinuesAfter(s0, xs, n)
    {
      ContinuesBeforeEnd(s0, xs, 0, n);
    }
  }

  class Device {
    var mode: int
    var control: int
    var reset: int
    var largestLux: int32
    var largestAcc: int32
    /** The main loop is inside the alarm loop `while (CONTROL == 1)`. */
    var alarmed: bool
    const message: array<byte>
    var index: nat
    /** Every byte sent on UART3, in order. */
    var tx: seq<byte>

    ghost predicate Valid()
      reads this, message
    {
      message.Length == 101 && index <= 100 && mode in {0, 1} &&
      forall k :: 0 <= k < index ==> message[k] != NUL
    }

    /** The control part of the state. */
    function State(): CtrlState
      reads this
    {
      CtrlState(mode, control, reset, largestLux, largestAcc, alarmed)
    }

    /** The globals' initial values and main's locals before its loop. */
    constructor ()
      ensures Valid() && fresh(message)
      ensures State() == Init() && index == 0 && tx == []
    {
      mode, control, reset := 0, 1, 1;
      largestLux, largestAcc := 0, 0;
      alarmed := false;
      message := new byte[101];
      index := 0;
      tx := [];
    }

    /** The SW4 test at the top of the main loop. */
    method PollButton(sw4: bit)
      requires Valid()
      modifies this
      ensures Valid()
      ensures State() == Step(old(State()), OuterPoll(sw4))
      ensures index == old(index) && tx == old(tx)
    {
      if sw4 == 0 {
        mode := (mode + 1) % 2;
        largestLux := 0;
        largestAcc := 0;
      }
    }

    /** The detect-mode test of a light reading and a variance metric, up to entering the alarm loop. */
    method DetectSample(light: uint32, metric: int32)
      requires Valid()
      modifies this
      ensures Valid()
      ensures State() == Step(old(State()), Detect(light, metric))
      ensures index == old(index) && tx == old(tx)
    {
      if light < DARK {
        reset := 0;
        if metric > SHOCK {
          control := 1;
          alarmed := true;
        }
      }
    }

    /**
     * One round of the alarm loop: test CONTROL; while it is still 1 play the alarm
     * tune once (the LED toggle and the display are not modelled).
     */
    method AlarmRound() returns (looping: bool, tones: seq<Song.Tone>)
      requires Valid() && alarmed
      modifies this
      ensures Valid()
      ensures State() == Step(old(State()), AlarmTest)
      ensures looping == alarmed && looping == (old(control) == 1)
      ensures looping ==> tones == [Song.Tone(1275, 400, 5)]
      ensures !looping ==> tones == []
      ensures index == old(index) && tx == old(tx)
    {
      looping := control == 1;
      tones := [];
      if looping {
        Song.AlarmSongTones();
        var played, _ := Song.PlaySong(Song.ALARM_SONG);
        tones := played;
      } else {
        alarmed := false;
      }
    }

    /** The SW3 interrupt handler's `CONTROL = 0`. */
    method Interrupt()
      modifies this`control
      ensures State() == Step(old(State()), Control.Interrupt)
    {
      control := 0;
    }

    /**
     * One round of the cooperative-mode receive loop: store and echo the received
     * byte unless it is a carriage return or NUL, flip the mode on a SW4 reading
     * of 0, and update the two peaks.
     */
    method Round(x: CoopInput)
      requires Valid() && index < 100
      modifies this, message
      ensures Valid()
      ensures index == old(index) + (if IsStored(x.data) then 1 else 0)
      ensures message[..index] == old(message[..index]) + (if IsStored(x.data) then [x.data] else [])
      ensures tx == old(tx) + (if IsStored(x.data) then [x.data] else [])
      ensures State() == Step(old(State()), CoopTick(x.sw4, x.lux1, x.lux2, x.metric))
    {
      if x.data != CR && x.data != NUL {
        message[index] := x.data;
        index := index + 1;
        tx := tx + [x.data];
      }
      if x.sw4 == 0 {
        mode := (mode + 1) % 2;
      }
      if x.lux1 > ToUnsigned(largestLux) {
        largestLux := ToSigned(x.lux2);
      }
      if x.metric > largestAcc {
        largestAcc := x.metric;
      }
    }

    /**
     * The cooperative-mode receive loop, fed the rounds `xs`.  It stops after the
     * round that receives a carriage return, fills the buffer to 100 bytes, or
     * leaves cooperative mode (`complete`), or when `xs` runs out while it still
     * waits for a byte.
     */
    method ReadLine(xs: seq<CoopInput>) returns (consumed: nat, complete: bool)
      requires Valid()
      modifies this, message
      ensures Valid()
      ensures tx == old(tx) + message[..index]
      ensures LineRead(consumed, complete, message[..index], State()) == ReadFrom(old(State()), [], xs, 0)
    {
      ghost var s0, tx0 := State(), tx;
      index := 0;
      consumed, complete := 0, false;
      while consumed < |xs| && !complete
        invariant consumed <= |xs|
        invariant Valid() && (!complete ==> index < 100)
        invariant tx == tx0 + message[..index]
        invariant !complete ==> ReadFrom(s0, [], xs, 0) == ReadFrom(State(), message[..index], xs, consumed)
        invariant complete ==> ReadFrom(s0, [], xs, 0) == LineRead(consumed, true, message[..index], State())
      {
        var x := xs[consumed];
        Round(x);
        consumed := consumed + 1;
        complete := !(index < 100 && x.data != CR && mode == 1);
      }
    }

    /**
     * After the receive loop: terminate the line, send the trailer, and answer
     * "report" with the two peak lines.
     */
    method FinishLine()
      requires Valid()
      modifies message, this`tx
      ensures Valid()
      ensures message[index] == NUL && message[..index] == old(message[..index])
      ensures tx == old(tx) + TRAILER + Response(message[..index], largestLux, largestAcc)
    {
      ghost var line := message[..index];
      message[index] := NUL;
      assert message[..index] == line;
      // strcmp(message, "report") compares the C string the terminator closes
      CStringOfTerminated(message[..], index);
      assert message[..][..index] == line;
      var isReport := CString(message[..]) == REPORT;
      var answer := [];
      if isReport {
        answer := LuminanceLine(largestLux) + AccelerometerLine(largestAcc);
      }
      assert answer == Response(line, largestLux, largestAcc);
      tx := tx + TRAILER + answer;
    }

    /**
     * The cooperative-mode branch of the main loop: read a line, then finish it.
     * While the input runs out mid-line, the device is still blocked receiving.
     */
    method ServeLine(xs: seq<CoopInput>) returns (consumed: nat, complete: bool)
      requires Valid()
      modifies this, message
      ensures Valid()
      ensures consumed <= |xs|
      ensures State() == Run(old(State()), Ticks(xs[..consumed]))
      ensures forall n :: 1 <= n < consumed ==> ContinuesAfter(old(State()), xs, n)
      ensures complete ==> 1 <= consumed && !ContinuesAfter(old(State()), xs, consumed)
      ensures !complete ==> |xs| == 0 || ContinuesAfter(old(State()), xs, |xs|)
      ensures message[..index] == Kept(Received(xs[..consumed]))
      ensures complete ==> index == |Kept(Received(xs[..consumed]))| && message[index] == NUL
      ensures complete ==>
        tx == old(tx) + Kept(Received(xs[..consumed])) + TRAILER
              + Response(Kept(Received(xs[..consumed])), largestLux, largestAcc)
      ensures !complete ==> consumed == |xs| && tx == old(tx) + Kept(Received(xs))
    {
      consumed, complete := ReadLine(xs);
      ReadFromStopsAtFirstEnd(old(State()), xs);
      assert xs[..|xs|] == xs;
      if complete {
        FinishLine();
      }
    }
  }
}
