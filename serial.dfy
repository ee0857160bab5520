/**
 * The cooperative-mode serial protocol over UART3: which received bytes make up
 * a command line, the trailer that closes every line, and the two-line answer
 * to the one command, "report".
 */
module Serial {
  import opened Bytes
  import opened Format

  /** The line reader stores (and echoes) every byte except carriage return and NUL. */
  predicate IsStored(b: byte) {
    b != CR && b != NUL
  }

  /** The bytes of `received` that the line reader stores and echoes, in arrival order. */
  function Kept(received: seq<byte>): (r: seq<byte>)
    ensures |r| <= |received|
    ensures forall k :: 0 <= k < |r| ==> IsStored(r[k])
  {
    if received == [] then []
    else
      var last := received[|received| - 1];
      Kept(received[..|received| - 1]) + (if IsStored(last) then [last] else [])
  }

  lemma {:induction false} KeptAppend(a: seq<byte>, b: seq<byte>)
    ensures Kept(a + b) == Kept(a) + Kept(b)
    decreases |b|
  {
    if b != [] {
      assert (a + b)[..|a + b| - 1] == a + b[..|b| - 1];
      KeptAppend(a, b[..|b| - 1]);
    } else {
      assert a + b == a;
    }
  }

  /** Every stored byte was received as often as it is stored; CR and NUL are never stored. */
  lemma {:induction false} KeptCounts(received: seq<byte>, x: byte)
    ensures multiset(Kept(received))[x] == if IsStored(x) then multiset(received)[x] else 0
  {
    if received != [] {
      var init, last := received[..|received| - 1], received[|received| - 1];
      KeptCounts(init, x);
      assert received == init + [last];
    }
  }

  /** The command that asks for the peak readings: exactly these six bytes. */
  const REPORT: seq<byte> := Ascii("report")

  /** Sent after every line: carriage return, line feed, NUL. */
  const TRAILER: seq<byte> := [CR, LF, NUL]

  const LUMINANCE_LABEL: seq<byte> := Ascii("    Luminance(largest) = ")
  const ACCELEROMETER_LABEL: seq<byte> := Ascii("    Accelerometer(largest) = ")
  /** Both lines end in the unit "lux", the accelerometer line included. */
  const UNIT: seq<byte> := Ascii(" lux\r\n")

  lemma ConstantFacts()
    ensures |UNIT| == 6 && NUL !in UNIT
    ensures |LUMINANCE_LABEL| == 25 && NUL !in LUMINANCE_LABEL
    ensures |ACCELEROMETER_LABEL| == 29 && NUL !in ACCELEROMETER_LABEL
  {
  }

  /** A caption, a `%d` field and the unit, as `sprintf` lays out a report line. */
  function ReportLine(caption: seq<byte>, value: int32): (r: seq<byte>)
    requires |caption| <= 29 && NUL !in caption
    ensures |caption| + |UNIT| < |r| <= 100
    ensures NUL !in r
    ensures r[..|caption|] == caption && r[|r| - |UNIT|..] == UNIT
    ensures ParseInt(r[|caption|..|r| - |UNIT|]) == Some(value as int)
  {
    ConstantFacts();
    var field := FormatInt(value);
    FormatInt32Length(value);
    FormatRoundTrip(value);
    var r := caption + field + UNIT;
    assert r[|caption|..|r| - |UNIT|] == field;
    assert r[..|caption|] == caption;
    r
  }

  /** "    Luminance(largest) = <lux> lux\r\n" */
  function LuminanceLine(lux: int32): (r: seq<byte>)
    ensures |r| <= 100 && NUL !in r
    ensures |LUMINANCE_LABEL| + |UNIT| < |r|
    ensures r[..|LUMINANCE_LABEL|] == LUMINANCE_LABEL && r[|r| - |UNIT|..] == UNIT
    ensures ParseInt(r[|LUMINANCE_LABEL|..|r| - |UNIT|]) == Some(lux as int)
  {
    ConstantFacts();
    ReportLine(LUMINANCE_LABEL, lux)
  }

  /** "    Accelerometer(largest) = <acc> lux\r\n" */
  function AccelerometerLine(acc: int32): (r: seq<byte>)
    ensures |r| <= 100 && NUL !in r
    ensures |ACCELEROMETER_LABEL| + |UNIT| < |r|
    ensures r[..|ACCELEROMETER_LABEL|] == ACCELEROMETER_LABEL
    ensures ParseInt(r[|ACCELEROMETER_LABEL|..|r| - |UNIT|]) == Some(acc as int)
    ensures r[|r| - |UNIT|..] == UNIT
  {
    ConstantFacts();
    ReportLine(ACCELEROMETER_LABEL, acc)
  }

  /**
   * What follows the trailer for a finished line: the two report lines when the
   * line is exactly "report" (whole line, case-sensitive), nothing otherwise.
   */
  function Response(line: seq<byte>, lux: int32, acc: int32): (r: seq<byte>)
    ensures r != [] <==> line == REPORT
    ensures line == REPORT ==> r == LuminanceLine(lux) + AccelerometerLine(acc)
  {
    if line == REPORT then LuminanceLine(lux) + AccelerometerLine(acc) else []
  }

  /** Typing "report" and carriage return stores exactly "report"; "Report" gets no answer. */
  lemma ReportCommand(lux: int32, acc: int32)
    ensures Kept(REPORT + [CR]) == REPORT
    ensures Response(Ascii("Report"), lux, acc) == []
  {
    KeptAppend(REPORT, [CR]);
    assert Kept([CR]) == [];
    var k := Kept(REPORT);
    assert Kept(REPORT) == REPORT by {
      assert forall i :: 0 <= i < |REPORT| ==> IsStored(REPORT[i]);
      KeptAllStored(REPORT);
    }
    assert Ascii("Report")[0] != REPORT[0];
  }

  /** A sequence of storable bytes is kept whole. */
  lemma {:induction false} KeptAllStored(s: seq<byte>)
    requires forall i :: 0 <= i < |s| ==> IsStored(s[i])
    ensures Kept(s) == s
  {
    if s != [] {
      KeptAllStored(s[..|s| - 1]);
    }
  }
}
