/**
 * The alarm tune: the song notation decoder (`getNote`, `getDuration`, `getPause`,
 * the tokenising loop of `playSong`) and the period counter of `playNote`.
 *
 * A song is a NUL-terminated byte string read as consecutive (note, duration,
 * pause) triples, e.g. "E2,F4,".
 */
module Song {
  import opened Bytes

  /** Period, in microseconds, of the notes A..G and a..g, in that order. */
  const NOTES: seq<nat> :=
    [2272, 2024, 3816, 3401, 3030, 2865, 2551,
     1136, 1012, 1912, 1703, 1517, 1432, 1275]

  /** The pitch, in Hz, that each entry of NOTES stands for. */
  const FREQUENCIES: seq<nat> :=
    [440, 494, 262, 294, 330, 349, 392,
     880, 988, 523, 587, 659, 698, 784]

  const UPPER_A: byte := 65  // 'A'
  const LOWER_A: byte := 97  // 'a'

  predicate IsUpperNote(ch: byte) { UPPER_A <= ch <= UPPER_A + 6 }
  predicate IsLowerNote(ch: byte) { LOWER_A <= ch <= LOWER_A + 6 }
  predicate IsNoteLetter(ch: byte) { IsUpperNote(ch) || IsLowerNote(ch) }

  /** Position of a note letter in NOTES: upper-case first, then lower-case. */
  function NoteIndex(ch: byte): (k: nat)
    requires IsNoteLetter(ch)
    ensures k < |NOTES|
    ensures IsUpperNote(ch) <==> k < 7
  {
    if IsUpperNote(ch) then ch - UPPER_A else ch - LOWER_A + 7
  }

  /**
   * `getNote`: the period of a note letter, 0 (a rest) for any other byte.
   * Every table entry is one full period of its pitch, truncated to whole microseconds.
   */
  function GetNote(ch: byte): (r: nat)
    ensures r != 0 <==> IsNoteLetter(ch)
    ensures IsNoteLetter(ch) ==> r == 1_000_000 / FREQUENCIES[NoteIndex(ch)]
    ensures r <= 3816
  {
    if IsUpperNote(ch) then NOTES[ch - UPPER_A]
    else if IsLowerNote(ch) then NOTES[ch - LOWER_A + 7]
    else 0
  }

  /** Two different note letters never sound the same period. */
  lemma GetNoteInjective(c1: byte, c2: byte)
    requires IsNoteLetter(c1) && IsNoteLetter(c2)
    requires GetNote(c1) == GetNote(c2)
    ensures c1 == c2
  {
    var i, j := NoteIndex(c1), NoteIndex(c2);
    assert forall a, b :: 0 <= a < b < |NOTES| ==> NOTES[a] != NOTES[b];
    assert NOTES[i] == NOTES[j];
  }

  /** A lower-case letter is the same note one octave up: a shorter period, about half as long. */
  lemma LowerIsOctaveUp(k: nat)
    requires k < 7
    ensures GetNote(LOWER_A + k) < GetNote(UPPER_A + k)
    ensures -8 <= 2 * GetNote(LOWER_A + k) - GetNote(UPPER_A + k) <= 8
  {
  }

  /** `getDuration`: a digit d lasts 50*d ms; any other byte lasts 400 ms. */
  function GetDuration(ch: byte): (r: nat)
    ensures r <= 450 && r % 50 == 0
    ensures IsDigit(ch) ==> ZERO + r / 50 == ch
    ensures !IsDigit(ch) ==> r == 400
  {
    if ch < ZERO || ch > ZERO + 9 then 400 else (ch - ZERO) * 50
  }

  /** `getPause`: '+' 0 ms, '.' 20 ms, '_' 30 ms, ',' and every other byte 5 ms. */
  function GetPause(ch: byte): (r: nat)
    ensures r == 0 <==> ch == 43    // '+'
    ensures r == 20 <==> ch == 46   // '.'
    ensures r == 30 <==> ch == 95   // '_'
    ensures r == 0 || r == 5 || r == 20 || r == 30
  {
    match ch
    case 43 => 0
    case 44 => 5
    case 46 => 20
    case 95 => 30
    case _ => 5
  }

  /** One decoded tone: its period (0 for a rest), how long it sounds, and the pause after it. */
  datatype Tone = Tone(note: nat, durationMs: nat, pauseMs: nat)

  /** The tone encoded by the i-th byte triple of s. */
  function ToneAt(s: seq<byte>, i: nat): (t: Tone)
    requires 3 * i + 2 < |s|
  {
    Tone(GetNote(s[3 * i]), GetDuration(s[3 * i + 1]), GetPause(s[3 * i + 2]))
  }

  /**
   * The tones a song text decodes to: one per complete triple; a trailing
   * fragment of one or two bytes decodes to nothing.
   */
  function Tones(s: seq<byte>): (r: seq<Tone>)
    ensures |r| == |s| / 3
    ensures forall i :: 0 <= i < |r| ==> r[i] == ToneAt(s, i)
  {
    if |s| < 3 then []
    else
      var rest := Tones(s[3..]);
      assert forall i :: 1 <= i < |rest| + 1 ==> ToneAt(s[3..], i - 1) == ToneAt(s, i);
      [ToneAt(s, 0)] + rest
  }

  /** Bytes after the last complete triple never change what is played. */
  lemma TrailingFragmentIsSilent(s: seq<byte>, fragment: seq<byte>)
    requires |s| % 3 == 0 && |fragment| < 3
    ensures Tones(s + fragment) == Tones(s)
  {
    var t, u := Tones(s + fragment), Tones(s);
    assert |t| == |u|;
    forall i | 0 <= i < |u| ensures t[i] == u[i] {
      assert (s + fragment)[3 * i] == s[3 * i];
      assert (s + fragment)[3 * i + 1] == s[3 * i + 1];
      assert (s + fragment)[3 * i + 2] == s[3 * i + 2];
    }
  }

  /**
   * How many microseconds of square wave `playNote` produces: none for a rest;
   * otherwise whole periods, at least the requested duration, overshooting it by
   * less than one period.
   */
  predicate IsSoundLength(note: nat, durationMs: nat, t: nat) {
    if note == 0 then t == 0
    else t % note == 0 && durationMs * 1000 <= t < durationMs * 1000 + note
  }

  /** A whole number of periods is a multiple of the period. */
  lemma WholePeriods(periods: nat, note: nat)
    requires note > 0
    ensures (periods * note) % note == 0
  {
    var t := periods * note;
    var q, r := t / note, t % note;
    assert t == note * q + r && 0 <= r < note;
    assert (q - periods) * note == -r;
    ScaledSign(q - periods, note);
  }

  /** A non-zero multiple of a positive number is at least that number away from 0. */
  lemma ScaledSign(e: int, n: nat)
    requires n > 0
    ensures e > 0 ==> e * n >= n
    ensures e < 0 ==> e * n <= -(n as int)
  {
    if e > 0 {
      var m: nat := e - 1;
      assert m * n >= 0;
      assert e * n == m * n + n;
    } else if e < 0 {
      var m: nat := -e - 1;
      assert m * n >= 0;
      assert e * n == -(m * n) - n;
    }
  }

  /**
   * `playNote`'s counter: each round drives the pin high for note/2 µs and low
   * for note/2 µs and adds one period to `t`; `periods` counts the rounds.
   * A rest waits `durationMs` instead.  The only caller keeps
   * `durationMs * 1000 + note` within 32 bits, so `t` never wraps.
   */
  method PlayNote(note: uint32, durationMs: uint32) returns (t: nat, periods: nat)
    requires durationMs * 1000 + note < 0x1_0000_0000
    ensures IsSoundLength(note, durationMs, t)
    ensures t == periods * note && (note == 0 ==> periods == 0)
    ensures t < 0x1_0000_0000
  {
    t, periods := 0, 0;
    if note > 0 {
      while t < durationMs * 1000
        invariant t == periods * note
        invariant t < durationMs * 1000 + note
      {
        t, periods := t + note, periods + 1;
      }
      WholePeriods(periods, note);
    }
  }

  /** The sound length is determined: the alarm's 400 ms high G sounds for exactly 314 periods. */
  lemma AlarmToneLength(t: nat)
    requires IsSoundLength(1275, 400, t)
    ensures t == 314 * 1275
  {
  }

  /** Every tone a song text decodes to can be handed to PlayNote. */
  lemma TonesFitPlayNote(s: seq<byte>)
    ensures forall i :: 0 <= i < |Tones(s)| ==>
      Tones(s)[i].durationMs * 1000 + Tones(s)[i].note < 0x1_0000_0000
  {
  }

  /**
   * `playSong`: walks the NUL-terminated song three bytes at a time, playing each
   * complete (note, duration, pause) triple.  Returns the tones played, in order,
   * and the sound length PlayNote produced for each.
   */
  method PlaySong(song: seq<byte>) returns (tones: seq<Tone>, soundUs: seq<nat>)
    requires NUL in song
    ensures tones == Tones(CString(song))
    ensures |tones| == |CString(song)| / 3
    ensures |soundUs| == |tones|
    ensures forall i :: 0 <= i < |tones| ==>
      IsSoundLength(tones[i].note, tones[i].durationMs, soundUs[i])
  {
    ghost var text := CString(song);
    assert |text| < |song|;
    var p := 0;
    tones, soundUs := [], [];
    while song[p] != NUL
      invariant p == 3 * |tones| && p <= |text|
      invariant |soundUs| == |tones|
      invariant forall i :: 0 <= i < |tones| ==> tones[i] == ToneAt(song, i)
      invariant forall i :: 0 <= i < |tones| ==>
        IsSoundLength(tones[i].note, tones[i].durationMs, soundUs[i])
      decreases |text| - p
    {
      var note := GetNote(song[p]);
      p := p + 1;
      if song[p] == NUL {
        break;
      }
      var dur := GetDuration(song[p]);
      p := p + 1;
      if song[p] == NUL {
        break;
      }
      var pause := GetPause(song[p]);
      p := p + 1;
      var t, _ := PlayNote(note, dur);
      tones := tones + [Tone(note, dur, pause)];
      soundUs := soundUs + [t];
    }
    assert |text| / 3 == |tones|;
    forall i | 0 <= i < |tones| ensures Tones(text)[i] == tones[i] {
      assert text[3 * i] == song[3 * i] && text[3 * i + 1] == song[3 * i + 1] && text[3 * i + 2] == song[3 * i + 2];
    }
  }

  /** The tune the alarm plays: "g8," and its terminator. */
  const ALARM_SONG: seq<byte> := [103, 56, 44, NUL]

  /** The alarm tune is a single high G (784 Hz) of 400 ms followed by a 5 ms pause. */
  lemma AlarmSongTones()
    ensures Tones(CString(ALARM_SONG)) == [Tone(1275, 400, 5)]
  {
    CStringOfTerminated(ALARM_SONG, 3);
    assert ALARM_SONG[..3] == [103, 56, 44];
  }
}
