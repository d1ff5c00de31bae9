/**
 * The timecode arithmetic of the splitpoints tool. A line of the points file
 * names a segment of a 25 fps video as `START-END`, each end an
 * `H:MM:SS:FF` timecode; the tool turns it into an ffmpeg command that copies
 * that segment out of the input file without re-encoding.
 */
module Splitpoints {
  import opened GoInt
  import opened GoFmt
  import opened GoStrings

  /** Frames per second of every video the tool handles. */
  const FRAME_RATE: int := 25

  /** A point in a video: hours, minutes, seconds and frames. */
  datatype Timecode = Timecode(hour: int, minute: int, second: int, frame: int)

  /** The field ranges a parsed timecode obeys. */
  predicate IsValid(t: Timecode) {
    t.hour >= 0 && 0 <= t.minute < 60 && 0 <= t.second < 60 && 0 <= t.frame < FRAME_RATE
  }

  datatype Option<T> = None | Some(value: T)

  datatype Result<T, E> = Ok(value: T) | Err(error: E)

  /** Why a timecode was refused; each kind carries the text it was given. */
  datatype TimecodeError =
    | Format(input: string)  // the text is not `H:MM:SS:FF`
    | Range(input: string)   // a minute, second or frame number is too high

  /** Why a `START-END` range was refused. */
  datatype CommandError =
    | ExpectedStartEnd                  // not exactly one '-' in the range
    | StartInvalid(cause: TimecodeError)
    | EndInvalid(cause: TimecodeError)

  // ---------------------------------------------------------------------
  // Frame counts

  /** The number of frames from 0:00:00:00 to `t`. */
  function Frames(t: Timecode): (n: int)
    ensures t.hour >= 0 && t.minute >= 0 && t.second >= 0 && t.frame >= 0 ==> n >= 0
  {
    var secs := t.second + 60 * t.minute + 3600 * t.hour;
    FRAME_RATE * secs + t.frame
  }

  /**
   * The timecode `n` frames from 0:00:00:00, by Go's truncating division:
   * for a negative count every field comes out zero or negative.
   */
  function FramesToTimecode(n: int): Timecode {
    Timecode(
      Quot(n, 3600 * FRAME_RATE),
      Rem(Quot(n, 60 * FRAME_RATE), 60),
      Rem(Quot(n, FRAME_RATE), 60),
      Rem(n, FRAME_RATE))
  }

  /**
   * Converting a frame count to a timecode loses nothing: the timecode counts
   * the same frames. A count that is not negative gives fields in range.
   */
  lemma FramesToTimecodeInverse(n: int)
    ensures Frames(FramesToTimecode(n)) == n
    ensures n >= 0 ==> IsValid(FramesToTimecode(n))
    ensures var t := FramesToTimecode(n);
      n < 0 ==> t.hour <= 0 && -60 < t.minute <= 0 && -60 < t.second <= 0 && -FRAME_RATE < t.frame <= 0
  {
    QuotRem(n, FRAME_RATE);
    QuotRem(Quot(n, FRAME_RATE), 60);
    QuotRem(Quot(n, 60 * FRAME_RATE), 60);
    QuotQuot(n, FRAME_RATE, 60);
    QuotQuot(n, 60 * FRAME_RATE, 60);
  }

  /** A valid timecode survives the trip through its frame count. */
  lemma TimecodeRoundTrip(t: Timecode)
    requires IsValid(t)
    ensures FramesToTimecode(Frames(t)) == t
  {
    var n := Frames(t);
    var secs := t.second + 60 * t.minute + 3600 * t.hour;
    QuotUnique(n, FRAME_RATE, secs);
    QuotUnique(n, 60 * FRAME_RATE, t.minute + 60 * t.hour);
    QuotUnique(n, 3600 * FRAME_RATE, t.hour);
    QuotUnique(secs, 60, t.minute + 60 * t.hour);
    QuotUnique(t.minute + 60 * t.hour, 60, t.hour);
  }

  /** Frame counts order valid timecodes as their fields do, hour first. */
  lemma FramesOrder(a: Timecode, b: Timecode)
    requires IsValid(a) && IsValid(b)
    ensures Frames(a) <= Frames(b) <==>
      a.hour < b.hour || (a.hour == b.hour &&
        (a.minute < b.minute || (a.minute == b.minute &&
          (a.second < b.second || (a.second == b.second && a.frame <= b.frame)))))
  {
  }

  // ---------------------------------------------------------------------
  // Rendering

  /** `1000 * frame / frameRate` in Go's integer arithmetic. */
  function Millis(frame: int): int {
    Quot(1000 * frame, FRAME_RATE)
  }

  /** The division is exact: a frame lasts 40 ms, and a frame number in range
      gives at most 960 ms. */
  lemma MillisExact(frame: int)
    ensures Millis(frame) == 40 * frame
    ensures 0 <= frame < FRAME_RATE ==> 0 <= Millis(frame) <= 960
  {
    QuotUnique(1000 * frame, FRAME_RATE, 40 * frame);
  }

  /** `t` as `H:MM:SS.mmm`: the hour unpadded, milliseconds after the point. */
  function Decimal(t: Timecode): string {
    FormatInt(t.hour, 0) + ":" + FormatInt(t.minute, 2) + ":" + FormatInt(t.second, 2)
      + "." + FormatInt(Millis(t.frame), 3)
  }

  /**
   * `r` is `H:MM:SS.mmm` text for `t`: an hour in digits without leading
   * zeros, a two-digit minute and second, and three digits of milliseconds
   * that are 40 per frame.
   */
  predicate ReadsAs(r: string, t: Timecode) {
    var k := |r| - 10;
    k >= 1 && AllDigits(r[..k]) && DigitsValue(r[..k]) == t.hour && (r[0] == '0' ==> k == 1) &&
    r[k] == ':' && AllDigits(r[k + 1..k + 3]) && DigitsValue(r[k + 1..k + 3]) == t.minute &&
    r[k + 3] == ':' && AllDigits(r[k + 4..k + 6]) && DigitsValue(r[k + 4..k + 6]) == t.second &&
    r[k + 6] == '.' && AllDigits(r[k + 7..]) && DigitsValue(r[k + 7..]) == 40 * t.frame
  }

  /**
   * The text of a valid timecode reads back as its fields: the hour in as
   * many digits as it needs, minute and second in two, and the frame as
   * three digits of milliseconds.
   */
  lemma DecimalLayout(t: Timecode)
    requires IsValid(t)
    ensures ReadsAs(Decimal(t), t)
  {
    var h := FormatInt(t.hour, 0);
    assert h == NatDigits(t.hour);
    assert Pow10(2) == 100 && Pow10(3) == 1000;
    FixedWidth(t.minute, 2);
    FixedWidth(t.second, 2);
    MillisExact(t.frame);
    FixedWidth(40 * t.frame, 3);
    var m, s, ms := FormatInt(t.minute, 2), FormatInt(t.second, 2), FormatInt(Millis(t.frame), 3);
    assert AllDigits(h) && AllDigits(m) && AllDigits(s) && AllDigits(ms);
    assert DigitsValue(m) == t.minute && DigitsValue(s) == t.second && DigitsValue(ms) == 40 * t.frame;
    LayoutSlices(h, m, s, ms);
    var r := Decimal(t);
    assert r == h + ":" + m + ":" + s + "." + ms;
  }

  /** A number that fits in `width` digits is printed by `%0<width>d` in exactly that many. */
  lemma FixedWidth(n: int, width: nat)
    requires 1 <= width && 0 <= n < Pow10(width)
    ensures |FormatInt(n, width)| == width
  {
    NatDigitsLength(n, width);
  }

  lemma LayoutSlices(h: string, m: string, s: string, ms: string)
    requires |m| == 2 && |s| == 2 && |ms| == 3
    ensures var r := h + ":" + m + ":" + s + "." + ms; var k := |h|;
      |r| == k + 10 && r[..k] == h && r[k] == ':' && r[k + 1..k + 3] == m &&
      r[k + 3] == ':' && r[k + 4..k + 6] == s && r[k + 6] == '.' && r[k + 7..] == ms
  {
  }

  // ---------------------------------------------------------------------
  // Parsing

  /**
   * The four digit runs that `Sscanf(s, "%d:%02d:%02d:%02d", ...)` reads, and
   * the text after them, which it leaves unread.
   */
  datatype Fields = Fields(hour: string, minute: string, second: string, frame: string, rest: string)

  /** The text the four runs and the remainder were cut from. */
  function Assemble(f: Fields): string {
    f.hour + ":" + f.minute + ":" + f.second + ":" + f.frame + f.rest
  }

  /**
   * Digit runs the scanner can produce: the hour one or more digits, the
   * other fields one or two, and a one-digit frame not followed by a digit
   * (the scanner would have taken it).
   */
  predicate WellFormed(f: Fields) {
    |f.hour| >= 1 && AllDigits(f.hour) &&
    1 <= |f.minute| <= 2 && AllDigits(f.minute) &&
    1 <= |f.second| <= 2 && AllDigits(f.second) &&
    1 <= |f.frame| <= 2 && AllDigits(f.frame) &&
    (|f.frame| == 2 || f.rest == [] || !IsDigit(f.rest[0]))
  }

  lemma AssembleNested(f: Fields)
    ensures Assemble(f) == f.hour + ":" + (f.minute + ":" + (f.second + ":" + (f.frame + f.rest)))
  {
  }

  function Values(f: Fields): Timecode
    requires WellFormed(f)
  {
    Timecode(DigitsValue(f.hour), DigitsValue(f.minute), DigitsValue(f.second), DigitsValue(f.frame))
  }

  /**
   * One `%d:` or `%<width>d:` step of the scanner: a run of at most `width`
   * digits, then the ':' that must follow it, then the unread text.
   */
  function ScanField(s: string, width: nat): (r: Option<(string, string)>)
    ensures r.Some? ==> 1 <= |r.value.0| <= width && AllDigits(r.value.0) && s == r.value.0 + ":" + r.value.1
  {
    var k := LeadingDigits(s, width);
    if k == 0 || k == |s| || s[k] != ':' then None
    else
      assert s == s[..k] + ":" + s[k + 1..];
      Some((s[..k], s[k + 1..]))
  }

  lemma ScanFieldOf(d: string, rest: string, width: nat)
    requires 1 <= |d| <= width && AllDigits(d)
    ensures ScanField(d + ":" + rest, width) == Some((d, rest))
  {
    var s := d + ":" + rest;
    assert s == d + (":" + rest);
    LeadingDigitsOf(d, ":" + rest, width);
    assert s[..|d|] == d && s[|d| + 1..] == rest;
  }

  /** The scanning half of `parseTimecode`: cuts `s` into its digit runs. */
  function Scan(s: string): (r: Option<Fields>)
    ensures r.Some? ==> WellFormed(r.value) && Assemble(r.value) == s
  {
    match ScanField(s, |s|)
    case None => None
    case Some((h, s1)) =>
      match ScanField(s1, 2)
      case None => None
      case Some((m, s2)) =>
        match ScanField(s2, 2)
        case None => None
        case Some((c, s3)) =>
          var k := LeadingDigits(s3, 2);
          if k == 0 then None
          else
            var r := Fields(h, m, c, s3[..k], s3[k..]);
            assert s3 == r.frame + r.rest;
            assert r.rest != [] ==> r.rest[0] == s3[k];
            assert s == h + ":" + (m + ":" + (c + ":" + (r.frame + r.rest)));
            AssembleNested(r);
            Some(r)
  }

  /** The scanner finds exactly the runs of any well-formed text. */
  lemma ScanAssemble(f: Fields)
    requires WellFormed(f)
    ensures Scan(Assemble(f)) == Some(f)
  {
    var s := Assemble(f);
    var s3 := f.frame + f.rest;
    var s2 := f.second + ":" + s3;
    var s1 := f.minute + ":" + s2;
    assert s == f.hour + ":" + s1;
    ScanFieldOf(f.hour, s1, |s|);
    ScanFieldOf(f.minute, s2, 2);
    ScanFieldOf(f.second, s3, 2);
    LeadingDigitsOf(f.frame, f.rest, 2);
    assert s3[..|f.frame|] == f.frame && s3[|f.frame|..] == f.rest;
  }

  /**
   * `parseTimecode`: `H:MM:SS:FF` to a timecode. A text the scanner cannot
   * cut is a format error, a minute or second of 60 or more or a frame of 25
   * or more is a range error, and both echo the text.
   */
  function ParseTimecode(s: string): (r: Result<Timecode, TimecodeError>)
    ensures r.Ok? ==> IsValid(r.value)
    ensures r.Err? ==> r.error.input == s
  {
    match Scan(s)
    case None => Err(Format(s))
    case Some(f) =>
      var t := Values(f);
      if t.minute >= 60 || t.second >= 60 || t.frame >= FRAME_RATE then Err(Range(s))
      else Ok(t)
  }

  /**
   * What a well-formed text parses to: its numbers, unless the minute or the
   * second is 60 or more or the frame 25 or more, which is a range error.
   */
  lemma ParseAssembled(f: Fields)
    requires WellFormed(f)
    ensures var t := Values(f);
      ParseTimecode(Assemble(f)) ==
        if t.minute >= 60 || t.second >= 60 || t.frame >= FRAME_RATE then Err(Range(Assemble(f)))
        else Ok(t)
  {
    ScanAssemble(f);
  }

  /** Only a text that some well-formed runs assemble to gets past the format check. */
  lemma ParseWellFormed(s: string)
    requires ParseTimecode(s).Ok? || ParseTimecode(s).error.Range?
    ensures exists f :: WellFormed(f) && Assemble(f) == s
  {
    assert Scan(s).Some?;
  }

  /** A text that no well-formed runs assemble to is a format error. */
  lemma ParseMalformed(s: string)
    requires forall f :: WellFormed(f) ==> Assemble(f) != s
    ensures ParseTimecode(s) == Err(Format(s))
  {
  }

  // ---------------------------------------------------------------------
  // Commands

  /**
   * The command for the segment from `start` to `end` of `input`: seek to
   * the start, then copy for the length of the segment into `output`.
   */
  function SegmentCommand(start: Timecode, end: Timecode, input: string, output: string): string {
    var length := FramesToTimecode(Frames(end) - Frames(start));
    "ffmpeg -ss " + Decimal(start) + " -i " + input + " -to " + Decimal(length) + " -c copy " + output
  }

  /**
   * The `-to` argument is the segment's length, not its end: for valid
   * timecodes, it is the text of the valid timecode `length` that, added to
   * the start, reaches the end.
   */
  lemma SegmentCommandOf(start: Timecode, end: Timecode, length: Timecode, input: string, output: string)
    requires IsValid(start) && IsValid(end) && IsValid(length)
    requires Frames(start) + Frames(length) == Frames(end)
    ensures SegmentCommand(start, end, input, output) ==
      "ffmpeg -ss " + Decimal(start) + " -i " + input + " -to " + Decimal(length) + " -c copy " + output
  {
    TimecodeRoundTrip(length);
    assert FramesToTimecode(Frames(end) - Frames(start)) == length;
  }

  /**
   * `splitCommand`: the ffmpeg command for the segment `START-END` of
   * `input`, written to `output`.
   */
  function SplitCommand(range: string, input: string, output: string): (r: Result<string, CommandError>)
    ensures r == Err(ExpectedStartEnd) <==> Count(range, '-') != 1
  {
    var segments := Split(range, '-');
    if |segments| != 2 then Err(ExpectedStartEnd)
    else
      match ParseTimecode(segments[0])
      case Err(e) => Err(StartInvalid(e))
      case Ok(start) =>
        match ParseTimecode(segments[1])
        case Err(e) => Err(EndInvalid(e))
        case Ok(end) => Ok(SegmentCommand(start, end, input, output))
  }

  /** `a-b` splits into exactly `a` and `b` when neither holds a '-'. */
  lemma SplitRange(a: string, b: string)
    requires '-' !in a && '-' !in b
    ensures Split(a + "-" + b, '-') == [a, b]
  {
    SplitJoin([a, b], '-');
    assert Join([a, b], '-') == a + "-" + b;
  }

  /** A bad start is reported as such, whatever the end. */
  lemma SplitCommandBadStart(a: string, b: string, input: string, output: string)
    requires '-' !in a && '-' !in b
    requires ParseTimecode(a).Err?
    ensures SplitCommand(a + "-" + b, input, output) == Err(StartInvalid(ParseTimecode(a).error))
  {
    SplitRange(a, b);
  }

  /** With a good start, a bad end is reported as such. */
  lemma SplitCommandBadEnd(a: string, b: string, input: string, output: string)
    requires '-' !in a && '-' !in b
    requires ParseTimecode(a).Ok? && ParseTimecode(b).Err?
    ensures SplitCommand(a + "-" + b, input, output) == Err(EndInvalid(ParseTimecode(b).error))
  {
    SplitRange(a, b);
  }

  /** A range of two good timecodes gives the command for that segment. */
  lemma SplitCommandOk(a: string, b: string, input: string, output: string)
    requires '-' !in a && '-' !in b
    requires ParseTimecode(a).Ok? && ParseTimecode(b).Ok?
    ensures SplitCommand(a + "-" + b, input, output) ==
      Ok(SegmentCommand(ParseTimecode(a).value, ParseTimecode(b).value, input, output))
  {
    SplitRange(a, b);
  }

  /**
   * When the end is not before the start, the `-to` timecode is a valid
   * timecode whose frame count is the segment's length.
   */
  lemma LengthOfSegment(start: Timecode, end: Timecode)
    requires IsValid(start) && IsValid(end)
    requires Frames(start) <= Frames(end)
    ensures var length := FramesToTimecode(Frames(end) - Frames(start));
      IsValid(length) && Frames(start) + Frames(length) == Frames(end)
  {
    FramesToTimecodeInverse(Frames(end) - Frames(start));
  }
}

/** The behaviour the repository's own tests pin down, derived from the model. */
module SplitpointsExamples {
  import opened GoFmt
  import opened Splitpoints

  lemma DecimalWholeSecond()
    ensures Decimal(Timecode(1, 2, 3, 0)) == "1:02:03.000"
  {
  }

  lemma DecimalOneFrame()
    ensures Decimal(Timecode(1, 2, 3, 1)) == "1:02:03.040"
  {
  }

  lemma DecimalFiveFrames()
    ensures Decimal(Timecode(1, 2, 3, 5)) == "1:02:03.200"
  {
  }

  lemma DecimalFourFrames()
    ensures Decimal(Timecode(1, 2, 3, 4)) == "1:02:03.160"
  {
  }

  lemma DecimalLastFrame()
    ensures Decimal(Timecode(1, 2, 3, 24)) == "1:02:03.960"
  {
  }

  lemma TwoDigits(a: char, b: char)
    requires IsDigit(a) && IsDigit(b)
    ensures DigitsValue([a, b]) == 10 * DigitValue(a) + DigitValue(b)
  {
    var s := [a, b];
    assert s[..|s| - 1] == [a] && s[|s| - 1] == b;
    assert [a][..0] == [];
    assert DigitsValue([a]) == DigitValue(a);
  }

  /** Parses a text cut as `h:m:s:f` with nothing after it. */
  lemma ParseOf(h: string, m: string, s: string, f: string, text: string)
    requires WellFormed(Fields(h, m, s, f, []))
    requires text == h + ":" + m + ":" + s + ":" + f
    ensures var t := Values(Fields(h, m, s, f, []));
      ParseTimecode(text) ==
        if t.minute >= 60 || t.second >= 60 || t.frame >= FRAME_RATE then Err(Range(text))
        else Ok(t)
  {
    ParseAssembled(Fields(h, m, s, f, []));
    assert Assemble(Fields(h, m, s, f, [])) == text;
  }

  lemma OneDigit(a: char)
    requires IsDigit(a)
    ensures DigitsValue([a]) == DigitValue(a)
  {
    assert [a][..0] == [];
  }

  lemma ParseLeadingZeros()
    ensures ParseTimecode("01:02:03:24") == Ok(Timecode(1, 2, 3, 24))
  {
    TwoDigits('0', '1');
    TwoDigits('0', '2');
    TwoDigits('0', '3');
    TwoDigits('2', '4');
    assert Values(Fields("01", "02", "03", "24", [])) == Timecode(1, 2, 3, 24);
    ParseOf("01", "02", "03", "24", "01:02:03:24");
  }

  lemma ParseShortHour()
    ensures ParseTimecode("1:02:03:24") == Ok(Timecode(1, 2, 3, 24))
  {
    OneDigit('1');
    TwoDigits('0', '2');
    TwoDigits('0', '3');
    TwoDigits('2', '4');
    assert Values(Fields("1", "02", "03", "24", [])) == Timecode(1, 2, 3, 24);
    ParseOf("1", "02", "03", "24", "1:02:03:24");
  }

  lemma ParseShortMinute()
    ensures ParseTimecode("1:2:03:24") == Ok(Timecode(1, 2, 3, 24))
  {
    OneDigit('1');
    OneDigit('2');
    TwoDigits('0', '3');
    TwoDigits('2', '4');
    assert Values(Fields("1", "2", "03", "24", [])) == Timecode(1, 2, 3, 24);
    ParseOf("1", "2", "03", "24", "1:2:03:24");
  }

  /** "09" is nine, not a malformed octal number. */
  lemma ParseNotOctal()
    ensures ParseTimecode("1:09:03:24") == Ok(Timecode(1, 9, 3, 24))
  {
    OneDigit('1');
    TwoDigits('0', '9');
    TwoDigits('0', '3');
    TwoDigits('2', '4');
    assert Values(Fields("1", "09", "03", "24", [])) == Timecode(1, 9, 3, 24);
    ParseOf("1", "09", "03", "24", "1:09:03:24");
  }

  lemma ParseSecondTooHigh()
    ensures ParseTimecode("1:09:93:22") == Err(Range("1:09:93:22"))
  {
    OneDigit('1');
    TwoDigits('0', '9');
    TwoDigits('9', '3');
    TwoDigits('2', '2');
    assert Values(Fields("1", "09", "93", "22", [])) == Timecode(1, 9, 93, 22);
    ParseOf("1", "09", "93", "22", "1:09:93:22");
  }

  lemma ParseFrameTooHigh()
    ensures ParseTimecode("1:09:03:26") == Err(Range("1:09:03:26"))
  {
    OneDigit('1');
    TwoDigits('0', '9');
    TwoDigits('0', '3');
    TwoDigits('2', '6');
    assert Values(Fields("1", "09", "03", "26", [])) == Timecode(1, 9, 3, 26);
    ParseOf("1", "09", "03", "26", "1:09:03:26");
  }
}

/** The splitting command for the ranges the repository's tests use. */
module SplitCommandExamples {
  import opened GoFmt
  import opened Splitpoints
  import opened SplitpointsExamples

  // The texts are passed as parameters equal to the literals, so that the
  // verifier does not evaluate the parser on the literal text itself.

  lemma DashFreeA(start: string, end: string)
    requires start == "00:00:01:18" && end == "00:10:11:09"
    ensures '-' !in start && '-' !in end
  {
  }

  lemma ParseStartA(s: string)
    requires s == "00:00:01:18"
    ensures ParseTimecode(s) == Ok(Timecode(0, 0, 1, 18))
  {
    TwoDigits('0', '0');
    TwoDigits('0', '1');
    TwoDigits('1', '8');
    assert Values(Fields("00", "00", "01", "18", [])) == Timecode(0, 0, 1, 18);
    ParseOf("00", "00", "01", "18", s);
  }

  lemma ParseEndA(s: string)
    requires s == "00:10:11:09"
    ensures ParseTimecode(s) == Ok(Timecode(0, 10, 11, 9))
  {
    TwoDigits('0', '0');
    TwoDigits('1', '0');
    TwoDigits('1', '1');
    TwoDigits('0', '9');
    assert Values(Fields("00", "10", "11", "09", [])) == Timecode(0, 10, 11, 9);
    ParseOf("00", "10", "11", "09", s);
  }

  lemma StartTextA()
    ensures Decimal(Timecode(0, 0, 1, 18)) == "0:00:01.720"
  {
  }

  lemma LengthTextA()
    ensures Decimal(Timecode(0, 10, 9, 16)) == "0:10:09.640"
  {
  }

  /**
   * The command text of the example, assembled from its two rendered times.
   * The verifier does not see a long chain of string concatenations as one
   * literal in a single step, so each assertion adds one more piece.
   */
  lemma CommandTextA(a: string, b: string)
    requires a == "0:00:01.720" && b == "0:10:09.640"
    ensures "ffmpeg -ss " + a + " -i " + "input.mov" + " -to " + b + " -c copy " + "output.mov"
        == "ffmpeg -ss 0:00:01.720 -i input.mov -to 0:10:09.640 -c copy output.mov"
  {
    assert "ffmpeg -ss " + a == "ffmpeg -ss 0:00:01.720";
    assert "ffmpeg -ss 0:00:01.720" + " -i " == "ffmpeg -ss 0:00:01.720 -i ";
    assert "ffmpeg -ss 0:00:01.720 -i " + "input.mov" == "ffmpeg -ss 0:00:01.720 -i input.mov";
    assert "ffmpeg -ss 0:00:01.720 -i input.mov" + " -to " == "ffmpeg -ss 0:00:01.720 -i input.mov -to ";
    assert "ffmpeg -ss 0:00:01.720 -i input.mov -to " + b == "ffmpeg -ss 0:00:01.720 -i input.mov -to 0:10:09.640";
    assert "ffmpeg -ss 0:00:01.720 -i input.mov -to 0:10:09.640" + " -c copy " == "ffmpeg -ss 0:00:01.720 -i input.mov -to 0:10:09.640 -c copy ";
    assert "ffmpeg -ss 0:00:01.720 -i input.mov -to 0:10:09.640 -c copy " + "output.mov" == "ffmpeg -ss 0:00:01.720 -i input.mov -to 0:10:09.640 -c copy output.mov";
  }

  /** The `-to` value 0:10:09.640 is the segment's length, not its end 0:10:11.360. */
  lemma SegmentA()
    ensures SegmentCommand(Timecode(0, 0, 1, 18), Timecode(0, 10, 11, 9), "input.mov", "output.mov")
      == "ffmpeg -ss 0:00:01.720 -i input.mov -to 0:10:09.640 -c copy output.mov"
  {
    SegmentCommandOf(Timecode(0, 0, 1, 18), Timecode(0, 10, 11, 9), Timecode(0, 10, 9, 16), "input.mov", "output.mov");
    StartTextA();
    LengthTextA();
    CommandTextA(Decimal(Timecode(0, 0, 1, 18)), Decimal(Timecode(0, 10, 9, 16)));
  }

  lemma CommandA(start: string, end: string)
    requires start == "00:00:01:18" && end == "00:10:11:09"
    ensures SplitCommand(start + "-" + end, "input.mov", "output.mov")
      == Ok("ffmpeg -ss 0:00:01.720 -i input.mov -to 0:10:09.640 -c copy output.mov")
  {
    DashFreeA(start, end);
    ParseStartA(start);
    ParseEndA(end);
    SplitCommandOk(start, end, "input.mov", "output.mov");
    SegmentA();
  }
}
