# splitpoints — timecode core

`splitpoints` is a small Go tool that reads a list of `START-END` ranges of
a 25 fps video and prints, for each one, an ffmpeg command. The command
copies that segment out of the input file without re-encoding. Each end of a
range is an `H:MM:SS:FF` timecode: hours, minutes, seconds and frames.

This project models the tool's timecode core in Dafny:

- the timecode record and its frame count;
- the inverse conversion from a frame count back to a timecode;
- the `H:MM:SS.mmm` rendering that ffmpeg reads;
- the timecode parser;
- the command builder, `splitCommand`.

The Go primitives the core depends on are modelled in small modules of their own:

- `GoInt`: integer division and remainder, which truncate toward zero;
- `GoFmt`: `%d`/`%0Nd` printing and `%d`/`%Nd` scanning;
- `GoStrings`: `strings.Split` with a one-character separator.

Behaviour of the code that the model keeps:

- **Field width.** The `%02d` scan verb reads one or two digits, so
  `1:2:03:24` parses (splitpoints_test.go:24).
- **Trailing text.** The scanner leaves any text after the frame field
  unread, so a timecode followed by trailing text is accepted.
- **Milliseconds.** `1000 * frame / 25` is always exact: every frame is
  40 ms (`MillisExact`).
- **End before start.** The model computes it as Go does: every field of the
  `-to` timecode is then zero or negative (`FramesToTimecodeInverse`).

## Model

| member | source | states |
|---|---|---|
| GoInt.QuotRem | splitpoints.go:52-55 | Go's `/` and `%` satisfy `a == b*(a/b) + a%b`. The remainder has the sign of the dividend and is smaller than the divisor in magnitude. |
| GoInt.Quot | splitpoints.go:52-55 | Go's `/` for a positive divisor, rounding toward zero. It has no `ensures` of its own; `GoInt.QuotRem` and `GoInt.QuotUnique` state its contract. |
| GoInt.Rem | splitpoints.go:53-55 | Go's `%` for a positive divisor. It has no `ensures` of its own; `GoInt.QuotRem` states its contract. |
| GoInt.QuotUnique | splitpoints.go:52-55 | A truncated quotient is the only one whose remainder lies between 0 and the divisor, on the side of the dividend's sign. |
| GoInt.QuotQuot | splitpoints.go:53-54 | Dividing by 25 and then by 60, truncating each time, equals dividing once by 1500, also for negative counts. |
| GoFmt.NatDigits | splitpoints.go:35 | `%d` of a natural number is a non-empty digit string with no leading zero (except "0"), denoting that number. |
| GoFmt.NatDigitsLength | splitpoints.go:35 | A number below 10^k prints in at most k digits. |
| GoFmt.ZeroPad | splitpoints.go:35 | Zero padding keeps the value and gives exactly max(length, width) digits. |
| GoFmt.FormatInt | splitpoints.go:35 | `%0Nd` prints the value's digits with the sign before the padding. The text is `width` characters long or the natural length, whichever is larger. |
| GoFmt.LeadingDigits | splitpoints.go:40 | The width-limited `%d` scanner takes only digits and stops only at the width, the end of input or a non-digit. |
| GoFmt.LeadingDigitsOf | splitpoints.go:40 | A digit run ended by the width or by a non-digit is consumed exactly. |
| GoStrings.Split | splitpoints.go:60 | `strings.Split` returns one more piece than there are separators, no piece contains the separator, and joining the pieces gives back the input. |
| GoStrings.SplitJoin | splitpoints.go:60 | Splitting undoes joining separator-free pieces. |
| Splitpoints.Frames | splitpoints.go:28-31 | A timecode with non-negative fields has a non-negative frame count. |
| Splitpoints.FramesToTimecode | splitpoints.go:50-57 | `framesToTimecode` with Go's truncating `/` and `%`. It has no `ensures` of its own; `FramesToTimecodeInverse` and `TimecodeRoundTrip` state its contract. |
| Splitpoints.FramesToTimecodeInverse | splitpoints.go:50-57 | `framesToTimecode(n).frames() == n` for every n. A non-negative n gives fields in range; a negative n gives fields that are all zero or negative. |
| Splitpoints.TimecodeRoundTrip | splitpoints.go:28-31 | `framesToTimecode(t.frames()) == t` for every timecode whose fields are in range. |
| Splitpoints.FramesOrder | splitpoints.go:28-31 | For valid timecodes, frame counts order them lexicographically by hour, minute, second, frame (if and only if). |
| Splitpoints.Millis | splitpoints.go:34 | `1000 * frame / frameRate` with Go's truncating `/`. It has no `ensures` of its own; `MillisExact` states its contract. |
| Splitpoints.MillisExact | splitpoints.go:34 | `1000*frame/frameRate` is exactly 40*frame, and lies in 0..960 for a frame in range. |
| Splitpoints.Decimal | splitpoints.go:33-36 | `decimal()`, printing `%d:%02d:%02d.%03d`. It has no `ensures` of its own; `DecimalLayout` states its contract. |
| Splitpoints.DecimalLayout | splitpoints.go:33-36 | For a valid timecode, `decimal()` reads back as its fields: an unpadded hour, then ':', a two-digit minute, ':', a two-digit second, '.', and three digits worth 40 ms per frame. |
| Splitpoints.FixedWidth | splitpoints.go:35 | A number below 10^width prints under `%0<width>d` in exactly `width` characters. |
| Splitpoints.ScanField | splitpoints.go:40 | One scanned field is 1 to `width` digits followed by ':' and the rest of the input. |
| Splitpoints.ScanFieldOf | splitpoints.go:40 | The scanner reads exactly the field in front of the ':'. |
| Splitpoints.Scan | splitpoints.go:40 | A successful scan cuts the input into well-formed digit runs that re-assemble to the input. |
| Splitpoints.ScanAssemble | splitpoints.go:40 | Every well-formed text scans to exactly its runs, so scanning and assembling are inverse. |
| Splitpoints.ParseTimecode | splitpoints.go:38-48 | A parsed timecode always has its fields in range, and every error echoes the input text. |
| Splitpoints.ParseAssembled | splitpoints.go:40-47 | For well-formed text, the result is a range error exactly when minute ≥ 60, second ≥ 60 or frame ≥ 25, and otherwise the scanned numbers. |
| Splitpoints.ParseWellFormed | splitpoints.go:40-43 | Only text that well-formed runs assemble to gets past the format check. |
| Splitpoints.ParseMalformed | splitpoints.go:40-43 | Text that no well-formed runs assemble to is a format error. |
| Splitpoints.SegmentCommand | splitpoints.go:73-76 | The success output of `splitCommand`. It has no `ensures` of its own; `SegmentCommandOf` and `LengthOfSegment` state its contract. |
| Splitpoints.SegmentCommandOf | splitpoints.go:73-76 | The command is `ffmpeg -ss <start> -i <input> -to <length> -c copy <output>`, where `-to` is the valid timecode that, added to the start, reaches the end. |
| Splitpoints.SplitCommand | splitpoints.go:59-63 | The result is the "expected START-END" error exactly when the range does not hold exactly one '-'. |
| Splitpoints.SplitRange | splitpoints.go:60 | `a-b` with dash-free `a` and `b` splits into exactly `[a, b]`. |
| Splitpoints.SplitCommandBadStart | splitpoints.go:64-67 | A bad start is reported as a start error carrying its cause, whatever the end. |
| Splitpoints.SplitCommandBadEnd | splitpoints.go:68-71 | With a good start, a bad end is reported as an end error carrying its cause. |
| Splitpoints.SplitCommandOk | splitpoints.go:64-76 | Two good timecodes give the command for the segment between them. |
| Splitpoints.LengthOfSegment | splitpoints.go:73 | If the end is not before the start, the `-to` timecode is valid and its frames plus the start's equal the end's. |
| SplitpointsExamples.DecimalWholeSecond | splitpoints_test.go:56 | {1,2,3,0} renders as "1:02:03.000". |
| SplitpointsExamples.DecimalOneFrame | splitpoints_test.go:57 | {1,2,3,1} renders as "1:02:03.040". |
| SplitpointsExamples.DecimalFiveFrames | splitpoints_test.go:58 | {1,2,3,5} renders as "1:02:03.200". |
| SplitpointsExamples.DecimalFourFrames | splitpoints_test.go:59 | {1,2,3,4} renders as "1:02:03.160". |
| SplitpointsExamples.DecimalLastFrame | splitpoints_test.go:60 | {1,2,3,24} renders as "1:02:03.960". |
| SplitpointsExamples.ParseLeadingZeros | splitpoints_test.go:22 | "01:02:03:24" parses to {1,2,3,24}. |
| SplitpointsExamples.ParseShortHour | splitpoints_test.go:23 | "1:02:03:24" parses to {1,2,3,24}. |
| SplitpointsExamples.ParseShortMinute | splitpoints_test.go:24 | "1:2:03:24" parses to {1,2,3,24}. |
| SplitpointsExamples.ParseNotOctal | splitpoints_test.go:25 | "1:09:03:24" parses to {1,9,3,24}; "09" is decimal. |
| SplitpointsExamples.ParseSecondTooHigh | splitpoints_test.go:26 | "1:09:93:22" is a range error. |
| SplitpointsExamples.ParseFrameTooHigh | splitpoints_test.go:27 | "1:09:03:26" is a range error. |
| SplitCommandExamples.SegmentA | splitpoints_test.go:8-14 | The segment from 0:00:01:18 to 0:10:11:09 gives `-ss 0:00:01.720` and `-to 0:10:09.640`. The `-to` value is the length, not the end. |
| SplitCommandExamples.CommandA | splitpoints_test.go:8-14 | `splitCommand("00:00:01:18-00:10:11:09", "input.mov", "output.mov")` is `ffmpeg -ss 0:00:01.720 -i input.mov -to 0:10:09.640 -c copy output.mov`. |

## Left out

- `main`, the `points_file` and `input_file` flags, and reading the points file are not modelled. They are I/O: the model starts from one range string.
- The output file name that `main` builds for each segment is not modelled for the same reason; `SplitCommand` takes it as a parameter.
- Error message text and `%w` wrapping are not modelled. Errors are structured kinds (`Format`, `Range`, `ExpectedStartEnd`, `StartInvalid`, `EndInvalid`) that carry the input text or the cause.
- The partly filled timecode that `parseTimecode` returns next to an error is not modelled. Its callers ignore it.
- Splitpoints.Scan: does not model a sign, leading white space or an `int` overflow in a scanned number, which Go's `%d` scanner accepts or reports. Only unsigned digit runs are scanned.
- Splitpoints.Frames: integers are unbounded, so 64-bit overflow of the frame count for huge hour values is not modelled.
- GoStrings.Split: modelled only for a one-character separator, the only one the tool uses.
