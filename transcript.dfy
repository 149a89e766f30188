/** Time correlation with the transcript (`.out`) file: the milliseconds from the
    first "Attacker connected:" line to the last command line. */
module Transcript {
  import opened Wrappers
  import opened Text

  const ConnectMarker: string := "Attacker connected:"
  const ReaderMarker: string := "line from reader:"
  const NoninteractiveMarker: string := "Noninteractive mode attacker command:"

  /** `datetime.strptime(date + " " + time, "%Y-%m-%d %H:%M:%S")` followed by
      `int(dt.timestamp() * 1000)`: a local-time conversion to epoch milliseconds,
      `None` when the text does not fit the format. */
  type EpochClock = (string, string) -> Option<int>

  /** `extract_timestamp`: the first two whitespace-separated fields joined by one
      space. The result splits back into exactly those two fields. */
  function ExtractTimestamp(line: string): (r: Option<string>)
    ensures r.Some? <==> |SplitWhitespace(line)| >= 2
    ensures r.Some? ==> SplitWhitespace(r.value) == SplitWhitespace(line)[..2]
  {
    var parts := SplitWhitespace(line);
    if |parts| >= 2 then
      TwoWordsSplit(parts[0], parts[1]);
      Some(parts[0] + " " + parts[1])
    else None
  }

  /** `timestamp_to_ms`: exactly two whitespace fields, the second with exactly
      one '.', the part after it added as a plain integer number of milliseconds. */
  function TimestampToMs(ts: string, clock: EpochClock): (r: Option<int>)
    ensures r.Some? ==> |SplitWhitespace(ts)| == 2
    ensures r.Some? ==> CountChar(SplitWhitespace(ts)[1], '.') == 1
  {
    var fields := SplitWhitespace(ts);
    if |fields| != 2 then None
    else
      var pieces := Split(fields[1], ".");
      SplitCharCount(fields[1], '.');
      if |pieces| != 2 then None
      else
        match clock(fields[0], pieces[0])
        case None => None
        case Some(base) =>
          match ParseInt(pieces[1])
          case None => None
          case Some(ms) => Some(base + ms)
  }

  /** The fractional suffix is read as an integer, not as a fraction of a second:
      "10:00:00.5" is 5 ms after "10:00:00", not 500. */
  lemma FractionAddedAsInteger(ts: string, date: string, time: string, frac: string, clock: EpochClock)
    requires SplitWhitespace(ts) == [date, time + "." + frac]
    requires '.' !in time && '.' !in frac
    requires |frac| > 0 && AllDigits(frac)
    requires clock(date, time).Some?
    ensures TimestampToMs(ts, clock) == Some(clock(date, time).value + DigitsValue(frac))
  {
    JoinTwo(".", time, frac);
    SplitJoinChar([time, frac], '.');
    assert ParseInt(frac) == Some(DigitsValue(frac));
    TimestampOfFields(ts, date, time + "." + frac, time, frac, clock, clock(date, time).value, DigitsValue(frac));
  }

  lemma JoinTwo(sep: string, a: string, b: string)
    ensures Join(sep, [a, b]) == a + sep + b
  {
    assert [a, b][1..] == [b];
  }

  /** `timestamp_to_ms` on a timestamp whose fields and pieces are known. */
  lemma TimestampOfFields(ts: string, date: string, t: string, time: string, frac: string,
                          clock: EpochClock, base: int, ms: int)
    requires SplitWhitespace(ts) == [date, t]
    requires Split(t, ".") == [time, frac]
    requires clock(date, time) == Some(base) && ParseInt(frac) == Some(ms)
    ensures TimestampToMs(ts, clock) == Some(base + ms)
  {
  }

  /** A line of the transcript that records a command. */
  predicate IsCommandLine(line: string) {
    Contains(line, ReaderMarker) || Contains(line, NoninteractiveMarker)
  }

  /** The index of the first line that contains `p`. */
  function FirstLineWith(lines: seq<string>, p: string): (r: Option<nat>)
    requires |p| > 0
    ensures r.Some? ==> r.value < |lines| && Contains(lines[r.value], p)
    ensures r.Some? ==> forall j :: 0 <= j < r.value ==> !Contains(lines[j], p)
    ensures r.None? ==> forall j :: 0 <= j < |lines| ==> !Contains(lines[j], p)
  {
    if |lines| == 0 then None
    else if Contains(lines[0], p) then Some(0)
    else
      match FirstLineWith(lines[1..], p)
      case None => None
      case Some(k) => Some(k + 1)
  }

  /** The index of the last line that contains `p` or `q`. */
  function LastLineWithEither(lines: seq<string>, p: string, q: string): (r: Option<nat>)
    requires |p| > 0 && |q| > 0
    ensures r.Some? ==> r.value < |lines| && (Contains(lines[r.value], p) || Contains(lines[r.value], q))
    ensures r.Some? ==> forall j :: r.value < j < |lines| ==> !Contains(lines[j], p) && !Contains(lines[j], q)
    ensures r.None? ==> forall j :: 0 <= j < |lines| ==> !Contains(lines[j], p) && !Contains(lines[j], q)
  {
    if |lines| == 0 then None
    else if Contains(lines[|lines| - 1], p) || Contains(lines[|lines| - 1], q) then Some(|lines| - 1)
    else LastLineWithEither(lines[..|lines| - 1], p, q)
  }

  /** `re.search(r'^.*Attacker connected:.*$', content, re.MULTILINE)`: the first
      line containing the marker. */
  function FirstConnectLine(lines: seq<string>): Option<nat> {
    FirstLineWith(lines, ConnectMarker)
  }

  /** The last command line. */
  function LastCommandLine(lines: seq<string>): Option<nat> {
    LastLineWithEither(lines, ReaderMarker, NoninteractiveMarker)
  }

  /** The epoch time of a transcript line, through `extract_timestamp` and `timestamp_to_ms`. */
  function LineTime(line: string, clock: EpochClock): Option<int> {
    match ExtractTimestamp(line)
    case None => None
    case Some(ts) => TimestampToMs(ts, clock)
  }

  /** `calculate_mitm_time` with the last command LINE taken as the last activity
      (the intended reading; see `CalculateMitmTimeAsWritten`). `None` stands for a
      missing transcript file. Every failure gives 0, so the result is never negative. */
  function CalculateMitmTime(transcript: Option<string>, clock: EpochClock): (r: nat)
    ensures r > 0 ==> transcript.Some?
    ensures r > 0 ==> FirstConnectLine(Split(transcript.value, "\n")).Some?
    ensures r > 0 ==> LastCommandLine(Split(transcript.value, "\n")).Some?
    ensures r > 0 ==> var lines := Split(transcript.value, "\n");
                      && LineTime(lines[FirstConnectLine(lines).value], clock).Some?
                      && LineTime(lines[LastCommandLine(lines).value], clock).Some?
  {
    match transcript
    case None => 0
    case Some(content) =>
      var lines := Split(content, "\n");
      match FirstConnectLine(lines)
      case None => 0
      case Some(c) =>
        match LineTime(lines[c], clock)
        case None => 0
        case Some(connectMs) =>
          match LastCommandLine(lines)
          case None => 0
          case Some(k) =>
            match LineTime(lines[k], clock)
            case None => 0
            case Some(lastMs) => if lastMs - connectMs > 0 then lastMs - connectMs else 0
  }

  /** On a transcript whose first connect line and last command line both carry a
      readable timestamp, the result is the non-negative difference of the two. */
  lemma MitmTimeIsElapsed(content: string, clock: EpochClock, c: nat, k: nat)
    requires c < |Split(content, "\n")| && k < |Split(content, "\n")|
    requires Contains(Split(content, "\n")[c], ConnectMarker)
    requires forall j :: 0 <= j < c ==> !Contains(Split(content, "\n")[j], ConnectMarker)
    requires IsCommandLine(Split(content, "\n")[k])
    requires forall j :: k < j < |Split(content, "\n")| ==> !IsCommandLine(Split(content, "\n")[j])
    requires LineTime(Split(content, "\n")[c], clock).Some?
    requires LineTime(Split(content, "\n")[k], clock).Some?
    ensures var d := LineTime(Split(content, "\n")[k], clock).value - LineTime(Split(content, "\n")[c], clock).value;
            CalculateMitmTime(Some(content), clock) == if d > 0 then d else 0
  {
    var lines := Split(content, "\n");
    MarkersNonEmpty();
    FirstLineWithIs(lines, ConnectMarker, c);
    LastLineWithEitherIs(lines, ReaderMarker, NoninteractiveMarker, k);
  }

  lemma MarkersNonEmpty()
    ensures |ConnectMarker| > 0 && |ReaderMarker| > 0 && |NoninteractiveMarker| > 0
  {
  }

  /** `FirstLineWith` finds exactly the first line containing `p`. */
  lemma FirstLineWithIs(lines: seq<string>, p: string, c: nat)
    requires |p| > 0
    requires c < |lines| && Contains(lines[c], p)
    requires forall j :: 0 <= j < c ==> !Contains(lines[j], p)
    ensures FirstLineWith(lines, p) == Some(c)
  {
  }

  /** `LastLineWithEither` finds exactly the last line containing `p` or `q`. */
  lemma LastLineWithEitherIs(lines: seq<string>, p: string, q: string, k: nat)
    requires |p| > 0 && |q| > 0
    requires k < |lines| && (Contains(lines[k], p) || Contains(lines[k], q))
    requires forall j :: k < j < |lines| ==> !Contains(lines[j], p) && !Contains(lines[j], q)
    ensures LastLineWithEither(lines, p, q) == Some(k)
  {
  }

  // ---------------------------------------------------------------------------
  // The code as written
  // ---------------------------------------------------------------------------

  /** The text captured by the one group of
      `^.*(line from reader:|Noninteractive mode attacker command:).*$` on a line:
      the greedy `.*` makes it the marker that starts rightmost. */
  function CapturedMarker(line: string): (r: Option<string>)
    ensures r.Some? ==> r.value == ReaderMarker || r.value == NoninteractiveMarker
    decreases |line|
  {
    if |line| == 0 then None
    else
      match CapturedMarker(line[1..])
      case Some(m) => Some(m)
      case None =>
        if StartsWith(line, ReaderMarker) then Some(ReaderMarker)
        else if StartsWith(line, NoninteractiveMarker) then Some(NoninteractiveMarker)
        else None
  }

  /** `re.findall` of that pattern: with one capturing group it returns the group's
      text for every matching line, not the line itself. */
  function FindAllCaptured(lines: seq<string>): (r: seq<string>)
    ensures forall k :: 0 <= k < |r| ==> r[k] == ReaderMarker || r[k] == NoninteractiveMarker
  {
    if |lines| == 0 then []
    else
      var rest := FindAllCaptured(lines[1..]);
      match CapturedMarker(lines[0])
      case None => rest
      case Some(m) => [m] + rest
  }

  /** `calculate_mitm_time` as written: the "last command line" handed to
      `extract_timestamp` is the captured marker text. */
  function CalculateMitmTimeAsWritten(transcript: Option<string>, clock: EpochClock): nat {
    match transcript
    case None => 0
    case Some(content) =>
      var lines := Split(content, "\n");
      match FirstConnectLine(lines)
      case None => 0
      case Some(c) =>
        match LineTime(lines[c], clock)
        case None => 0
        case Some(connectMs) =>
          var captured := FindAllCaptured(lines);
          if |captured| == 0 then 0
          else
            match LineTime(captured[|captured| - 1], clock)
            case None => 0
            case Some(lastMs) => if lastMs - connectMs > 0 then lastMs - connectMs else 0
  }

  /** The marker texts never hold a timestamp: their first two words are
      "line from" and "Noninteractive mode", and neither "from" nor "mode" has a '.'. */
  lemma MarkerHasNoTime(marker: string, clock: EpochClock)
    requires marker == ReaderMarker || marker == NoninteractiveMarker
    ensures LineTime(marker, clock).None?
  {
    if marker == ReaderMarker {
      ReaderMarkerHasNoTime(clock);
    } else {
      NoninteractiveMarkerHasNoTime(clock);
    }
  }

  lemma ReaderMarkerHasNoTime(clock: EpochClock)
    ensures LineTime(ReaderMarker, clock).None?
  {
    ReaderMarkerShape();
    NoTimeWithoutDot(ReaderMarker, "line", "from", " reader:", clock);
  }

  lemma ReaderMarkerShape()
    ensures IsWord("line") && IsWord("from") && '.' !in "from" && IsSpace(" reader:"[0])
    ensures ReaderMarker == "line" + " " + "from" + " reader:"
  {
  }

  lemma NoninteractiveMarkerHasNoTime(clock: EpochClock)
    ensures LineTime(NoninteractiveMarker, clock).None?
  {
    NoninteractiveMarkerShape();
    NoninteractiveMarkerWords();
    NoTimeWithoutDot(NoninteractiveMarker, "Noninteractive", "mode", " attacker command:", clock);
  }

  lemma NoninteractiveMarkerShape()
    ensures NoninteractiveMarker == "Noninteractive" + " " + "mode" + " attacker command:"
  {
  }

  lemma NoninteractiveMarkerWords()
    ensures IsWord("Noninteractive") && IsWord("mode") && '.' !in "mode" && IsSpace(" attacker command:"[0])
  {
  }

  /** A line whose second word has no '.' has no readable time. */
  lemma NoTimeWithoutDot(line: string, w0: string, w1: string, rest: string, clock: EpochClock)
    requires IsWord(w0) && IsWord(w1) && '.' !in w1
    requires |rest| > 0 && IsSpace(rest[0])
    requires line == w0 + " " + w1 + rest
    ensures LineTime(line, clock).None?
  {
    FirstTwoWords(w0, w1, rest);
    var ts := w0 + " " + w1;
    assert ExtractTimestamp(line) == Some(ts);
    TwoWordsSplit(w0, w1);
    SplitNoChar(w1, '.');
    NoTimeWithOnePiece(ts, w0, w1, clock);
  }

  lemma NoTimeWithOnePiece(ts: string, w0: string, w1: string, clock: EpochClock)
    requires SplitWhitespace(ts) == [w0, w1]
    requires Split(w1, ".") == [w1]
    ensures TimestampToMs(ts, clock).None?
  {
  }

  /** As written, `calculate_mitm_time` is 0 on every input. */
  lemma {:induction false} MitmTimeAsWrittenIsZero(transcript: Option<string>, clock: EpochClock)
    ensures CalculateMitmTimeAsWritten(transcript, clock) == 0
  {
    if transcript.Some? {
      var lines := Split(transcript.value, "\n");
      var captured := FindAllCaptured(lines);
      if |captured| > 0 {
        MarkerHasNoTime(captured[|captured| - 1], clock);
      }
    }
  }
}
