/** The legacy session-log parser (old/process.py, lines 10-37): a two-state line
    machine that collects the header fields and the command lines of each block
    between an `==== Attack ====` line and a `================` line.

    The seven marker texts are a parameter `m`, so that no proof depends on their
    characters; `Log` holds the ones the script uses. */
module SessionParser {
  import opened Wrappers
  import opened Text

  /** The line prefixes the parser recognises. */
  datatype Markers = Markers(
    attack: string,
    end: string,
    connected: string,
    count: string,
    list: string,
    ip: string,
    duration: string)

  const Log: Markers := Markers(
    "==== Attack ====",
    "================",
    "Date/Time connected:",
    "Number of commands:",
    "List of commands:",
    "Attacker IP:",
    "Session duration (seconds):")

  /** The header prefixes are non-empty, as `str.split` demands of a separator. */
  predicate Prefixes(m: Markers) {
    |m.connected| > 0 && |m.count| > 0 && |m.ip| > 0 && |m.duration| > 0
  }

  lemma LogPrefixes()
    ensures Prefixes(Log)
  {
  }

  /** Python's `float()` on a string; `None` for a ValueError. */
  type FloatParser = string -> Option<real>

  /** The header fields of `session_data`; a field is absent until its line is seen. */
  datatype Header = Header(connected: Option<string>, count: Option<int>, ip: Option<string>, duration: Option<real>)

  const NoHeader: Header := Header(None, None, None, None)

  /** A recorded session: its header and the "List of commands used" text. */
  datatype Session = Session(header: Header, commandList: string)

  /** What aborts the run: a closing marker while `session_data` and `commands`
      are still unbound (NameError), or a count or duration that does not parse
      (ValueError). */
  datatype ParseError = UnboundSession | BadCount(text: string) | BadDuration(text: string)

  /** The loop variables: `in_session`, the `session_data` and `commands`
      bindings (`None` until the first opening marker), and `sessions`. */
  datatype State = State(inSession: bool, data: Option<Header>, commands: seq<string>, sessions: seq<Session>)

  const Start: State := State(false, None, [], [])

  /** A session is only open once `session_data` is bound. */
  predicate Valid(s: State) {
    s.inSession ==> s.data.Some?
  }

  /** `f"[{', '.join(commands)}]"`: the commands between brackets, unquoted. */
  function ListField(commands: seq<string>): string {
    "[" + Join(", ", commands) + "]"
  }

  /** `line.split(prefix)[1].strip()` for a line that starts with `prefix`: the
      text between the prefix and its next occurrence, stripped. */
  function After(line: string, prefix: string): string
    requires |prefix| > 0 && StartsWith(line, prefix)
  {
    StartsWithContains(line, prefix);
    assert line[..0] == "";
    Strip(Split(line, prefix)[1])
  }

  /** Lines 25-37: a line inside a session sets a header field, is skipped, or is
      appended as a command; the result is the new `session_data` and `commands`. */
  function SessionLine(m: Markers, h: Header, commands: seq<string>, line: string, toFloat: FloatParser)
    : Result<(Header, seq<string>), ParseError>
    requires Prefixes(m)
  {
    if StartsWith(line, m.connected) then
      Ok((h.(connected := Some(After(line, m.connected))), commands))
    else if StartsWith(line, m.count) then
      var text := After(line, m.count);
      match PyInt(text)
      case None => Err(BadCount(text))
      case Some(n) => Ok((h.(count := Some(n)), commands))
    else if StartsWith(line, m.list) then
      Ok((h, commands))
    else if StartsWith(line, m.ip) then
      Ok((h.(ip := Some(After(line, m.ip))), commands))
    else if StartsWith(line, m.duration) then
      var text := After(line, m.duration);
      match toFloat(text)
      case None => Err(BadDuration(text))
      case Some(d) => Ok((h.(duration := Some(d)), commands))
    else
      Ok((h, commands + [Strip(line)]))
  }

  /** One pass of the loop of lines 14-37 over a raw line of the file. */
  function Step(m: Markers, s: State, raw: string, toFloat: FloatParser): (r: Result<State, ParseError>)
    requires Prefixes(m) && Valid(s)
    ensures r.Ok? ==> Valid(r.value)
  {
    var line := Strip(raw);
    if StartsWith(line, m.attack) then
      Ok(State(true, Some(NoHeader), [], s.sessions))
    else if StartsWith(line, m.end) then
      match s.data
      case None => Err(UnboundSession)
      case Some(h) => Ok(State(false, s.data, s.commands, s.sessions + [Session(h, ListField(s.commands))]))
    else if s.inSession then
      match SessionLine(m, s.data.value, s.commands, line, toFloat)
      case Err(e) => Err(e)
      case Ok(next) => Ok(State(true, Some(next.0), next.1, s.sessions))
    else
      Ok(s)
  }

  /** The state after the lines, or the error that aborted the run. */
  function Feed(m: Markers, s: State, lines: seq<string>, toFloat: FloatParser): (r: Result<State, ParseError>)
    requires Prefixes(m) && Valid(s)
    ensures r.Ok? ==> Valid(r.value)
    decreases |lines|
  {
    if |lines| == 0 then Ok(s)
    else
      match Feed(m, s, lines[..|lines| - 1], toFloat)
      case Err(e) => Err(e)
      case Ok(t) => Step(m, t, lines[|lines| - 1], toFloat)
  }

  /** The sessions of a whole file. */
  function ParseSessions(m: Markers, lines: seq<string>, toFloat: FloatParser): Result<seq<Session>, ParseError>
    requires Prefixes(m)
  {
    match Feed(m, Start, lines, toFloat)
    case Err(e) => Err(e)
    case Ok(t) => Ok(t.sessions)
  }

  /** Once the run is aborted, further lines change nothing. */
  lemma {:induction false} FeedStopsAtError(m: Markers, s: State, lines: seq<string>, i: nat, toFloat: FloatParser)
    requires Prefixes(m) && Valid(s) && i <= |lines| && Feed(m, s, lines[..i], toFloat).Err?
    ensures Feed(m, s, lines, toFloat) == Feed(m, s, lines[..i], toFloat)
    decreases |lines|
  {
    if |lines| == i {
      assert lines[..i] == lines;
    } else {
      var init := lines[..|lines| - 1];
      assert init[..i] == lines[..i];
      FeedStopsAtError(m, s, init, i, toFloat);
    }
  }

  /** Lines 10-37 over the lines of the file. */
  method ParseLog(m: Markers, lines: seq<string>, toFloat: FloatParser) returns (r: Result<seq<Session>, ParseError>)
    requires Prefixes(m)
    ensures r == ParseSessions(m, lines, toFloat)
  {
    var sessions: seq<Session> := [];
    var inSession := false;
    var data: Option<Header> := None;
    var commands: seq<string> := [];
    for i := 0 to |lines|
      invariant Feed(m, Start, lines[..i], toFloat) == Ok(State(inSession, data, commands, sessions))
    {
      assert lines[..i + 1][..i] == lines[..i];
      ghost var before := State(inSession, data, commands, sessions);
      assert Feed(m, Start, lines[..i + 1], toFloat) == Step(m, before, lines[i], toFloat);
      var line := Strip(lines[i]);
      if StartsWith(line, m.attack) {
        inSession := true;
        data := Some(NoHeader);
        commands := [];
      } else if StartsWith(line, m.end) {
        if data.None? {
          FeedStopsAtError(m, Start, lines, i + 1, toFloat);
          return Err(UnboundSession);
        }
        sessions := sessions + [Session(data.value, ListField(commands))];
        inSession := false;
      } else if inSession {
        var next := SessionLine(m, data.value, commands, line, toFloat);
        if next.Err? {
          FeedStopsAtError(m, Start, lines, i + 1, toFloat);
          return Err(next.error);
        }
        data, commands := Some(next.value.0), next.value.1;
      }
    }
    assert lines[..|lines|] == lines;
    return Ok(sessions);
  }

  // ---------------------------------------------------------------------------
  // Properties
  // ---------------------------------------------------------------------------

  /** A line that is neither an opening nor a closing marker. */
  predicate Unmarked(m: Markers, raw: string) {
    !StartsWith(Strip(raw), m.attack) && !StartsWith(Strip(raw), m.end)
  }

  /** A closing marker (that is not also an opening one). */
  predicate IsClose(m: Markers, raw: string) {
    !StartsWith(Strip(raw), m.attack) && StartsWith(Strip(raw), m.end)
  }

  /** A line that starts with no known prefix: a command line. */
  predicate IsCommand(m: Markers, raw: string) {
    var line := Strip(raw);
    Unmarked(m, raw) && !StartsWith(line, m.connected) && !StartsWith(line, m.count)
    && !StartsWith(line, m.list) && !StartsWith(line, m.ip) && !StartsWith(line, m.duration)
  }

  function CountCloses(m: Markers, lines: seq<string>): nat
    decreases |lines|
  {
    if |lines| == 0 then 0
    else CountCloses(m, lines[..|lines| - 1]) + (if IsClose(m, lines[|lines| - 1]) then 1 else 0)
  }

  /** Every line stripped, as the loop reads it. */
  function Strips(lines: seq<string>): (r: seq<string>)
    ensures |r| == |lines|
    decreases |lines|
  {
    if |lines| == 0 then []
    else Strips(lines[..|lines| - 1]) + [Strip(lines[|lines| - 1])]
  }

  lemma FeedOne(m: Markers, s: State, raw: string, toFloat: FloatParser)
    requires Prefixes(m) && Valid(s)
    ensures Feed(m, s, [raw], toFloat) == Step(m, s, raw, toFloat)
  {
    assert [raw][..0] == [];
  }

  /** Reading `a + b` is reading `a`, then `b` from where `a` left off. */
  lemma {:induction false} FeedAppend(m: Markers, s: State, a: seq<string>, b: seq<string>, toFloat: FloatParser)
    requires Prefixes(m) && Valid(s)
    ensures Feed(m, s, a + b, toFloat) ==
              match Feed(m, s, a, toFloat)
              case Err(e) => Err(e)
              case Ok(t) => Feed(m, t, b, toFloat)
    decreases |b|
  {
    if |b| == 0 {
      assert a + b == a;
    } else {
      var b' := b[..|b| - 1];
      assert (a + b)[..|a + b| - 1] == a + b';
      assert (a + b)[|a + b| - 1] == b[|b| - 1];
      FeedAppend(m, s, a, b', toFloat);
    }
  }

  /** Outside a session, lines other than the markers are ignored. */
  lemma {:induction false} OutsideLinesIgnored(m: Markers, s: State, lines: seq<string>, toFloat: FloatParser)
    requires Prefixes(m) && Valid(s) && !s.inSession
    requires forall k :: 0 <= k < |lines| ==> Unmarked(m, lines[k])
    ensures Feed(m, s, lines, toFloat) == Ok(s)
    decreases |lines|
  {
    if |lines| > 0 {
      OutsideLinesIgnored(m, s, lines[..|lines| - 1], toFloat);
    }
  }

  /** Sessions are only ever appended, one for each closing marker; a session
      still open at the end of the input is not recorded. */
  lemma {:induction false} SessionPerClose(m: Markers, s: State, lines: seq<string>, toFloat: FloatParser)
    requires Prefixes(m) && Valid(s) && Feed(m, s, lines, toFloat).Ok?
    ensures var r := Feed(m, s, lines, toFloat).value;
            && |r.sessions| == |s.sessions| + CountCloses(m, lines)
            && r.sessions[..|s.sessions|] == s.sessions
    decreases |lines|
  {
    if |lines| > 0 {
      var init := lines[..|lines| - 1];
      SessionPerClose(m, s, init, toFloat);
      var t := Feed(m, s, init, toFloat).value;
      var r := Feed(m, s, lines, toFloat).value;
      assert t.sessions[..|s.sessions|] == s.sessions;
      if IsClose(m, lines[|lines| - 1]) {
        assert r.sessions == t.sessions + [r.sessions[|r.sessions| - 1]];
        assert r.sessions[..|s.sessions|] == t.sessions[..|s.sessions|];
      } else {
        assert r.sessions == t.sessions;
      }
    }
  }

  /** An opening marker inside or outside a session starts afresh: the header
      and the commands read so far are dropped. */
  lemma Restart(m: Markers, s: State, a: seq<string>, raw: string, b: seq<string>, toFloat: FloatParser)
    requires Prefixes(m) && Valid(s) && Feed(m, s, a, toFloat).Ok?
    requires StartsWith(Strip(raw), m.attack)
    ensures Feed(m, s, a + [raw] + b, toFloat)
            == Feed(m, State(true, Some(NoHeader), [], Feed(m, s, a, toFloat).value.sessions), b, toFloat)
  {
    FeedAppend(m, s, a + [raw], b, toFloat);
    FeedAppend(m, s, a, [raw], toFloat);
    FeedOne(m, Feed(m, s, a, toFloat).value, raw, toFloat);
  }

  lemma CommandStep(m: Markers, s: State, raw: string, toFloat: FloatParser)
    requires Prefixes(m) && s.inSession && s.data.Some? && IsCommand(m, raw)
    ensures Step(m, s, raw, toFloat) == Ok(s.(commands := s.commands + [Strip(raw)]))
  {
    StripIdempotent(raw);
  }

  lemma StripsSnoc(init: seq<string>, last: string)
    ensures Strips(init + [last]) == Strips(init) + [Strip(last)]
  {
    assert (init + [last])[..|init|] == init;
  }

  /** Feeding one more line is one more step. */
  lemma FeedSnoc(m: Markers, s: State, init: seq<string>, raw: string, toFloat: FloatParser)
    requires Prefixes(m) && Valid(s) && Feed(m, s, init, toFloat).Ok?
    ensures Feed(m, s, init + [raw], toFloat) == Step(m, Feed(m, s, init, toFloat).value, raw, toFloat)
  {
    assert (init + [raw])[..|init|] == init;
  }

  /** Inside a session, command lines are appended in order, blank lines
      included, each stripped. */
  lemma {:induction false} CommandsAppended(m: Markers, s: State, body: seq<string>, toFloat: FloatParser)
    requires Prefixes(m) && s.inSession && s.data.Some?
    requires forall k :: 0 <= k < |body| ==> IsCommand(m, body[k])
    ensures Feed(m, s, body, toFloat) == Ok(s.(commands := s.commands + Strips(body)))
    decreases |body|
  {
    if |body| == 0 {
      assert s.commands + Strips(body) == s.commands;
    } else {
      var init, last := body[..|body| - 1], body[|body| - 1];
      assert body == init + [last];
      CommandsAppended(m, s, init, toFloat);
      CommandSnoc(m, s, init, last, toFloat);
    }
  }

  lemma CommandSnoc(m: Markers, s: State, init: seq<string>, last: string, toFloat: FloatParser)
    requires Prefixes(m) && s.inSession && s.data.Some? && IsCommand(m, last)
    requires Feed(m, s, init, toFloat) == Ok(s.(commands := s.commands + Strips(init)))
    ensures Feed(m, s, init + [last], toFloat) == Ok(s.(commands := s.commands + Strips(init + [last])))
  {
    var t := s.(commands := s.commands + Strips(init));
    FeedSnoc(m, s, init, last, toFloat);
    CommandStep(m, t, last, toFloat);
    StripsSnoc(init, last);
    assert t.commands + [Strip(last)] == s.commands + Strips(init + [last]);
  }

  /** A block of command lines between the markers is recorded as one session
      with an empty header and the bracketed, comma-joined command list. */
  lemma SessionBlock(m: Markers, s: State, open: string, body: seq<string>, close: string, toFloat: FloatParser)
    requires Prefixes(m) && Valid(s)
    requires StartsWith(Strip(open), m.attack) && IsClose(m, close)
    requires forall k :: 0 <= k < |body| ==> IsCommand(m, body[k])
    ensures Feed(m, s, [open] + body + [close], toFloat)
            == Ok(State(false, Some(NoHeader), Strips(body),
                        s.sessions + [Session(NoHeader, ListField(Strips(body)))]))
  {
    var started := State(true, Some(NoHeader), [], s.sessions);
    FeedOne(m, s, open, toFloat);
    FeedAppend(m, s, [open], body, toFloat);
    CommandsAppended(m, started, body, toFloat);
    assert [] + Strips(body) == Strips(body);
    FeedAppend(m, s, [open] + body, [close], toFloat);
    FeedOne(m, started.(commands := Strips(body)), close, toFloat);
  }

  /** A session left open at the end of the input is dropped. */
  lemma UnclosedSessionDropped(m: Markers, a: seq<string>, open: string, body: seq<string>, toFloat: FloatParser)
    requires Prefixes(m) && Feed(m, Start, a, toFloat).Ok?
    requires StartsWith(Strip(open), m.attack)
    requires forall k :: 0 <= k < |body| ==> IsCommand(m, body[k])
    ensures ParseSessions(m, a + [open] + body, toFloat) == ParseSessions(m, a, toFloat)
  {
    var t := Feed(m, Start, a, toFloat).value;
    Restart(m, Start, a, open, body, toFloat);
    CommandsAppended(m, State(true, Some(NoHeader), [], t.sessions), body, toFloat);
  }

  /** A closing marker before any opening marker aborts the run. */
  lemma StrayClose(m: Markers, raw: string, rest: seq<string>, toFloat: FloatParser)
    requires Prefixes(m) && IsClose(m, raw)
    ensures ParseSessions(m, [raw] + rest, toFloat) == Err(UnboundSession)
  {
    var lines := [raw] + rest;
    assert lines[..1] == [raw];
    FeedOne(m, Start, raw, toFloat);
    FeedStopsAtError(m, Start, lines, 1, toFloat);
  }

  /** A closing marker records the open session and leaves it bound. */
  lemma CloseStep(m: Markers, s: State, raw: string, toFloat: FloatParser)
    requires Prefixes(m) && s.data.Some? && IsClose(m, raw)
    ensures Step(m, s, raw, toFloat)
            == Ok(State(false, s.data, s.commands, s.sessions + [Session(s.data.value, ListField(s.commands))]))
  {
  }

  /** A second closing marker records the same session again. */
  lemma DoubleClose(m: Markers, s: State, c1: string, c2: string, toFloat: FloatParser)
    requires Prefixes(m) && Valid(s) && s.data.Some? && IsClose(m, c1) && IsClose(m, c2)
    ensures var x := Session(s.data.value, ListField(s.commands));
            Feed(m, s, [c1, c2], toFloat) == Ok(State(false, s.data, s.commands, s.sessions + [x, x]))
  {
    var x := Session(s.data.value, ListField(s.commands));
    FeedOne(m, s, c1, toFloat);
    CloseStep(m, s, c1, toFloat);
    var t := State(false, s.data, s.commands, s.sessions + [x]);
    assert [c1] + [c2] == [c1, c2];
    FeedSnoc(m, s, [c1], c2, toFloat);
    CloseStep(m, t, c2, toFloat);
    assert t.sessions + [x] == s.sessions + [x, x];
  }

  /** A count that `int()` rejects aborts the whole run. */
  lemma BadCountAborts(m: Markers, a: seq<string>, raw: string, b: seq<string>, toFloat: FloatParser)
    requires Prefixes(m) && Feed(m, Start, a, toFloat).Ok? && Feed(m, Start, a, toFloat).value.inSession
    requires Unmarked(m, raw) && !StartsWith(Strip(raw), m.connected) && StartsWith(Strip(raw), m.count)
    requires PyInt(After(Strip(raw), m.count)).None?
    ensures ParseSessions(m, a + [raw] + b, toFloat) == Err(BadCount(After(Strip(raw), m.count)))
  {
    FeedAppend(m, Start, a + [raw], b, toFloat);
    FeedAppend(m, Start, a, [raw], toFloat);
    FeedOne(m, Feed(m, Start, a, toFloat).value, raw, toFloat);
  }

  /** Inside a session, a connection-time line sets that header field. */
  lemma ConnectedStep(m: Markers, s: State, raw: string, toFloat: FloatParser)
    requires Prefixes(m) && s.inSession && s.data.Some?
    requires Unmarked(m, raw) && StartsWith(Strip(raw), m.connected)
    ensures Step(m, s, raw, toFloat).Ok?
    ensures var t := Step(m, s, raw, toFloat).value;
            t.inSession && t.data.Some? && t.data.value.connected == Some(After(Strip(raw), m.connected))
  {
  }

  /** The line sets the command count: no earlier prefix matches it. */
  predicate SetsCount(m: Markers, line: string) {
    !StartsWith(line, m.connected) && StartsWith(line, m.count)
  }

  /** The line sets the attacker IP. */
  predicate SetsIp(m: Markers, line: string) {
    !StartsWith(line, m.connected) && !StartsWith(line, m.count) && !StartsWith(line, m.list)
    && StartsWith(line, m.ip)
  }

  /** The line sets the session duration. */
  predicate SetsDuration(m: Markers, line: string) {
    !StartsWith(line, m.connected) && !StartsWith(line, m.count) && !StartsWith(line, m.list)
    && !StartsWith(line, m.ip) && StartsWith(line, m.duration)
  }

  /** Inside a session, a count line stores `int()` of the text after the prefix,
      or aborts the run; the commands collected so far are left as they are and
      the count is never checked against them. */
  lemma CountStep(m: Markers, s: State, raw: string, toFloat: FloatParser)
    requires Prefixes(m) && s.inSession && s.data.Some?
    requires Unmarked(m, raw) && SetsCount(m, Strip(raw))
    ensures Step(m, s, raw, toFloat) ==
              match PyInt(After(Strip(raw), m.count))
              case None => Err(BadCount(After(Strip(raw), m.count)))
              case Some(n) => Ok(s.(data := Some(s.data.value.(count := Some(n)))))
  {
  }

  /** Inside a session, a header line sets its field from the text after its
      prefix and leaves the other fields and the commands as they are. */
  lemma HeaderStep(m: Markers, s: State, raw: string, toFloat: FloatParser)
    requires Prefixes(m) && s.inSession && s.data.Some? && Unmarked(m, raw)
    ensures var line := Strip(raw);
            SetsIp(m, line) ==>
              Step(m, s, raw, toFloat) == Ok(s.(data := Some(s.data.value.(ip := Some(After(line, m.ip))))))
    ensures var line := Strip(raw);
            SetsDuration(m, line) ==>
              Step(m, s, raw, toFloat) ==
                match toFloat(After(line, m.duration))
                case None => Err(BadDuration(After(line, m.duration)))
                case Some(d) => Ok(s.(data := Some(s.data.value.(duration := Some(d)))))
  {
  }

  /** A repeated header line overwrites the earlier value: after a second line
      for the same field, that field holds what the second line gives, whatever
      the first one set. */
  lemma RepeatedHeaderOverwrites(m: Markers, s: State, l1: string, l2: string, toFloat: FloatParser)
    requires Prefixes(m) && s.inSession && s.data.Some?
    requires Unmarked(m, l1) && Unmarked(m, l2)
    requires Feed(m, s, [l1, l2], toFloat).Ok?
    ensures Feed(m, s, [l1, l2], toFloat).value.data.Some?
    ensures var h := Feed(m, s, [l1, l2], toFloat).value.data.value;
            var line1, line2 := Strip(l1), Strip(l2);
            && (StartsWith(line1, m.connected) && StartsWith(line2, m.connected) ==>
                  h.connected == Some(After(line2, m.connected)))
            && (SetsCount(m, line1) && SetsCount(m, line2) ==> h.count == PyInt(After(line2, m.count)))
            && (SetsIp(m, line1) && SetsIp(m, line2) ==> h.ip == Some(After(line2, m.ip)))
            && (SetsDuration(m, line1) && SetsDuration(m, line2) ==>
                  h.duration == toFloat(After(line2, m.duration)))
  {
    FeedOne(m, s, l1, toFloat);
    assert [l1] + [l2] == [l1, l2];
    InSessionStep(m, s, l1, toFloat);
    FeedSnoc(m, s, [l1], l2, toFloat);
    var t := Step(m, s, l1, toFloat).value;
    if StartsWith(Strip(l2), m.connected) {
      ConnectedStep(m, t, l2, toFloat);
    } else if SetsCount(m, Strip(l2)) {
      CountStep(m, t, l2, toFloat);
    } else {
      HeaderStep(m, t, l2, toFloat);
    }
  }

  /** A line that is not a marker keeps the session open and its header bound. */
  lemma InSessionStep(m: Markers, s: State, raw: string, toFloat: FloatParser)
    requires Prefixes(m) && s.inSession && s.data.Some? && Unmarked(m, raw)
    ensures Step(m, s, raw, toFloat).Ok? ==>
              Step(m, s, raw, toFloat).value.inSession && Step(m, s, raw, toFloat).value.data.Some?
  {
  }

  /** The command list is not quoted: a command holding ", " reads the same as
      two commands. */
  lemma ListFieldUnquoted(a: string, b: string)
    ensures ListField([a + ", " + b]) == ListField([a, b])
  {
    JoinCons(", ", a, [b]);
    assert [a] + [b] == [a, b];
  }
}
