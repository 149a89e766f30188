/** The body of the entry loop of `process_single_file`
    (data_collection/data_collection_optimized.py, lines 248-306): one decoded log
    entry becomes one CSV row, or a failure when the entry is not a dict or its
    commands have no length. */
module Normalize {
  import opened Wrappers
  import opened Text
  import opened Json
  import opened Commands

  /** Durations above this many milliseconds are reported as errors. */
  const MaxDurationMs: int := 600000

  /** One CSV row, in the order of the header. Fields copied from the entry keep
      their JSON value (the CSV writer prints them with `str()`); `commands` is the
      list that `json.dumps` serialises into its cell. */
  datatype Row = Row(
    timestamp: JsonValue,
    honeypotName: JsonValue,
    attackerIp: JsonValue,
    publicIp: JsonValue,
    language: JsonValue,
    login: JsonValue,
    connectTime: JsonValue,
    disconnectTime: JsonValue,
    durationMs: string,
    numCommands: string,
    commands: seq<JsonValue>,
    avgTimeBetweenCommands: JsonValue,
    isBot: string,
    isNoninteractive: string,
    disconnectReason: JsonValue,
    timeToLastCommandMs: string)

  /** One line of the validation log, without its wall-clock stamp. */
  datatype Diagnostic = InvalidDuration(durationMs: int, file: string, honeypot: string, ip: string)

  /** A converted entry and what it adds to the per-file counters. */
  datatype Converted = Converted(row: Row, split: bool, fixed: bool, diagnostic: Option<Diagnostic>)

  /** `entry.get(key, default)` on a dict. */
  function Field(members: seq<(string, JsonValue)>, key: string, default: JsonValue): JsonValue {
    Get(JObj(members), key, default).value
  }

  /** `entry.get('duration_ms') or entry.get('duration', 0)`. */
  function RawDuration(members: seq<(string, JsonValue)>): JsonValue {
    var ms := Field(members, "duration_ms", JNull);
    if Truthy(ms) then ms else Field(members, "duration", JInt(0))
  }

  /** `int()` of the raw duration, 0 when that raises ValueError or TypeError. */
  function Duration(members: seq<(string, JsonValue)>): int {
    IntOf(RawDuration(members)).GetOr(0)
  }

  predicate DurationInRange(d: int) {
    0 <= d <= MaxDurationMs
  }

  /** The command list of the entry as `len` and iteration see it. */
  function CommandItems(members: seq<(string, JsonValue)>): Option<seq<JsonValue>> {
    Iterated(Field(members, "commands", JArr([])))
  }

  /** `str(entry.get(key, '')).lower()`. */
  function LoweredText(members: seq<(string, JsonValue)>, key: string, render: JsonValue -> string): string {
    Lower(PyStr(Field(members, key, JStr("")), render))
  }

  /** One pass of the entry loop. `None` stands for the exception that the loop
      catches and counts as a failed entry. */
  function ProcessEntry(entry: JsonValue, logFile: string, mitmTime: nat, render: JsonValue -> string): (r: Option<Converted>)
    ensures r.Some? <==> entry.JObj? && CommandItems(entry.members).Some?
  {
    match Get(entry, "commands", JArr([]))
    case None => None
    case Some(listed) =>
      var members := entry.members;
      assert listed == Field(members, "commands", JArr([]));
      (match Iterated(listed)
       case None => None
       case Some(items) =>
         var commands := SplitBySemicolons(items);
         var original := Field(members, "num_commands", JInt(0));
         var d := Duration(members);
         var diagnostic :=
           if DurationInRange(d) then None
           else Some(InvalidDuration(d, logFile,
                                     PyStr(Field(members, "honeypot_name", JStr("N/A")), render),
                                     PyStr(Field(members, "attacker_ip", JStr("N/A")), render)));
         var row := Row(
           Field(members, "timestamp", JStr("")),
           Field(members, "honeypot_name", JStr("")),
           Field(members, "attacker_ip", JStr("")),
           Field(members, "public_ip", JStr("")),
           Field(members, "language", JStr("")),
           Field(members, "login", JStr("")),
           Field(members, "connect_time", JStr("")),
           Field(members, "disconnect_time", JStr("")),
           IntToString(d),
           IntToString(|commands|),
           commands,
           Field(members, "avg_time_between_commands", JStr("")),
           LoweredText(members, "is_bot", render),
           LoweredText(members, "is_noninteractive", render),
           Field(members, "disconnect_reason", JStr("")),
           IntToString(mitmTime));
         Some(Converted(row, |commands| != |items|, !EqualsInt(original, |commands|), diagnostic)))
  }

  // ---------------------------------------------------------------------------
  // Properties of one entry
  // ---------------------------------------------------------------------------

  /** What a converted entry's row and counters say: the commands are the split
      list and `num_commands` reads back as its length; the duration and the
      transcript time read back as numbers; `split` and `fixed` are set exactly
      when the split changed the length and when the length differs from the
      entry's `num_commands`; and a validation-log line is written exactly when the
      duration is out of range, while the row is emitted either way. */
  lemma ConvertedEntry(entry: JsonValue, logFile: string, mitmTime: nat, render: JsonValue -> string)
    requires ProcessEntry(entry, logFile, mitmTime, render).Some?
    ensures var c := ProcessEntry(entry, logFile, mitmTime, render).value;
            var items := CommandItems(entry.members).value;
            var d := Duration(entry.members);
            && c.row.commands == SplitBySemicolons(items)
            && ParseInt(c.row.numCommands) == Some(|c.row.commands|)
            && ParseInt(c.row.durationMs) == Some(d)
            && ParseInt(c.row.timeToLastCommandMs) == Some(mitmTime)
            && (c.split <==> |c.row.commands| != |items|)
            && (c.fixed <==> !EqualsInt(Field(entry.members, "num_commands", JInt(0)), |c.row.commands|))
            && (c.diagnostic.Some? <==> !DurationInRange(d))
            && (c.diagnostic.Some? ==> c.diagnostic.value.durationMs == d && c.diagnostic.value.file == logFile)
  {
    var items := CommandItems(entry.members).value;
    IntToStringRoundTrip(Duration(entry.members));
    IntToStringRoundTrip(|SplitBySemicolons(items)|);
    IntToStringRoundTrip(mitmTime);
  }

  /** The commands of every row are free of `;`, and converting them again would
      change nothing. */
  lemma RowCommandsSplitOnce(entry: JsonValue, logFile: string, mitmTime: nat, render: JsonValue -> string)
    requires ProcessEntry(entry, logFile, mitmTime, render).Some?
    ensures SemicolonFree(ProcessEntry(entry, logFile, mitmTime, render).value.row.commands)
    ensures var cmds := ProcessEntry(entry, logFile, mitmTime, render).value.row.commands;
            SplitBySemicolons(cmds) == cmds
  {
    var items := CommandItems(entry.members).value;
    SplitIsSemicolonFree(items);
    SplitIdempotent(items);
  }

  /** An entry whose commands hold no `;`-string is never counted as split, and
      keeps its commands as they are. */
  lemma UnsplitEntry(entry: JsonValue, logFile: string, mitmTime: nat, render: JsonValue -> string)
    requires entry.JObj? && CommandItems(entry.members).Some?
    requires SemicolonFree(CommandItems(entry.members).value)
    ensures ProcessEntry(entry, logFile, mitmTime, render).Some?
    ensures !ProcessEntry(entry, logFile, mitmTime, render).value.split
    ensures ProcessEntry(entry, logFile, mitmTime, render).value.row.commands == CommandItems(entry.members).value
  {
    SplitKeepsFree(CommandItems(entry.members).value);
  }

  /** A truthy `duration_ms`, whatever its type, wins over `duration`: the
      duration is `int()` of it, or 0 when `int()` raises. */
  lemma DurationPrefersMs(members: seq<(string, JsonValue)>, v: JsonValue)
    requires Lookup(members, "duration_ms") == Some(v) && Truthy(v)
    ensures RawDuration(members) == v
    ensures Duration(members) == IntOf(v).GetOr(0)
  {
  }

  /** A missing or falsy `duration_ms` falls back to `duration`, 0 when that key
      is missing too. */
  lemma DurationFallsBack(members: seq<(string, JsonValue)>)
    requires Lookup(members, "duration_ms").None? || !Truthy(Lookup(members, "duration_ms").value)
    ensures RawDuration(members) == Field(members, "duration", JInt(0))
    ensures Duration(members) == IntOf(Field(members, "duration", JInt(0))).GetOr(0)
  {
  }

  /** Without either key, or with a value `int()` rejects, the duration is 0. */
  lemma DurationDefaultsToZero(members: seq<(string, JsonValue)>)
    requires (Lookup(members, "duration_ms").None? && Lookup(members, "duration").None?)
             || IntOf(RawDuration(members)).None?
    ensures Duration(members) == 0
  {
  }
}
