/** The command-line loop of mitm.js (lines 8-21): `--key=value` and `--key value`
    options are read into a flat configuration object, with the strings `true`,
    `false` and numbers turned into booleans and numbers. */
module CliArgs {
  import opened Wrappers
  import opened Text

  const Equals: char := '='
  /** 2^53: up to this magnitude every integer is a JavaScript number exactly. */
  const MaxSafeMagnitude: int := 0x20_0000_0000_0000
  const OptionPrefix: string := "--"

  /** What the parser stores under a key. */
  datatype Value = Bool(b: bool) | Num(n: int) | Str(s: string)

  /** The value before conversion: the boolean `true` of a bare flag, or a string. */
  datatype Raw = Flag | Given(s: string)

  /** One option: its key, its value, and the index of the argument after it. */
  datatype Assignment = Assignment(key: string, raw: Raw, next: nat)

  type Config = map<string, Value>

  // ---------------------------------------------------------------------------
  // Conversion (lines 16-19)
  // ---------------------------------------------------------------------------

  /** `Number(s)` for a string that `isNaN` accepts, restricted to decimal
      integers: blank text is 0, surrounding whitespace is ignored. */
  function NumberOf(s: string): Option<int> {
    if IsBlank(s) then Some(0) else ParseInt(Strip(s))
  }

  /** The `if` chain of lines 16-19. A bare flag's `true` passes `!isNaN(true)`
      and is stored as `Number(true)`, that is 1. */
  function Coerce(raw: Raw): (v: Value)
    ensures v.Bool? <==> raw == Given("true") || raw == Given("false")
    ensures v.Str? ==> raw.Given? && v.s == raw.s
    ensures v.Str? <==> raw.Given? && raw.s != "true" && raw.s != "false"
                        && (raw.s == "" || NumberOf(raw.s).None?)
    ensures v.Num? ==> (raw == Flag && v.n == 1) || (raw.Given? && NumberOf(raw.s) == Some(v.n))
    ensures raw.Given? && raw.s == "" ==> v == Str("")
  {
    match raw
    case Flag => Num(1)
    case Given(s) =>
      if s == "true" then Bool(true)
      else if s == "false" then Bool(false)
      else if s != "" && NumberOf(s).Some? then Num(NumberOf(s).value)
      else Str(s)
  }

  // ---------------------------------------------------------------------------
  // The loop (lines 8-14)
  // ---------------------------------------------------------------------------

  /** `s.split(c)` of a text holding `c` has at least two parts. */
  lemma SplitTwoParts(s: string, c: char)
    requires c in s
    ensures |Split(s, [c])| >= 2
  {
    var k :| 0 <= k < |s| && s[k] == c;
    assert OccursAt(s, [c], k);
    var j := IndexOf(s, [c]).value;
    assert forall m :: 0 <= m < j ==> !OccursAt(s, [c], m);
    assert forall m :: 0 <= m < j && s[m] == c ==> OccursAt(s, [c], m);
    assert s == s[..j] + [c] + s[j + 1..];
    SplitAtFirst(s[..j], c, s[j + 1..]);
  }

  /** The option read at index `i`, or `None` for an argument that does not
      start with `--`. With a `=`, key and value are the first two parts of
      `substring(2).split('=', 2)`. Without one, the next argument is the value
      when it exists, is not empty and does not start with `--`; otherwise the
      value is `true`. */
  function OptionAt(args: seq<string>, i: nat): (r: Option<Assignment>)
    requires i < |args|
    ensures r.Some? <==> StartsWith(args[i], OptionPrefix)
    ensures r.Some? ==> i < r.value.next <= |args| && r.value.next <= i + 2
    ensures r.Some? && r.value.next == i + 2 ==> r.value.raw == Given(args[i + 1])
  {
    var arg := args[i];
    if !StartsWith(arg, OptionPrefix) then None
    else if Equals in arg then
      var rest := arg[2..];
      assert arg == arg[..2] + rest;
      SplitTwoParts(rest, Equals);
      var parts := Split(rest, [Equals]);
      Some(Assignment(parts[0], Given(parts[1]), i + 1))
    else if i + 1 < |args| && args[i + 1] != "" && !StartsWith(args[i + 1], OptionPrefix) then
      Some(Assignment(arg[2..], Given(args[i + 1]), i + 2))
    else
      Some(Assignment(arg[2..], Flag, i + 1))
  }

  /** The configuration after reading the arguments from index `i` on into `config`. */
  function ParseFrom(args: seq<string>, i: nat, config: Config): Config
    requires i <= |args|
    decreases |args| - i
  {
    if i == |args| then config
    else
      match OptionAt(args, i)
      case None => ParseFrom(args, i + 1, config)
      case Some(a) => ParseFrom(args, a.next, config[a.key := Coerce(a.raw)])
  }

  function Parse(args: seq<string>): Config {
    ParseFrom(args, 0, map[])
  }

  /** The loop of lines 8-21, with the `++i` that consumes a flag's value. */
  method ParseArgs(args: seq<string>) returns (config: Config)
    ensures config == Parse(args)
  {
    config := map[];
    var i := 0;
    while i < |args|
      invariant i <= |args|
      invariant ParseFrom(args, i, config) == Parse(args)
      decreases |args| - i
    {
      var arg := args[i];
      if StartsWith(arg, OptionPrefix) {
        var key: string, value: Raw;
        if Equals in arg {
          var rest := arg[2..];
          assert arg == arg[..2] + rest;
          SplitTwoParts(rest, Equals);
          var parts := Split(rest, [Equals]);
          key, value := parts[0], Given(parts[1]);
        } else if i + 1 < |args| && args[i + 1] != "" && !StartsWith(args[i + 1], OptionPrefix) {
          i := i + 1;
          key, value := arg[2..], Given(args[i]);
        } else {
          key, value := arg[2..], Flag;
        }
        config := config[key := Coerce(value)];
      }
      i := i + 1;
    }
  }

  // ---------------------------------------------------------------------------
  // Properties
  // ---------------------------------------------------------------------------

  /** `--key=value`: the key runs up to the first `=`, the value up to the next
      one, and whatever follows a second `=` is dropped. */
  lemma KeyValueOption(args: seq<string>, i: nat, key: string, v: string, tail: string)
    requires i < |args| && args[i] == OptionPrefix + key + [Equals] + v + tail
    requires Equals !in key && Equals !in v
    requires tail == [] || tail[0] == Equals
    ensures OptionAt(args, i) == Some(Assignment(key, Given(v), i + 1))
  {
    var arg := args[i];
    assert arg[..2] == OptionPrefix;
    assert arg[|OptionPrefix| + |key|] == Equals;
    var rest := arg[2..];
    assert rest == key + [Equals] + (v + tail);
    SplitAtFirst(key, Equals, v + tail);
    if tail == [] {
      assert v + tail == v;
      SplitNoChar(v, Equals);
    } else {
      SplitAtLeading(v, Equals, tail);
    }
  }

  /** `--key value`: the next argument is taken as the value exactly when it
      exists, is not empty and does not start with `--`; the bare flag is `true`
      otherwise. */
  lemma BareFlag(args: seq<string>, i: nat)
    requires i < |args| && StartsWith(args[i], OptionPrefix) && Equals !in args[i]
    ensures OptionAt(args, i).value.key == args[i][2..]
    ensures var consumes := i + 1 < |args| && args[i + 1] != "" && !StartsWith(args[i + 1], OptionPrefix);
            && (consumes ==> OptionAt(args, i).value == Assignment(args[i][2..], Given(args[i + 1]), i + 2))
            && (!consumes ==> OptionAt(args, i).value == Assignment(args[i][2..], Flag, i + 1))
  {
  }

  lemma OptionAtShift(a: string, args: seq<string>, i: nat)
    requires i < |args|
    ensures OptionAt([a] + args, i + 1) ==
              match OptionAt(args, i)
              case None => None
              case Some(x) => Some(Assignment(x.key, x.raw, x.next + 1))
  {
    var s := [a] + args;
    assert s[i + 1] == args[i];
    assert i + 2 < |s| ==> s[i + 2] == args[i + 1];
  }

  lemma {:induction false} ParseFromShift(a: string, args: seq<string>, i: nat, config: Config)
    requires i <= |args|
    ensures ParseFrom([a] + args, i + 1, config) == ParseFrom(args, i, config)
    decreases |args| - i
  {
    if i < |args| {
      OptionAtShift(a, args, i);
      match OptionAt(args, i)
      case None =>
        ParseFromShift(a, args, i + 1, config);
      case Some(x) =>
        ParseFromShift(a, args, x.next, config[x.key := Coerce(x.raw)]);
    }
  }

  /** An argument that does not start with `--` and is not taken as a value is
      ignored. */
  lemma NonOptionIgnored(a: string, args: seq<string>)
    requires !StartsWith(a, OptionPrefix)
    ensures Parse([a] + args) == Parse(args)
  {
    assert ([a] + args)[0] == a;
    ParseFromShift(a, args, 0, map[]);
  }

  lemma OptionAtExtend(args: seq<string>, opt: string, i: nat)
    requires i < |args| && StartsWith(opt, OptionPrefix)
    ensures OptionAt(args + [opt], i) == OptionAt(args, i)
  {
    var s := args + [opt];
    assert s[i] == args[i];
    assert i + 1 < |s| ==> s[i + 1] == if i + 1 < |args| then args[i + 1] else opt;
  }

  lemma {:induction false} ParseFromExtend(args: seq<string>, opt: string, i: nat, config: Config)
    requires i <= |args| && StartsWith(opt, OptionPrefix)
    ensures var a := OptionAt([opt], 0).value;
            ParseFrom(args + [opt], i, config) == ParseFrom(args, i, config)[a.key := Coerce(a.raw)]
    decreases |args| - i
  {
    var s := args + [opt];
    if i == |args| {
      assert s[i] == opt;
      assert OptionAt(s, i) == match OptionAt([opt], 0) case Some(a) => Some(Assignment(a.key, a.raw, i + 1)) case None => None;
    } else {
      OptionAtExtend(args, opt, i);
      match OptionAt(args, i)
      case None =>
        ParseFromExtend(args, opt, i + 1, config);
      case Some(x) =>
        ParseFromExtend(args, opt, x.next, config[x.key := Coerce(x.raw)]);
    }
  }

  /** Options apply in order: a final option sets its key over whatever the
      earlier arguments stored there, and leaves every other key as it was. */
  lemma LaterOptionWins(args: seq<string>, opt: string)
    requires StartsWith(opt, OptionPrefix)
    ensures var a := OptionAt([opt], 0).value;
            Parse(args + [opt]) == Parse(args)[a.key := Coerce(a.raw)]
  {
    ParseFromExtend(args, opt, 0, map[]);
  }

  /** A repeated `--key=value` keeps the last value. */
  lemma RepeatedKeyOverwrites(args: seq<string>, key: string, v: string)
    requires Equals !in key && Equals !in v
    ensures Parse(args + [OptionPrefix + key + [Equals] + v]) == Parse(args)[key := Coerce(Given(v))]
  {
    var opt := OptionPrefix + key + [Equals] + v;
    assert opt == OptionPrefix + key + [Equals] + v + [];
    KeyValueOption([opt], 0, key, v, []);
    assert opt[..2] == OptionPrefix;
    LaterOptionWins(args, opt);
  }

  /** The strings `true` and `false` become booleans. */
  lemma CoerceBooleans()
    ensures Coerce(Given("true")) == Bool(true) && Coerce(Given("false")) == Bool(false)
  {
  }

  /** A bare flag is stored as the number 1, an empty value as the empty string. */
  lemma CoerceFlagAndEmpty()
    ensures Coerce(Flag) == Num(1)
    ensures Coerce(Given("")) == Str("")
  {
  }

  /** The decimal text of an integer that a double holds exactly comes back as
      that integer. */
  lemma CoerceInteger(n: int)
    requires -MaxSafeMagnitude <= n <= MaxSafeMagnitude
    ensures Coerce(Given(IntToString(n))) == Num(n)
  {
    var s := IntToString(n);
    IntToStringRoundTrip(n);
    assert s[0] == '-' || IsDigit(s[0]);
    assert IsDigit(s[|s| - 1]);
    assert !IsBlank(s) by { assert !IsSpace(s[0]); }
    StripUnspaced(s);
    assert s != "true" by { assert "true"[0] == 't'; }
    assert s != "false" by { assert "false"[0] == 'f'; }
  }

  /** An ASCII character that no JavaScript numeric literal contains: not
      whitespace, a letter, a digit, a sign or a point (such as '/', ':' or ','). */
  predicate OutsideNumberSyntax(c: char) {
    c < '\U{80}' && !IsSpace(c) && !IsDigit(c) && !('a' <= c <= 'z') && !('A' <= c <= 'Z')
    && c != '+' && c != '-' && c != '.'
  }

  /** A value holding such a character (a path, say) is NaN, so it is stored as
      the text itself. */
  lemma CoerceNonNumeric(s: string, k: nat)
    requires s != "true" && s != "false"
    requires k < |s| && OutsideNumberSyntax(s[k])
    ensures Coerce(Given(s)) == Str(s)
  {
    NotANumber(s, k);
  }

  /** A value with two points (an IP address, say) is NaN, so it is stored as
      the text itself. */
  lemma CoerceTwoPoints(s: string, i: nat, j: nat)
    requires i < j < |s| && s[i] == '.' && s[j] == '.'
    ensures Coerce(Given(s)) == Str(s)
  {
    NoPointInBooleans(s, i);
    NotANumber(s, i);
  }

  lemma NoPointInBooleans(s: string, i: nat)
    requires i < |s| && s[i] == '.'
    ensures s != "true" && s != "false"
  {
    assert forall k :: 0 <= k < |"true"| ==> "true"[k] != '.';
    assert forall k :: 0 <= k < |"false"| ==> "false"[k] != '.';
  }

  lemma NotANumber(s: string, k: nat)
    requires k < |s| && !IsSpace(s[k]) && !IsDigit(s[k]) && s[k] != '+' && s[k] != '-'
    ensures NumberOf(s).None?
  {
    StripKeeps(s, k);
    var j :| 0 <= j < |Strip(s)| && Strip(s)[j] == s[k];
    ParseIntRejects(Strip(s), j);
  }

  lemma ParseIntRejects(t: string, j: nat)
    requires j < |t| && !IsDigit(t[j]) && t[j] != '+' && t[j] != '-'
    ensures ParseInt(t).None?
  {
    if t[0] == '-' || t[0] == '+' {
      assert t[1..][j - 1] == t[j];
    }
  }

  /** Non-empty whitespace is `Number('  ') == 0`. */
  lemma CoerceBlank(s: string)
    requires s != "" && IsBlank(s)
    ensures Coerce(Given(s)) == Num(0)
  {
    assert !IsSpace('t') && !IsSpace('f');
    assert s != "true" by { assert "true"[0] == 't'; }
    assert s != "false" by { assert "false"[0] == 'f'; }
  }
}
