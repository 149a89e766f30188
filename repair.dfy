/** Repair of near-JSON log text before parsing (`fix_json_content`): a trailing-comma
    substitution over the whole text, then a per-line rebuild of `"commands": [...]`
    arrays driven by a quote-aware character scanner. The regular expressions are
    modelled as direct string functions, together with the escape processing that
    Python's `re.sub` applies to its replacement text. */
module Repair {
  import opened Wrappers
  import opened Text

  // ---------------------------------------------------------------------------
  // Fix 1: `re.sub(r',(\s*[\]}])', r'\1', content)`
  // ---------------------------------------------------------------------------

  predicate IsCloser(c: char) {
    c == ']' || c == '}'
  }

  /** `s` starts with a match of `,(\s*[\]}])`: a comma whose first non-whitespace
      successor is a closing bracket. The greedy `\s*` cannot backtrack to a shorter
      run with success, since a shorter run is followed by whitespace. */
  predicate TrailingCommaAt(s: string) {
    |s| > 0 && s[0] == ',' && 1 + SpaceLength(s[1..]) < |s| && IsCloser(s[1 + SpaceLength(s[1..])])
  }

  /** The substitution: each match is replaced by its group (the whitespace and the
      bracket), and the scan resumes after the bracket. */
  function StripTrailingCommas(s: string): string
    decreases |s|
  {
    if |s| == 0 then ""
    else if TrailingCommaAt(s) then
      var end := 2 + SpaceLength(s[1..]);
      s[1..end] + StripTrailingCommas(s[end..])
    else [s[0]] + StripTrailingCommas(s[1..])
  }

  /** Reference definition: drop exactly the commas of the ORIGINAL text whose next
      non-whitespace character is a closing bracket, and keep everything else. */
  function DropTrailingCommas(s: string): string
    decreases |s|
  {
    if |s| == 0 then ""
    else (if TrailingCommaAt(s) then "" else [s[0]]) + DropTrailingCommas(s[1..])
  }

  lemma {:induction false} DropCommaFree(p: string, t: string)
    requires ',' !in p
    ensures DropTrailingCommas(p + t) == p + DropTrailingCommas(t)
    decreases |p|
  {
    if |p| == 0 {
      assert p + t == t;
    } else {
      assert p[0] in p;
      assert (p + t)[0] == p[0];
      assert (p + t)[1..] == p[1..] + t;
      assert DropTrailingCommas(p + t) == [p[0]] + DropTrailingCommas(p[1..] + t);
      DropCommaFree(p[1..], t);
      HeadTail(p, DropTrailingCommas(t));
    }
  }

  lemma HeadTail<T>(p: seq<T>, d: seq<T>)
    requires |p| > 0
    ensures [p[0]] + (p[1..] + d) == p + d
  {
    assert [p[0]] + p[1..] == p;
  }

  /** The single left-to-right pass removes a comma exactly when, in the text it was
      given, the comma is followed by optional whitespace and `]` or `}`. A match
      never swallows a comma, so no decision depends on an earlier removal. */
  lemma {:induction false} StripIsDrop(s: string)
    ensures StripTrailingCommas(s) == DropTrailingCommas(s)
    decreases |s|
  {
    if |s| > 0 {
      if TrailingCommaAt(s) {
        var end := 2 + SpaceLength(s[1..]);
        StripIsDrop(s[end..]);
        var t := s[1..];
        forall j | 1 <= j < end
          ensures s[j] != ','
        {
          assert s[j] == t[j - 1];
        }
        DropCommaFree(s[1..end], s[end..]);
        assert s[1..] == s[1..end] + s[end..];
      } else {
        StripIsDrop(s[1..]);
      }
    }
  }

  /** Only commas are removed: every other character keeps its count. */
  lemma {:induction false} DropKeepsOtherChars(s: string, c: char)
    requires c != ','
    ensures CountChar(DropTrailingCommas(s), c) == CountChar(s, c)
    decreases |s|
  {
    if |s| > 0 {
      DropKeepsOtherChars(s[1..], c);
      var head := if TrailingCommaAt(s) then "" else [s[0]];
      CountCharAppend(head, DropTrailingCommas(s[1..]), c);
      assert CountChar(head, c) == (if s[0] == c then 1 else 0);
    }
  }

  /** Fix 1 keeps every character other than a comma, in particular every line break,
      so the text keeps its number of lines. */
  lemma StripTrailingCommasKeepsOtherChars(s: string, c: char)
    requires c != ','
    ensures CountChar(StripTrailingCommas(s), c) == CountChar(s, c)
    ensures |Split(StripTrailingCommas(s), [c])| == |Split(s, [c])|
  {
    StripIsDrop(s);
    DropKeepsOtherChars(s, c);
    SplitCharCount(s, c);
    SplitCharCount(StripTrailingCommas(s), c);
  }

  /** The pass is not idempotent: "[1,,]" becomes "[1,]", which becomes "[1]". */
  lemma StripTrailingCommasNotIdempotent()
    ensures StripTrailingCommas("[1,,]") == "[1,]"
    ensures StripTrailingCommas("[1,]") == "[1]"
  {
    StripDoubleComma();
    StripInList(",,]", ",]");
    StripInList(",]", "]");
    ListLiterals();
  }

  lemma ListLiterals()
    ensures "[1" + ",,]" == "[1,,]" && "[1" + ",]" == "[1,]" && "[1" + "]" == "[1]"
  {
  }

  lemma StripInList(t: string, u: string)
    requires StripTrailingCommas(t) == u
    ensures StripTrailingCommas("[1" + t) == "[1" + u
  {
    StripAfterPlain("[1", t);
  }

  /** Text without commas passes through the pass unchanged. */
  lemma StripAfterPlain(p: string, t: string)
    requires ',' !in p
    ensures StripTrailingCommas(p + t) == p + StripTrailingCommas(t)
  {
    StripIsDrop(p + t);
    StripIsDrop(t);
    DropCommaFree(p, t);
  }

  /** `,]` loses its comma; in `,,]` only the second comma is followed by `]`. */
  lemma StripDoubleComma()
    ensures StripTrailingCommas(",]") == "]"
    ensures StripTrailingCommas(",,]") == ",]"
  {
    var one := ",]";
    assert SpaceLength(one[1..]) == 0 by { assert !IsSpace(one[1]); }
    assert TrailingCommaAt(one);
    assert one[1..2] == "]" && one[2..] == "";
    var two := ",,]";
    assert SpaceLength(two[1..]) == 0 by { assert !IsSpace(two[1]); }
    assert !TrailingCommaAt(two);
    assert two[1..] == one;
  }

  // ---------------------------------------------------------------------------
  // Replacement templates of `re.sub`
  // ---------------------------------------------------------------------------

  predicate IsAsciiLetter(c: char) {
    'a' <= c <= 'z' || 'A' <= c <= 'Z'
  }

  /** The text that Python's template parser substitutes for a backslash followed by
      `c`: the known escapes, `None` for the errors (an unknown ASCII-letter escape,
      and digits, which would be group references or octal escapes), and the two
      characters unchanged for anything else, so that `\"` stays `\"`. */
  function EscapeText(c: char): (r: Option<string>)
    ensures c == '\\' ==> r == Some("\\")
    ensures c == '"' ==> r == Some("\\\"")
    ensures IsDigit(c) ==> r.None?
  {
    if c == '\\' then Some("\\")
    else if c == 'a' then Some("\U{7}")
    else if c == 'b' then Some("\U{8}")
    else if c == 'f' then Some("\U{c}")
    else if c == 'n' then Some("\n")
    else if c == 'r' then Some("\r")
    else if c == 't' then Some("\t")
    else if c == 'v' then Some("\U{b}")
    else if IsAsciiLetter(c) || IsDigit(c) then None
    else Some(['\\', c])
  }

  function Prepend(p: string, o: Option<string>): (r: Option<string>)
    ensures r.Some? <==> o.Some?
  {
    match o
    case None => None
    case Some(x) => Some(p + x)
  }

  /** Escape processing of a replacement template that has no group references;
      `None` stands for the `re.error` it raises. */
  function ExpandTemplate(t: string): Option<string>
    decreases |t|
  {
    if |t| == 0 then Some("")
    else if t[0] != '\\' then Prepend([t[0]], ExpandTemplate(t[1..]))
    else if |t| == 1 then None
    else
      match EscapeText(t[1])
      case None => None
      case Some(e) => Prepend(e, ExpandTemplate(t[2..]))
  }

  /** A template made only of plain characters, `\\` and `\"`. */
  predicate Safe(t: string)
    decreases |t|
  {
    if |t| == 0 then true
    else if t[0] != '\\' then Safe(t[1..])
    else |t| >= 2 && (t[1] == '\\' || t[1] == '"') && Safe(t[2..])
  }

  /** A safe template expands without error, piece by piece. */
  lemma {:induction false} ExpandSafeAppend(a: string, b: string)
    requires Safe(a) && ExpandTemplate(b).Some?
    ensures ExpandTemplate(a + b).Some? && ExpandTemplate(a).Some?
    ensures ExpandTemplate(a + b).value == ExpandTemplate(a).value + ExpandTemplate(b).value
    decreases |a|
  {
    if |a| == 0 {
      assert a + b == b;
    } else if a[0] != '\\' {
      ExpandSafeAppend(a[1..], b);
      PlainAppendStep(a[0], a[1..], b);
      assert a == [a[0]] + a[1..];
    } else {
      ExpandSafeAppend(a[2..], b);
      EscapeAppendStep(a[1], a[2..], b);
      assert a == ['\\', a[1]] + a[2..];
    }
  }

  /** A plain character expands to itself in front of `t + b` as in front of `t`. */
  lemma PlainAppendStep(c: char, t: string, b: string)
    requires c != '\\'
    requires ExpandTemplate(t + b).Some? && ExpandTemplate(t).Some? && ExpandTemplate(b).Some?
    requires ExpandTemplate(t + b).value == ExpandTemplate(t).value + ExpandTemplate(b).value
    ensures ExpandTemplate([c] + t + b).Some? && ExpandTemplate([c] + t).Some?
    ensures ExpandTemplate([c] + t + b).value == ExpandTemplate([c] + t).value + ExpandTemplate(b).value
  {
    assert ([c] + t)[1..] == t;
    assert ([c] + t + b)[1..] == t + b;
    var x, y := ExpandTemplate(t).value, ExpandTemplate(b).value;
    ConcatAssoc([c], x, y);
  }

  /** A safe escape `\\` or `\"` expands the same in front of `t + b` as in front of `t`. */
  lemma EscapeAppendStep(d: char, t: string, b: string)
    requires d == '\\' || d == '"'
    requires ExpandTemplate(t + b).Some? && ExpandTemplate(t).Some? && ExpandTemplate(b).Some?
    requires ExpandTemplate(t + b).value == ExpandTemplate(t).value + ExpandTemplate(b).value
    ensures ExpandTemplate(['\\', d] + t + b).Some? && ExpandTemplate(['\\', d] + t).Some?
    ensures ExpandTemplate(['\\', d] + t + b).value
            == ExpandTemplate(['\\', d] + t).value + ExpandTemplate(b).value
  {
    assert (['\\', d] + t)[2..] == t;
    assert (['\\', d] + t + b)[2..] == t + b;
    var e := EscapeText(d).value;
    var x, y := ExpandTemplate(t).value, ExpandTemplate(b).value;
    ConcatAssoc(e, x, y);
  }

  lemma SafeExpands(t: string)
    requires Safe(t)
    ensures ExpandTemplate(t).Some?
  {
    ExpandSafeAppend(t, "");
    assert t + "" == t;
  }

  lemma {:induction false} SafeAppend(a: string, b: string)
    requires Safe(a) && Safe(b)
    ensures Safe(a + b)
    decreases |a|
  {
    if |a| == 0 {
      assert a + b == b;
    } else if a[0] != '\\' {
      assert (a + b)[1..] == a[1..] + b;
      SafeAppend(a[1..], b);
    } else {
      assert (a + b)[2..] == a[2..] + b;
      SafeAppend(a[2..], b);
    }
  }

  lemma {:induction false} SafeJoin(sep: string, parts: seq<string>)
    requires Safe(sep)
    requires forall k :: 0 <= k < |parts| ==> Safe(parts[k])
    ensures Safe(Join(sep, parts))
    decreases |parts|
  {
    if |parts| > 1 {
      SafeJoin(sep, parts[1..]);
      SafeAppend(sep, Join(sep, parts[1..]));
      SafeAppend(parts[0], sep + Join(sep, parts[1..]));
      assert parts[0] + sep + Join(sep, parts[1..]) == parts[0] + (sep + Join(sep, parts[1..]));
    }
  }

  /** Doubling every backslash makes any text a safe template. */
  lemma {:induction false} SafeDoubled(s: string)
    ensures Safe(ReplaceChar(s, '\\', "\\\\"))
    decreases |s|
  {
    if |s| > 0 {
      SafeDoubled(s[1..]);
      var head := if s[0] == '\\' then "\\\\" else [s[0]];
      assert Safe(head) by {
        if s[0] == '\\' {
          assert head[2..] == "";
        } else {
          assert head[1..] == "";
        }
      }
      SafeAppend(head, ReplaceChar(s[1..], '\\', "\\\\"));
    }
  }

  /** Text in which every backslash belongs to a `\\` pair. */
  predicate Doubled(z: string)
    decreases |z|
  {
    if |z| == 0 then true
    else if z[0] != '\\' then Doubled(z[1..])
    else |z| >= 2 && z[1] == '\\' && Doubled(z[2..])
  }

  lemma {:induction false} DoubledSafe(z: string)
    requires Doubled(z)
    ensures Safe(z)
    decreases |z|
  {
    if |z| > 0 {
      if z[0] != '\\' {
        DoubledSafe(z[1..]);
      } else {
        DoubledSafe(z[2..]);
      }
    }
  }

  lemma {:induction false} DoubledAfterDoubling(s: string)
    ensures Doubled(ReplaceChar(s, '\\', "\\\\"))
    decreases |s|
  {
    if |s| > 0 {
      DoubledAfterDoubling(s[1..]);
      var rest := ReplaceChar(s[1..], '\\', "\\\\");
      var r := ReplaceChar(s, '\\', "\\\\");
      if s[0] == '\\' {
        assert r == "\\\\" + rest;
        assert r[2..] == rest;
      } else {
        assert r == [s[0]] + rest;
        assert r[1..] == rest;
      }
    }
  }

  lemma {:induction false} DoubledDropPlain(z: string, k: nat)
    requires Doubled(z) && k <= |z|
    requires forall j :: 0 <= j < k ==> z[j] != '\\'
    ensures Doubled(z[k..])
    decreases k
  {
    if k > 0 {
      assert z[1..][k - 1..] == z[k..];
      DoubledDropPlain(z[1..], k - 1);
    }
  }

  lemma SafeCons(c: char, t: string)
    requires c != '\\' && Safe(t)
    ensures Safe([c] + t)
  {
    assert ([c] + t)[1..] == t;
  }

  /** Replacing a backslash-free text by a safe one inside doubled text gives a safe template. */
  lemma {:induction false} SafeReplaceInDoubled(z: string, p: string, r: string)
    requires Doubled(z) && |p| > 0 && '\\' !in p && Safe(r)
    ensures Safe(ReplaceAll(z, p, r))
    decreases |z|
  {
    if |z| < |p| {
      DoubledSafe(z);
    } else if z[..|p|] == p {
      forall j | 0 <= j < |p|
        ensures z[j] != '\\'
      {
        assert z[j] == p[j];
      }
      DoubledDropPlain(z, |p|);
      SafeReplaceInDoubled(z[|p|..], p, r);
      SafeAppend(r, ReplaceAll(z[|p|..], p, r));
    } else if z[0] != '\\' {
      SafeReplaceInDoubled(z[1..], p, r);
      SafeCons(z[0], ReplaceAll(z[1..], p, r));
    } else {
      var w := z[2..];
      assert z == [z[0]] + ([z[1]] + w);
      assert p[0] in p;
      ReplaceAllSkipChar(z[1], w, p, r);
      ReplaceAllSkipChar(z[0], [z[1]] + w, p, r);
      SafeReplaceInDoubled(w, p, r);
      var x := ReplaceAll(w, p, r);
      assert ReplaceAll(z, p, r) == "\\\\" + x;
      assert ("\\\\" + x)[2..] == x;
    }
  }

  // ---------------------------------------------------------------------------
  // Rewriting one array element (lines 144-156 and 160-168)
  // ---------------------------------------------------------------------------

  const Placeholder: string := "QUOTE_PLACEHOLDER"
  const EscapedQuote: string := "\\\""

  predicate IsQuoted(cmd: string) {
    StartsWith(cmd, "\"") && EndsWith(cmd, "\"")
  }

  /** The unquoted branch: backslashes doubled, then quotes escaped. */
  function EscapeUnquoted(cmd: string): string {
    ReplaceChar(ReplaceChar(cmd, '\\', "\\\\"), '"', EscapedQuote)
  }

  /** The quoted branch: escaped quotes are parked in a placeholder, backslashes are
      doubled, and the placeholder is turned back into an escaped quote. */
  function EscapeQuotedInner(inner: string): string {
    ReplaceAll(ReplaceChar(ReplaceAll(inner, EscapedQuote, Placeholder), '\\', "\\\\"), Placeholder, EscapedQuote)
  }

  /** The element text that goes into the rebuilt array. It always starts and ends
      with a double quote; a quoted element keeps its outer quotes, an unquoted one is
      escaped and wrapped. */
  function FixElement(cmd: string): (r: string)
    ensures |r| >= 1 && r[0] == '"' && r[|r| - 1] == '"'
  {
    if IsQuoted(cmd) && |cmd| > 2 then "\"" + EscapeQuotedInner(cmd[1..|cmd| - 1]) + "\""
    else if !IsQuoted(cmd) then "\"" + EscapeUnquoted(cmd) + "\""
    else cmd
  }

  lemma PlaceholderFacts()
    ensures |Placeholder| > 0 && '\\' !in Placeholder
    ensures Safe(EscapedQuote) && ExpandTemplate(EscapedQuote) == Some(EscapedQuote)
    ensures Safe("\"") && ExpandTemplate("\"") == Some("\"")
  {
    assert EscapedQuote[2..] == "";
    assert EscapedQuote + "" == EscapedQuote;
    ExpandPlain("\"");
  }

  /** Text without backslashes is its own expansion. */
  lemma {:induction false} ExpandPlain(s: string)
    requires '\\' !in s
    ensures Safe(s) && ExpandTemplate(s) == Some(s)
    decreases |s|
  {
    if |s| > 0 {
      ExpandPlain(s[1..]);
      assert [s[0]] + s[1..] == s;
    }
  }

  /** Every element text is a safe template. */
  lemma FixElementSafe(cmd: string)
    ensures Safe(FixElement(cmd))
  {
    PlaceholderFacts();
    var r := FixElement(cmd);
    if IsQuoted(cmd) && |cmd| > 2 {
      var inner := cmd[1..|cmd| - 1];
      var z := ReplaceChar(ReplaceAll(inner, EscapedQuote, Placeholder), '\\', "\\\\");
      DoubledAfterDoubling(ReplaceAll(inner, EscapedQuote, Placeholder));
      SafeReplaceInDoubled(z, Placeholder, EscapedQuote);
      SafeAppend(EscapeQuotedInner(inner), "\"");
      SafeAppend("\"", EscapeQuotedInner(inner) + "\"");
      assert r == "\"" + (EscapeQuotedInner(inner) + "\"");
    } else if !IsQuoted(cmd) {
      UnquotedEscapeCancels(cmd);
      SafeAppend(EscapeUnquoted(cmd), "\"");
      SafeAppend("\"", EscapeUnquoted(cmd) + "\"");
      assert r == "\"" + (EscapeUnquoted(cmd) + "\"");
    } else {
      assert r == cmd;
      assert cmd == "\"" || cmd == "\"\"" by {
        assert cmd[0] == '"' && cmd[|cmd| - 1] == '"';
      }
      ExpandPlain(cmd);
    }
  }

  /** The template escapes cancel the backslash doubling of the unquoted branch:
      what reaches the line is the command with only its quotes escaped. */
  lemma {:induction false} UnquotedEscapeCancels(cmd: string)
    ensures Safe(EscapeUnquoted(cmd))
    ensures ExpandTemplate(EscapeUnquoted(cmd)) == Some(ReplaceChar(cmd, '"', EscapedQuote))
    decreases |cmd|
  {
    PlaceholderFacts();
    if |cmd| == 0 {
    } else {
      UnquotedEscapeCancels(cmd[1..]);
      var rest := EscapeUnquoted(cmd[1..]);
      var d := ReplaceChar(cmd, '\\', "\\\\");
      var head := if cmd[0] == '\\' then "\\\\" else [cmd[0]];
      assert d == head + ReplaceChar(cmd[1..], '\\', "\\\\");
      ReplaceCharAppend(head, ReplaceChar(cmd[1..], '\\', "\\\\"), '"', EscapedQuote);
      var h := ReplaceChar(head, '"', EscapedQuote);
      assert EscapeUnquoted(cmd) == h + rest;
      var expected := if cmd[0] == '"' then EscapedQuote else [cmd[0]];
      assert Safe(h) && ExpandTemplate(h) == Some(expected) by {
        if cmd[0] == '\\' {
          assert h == "\\\\";
        } else if cmd[0] == '"' {
          assert h == EscapedQuote;
        } else {
          assert h == [cmd[0]];
        }
      }
      ExpandSafeAppend(h, rest);
      SafeAppend(h, rest);
      assert ReplaceChar(cmd, '"', EscapedQuote) == expected + ReplaceChar(cmd[1..], '"', EscapedQuote);
    }
  }

  /** The template escapes also cancel the quoted branch: for an element whose
      inner text does not contain `QUOTE_PLACEHOLDER`, what reaches the line is that
      inner text exactly, its escaped quotes and lone backslashes included. */
  lemma {:induction false} QuotedEscapeCancels(inner: string)
    requires forall i :: !OccursAt(inner, Placeholder, i)
    ensures Safe(EscapeQuotedInner(inner))
    ensures ExpandTemplate(EscapeQuotedInner(inner)) == Some(inner)
    decreases |inner|
  {
    if |inner| == 0 {
      assert EscapeQuotedInner(inner) == "";
    } else if |inner| >= 2 && inner[..2] == EscapedQuote {
      PlaceholderFreeTail(inner, 2);
      QuotedEscapeCancels(inner[2..]);
      EscapedQuoteStep(inner[2..]);
      assert inner == EscapedQuote + inner[2..];
    } else {
      PlaceholderFreeTail(inner, 1);
      QuotedEscapeCancels(inner[1..]);
      assert inner == [inner[0]] + inner[1..];
      assert !OccursAt(inner, Placeholder, 0);
      CharStep(inner[0], inner[1..]);
    }
  }

  /** An escaped quote is parked and restored as it was. */
  lemma EscapedQuoteStep(rest: string)
    requires Safe(EscapeQuotedInner(rest)) && ExpandTemplate(EscapeQuotedInner(rest)) == Some(rest)
    ensures Safe(EscapeQuotedInner(EscapedQuote + rest))
    ensures ExpandTemplate(EscapeQuotedInner(EscapedQuote + rest)) == Some(EscapedQuote + rest)
  {
    PlaceholderFacts();
    var a := ReplaceAll(rest, EscapedQuote, Placeholder);
    var z := ReplaceChar(a, '\\', "\\\\");
    var e := ReplaceAll(z, Placeholder, EscapedQuote);
    ReplaceAllAtStart(EscapedQuote, rest, Placeholder);
    ReplaceCharAppend(Placeholder, a, '\\', "\\\\");
    ReplaceCharAbsent(Placeholder, '\\', "\\\\");
    ReplaceAllAtStart(Placeholder, z, EscapedQuote);
    assert EscapeQuotedInner(EscapedQuote + rest) == EscapedQuote + e;
    ExpandSafeAppend(EscapedQuote, e);
    SafeAppend(EscapedQuote, e);
  }

  /** Any other character passes through: a backslash is doubled and expanded
      back, a plain character is kept. */
  lemma CharStep(c: char, rest: string)
    requires !(|[c] + rest| >= 2 && ([c] + rest)[..2] == EscapedQuote)
    requires !OccursAt([c] + rest, Placeholder, 0)
    requires Safe(EscapeQuotedInner(rest)) && ExpandTemplate(EscapeQuotedInner(rest)) == Some(rest)
    ensures Safe(EscapeQuotedInner([c] + rest))
    ensures ExpandTemplate(EscapeQuotedInner([c] + rest)) == Some([c] + rest)
  {
    var a := ReplaceAll(rest, EscapedQuote, Placeholder);
    ReplaceAllSkip(c, rest, EscapedQuote, Placeholder);
    assert ([c] + a)[1..] == a;
    if c == '\\' {
      var z := ReplaceChar(a, '\\', "\\\\");
      assert ReplaceChar([c] + a, '\\', "\\\\") == "\\\\" + z;
      assert Placeholder[0] == 'Q';
      BackslashStep(z, Placeholder, EscapedQuote, rest);
    } else {
      PlainStep(c, a, rest);
    }
  }

  lemma BackslashStep(z: string, p: string, r: string, rest: string)
    requires |p| > 0 && p[0] != '\\'
    requires Safe(ReplaceAll(z, p, r)) && ExpandTemplate(ReplaceAll(z, p, r)) == Some(rest)
    ensures Safe(ReplaceAll("\\\\" + z, p, r))
    ensures ExpandTemplate(ReplaceAll("\\\\" + z, p, r)) == Some("\\" + rest)
  {
    var e := ReplaceAll(z, p, r);
    var head := "\\\\";
    assert head + z == ['\\'] + (['\\'] + z);
    ReplaceAllSkipChar('\\', z, p, r);
    ReplaceAllSkipChar('\\', ['\\'] + z, p, r);
    assert ['\\'] + (['\\'] + e) == head + e;
    DoubleBackslash();
    ExpandSafeAppend(head, e);
    SafeAppend(head, e);
  }

  lemma DoubleBackslash()
    ensures Safe("\\\\") && ExpandTemplate("\\\\") == Some("\\")
  {
    var head := "\\\\";
    assert head[1] == '\\' && head[2..] == "";
    assert EscapeText(head[1]) == Some("\\");
    assert "\\" + "" == "\\";
  }

  lemma PlainStep(c: char, a: string, rest: string)
    requires c != '\\'
    requires a == ReplaceAll(rest, EscapedQuote, Placeholder)
    requires !OccursAt([c] + rest, Placeholder, 0)
    requires ExpandTemplate(ReplaceAll(ReplaceChar(a, '\\', "\\\\"), Placeholder, EscapedQuote)) == Some(rest)
    requires Safe(ReplaceAll(ReplaceChar(a, '\\', "\\\\"), Placeholder, EscapedQuote))
    ensures var t := ReplaceAll(ReplaceChar([c] + a, '\\', "\\\\"), Placeholder, EscapedQuote);
            Safe(t) && ExpandTemplate(t) == Some([c] + rest)
  {
    var z := ReplaceChar(a, '\\', "\\\\");
    var e := ReplaceAll(z, Placeholder, EscapedQuote);
    assert ReplaceChar([c] + a, '\\', "\\\\") == [c] + z;
    if |z| + 1 >= |Placeholder| && ([c] + z)[..|Placeholder|] == Placeholder {
      PlaceholderComesFromText(c, rest);
      assert false;
    }
    ReplaceAllSkip(c, z, Placeholder, EscapedQuote);
    ExpandPlain([c]);
    ExpandSafeAppend([c], e);
    SafeAppend([c], e);
  }

  /** The placeholder mangling: an element whose inner text is `QUOTE_PLACEHOLDER`
      itself reaches the line as an escaped quote. */
  lemma PlaceholderMangled()
    ensures ExpandTemplate(EscapeQuotedInner(Placeholder)) == Some(EscapedQuote)
  {
    PlaceholderFacts();
    assert EscapedQuote[0] == '\\' && '\\' !in Placeholder;
    ReplaceAllAbsentHead(Placeholder, EscapedQuote, Placeholder);
    ReplaceCharAbsent(Placeholder, '\\', "\\\\");
    ReplaceAllAtStart(Placeholder, "", EscapedQuote);
    assert Placeholder + "" == Placeholder;
    assert EscapedQuote + "" == EscapedQuote;
  }

  lemma PlaceholderFreeTail(s: string, k: nat)
    requires k <= |s| && forall i :: !OccursAt(s, Placeholder, i)
    ensures forall i :: !OccursAt(s[k..], Placeholder, i)
  {
    forall i: int
      ensures !OccursAt(s[k..], Placeholder, i)
    {
      if 0 <= i && i + |Placeholder| <= |s| - k {
        assert s[k..][i..i + |Placeholder|] == s[k + i..k + i + |Placeholder|];
        assert !OccursAt(s, Placeholder, k + i);
      }
    }
  }

  /** A placeholder at the front of the doubled text, behind one more character,
      was already in the text. */
  lemma PlaceholderComesFromText(c: char, rest: string)
    requires var z := ReplaceChar(ReplaceAll(rest, EscapedQuote, Placeholder), '\\', "\\\\");
             |z| + 1 >= |Placeholder| && ([c] + z)[..|Placeholder|] == Placeholder
    ensures OccursAt([c] + rest, Placeholder, 0)
  {
    var a := ReplaceAll(rest, EscapedQuote, Placeholder);
    var z := ReplaceChar(a, '\\', "\\\\");
    var w := Placeholder[1..];
    PlaceholderTail();
    assert ([c] + z)[1..|Placeholder|] == z[..|w|];
    DoubledPrefix(a, w);
    ReplacedPrefix(rest, w, EscapedQuote, Placeholder);
    assert Placeholder == [c] + w;
    assert ([c] + rest)[..|Placeholder|] == [c] + rest[..|w|];
  }

  lemma PlaceholderTail()
    ensures |Placeholder| > 1 && |EscapedQuote| > 0
    ensures '\\' !in Placeholder[1..] && Placeholder[0] !in Placeholder[1..]
  {
    PlaceholderTailNoBackslash();
    PlaceholderTailNoQ();
  }

  lemma PlaceholderTailNoBackslash()
    ensures '\\' !in Placeholder[1..]
  {
    assert Placeholder[1..] == "UOTE_PLACEHOLDER";
  }

  lemma PlaceholderTailNoQ()
    ensures Placeholder[0] !in Placeholder[1..]
  {
    assert Placeholder[1..] == "UOTE_PLACEHOLDER";
  }

  /** A prefix without backslashes of the doubled text is a prefix of the text. */
  lemma {:induction false} DoubledPrefix(y: string, w: string)
    requires '\\' !in w
    requires |w| <= |ReplaceChar(y, '\\', "\\\\")| && ReplaceChar(y, '\\', "\\\\")[..|w|] == w
    ensures |w| <= |y| && y[..|w|] == w
    decreases |w|
  {
    if |w| > 0 {
      var d := ReplaceChar(y, '\\', "\\\\");
      assert |y| > 0;
      assert w[0] in w;
      assert y[0] != '\\';
      assert d == [y[0]] + ReplaceChar(y[1..], '\\', "\\\\");
      assert ReplaceChar(y[1..], '\\', "\\\\")[..|w| - 1] == w[1..];
      assert forall ch :: ch in w[1..] ==> ch in w;
      DoubledPrefix(y[1..], w[1..]);
      assert y[..|w|] == [y[0]] + y[1..][..|w| - 1];
    }
  }

  /** A prefix of the replaced text that never holds the replacement's first
      character is a prefix of the text. */
  lemma {:induction false} ReplacedPrefix(x: string, w: string, p: string, r: string)
    requires |p| > 0 && |r| > 0 && r[0] !in w
    requires |w| <= |ReplaceAll(x, p, r)| && ReplaceAll(x, p, r)[..|w|] == w
    ensures |w| <= |x| && x[..|w|] == w
    decreases |w|
  {
    if |w| > 0 && |x| >= |p| {
      var t := ReplaceAll(x, p, r);
      assert w[0] in w;
      assert t == [x[0]] + ReplaceAll(x[1..], p, r);
      assert ReplaceAll(x[1..], p, r)[..|w| - 1] == w[1..];
      assert forall ch :: ch in w[1..] ==> ch in w;
      ReplacedPrefix(x[1..], w[1..], p, r);
      assert x[..|w|] == [x[0]] + x[1..][..|w| - 1];
    }
  }

  lemma {:induction false} ReplaceCharAbsent(s: string, c: char, r: string)
    requires c !in s
    ensures ReplaceChar(s, c, r) == s
    decreases |s|
  {
    if |s| > 0 {
      assert s[0] in s;
      ReplaceCharAbsent(s[1..], c, r);
      assert [s[0]] + s[1..] == s;
    }
  }

  lemma {:induction false} ReplaceAllAbsentHead(s: string, p: string, r: string)
    requires |p| > 0 && p[0] !in s
    ensures ReplaceAll(s, p, r) == s
    decreases |s|
  {
    if |s| >= |p| {
      assert s[0] in s;
      assert s[..|p|][0] != p[0];
      ReplaceAllAbsentHead(s[1..], p, r);
      assert [s[0]] + s[1..] == s;
    }
  }

  lemma ReplaceAllAtStart(p: string, z: string, r: string)
    requires |p| > 0
    ensures ReplaceAll(p + z, p, r) == r + ReplaceAll(z, p, r)
  {
    assert (p + z)[..|p|] == p;
    assert (p + z)[|p|..] == z;
  }

  lemma ReplaceAllSkip(c: char, z: string, p: string, r: string)
    requires |p| > 0
    requires |z| + 1 >= |p| ==> ([c] + z)[..|p|] != p
    ensures ReplaceAll([c] + z, p, r) == [c] + ReplaceAll(z, p, r)
  {
    assert ([c] + z)[1..] == z;
  }

  lemma ReplaceAllSkipChar(c: char, z: string, p: string, r: string)
    requires |p| > 0 && c != p[0]
    ensures ReplaceAll([c] + z, p, r) == [c] + ReplaceAll(z, p, r)
  {
    if |z| + 1 >= |p| {
      assert ([c] + z)[..|p|][0] == c;
    }
    ReplaceAllSkip(c, z, p, r);
  }

  // ---------------------------------------------------------------------------
  // The quote-aware scanner (lines 131-168)
  // ---------------------------------------------------------------------------

  /** The scanner's variables: the element being collected, whether a quoted run is
      open and which quote opened it, and the elements finished so far. */
  datatype ScanState = ScanState(current: string, inQuotes: bool, quoteChar: Option<char>, commands: seq<string>)

  const StartState: ScanState := ScanState("", false, None, [])

  /** The element that a finished segment contributes: none when the segment is
      blank, else the stripped segment without trailing commas, rewritten. */
  function Emit(current: string): (r: seq<string>)
    ensures |r| <= 1
  {
    if Strip(current) != "" then [FixElement(RStripChar(Strip(current), ','))] else []
  }

  function Flush(current: string, commands: seq<string>): seq<string> {
    commands + Emit(current)
  }

  predicate IsQuoteChar(c: char) {
    c == '"' || c == '\''
  }

  /** One character of the scan. A quote opens a run when none is open and closes
      the run it opened; a comma outside a run ends a segment; everything else,
      backslashes included, is collected as is. */
  function Step(st: ScanState, c: char): ScanState {
    if IsQuoteChar(c) && (!st.inQuotes || st.quoteChar == Some(c)) then
      ScanState(st.current + [c], !st.inQuotes, if st.inQuotes then None else Some(c), st.commands)
    else if c == ',' && !st.inQuotes then
      ScanState("", st.inQuotes, st.quoteChar, Flush(st.current, st.commands))
    else
      st.(current := st.current + [c])
  }

  function Scan(st: ScanState, s: string): ScanState
    decreases |s|
  {
    if |s| == 0 then st else Scan(Step(st, s[0]), s[1..])
  }

  /** The rewritten elements of an array's content. */
  function ArrayElements(content: string): seq<string> {
    var st := Scan(StartState, content);
    Flush(st.current, st.commands)
  }

  /** The character loop of `fix_commands_line`. */
  method ScanArrayElements(content: string) returns (commands: seq<string>)
    ensures commands == ArrayElements(content)
  {
    var current := "";
    var inQuotes := false;
    var quoteChar: Option<char> := None;
    commands := [];
    var i := 0;
    ghost var st := StartState;
    assert content[0..] == content;
    while i < |content|
      invariant 0 <= i <= |content|
      invariant st == ScanState(current, inQuotes, quoteChar, commands)
      invariant Scan(st, content[i..]) == Scan(StartState, content)
    {
      var c := content[i];
      ScanAt(st, content, i);
      if IsQuoteChar(c) && (!inQuotes || quoteChar == Some(c)) {
        inQuotes := !inQuotes;
        quoteChar := if inQuotes then Some(c) else None;
        current := current + [c];
      } else if c == ',' && !inQuotes {
        if Strip(current) != "" {
          var cmd := RStripChar(Strip(current), ',');
          commands := commands + [FixElement(cmd)];
        }
        current := "";
      } else {
        current := current + [c];
      }
      st := Step(st, c);
      i := i + 1;
    }
    assert content[i..] == [];
    if Strip(current) != "" {
      var cmd := RStripChar(Strip(current), ',');
      commands := commands + [FixElement(cmd)];
    }
  }

  /** The scan of `s[i..]` is one step on `s[i]` followed by the scan of the rest. */
  lemma ScanAt(st: ScanState, s: string, i: nat)
    requires i < |s|
    ensures Scan(st, s[i..]) == Scan(Step(st, s[i]), s[i + 1..])
  {
    assert s[i..][0] == s[i] && s[i..][1..] == s[i + 1..];
  }

  lemma {:induction false} ScanAppend(st: ScanState, a: string, b: string)
    ensures Scan(st, a + b) == Scan(Scan(st, a), b)
    decreases |a|
  {
    if |a| == 0 {
      assert a + b == b;
    } else {
      assert (a + b)[0] == a[0];
      assert (a + b)[1..] == a[1..] + b;
      ScanAppend(Step(st, a[0]), a[1..], b);
    }
  }

  /** Every entry starts and ends with a double quote and is a safe template. */
  predicate ElementTexts(cmds: seq<string>) {
    forall k :: 0 <= k < |cmds| ==> |cmds[k]| >= 1 && cmds[k][0] == '"' && cmds[k][|cmds[k]| - 1] == '"' && Safe(cmds[k])
  }

  lemma FlushKeepsQuoted(current: string, cmds: seq<string>)
    requires ElementTexts(cmds)
    ensures ElementTexts(Flush(current, cmds))
  {
    if Strip(current) != "" {
      FixElementSafe(RStripChar(Strip(current), ','));
      ElementTextsCons(cmds, FixElement(RStripChar(Strip(current), ',')));
    } else {
      assert Flush(current, cmds) == cmds;
    }
  }

  lemma ElementTextsCons(cmds: seq<string>, e: string)
    requires ElementTexts(cmds) && |e| >= 1 && e[0] == '"' && e[|e| - 1] == '"' && Safe(e)
    ensures ElementTexts(cmds + [e])
  {
  }

  lemma StepKeepsQuoted(st: ScanState, c: char)
    requires ElementTexts(st.commands)
    ensures ElementTexts(Step(st, c).commands)
  {
    if !(IsQuoteChar(c) && (!st.inQuotes || st.quoteChar == Some(c))) && c == ',' && !st.inQuotes {
      FlushKeepsQuoted(st.current, st.commands);
    }
  }

  lemma {:induction false} ScanKeepsQuoted(st: ScanState, s: string)
    requires ElementTexts(st.commands)
    ensures ElementTexts(Scan(st, s).commands)
    decreases |s|
  {
    if |s| > 0 {
      StepKeepsQuoted(st, s[0]);
      ScanKeepsQuoted(Step(st, s[0]), s[1..]);
    }
  }

  /** Every rebuilt element starts and ends with a double quote, and none of them
      can make the template parser of `re.sub` raise. */
  lemma ArrayElementsQuoted(content: string)
    ensures ElementTexts(ArrayElements(content))
  {
    ScanKeepsQuoted(StartState, content);
    var st := Scan(StartState, content);
    FlushKeepsQuoted(st.current, st.commands);
  }

  /** Inside a run opened by `q`, every character other than `q`, commas included,
      is collected into the current element. */
  lemma {:induction false} ScanInsideRun(st: ScanState, q: char, x: string)
    requires st.inQuotes && st.quoteChar == Some(q) && q !in x
    ensures Scan(st, x) == st.(current := st.current + x)
    decreases |x|
  {
    if |x| == 0 {
      assert st.current + x == st.current;
    } else {
      var next := Step(st, x[0]);
      assert next == st.(current := st.current + [x[0]]);
      ScanInsideRun(next, q, x[1..]);
      assert st.current + [x[0]] + x[1..] == st.current + x;
    }
  }

  /** A quoted run is one element, whatever commas it holds. */
  lemma QuotedRunIsOneElement(q: char, x: string)
    requires IsQuoteChar(q) && q !in x
    ensures ArrayElements([q] + x + [q]) == [FixElement([q] + x + [q])]
  {
    var run := [q] + x + [q];
    ScanQuotedRun(q, x);
    assert run[0] == q && run[|run| - 1] == q;
    assert !IsSpace(q);
    StripUnspaced(run);
    assert RStripChar(run, ',') == run;
  }

  lemma ScanQuotedRun(q: char, x: string)
    requires IsQuoteChar(q) && q !in x
    ensures Scan(StartState, [q] + x + [q]) == ScanState([q] + x + [q], false, None, [])
  {
    var afterQuote := ScanState([q], true, Some(q), []);
    ScanOne(StartState, q);
    assert Step(StartState, q) == afterQuote;
    ScanAppend(StartState, [q], x + [q]);
    ScanAppend(afterQuote, x, [q]);
    ScanInsideRun(afterQuote, q, x);
    var inside := ScanState([q] + x, true, Some(q), []);
    assert afterQuote.(current := afterQuote.current + x) == inside;
    ScanOne(inside, q);
    assert Step(inside, q) == ScanState([q] + x + [q], false, None, []);
    assert [q] + (x + [q]) == [q] + x + [q];
  }

  lemma ScanOne(st: ScanState, c: char)
    ensures Scan(st, [c]) == Step(st, c)
  {
    assert [c][1..] == [];
  }

  /** The elements kept from a list of segments: the non-blank ones, rewritten. */
  function Segments(parts: seq<string>): seq<string>
    decreases |parts|
  {
    if |parts| == 0 then [] else Emit(parts[0]) + Segments(parts[1..])
  }

  predicate QuoteFree(s: string) {
    '"' !in s && '\'' !in s
  }

  lemma {:induction false} ScanQuoteFree(st: ScanState, s: string)
    requires !st.inQuotes && ',' !in st.current && QuoteFree(s)
    ensures Finish(Scan(st, s)) == st.commands + Segments(Split(st.current + s, ","))
    decreases |s|
  {
    if |s| == 0 {
      EndCase(st, s);
    } else {
      var c := s[0];
      QuoteFreeTail(s);
      StepKeepsCommaFree(st, c);
      ScanQuoteFree(Step(st, c), s[1..]);
      if c == ',' {
        CommaCase(st, s);
      } else {
        PlainCase(st, s);
      }
    }
  }

  /** A step outside any quoted run on a character that is not a quote. */
  lemma StepOutside(st: ScanState, c: char)
    requires !st.inQuotes && !IsQuoteChar(c)
    ensures !Step(st, c).inQuotes
    ensures c == ',' ==> Step(st, c).current == "" && Step(st, c).commands == st.commands + Emit(st.current)
    ensures c != ',' ==> Step(st, c).current == st.current + [c] && Step(st, c).commands == st.commands
  {
  }

  lemma StepKeepsCommaFree(st: ScanState, c: char)
    requires !st.inQuotes && !IsQuoteChar(c) && ',' !in st.current
    ensures !Step(st, c).inQuotes && ',' !in Step(st, c).current
  {
    StepOutside(st, c);
  }

  lemma QuoteFreeTail(s: string)
    requires |s| > 0 && QuoteFree(s)
    ensures !IsQuoteChar(s[0]) && QuoteFree(s[1..])
  {
    assert forall j :: 0 <= j < |s| - 1 ==> s[1..][j] == s[j + 1];
  }

  lemma EmptyPrefix(s: string)
    ensures "" + s == s
  {
  }

  lemma EndCase(st: ScanState, s: string)
    requires |s| == 0 && ',' !in st.current
    ensures Finish(Scan(st, s)) == st.commands + Segments(Split(st.current + s, ","))
  {
    assert st.current + s == st.current;
    SplitNoChar(st.current, ',');
    assert Segments([st.current]) == Emit(st.current);
  }

  lemma PlainCase(st: ScanState, s: string)
    requires |s| > 0 && s[0] != ',' && !IsQuoteChar(s[0]) && !st.inQuotes
    requires Finish(Scan(Step(st, s[0]), s[1..])) == Step(st, s[0]).commands + Segments(Split(Step(st, s[0]).current + s[1..], ","))
    ensures Finish(Scan(st, s)) == st.commands + Segments(Split(st.current + s, ","))
  {
    ScanFirst(st, s);
    PlainCollected(st, s);
    StepOutside(st, s[0]);
  }

  lemma PlainCollected(st: ScanState, s: string)
    requires |s| > 0 && s[0] != ',' && !IsQuoteChar(s[0]) && !st.inQuotes
    ensures Step(st, s[0]).current + s[1..] == st.current + s
  {
    StepOutside(st, s[0]);
    assert [s[0]] + s[1..] == s;
    ConcatAssoc(st.current, [s[0]], s[1..]);
  }

  lemma ScanFirst(st: ScanState, s: string)
    requires |s| > 0
    ensures Finish(Scan(st, s)) == Finish(Scan(Step(st, s[0]), s[1..]))
  {
  }

  function Finish(st: ScanState): seq<string> {
    Flush(st.current, st.commands)
  }

  lemma CommaCase(st: ScanState, s: string)
    requires |s| > 0 && s[0] == ',' && !st.inQuotes && ',' !in st.current
    requires Finish(Scan(Step(st, s[0]), s[1..])) == Step(st, s[0]).commands + Segments(Split(Step(st, s[0]).current + s[1..], ","))
    ensures Finish(Scan(st, s)) == st.commands + Segments(Split(st.current + s, ","))
  {
    StepOutside(st, ',');
    EmptyPrefix(s[1..]);
    ScanFirst(st, s);
    CommaSegments(st, s);
  }

  lemma CommaSegments(st: ScanState, s: string)
    requires |s| > 0 && s[0] == ',' && !st.inQuotes && ',' !in st.current
    ensures Step(st, ',').commands + Segments(Split(s[1..], ","))
         == st.commands + Segments(Split(st.current + s, ","))
  {
    var cur := st.current;
    var rest := Split(s[1..], ",");
    assert Step(st, ',').commands == st.commands + Emit(cur);
    SplitAtLeading(cur, ',', s);
    assert ([cur] + rest)[1..] == rest;
    assert Segments([cur] + rest) == Emit(cur) + Segments(rest);
    ConcatAssoc(st.commands, Emit(cur), Segments(rest));
  }

  /** Without quote characters every comma separates, blank segments are dropped and
      the others are rewritten one by one. */
  lemma QuoteFreeElements(content: string)
    requires QuoteFree(content)
    ensures ArrayElements(content) == Segments(Split(content, ","))
  {
    ScanQuoteFree(StartState, content);
    assert "" + content == content;
    assert ArrayElements(content) == Finish(Scan(StartState, content));
  }

  // ---------------------------------------------------------------------------
  // Fix 2: the `"commands": [...]` patterns of lines 119, 126 and 173
  // ---------------------------------------------------------------------------

  const Key: string := "\"commands\":"

  /** `"commands":\s*\[\s*\],?` (line 126) and `"commands":\s*\[([^\]]*)\]`
      (lines 119 and 173). */
  datatype Pattern = EmptyArray | AnyArray

  /** The end of the whitespace run that starts at `k`: where a greedy `\s*`
      tried at `k` stops. */
  function SpaceEnd(s: string, k: nat): (e: nat)
    requires k <= |s|
    ensures k <= e <= |s|
    ensures forall i :: k <= i < e ==> IsSpace(s[i])
    ensures e < |s| ==> !IsSpace(s[e])
    decreases |s| - k
  {
    if k == |s| || !IsSpace(s[k]) then k else SpaceEnd(s, k + 1)
  }

  /** The first position of `c` at or after `k`. */
  function FindChar(s: string, c: char, k: nat): (r: Option<nat>)
    requires k <= |s|
    ensures r.Some? ==> k <= r.value < |s| && s[r.value] == c
    ensures r.Some? ==> forall i :: k <= i < r.value ==> s[i] != c
    ensures r.None? ==> forall i :: k <= i < |s| ==> s[i] != c
    decreases |s| - k
  {
    if k == |s| then None
    else if s[k] == c then Some(k)
    else FindChar(s, c, k + 1)
  }

  /** `\s*\[([^\]]*)\]` at the start of `s`: the bounds of the group. The greedy
      `\s*` must stop at the bracket, and `[^\]]*` runs up to the first `]`. */
  function BracketGroup(s: string): (r: Option<(nat, nat)>)
    ensures r.Some? ==> 1 <= r.value.0 <= r.value.1 < |s| && s[r.value.0 - 1] == '[' && s[r.value.1] == ']'
    ensures r.Some? ==> forall i :: r.value.0 <= i < r.value.1 ==> s[i] != ']'
    ensures r.Some? ==> forall j :: 0 <= j < r.value.0 - 1 ==> IsSpace(s[j])
  {
    var j := SpaceEnd(s, 0);
    if j < |s| && s[j] == '[' then
      match FindChar(s, ']', j + 1)
      case None => None
      case Some(e) => Some((j + 1, e))
    else None
  }

  /** `\s*\[\s*\],?` at the start of `s`: the length of the match, which takes the
      comma whenever one follows. */
  function EmptyBrackets(s: string): (n: Option<nat>)
    ensures n.Some? ==> 2 <= n.value <= |s|
  {
    var j := SpaceEnd(s, 0);
    if j < |s| && s[j] == '[' then
      var k := SpaceEnd(s, j + 1);
      if k < |s| && s[k] == ']' then Some(CommaEnd(s, k + 1)) else None
    else None
  }

  /** The group of `AnyArray` at the start of `s`, as bounds within `s`. */
  function ArrayGroup(key: string, s: string): (r: Option<(nat, nat)>)
    ensures r.Some? ==> StartsWith(s, key) && |key| < r.value.0 <= r.value.1 < |s|
  {
    if StartsWith(s, key) then
      match BracketGroup(s[|key|..])
      case None => None
      case Some(g) => Some((|key| + g.0, |key| + g.1))
    else None
  }

  /** The length of the match of `p` at the start of `s`, after `key`. */
  function MatchHere(p: Pattern, key: string, s: string): (n: Option<nat>)
    ensures n.Some? ==> StartsWith(s, key) && |key| < n.value <= |s|
  {
    match p
    case AnyArray =>
      (match ArrayGroup(key, s)
       case None => None
       case Some(g) => Some(g.1 + 1))
    case EmptyArray =>
      if StartsWith(s, key) then
        match EmptyBrackets(s[|key|..])
        case None => None
        case Some(m) => Some(|key| + m)
      else None
  }

  /** A compiled pattern, seen through what `re` needs from it: the length of the
      match at the start of a text, if any. A match is never empty. */
  type Matcher = string -> Option<nat>

  ghost predicate Advances(m: Matcher) {
    forall x :: m(x).Some? ==> 0 < m(x).value <= |x|
  }

  function Compiled(p: Pattern, key: string): (m: Matcher)
    ensures Advances(m)
  {
    (x: string) => MatchHere(p, key, x)
  }

  /** `re.search` from position `k` on: the leftmost position where the pattern
      matches. */
  function SearchFrom(m: Matcher, s: string, k: nat): (r: Option<nat>)
    requires k <= |s|
    ensures r.Some? ==> k <= r.value <= |s| && m(s[r.value..]).Some?
    decreases |s| - k
  {
    if m(s[k..]).Some? then Some(k)
    else if k == |s| then None
    else SearchFrom(m, s, k + 1)
  }

  /** `re.search` over the whole text. */
  function Search(m: Matcher, s: string): (r: Option<nat>)
    ensures r.Some? ==> r.value <= |s| && m(s[r.value..]).Some?
  {
    SearchFrom(m, s, 0)
  }

  /** No match starts between `k` and the reported position, and none at all from
      `k` on when nothing is reported. */
  lemma {:induction false} SearchFromLeftmost(m: Matcher, s: string, k: nat)
    requires k <= |s|
    ensures SearchFrom(m, s, k).Some? ==> forall j :: k <= j < SearchFrom(m, s, k).value ==> m(s[j..]).None?
    ensures SearchFrom(m, s, k).None? ==> forall j :: k <= j <= |s| ==> m(s[j..]).None?
    decreases |s| - k
  {
    if m(s[k..]).None? && k < |s| {
      SearchFromLeftmost(m, s, k + 1);
    }
  }

  /** No match starts before the reported position, and none at all when nothing is
      reported. */
  lemma SearchLeftmost(m: Matcher, s: string)
    ensures Search(m, s).Some? ==> forall j :: 0 <= j < Search(m, s).value ==> m(s[j..]).None?
    ensures Search(m, s).None? ==> forall j :: 0 <= j <= |s| ==> m(s[j..]).None?
  {
    SearchFromLeftmost(m, s, 0);
  }

  /** `re.sub` with an already expanded replacement, from position `k` on: every
      match, left to right and without overlaps, is replaced by `rep`; scanning
      resumes after each match. */
  function SubAllFrom(m: Matcher, s: string, k: nat, rep: string): string
    requires Advances(m) && k <= |s|
    decreases |s| - k
  {
    match m(s[k..])
    case Some(n) => rep + SubAllFrom(m, s, k + n, rep)
    case None => if k == |s| then "" else s[k..k + 1] + SubAllFrom(m, s, k + 1, rep)
  }

  /** `re.sub` over the whole text. */
  function SubAll(m: Matcher, s: string, rep: string): string
    requires Advances(m)
  {
    SubAllFrom(m, s, 0, rep)
  }

  /** Text with no match from `k` on comes back unchanged. */
  lemma {:induction false} SubAllFromNoMatch(m: Matcher, s: string, k: nat, rep: string)
    requires Advances(m) && k <= |s|
    requires SearchFrom(m, s, k).None?
    ensures SubAllFrom(m, s, k, rep) == s[k..]
    decreases |s| - k
  {
    if k < |s| {
      SubAllFromNoMatch(m, s, k + 1, rep);
      assert s[k..k + 1] + s[k + 1..] == s[k..];
    }
  }

  /** Text with no match comes back unchanged. */
  lemma SubAllNoMatch(m: Matcher, s: string, rep: string)
    requires Advances(m)
    requires Search(m, s).None?
    ensures SubAll(m, s, rep) == s
  {
    SubAllFromNoMatch(m, s, 0, rep);
    assert s[0..] == s;
  }

  /** From `k` on, the first replacement happens at the position the search from
      `k` reports; the text in between is kept. */
  lemma {:induction false} SubAllFromFirst(m: Matcher, s: string, k: nat, rep: string, i: nat)
    requires Advances(m) && k <= |s|
    requires SearchFrom(m, s, k) == Some(i)
    ensures i + m(s[i..]).value <= |s|
    ensures SubAllFrom(m, s, k, rep) == s[k..i] + rep + SubAllFrom(m, s, i + m(s[i..]).value, rep)
    decreases |s| - k
  {
    if k < i {
      SubAllSkipOne(m, s, k, rep);
      SubAllFromFirst(m, s, k + 1, rep, i);
      KeepOne(s, k, i, rep, SubAllFrom(m, s, i + m(s[i..]).value, rep));
    } else {
      assert s[k..i] == [];
    }
  }

  /** Where the pattern does not match, one character is kept as it is. */
  lemma SubAllSkipOne(m: Matcher, s: string, k: nat, rep: string)
    requires Advances(m) && k < |s| && m(s[k..]).None?
    ensures SubAllFrom(m, s, k, rep) == s[k..k + 1] + SubAllFrom(m, s, k + 1, rep)
  {
  }

  lemma KeepOne<T>(s: seq<T>, k: nat, i: nat, r: seq<T>, t: seq<T>)
    requires k < i <= |s|
    ensures s[k..k + 1] + (s[k + 1..i] + r + t) == s[k..i] + r + t
  {
    assert s[k..k + 1] + s[k + 1..i] == s[k..i];
  }

  /** The first replacement happens at the position `re.search` reports; the text
      before it is kept, and substitution resumes after the match. */
  lemma SubAllFirst(m: Matcher, s: string, rep: string, i: nat)
    requires Advances(m)
    requires Search(m, s) == Some(i)
    ensures i + m(s[i..]).value <= |s|
    ensures SubAll(m, s, rep) == s[..i] + rep + SubAllFrom(m, s, i + m(s[i..]).value, rep)
  {
    SubAllFromFirst(m, s, 0, rep, i);
    assert s[0..i] == s[..i];
  }

  // ---------------------------------------------------------------------------
  // The rebuilt array text (lines 170-178)
  // ---------------------------------------------------------------------------

  const ArrayOpen: string := "\"commands\": ["
  const ElementSeparator: string := ", "
  const ArrayClose: string := "]"
  const EmptyArrayText: string := "\"commands\": [],"
  const NoElementsText: string := "\"commands\": []"

  /** The fixed parts of the replacement texts hold no backslash, so template
      processing leaves them alone. */
  lemma LiteralsPlain()
    ensures Safe(ArrayOpen) && ExpandTemplate(ArrayOpen) == Some(ArrayOpen)
    ensures Safe(ElementSeparator) && ExpandTemplate(ElementSeparator) == Some(ElementSeparator)
    ensures Safe(ArrayClose) && ExpandTemplate(ArrayClose) == Some(ArrayClose)
    ensures Safe(EmptyArrayText) && ExpandTemplate(EmptyArrayText) == Some(EmptyArrayText)
    ensures Safe(NoElementsText) && ExpandTemplate(NoElementsText) == Some(NoElementsText)
  {
    ExpandPlain(ArrayOpen);
    ExpandPlain(ElementSeparator);
    ExpandPlain(ArrayClose);
    ExpandPlain(EmptyArrayText);
    ExpandPlain(NoElementsText);
  }

  /** The expansion of a safe template. */
  function Expanded(t: string): (r: string)
    requires Safe(t)
    ensures ExpandTemplate(t) == Some(r)
  {
    SafeExpands(t);
    ExpandTemplate(t).value
  }

  function ExpandAll(parts: seq<string>): (r: seq<string>)
    requires forall k :: 0 <= k < |parts| ==> Safe(parts[k])
    ensures |r| == |parts|
    ensures forall k :: 0 <= k < |parts| ==> ExpandTemplate(parts[k]) == Some(r[k])
    decreases |parts|
  {
    if |parts| == 0 then [] else [Expanded(parts[0])] + ExpandAll(parts[1..])
  }

  /** Template processing of a joined text is the join of the processed pieces. */
  lemma {:induction false} ExpandJoin(sep: string, parts: seq<string>)
    requires Safe(sep)
    requires forall k :: 0 <= k < |parts| ==> Safe(parts[k])
    ensures Safe(Join(sep, parts))
    ensures ExpandTemplate(Join(sep, parts)) == Some(Join(Expanded(sep), ExpandAll(parts)))
    decreases |parts|
  {
    SafeJoin(sep, parts);
    if |parts| == 1 {
      assert ExpandAll(parts) == [Expanded(parts[0])];
    } else if |parts| > 1 {
      var rest := Join(sep, parts[1..]);
      ExpandJoin(sep, parts[1..]);
      SafeJoin(sep, parts[1..]);
      ExpandSafeAppend(sep, rest);
      SafeAppend(sep, rest);
      ExpandSafeAppend(parts[0], sep + rest);
      ConcatAssoc(parts[0], sep, rest);
      assert ExpandAll(parts) == [Expanded(parts[0])] + ExpandAll(parts[1..]);
      ConcatAssoc(Expanded(parts[0]), Expanded(sep), Join(Expanded(sep), ExpandAll(parts[1..])));
    }
  }

  /** The whole replacement template of line 175 is safe. */
  lemma TemplateSafe(elements: seq<string>)
    requires ElementTexts(elements)
    ensures Safe(ArrayOpen + Join(ElementSeparator, elements) + ArrayClose)
  {
    LiteralsPlain();
    SafeJoin(ElementSeparator, elements);
    SafeAppend(ArrayOpen, Join(ElementSeparator, elements));
    SafeAppend(ArrayOpen + Join(ElementSeparator, elements), ArrayClose);
  }

  /** The text that replaces each array match: the expanded template of line 175 when
      there are elements, the plain empty array of line 178 otherwise. */
  function ArrayText(elements: seq<string>): string
    requires ElementTexts(elements)
  {
    if |elements| > 0 then
      TemplateSafe(elements);
      Expanded(ArrayOpen + Join(ElementSeparator, elements) + ArrayClose)
    else NoElementsText
  }

  /** What reaches the line is the array of the expanded elements: the fixed parts are
      kept and each element goes through template processing on its own. */
  lemma ArrayTextElements(elements: seq<string>)
    requires ElementTexts(elements) && |elements| > 0
    ensures ArrayText(elements) == ArrayOpen + Join(ElementSeparator, ExpandAll(elements)) + ArrayClose
  {
    LiteralsPlain();
    var j := Join(ElementSeparator, elements);
    ExpandJoin(ElementSeparator, elements);
    TemplateSafe(elements);
    ExpandSafeAppend(ArrayOpen, j);
    SafeAppend(ArrayOpen, j);
    ExpandSafeAppend(ArrayOpen + j, ArrayClose);
  }

  // ---------------------------------------------------------------------------
  // `fix_commands_line` (lines 115-180) and `fix_json_content` (lines 109-185)
  // ---------------------------------------------------------------------------

  /** The content between the brackets with its surrounding whitespace removed,
      and one trailing comma dropped (lines 123 and 128-129). */
  function TrimContent(group: string): string {
    var content := Strip(group);
    if EndsWith(content, ",") then Strip(content[..|content| - 1]) else content
  }

  /** `match.group(1)` of `re.search` with the array pattern (lines 119-123). */
  function FirstGroup(key: string, line: string): Option<string> {
    match Search(Compiled(AnyArray, key), line)
    case None => None
    case Some(i) =>
      var g := ArrayGroup(key, line[i..]).value;
      Some(line[i..][g.0..g.1])
  }

  function FixCommandsLine(line: string): string {
    if !Contains(line, Key) then line
    else
      match FirstGroup(Key, line)
      case None => line
      case Some(group) =>
        if Strip(group) == "" then SubAll(Compiled(EmptyArray, Key), line, EmptyArrayText)
        else
          var elements := ArrayElements(TrimContent(group));
          ArrayElementsQuoted(TrimContent(group));
          SubAll(Compiled(AnyArray, Key), line, ArrayText(elements))
  }

  const LineBreak: char := '\n'

  function FixJsonContent(content: string): string {
    var lines := Split(StripTrailingCommas(content), [LineBreak]);
    Join([LineBreak], seq(|lines|, k requires 0 <= k < |lines| => FixCommandsLine(lines[k])))
  }

  // ---------------------------------------------------------------------------
  // Line structure: no step introduces a line break
  // ---------------------------------------------------------------------------

  /** A character that none of the rewriting steps can introduce. */
  predicate Inert(c: char) {
    c != '"' && c != '\\' && c !in Placeholder && c !in ArrayOpen && c !in ElementSeparator
    && c !in ArrayClose && c !in EmptyArrayText && c !in NoElementsText
  }

  lemma LineBreakInert()
    ensures Inert(LineBreak)
  {
  }

  predicate AllFree(parts: seq<string>, c: char) {
    forall k :: 0 <= k < |parts| ==> c !in parts[k]
  }

  lemma FixElementCharFree(cmd: string, c: char)
    requires c !in cmd && Inert(c)
    ensures c !in FixElement(cmd)
  {
    if IsQuoted(cmd) && |cmd| > 2 {
      var inner := cmd[1..|cmd| - 1];
      ReplaceAllCharFree(inner, EscapedQuote, Placeholder, c);
      var a := ReplaceAll(inner, EscapedQuote, Placeholder);
      ReplaceCharCharFree(a, '\\', "\\\\", c);
      ReplaceAllCharFree(ReplaceChar(a, '\\', "\\\\"), Placeholder, EscapedQuote, c);
    } else if !IsQuoted(cmd) {
      ReplaceCharCharFree(cmd, '\\', "\\\\", c);
      ReplaceCharCharFree(ReplaceChar(cmd, '\\', "\\\\"), '"', EscapedQuote, c);
    }
  }

  lemma EmitCharFree(current: string, c: char)
    requires c !in current && Inert(c)
    ensures AllFree(Emit(current), c)
  {
    if Strip(current) != "" {
      StripCharFree(current, c);
      FixElementCharFree(RStripChar(Strip(current), ','), c);
    }
  }

  lemma {:induction false} ScanCharFree(st: ScanState, s: string, c: char)
    requires c !in st.current && AllFree(st.commands, c) && c !in s && Inert(c)
    ensures AllFree(Finish(Scan(st, s)), c)
    decreases |s|
  {
    if |s| == 0 {
      EmitCharFree(st.current, c);
    } else {
      var next := Step(st, s[0]);
      EmitCharFree(st.current, c);
      assert c !in next.current && AllFree(next.commands, c);
      ScanCharFree(next, s[1..], c);
      ScanFirst(st, s);
    }
  }

  lemma ArrayElementsCharFree(content: string, c: char)
    requires c !in content && Inert(c)
    ensures AllFree(ArrayElements(content), c)
  {
    ScanCharFree(StartState, content, c);
  }

  /** A safe template only ever emits its own characters. */
  lemma {:induction false} ExpandCharFree(t: string, c: char)
    requires Safe(t) && c !in t && c != '\\'
    ensures c !in Expanded(t)
    decreases |t|
  {
    if |t| > 0 {
      if t[0] != '\\' {
        ExpandCharFree(t[1..], c);
      } else {
        ExpandCharFree(t[2..], c);
      }
    }
  }

  lemma ArrayTextCharFree(elements: seq<string>, c: char)
    requires ElementTexts(elements) && AllFree(elements, c) && Inert(c)
    ensures c !in ArrayText(elements)
  {
    if |elements| > 0 {
      TemplateSafe(elements);
      JoinCharFree(ElementSeparator, elements, c);
      ExpandCharFree(ArrayOpen + Join(ElementSeparator, elements) + ArrayClose, c);
    }
  }

  lemma {:induction false} SubAllCharFree(m: Matcher, s: string, k: nat, rep: string, c: char)
    requires Advances(m) && k <= |s| && c !in s && c !in rep
    ensures c !in SubAllFrom(m, s, k, rep)
    decreases |s| - k
  {
    match m(s[k..])
    case Some(n) => SubAllCharFree(m, s, k + n, rep, c);
    case None => if k < |s| { SubAllCharFree(m, s, k + 1, rep, c); }
  }

  lemma TrimContentCharFree(group: string, c: char)
    requires c !in group
    ensures c !in TrimContent(group)
  {
    StripCharFree(group, c);
    var content := Strip(group);
    if EndsWith(content, ",") {
      StripCharFree(content[..|content| - 1], c);
    }
  }

  lemma GroupCharFree(key: string, line: string, c: char)
    requires c !in line && FirstGroup(key, line).Some?
    ensures c !in FirstGroup(key, line).value
  {
  }

  lemma RebuiltCharFree(group: string, c: char)
    requires c !in group && Inert(c)
    ensures ElementTexts(ArrayElements(TrimContent(group)))
    ensures c !in ArrayText(ArrayElements(TrimContent(group)))
  {
    TrimContentCharFree(group, c);
    ArrayElementsCharFree(TrimContent(group), c);
    ArrayElementsQuoted(TrimContent(group));
    ArrayTextCharFree(ArrayElements(TrimContent(group)), c);
  }

  /** A line rewrite never introduces a line break. */
  lemma FixCommandsLineCharFree(line: string, c: char)
    requires c !in line && Inert(c)
    ensures c !in FixCommandsLine(line)
  {
    if Contains(line, Key) && FirstGroup(Key, line).Some? {
      var group := FirstGroup(Key, line).value;
      GroupCharFree(Key, line, c);
      if Strip(group) == "" {
        SubAllCharFree(Compiled(EmptyArray, Key), line, 0, EmptyArrayText, c);
      } else {
        RebuiltCharFree(group, c);
        SubAllCharFree(Compiled(AnyArray, Key), line, 0, ArrayText(ArrayElements(TrimContent(group))), c);
      }
    }
  }

  /** `fix_json_content` keeps the text's lines: there are as many as before, and line
      `k` of the result is line `k` of the comma-stripped text, rewritten on its own. */
  lemma FixJsonContentLines(content: string)
    ensures var lines := Split(StripTrailingCommas(content), [LineBreak]);
            Split(FixJsonContent(content), [LineBreak]) == seq(|lines|, k requires 0 <= k < |lines| => FixCommandsLine(lines[k]))
    ensures |Split(FixJsonContent(content), [LineBreak])| == |Split(content, [LineBreak])|
  {
    var lines := Split(StripTrailingCommas(content), [LineBreak]);
    var fixed := seq(|lines|, k requires 0 <= k < |lines| => FixCommandsLine(lines[k]));
    SplitCharParts(StripTrailingCommas(content), LineBreak);
    LineBreakInert();
    forall k | 0 <= k < |fixed|
      ensures LineBreak !in fixed[k]
    {
      FixCommandsLineCharFree(lines[k], LineBreak);
    }
    SplitJoinChar(fixed, LineBreak);
    StripTrailingCommasKeepsOtherChars(content, LineBreak);
  }

  // ---------------------------------------------------------------------------
  // Where the rewrite lands: the first array match of the line
  // ---------------------------------------------------------------------------

  /** An empty-array match is an array match whose group is blank; it goes on over
      one comma exactly when a comma follows the closing bracket. */
  lemma EmptyBracketsAreBlankGroup(t: string)
    requires EmptyBrackets(t).Some?
    ensures BracketGroup(t).Some?
    ensures IsBlank(t[BracketGroup(t).value.0..BracketGroup(t).value.1])
    ensures EmptyBrackets(t).value == CommaEnd(t, BracketGroup(t).value.1 + 1)
  {
    var j := SpaceEnd(t, 0);
    FindCharAfterSpaces(t, j + 1, SpaceEnd(t, j + 1));
  }

  /** Past a run of whitespace from `a`, the first `]` is the one ending the run. */
  lemma FindCharAfterSpaces(s: string, a: nat, e: nat)
    requires a <= e < |s| && s[e] == ']'
    requires forall i :: a <= i < e ==> IsSpace(s[i])
    ensures FindChar(s, ']', a) == Some(e)
    ensures IsBlank(s[a..e])
  {
    assert !IsSpace(']');
  }

  /** An array match whose group is blank is also an empty-array match. */
  lemma BlankGroupIsEmptyBrackets(t: string)
    requires BracketGroup(t).Some?
    requires IsBlank(t[BracketGroup(t).value.0..BracketGroup(t).value.1])
    ensures EmptyBrackets(t).Some?
  {
    var g := BracketGroup(t).value;
    assert !IsSpace(t[g.1]);
    forall i | g.0 <= i < g.1
      ensures IsSpace(t[i])
    {
      assert t[i] == t[g.0..g.1][i - g.0];
    }
    assert SpaceEnd(t, g.0) == g.1;
  }

  lemma EmptyMatchIsArrayMatch(key: string, x: string)
    requires MatchHere(EmptyArray, key, x).Some?
    ensures MatchHere(AnyArray, key, x).Some?
    ensures var g := ArrayGroup(key, x).value; IsBlank(x[g.0..g.1])
    ensures MatchHere(EmptyArray, key, x).value == CommaEnd(x, MatchHere(AnyArray, key, x).value)
  {
    var t := x[|key|..];
    EmptyMatchShift(key, x);
    EmptyBracketsAreBlankGroup(t);
    var g := BracketGroup(t).value;
    ArrayMatchShift(key, x);
    SubSlice(x, |key|, g.0, g.1);
    CommaEndShift(x, |key|, g.1 + 1);
  }

  /** The empty-array match, measured within the text after the key. */
  lemma EmptyMatchShift(key: string, x: string)
    requires MatchHere(EmptyArray, key, x).Some?
    ensures StartsWith(x, key) && EmptyBrackets(x[|key|..]).Some?
    ensures MatchHere(EmptyArray, key, x).value == |key| + EmptyBrackets(x[|key|..]).value
  {
  }

  /** The array match and its group, measured within the text after the key. */
  lemma ArrayMatchShift(key: string, x: string)
    requires StartsWith(x, key) && BracketGroup(x[|key|..]).Some?
    ensures var g := BracketGroup(x[|key|..]).value;
            ArrayGroup(key, x) == Some((|key| + g.0, |key| + g.1))
    ensures MatchHere(AnyArray, key, x) == Some(|key| + BracketGroup(x[|key|..]).value.1 + 1)
  {
  }

  lemma SubSlice<T>(x: seq<T>, k: nat, a: nat, b: nat)
    requires a <= b && k + b <= |x|
    ensures x[k..][a..b] == x[k + a..k + b]
  {
  }

  /** `CommaEnd` measured within a suffix, measured from the start. */
  lemma CommaEndShift(x: string, k: nat, e: nat)
    requires k + e <= |x|
    ensures k + CommaEnd(x[k..], e) == CommaEnd(x, k + e)
  {
    assert e < |x[k..]| ==> x[k..][e] == x[k + e];
  }

  /** A match at `i` means that the search reports `i` or an earlier position. */
  lemma SearchFindsAt(m: Matcher, s: string, i: nat)
    requires i <= |s| && m(s[i..]).Some?
    ensures Search(m, s).Some? && Search(m, s).value <= i
  {
    SearchLeftmost(m, s);
  }

  /** If every match of `m1` is a match of `m2`, and `m1` matches where the search
      for `m2` stops, then the search for `m1` stops there too. */
  lemma SearchSubMatcher(m1: Matcher, m2: Matcher, s: string, i: nat)
    requires forall y :: m1(y).Some? ==> m2(y).Some?
    requires Search(m2, s) == Some(i) && m1(s[i..]).Some?
    ensures Search(m1, s) == Some(i)
  {
    SearchFindsAt(m1, s, i);
    var i' := Search(m1, s).value;
    SearchFindsAt(m2, s, i');
  }

  lemma BlankGroupMatchesEmpty(key: string, x: string)
    requires ArrayGroup(key, x).Some?
    requires var g := ArrayGroup(key, x).value; IsBlank(x[g.0..g.1])
    ensures Compiled(EmptyArray, key)(x).Some?
  {
    var g := ArrayGroup(key, x).value;
    var t := x[|key|..];
    assert BracketGroup(t) == Some((g.0 - |key|, g.1 - |key|));
    assert t[g.0 - |key|..g.1 - |key|] == x[g.0..g.1];
    BlankGroupIsEmptyBrackets(t);
  }

  lemma EmptyMatchesAreArrayMatches(key: string)
    ensures forall y :: Compiled(EmptyArray, key)(y).Some? ==> Compiled(AnyArray, key)(y).Some?
  {
    forall y | Compiled(EmptyArray, key)(y).Some?
      ensures Compiled(AnyArray, key)(y).Some?
    {
      EmptyMatchIsArrayMatch(key, y);
    }
  }

  /** When the first array has a blank group, the empty-array pattern first matches
      at the same place. */
  lemma SameFirstMatch(key: string, line: string, i: nat)
    requires Search(Compiled(AnyArray, key), line) == Some(i)
    requires var g := ArrayGroup(key, line[i..]).value; IsBlank(line[i..][g.0..g.1])
    ensures Search(Compiled(EmptyArray, key), line) == Some(i)
  {
    BlankGroupMatchesEmpty(key, line[i..]);
    EmptyMatchesAreArrayMatches(key);
    SearchSubMatcher(Compiled(EmptyArray, key), Compiled(AnyArray, key), line, i);
  }

  lemma FirstGroupContains(key: string, line: string)
    requires |key| > 0 && FirstGroup(key, line).Some?
    ensures Contains(line, key)
  {
    var i := Search(Compiled(AnyArray, key), line).value;
    assert Compiled(AnyArray, key)(line[i..]) == MatchHere(AnyArray, key, line[i..]);
    ArrayMatchContains(key, line, i);
  }

  lemma ArrayMatchContains(key: string, line: string, i: nat)
    requires |key| > 0 && i <= |line| && MatchHere(AnyArray, key, line[i..]).Some?
    ensures Contains(line, key)
  {
    var x := line[i..];
    assert StartsWith(x, key);
    assert line[i..i + |key|] == x[..|key|];
    assert OccursAt(line, key, i);
  }

  lemma KeyNonEmpty()
    ensures |Key| > 0
  {
  }

  /** The blank branch of the line rewrite. */
  lemma BlankBranch(line: string)
    requires FirstGroup(Key, line).Some? && Strip(FirstGroup(Key, line).value) == ""
    ensures FixCommandsLine(line) == SubAll(Compiled(EmptyArray, Key), line, EmptyArrayText)
  {
    KeyNonEmpty();
    FirstGroupContains(Key, line);
  }

  /** The rebuilding branch of the line rewrite. */
  lemma RebuildBranch(line: string)
    requires FirstGroup(Key, line).Some? && Strip(FirstGroup(Key, line).value) != ""
    ensures ElementTexts(ArrayElements(TrimContent(FirstGroup(Key, line).value)))
    ensures FixCommandsLine(line) == SubAll(Compiled(AnyArray, Key), line, ArrayText(ArrayElements(TrimContent(FirstGroup(Key, line).value))))
  {
    KeyNonEmpty();
    FirstGroupContains(Key, line);
    ArrayElementsQuoted(TrimContent(FirstGroup(Key, line).value));
  }

  /** Where the first array match of the line starts. */
  function FirstStart(key: string, line: string): (i: nat)
    requires FirstGroup(key, line).Some?
    ensures i <= |line| && Compiled(AnyArray, key)(line[i..]).Some?
  {
    Search(Compiled(AnyArray, key), line).value
  }

  /** Where the first array match of the line ends. */
  function FirstEnd(key: string, line: string): (e: nat)
    requires FirstGroup(key, line).Some?
    ensures FirstStart(key, line) < e <= |line|
  {
    var i := FirstStart(key, line);
    i + Compiled(AnyArray, key)(line[i..]).value
  }

  /** Position `e` of `s`, moved past one comma found right there. */
  function CommaEnd(s: string, e: nat): (n: nat)
    requires e <= |s|
    ensures n == e || n == e + 1
    ensures n == e + 1 <==> e < |s| && s[e] == ','
    ensures n <= |s|
  {
    if e < |s| && s[e] == ',' then e + 1 else e
  }

  /** Where the first match ends once one comma right after it is taken along. */
  function FirstEndWithComma(key: string, line: string): (n: nat)
    requires FirstGroup(key, line).Some?
    ensures FirstEnd(key, line) <= n <= |line|
  {
    CommaEnd(line, FirstEnd(key, line))
  }

  /** `SubAllFirst` with the match end given by name. */
  lemma FirstReplaced(m: Matcher, line: string, rep: string, i: nat, n: nat)
    requires Advances(m) && Search(m, line) == Some(i) && i + m(line[i..]).value == n
    ensures n <= |line| && SubAll(m, line, rep) == line[..i] + rep + SubAllFrom(m, line, n, rep)
  {
    SubAllFirst(m, line, rep, i);
  }

  lemma BlankSameStart(key: string, line: string)
    requires FirstGroup(key, line).Some? && IsBlank(FirstGroup(key, line).value)
    ensures Search(Compiled(EmptyArray, key), line) == Some(FirstStart(key, line))
  {
    SameFirstMatch(key, line, FirstStart(key, line));
  }

  /** A match measured from `i` that takes one comma along, measured from the start. */
  lemma CommaShift(short: Matcher, long: Matcher, line: string, i: nat)
    requires Advances(long) && i <= |line| && short(line[i..]).Some? && long(line[i..]).Some?
    requires short(line[i..]).value == CommaEnd(line[i..], long(line[i..]).value)
    ensures i + short(line[i..]).value == CommaEnd(line, i + long(line[i..]).value)
  {
    CommaEndShift(line, i, long(line[i..]).value);
  }

  /** The empty-array match at the start of `x` is the array match, plus one comma
      when a comma follows it. */
  lemma BlankMatchLengths(key: string, x: string)
    requires Compiled(EmptyArray, key)(x).Some?
    ensures Compiled(AnyArray, key)(x).Some?
    ensures Compiled(EmptyArray, key)(x).value == CommaEnd(x, Compiled(AnyArray, key)(x).value)
  {
    assert Compiled(EmptyArray, key)(x) == MatchHere(EmptyArray, key, x);
    assert Compiled(AnyArray, key)(x) == MatchHere(AnyArray, key, x);
    EmptyMatchIsArrayMatch(key, x);
  }

  /** Generic form of the blank-array rewrite, for any key. */
  lemma BlankFirst(key: string, line: string, rep: string)
    requires FirstGroup(key, line).Some? && IsBlank(FirstGroup(key, line).value)
    ensures SubAll(Compiled(EmptyArray, key), line, rep)
            == line[..FirstStart(key, line)] + rep + SubAllFrom(Compiled(EmptyArray, key), line, FirstEndWithComma(key, line), rep)
  {
    var i := FirstStart(key, line);
    BlankSameStart(key, line);
    BlankMatchLengths(key, line[i..]);
    FirstEndWithCommaIs(key, line);
    ReplacedWithComma(Compiled(EmptyArray, key), Compiled(AnyArray, key), line, rep, i, FirstEndWithComma(key, line));
  }

  lemma FirstEndWithCommaIs(key: string, line: string)
    requires FirstGroup(key, line).Some?
    ensures var i := FirstStart(key, line);
            FirstEndWithComma(key, line) == CommaEnd(line, i + Compiled(AnyArray, key)(line[i..]).value)
  {
    var i := FirstStart(key, line);
    assert FirstEnd(key, line) == i + Compiled(AnyArray, key)(line[i..]).value;
  }

  /** When the first match of `short` is the match of `long` at the same place plus
      one comma after it, replacing the first match of `short` skips that comma. */
  lemma ReplacedWithComma(short: Matcher, long: Matcher, line: string, rep: string, i: nat, n: nat)
    requires Advances(short) && Advances(long) && Search(short, line) == Some(i)
    requires i <= |line| && long(line[i..]).Some?
    requires short(line[i..]).value == CommaEnd(line[i..], long(line[i..]).value)
    requires i + long(line[i..]).value <= |line| && n == CommaEnd(line, i + long(line[i..]).value)
    ensures SubAll(short, line, rep) == line[..i] + rep + SubAllFrom(short, line, n, rep)
  {
    CommaShift(short, long, line, i);
    FirstReplaced(short, line, rep, i, n);
  }

  /** A blank array: the first match, and any comma right after it, becomes
      `"commands": [],`; the text before the match is kept. */
  lemma BlankArrayRewritten(line: string)
    requires FirstGroup(Key, line).Some? && Strip(FirstGroup(Key, line).value) == ""
    ensures FixCommandsLine(line)
            == line[..FirstStart(Key, line)] + EmptyArrayText + SubAllFrom(Compiled(EmptyArray, Key), line, FirstEndWithComma(Key, line), EmptyArrayText)
  {
    BlankBranch(line);
    BlankFirst(Key, line, EmptyArrayText);
  }

  /** A non-blank array: the first match becomes the rebuilt array; the text before
      it is kept. */
  lemma RebuiltArrayRewritten(line: string)
    requires FirstGroup(Key, line).Some? && Strip(FirstGroup(Key, line).value) != ""
    ensures ElementTexts(ArrayElements(TrimContent(FirstGroup(Key, line).value)))
    ensures var rep := ArrayText(ArrayElements(TrimContent(FirstGroup(Key, line).value)));
            FixCommandsLine(line) == line[..FirstStart(Key, line)] + rep + SubAllFrom(Compiled(AnyArray, Key), line, FirstEnd(Key, line), rep)
  {
    RebuildBranch(line);
    var rep := ArrayText(ArrayElements(TrimContent(FirstGroup(Key, line).value)));
    FirstReplaced(Compiled(AnyArray, Key), line, rep, FirstStart(Key, line), FirstEnd(Key, line));
  }
}
