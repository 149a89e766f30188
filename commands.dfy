/** `split_commands_by_semicolons`: every command string that holds a `;` is
    replaced by its `;`-separated parts, each stripped, with the empty ones
    dropped; every other command is kept as it is. */
module Commands {
  import opened Text
  import opened Json

  const Semicolon: char := ';'

  /** The stripped parts of `parts` that are not empty, in order
      (`[p.strip() for p in parts]` followed by `[p for p in parts if p]`). */
  function NonEmptyStripped(parts: seq<string>): (r: seq<string>)
    ensures |r| <= |parts|
  {
    if |parts| == 0 then []
    else
      var p := Strip(parts[0]);
      (if p != "" then [p] else []) + NonEmptyStripped(parts[1..])
  }

  /** What one `;`-string is replaced by. */
  function Pieces(s: string): seq<string> {
    NonEmptyStripped(Split(s, [Semicolon]))
  }

  /** Strings as JSON string values. */
  function Strs(ss: seq<string>): (r: seq<JsonValue>)
    ensures |r| == |ss|
    ensures forall k :: 0 <= k < |r| ==> r[k] == JStr(ss[k])
  {
    seq(|ss|, k requires 0 <= k < |ss| => JStr(ss[k]))
  }

  predicate IsSplit(cmd: JsonValue) {
    cmd.JStr? && Semicolon in cmd.s
  }

  /** What one command becomes. */
  function Expand(cmd: JsonValue): seq<JsonValue> {
    if IsSplit(cmd) then Strs(Pieces(cmd.s)) else [cmd]
  }

  /** The whole list, command by command, in order. */
  function SplitBySemicolons(cmds: seq<JsonValue>): seq<JsonValue>
    decreases |cmds|
  {
    if |cmds| == 0 then []
    else SplitBySemicolons(cmds[..|cmds| - 1]) + Expand(cmds[|cmds| - 1])
  }

  /** The loop of lines 188-198: `new_commands` grows by `extend` for a command
      that is split and by `append` for any other. */
  method SplitCommandsBySemicolons(commands: seq<JsonValue>) returns (newCommands: seq<JsonValue>)
    ensures newCommands == SplitBySemicolons(commands)
  {
    newCommands := [];
    for i := 0 to |commands|
      invariant newCommands == SplitBySemicolons(commands[..i])
    {
      var cmd := commands[i];
      ghost var before := newCommands;
      if cmd.JStr? && Semicolon in cmd.s {
        var parts := Pieces(cmd.s);
        newCommands := newCommands + Strs(parts);
      } else {
        newCommands := newCommands + [cmd];
      }
      assert newCommands == before + Expand(cmd);
      assert commands[..i + 1][..i] == commands[..i];
    }
    assert commands[..|commands|] == commands;
  }

  // ---------------------------------------------------------------------------
  // Properties
  // ---------------------------------------------------------------------------

  /** No command string holds a `;`. */
  predicate SemicolonFree(cmds: seq<JsonValue>) {
    forall k :: 0 <= k < |cmds| && cmds[k].JStr? ==> Semicolon !in cmds[k].s
  }

  /** Non-empty, stripped, and free of `c`. */
  predicate Clean(r: seq<string>, c: char) {
    forall k :: 0 <= k < |r| ==> r[k] != "" && Strip(r[k]) == r[k] && c !in r[k]
  }

  lemma CleanAppend(a: seq<string>, b: seq<string>, c: char)
    requires Clean(a, c) && Clean(b, c)
    ensures Clean(a + b, c)
  {
    assert forall k :: |a| <= k < |a + b| ==> (a + b)[k] == b[k - |a|];
  }

  lemma CleanHead(part: string, c: char)
    requires c !in part
    ensures Clean(if Strip(part) != "" then [Strip(part)] else [], c)
  {
    StripIdempotent(part);
    StripCharFree(part, c);
  }

  lemma {:induction false} NonEmptyStrippedClean(parts: seq<string>, c: char)
    requires forall k :: 0 <= k < |parts| ==> c !in parts[k]
    ensures Clean(NonEmptyStripped(parts), c)
    decreases |parts|
  {
    if |parts| > 0 {
      var p := Strip(parts[0]);
      var head: seq<string> := if p != "" then [p] else [];
      CleanHead(parts[0], c);
      NonEmptyStrippedClean(parts[1..], c);
      CleanAppend(head, NonEmptyStripped(parts[1..]), c);
    }
  }

  /** Every piece of a split command is non-empty, stripped and free of `;`. */
  lemma PiecesShape(s: string)
    ensures Clean(Pieces(s), Semicolon)
  {
    SplitCharParts(s, Semicolon);
    NonEmptyStrippedClean(Split(s, [Semicolon]), Semicolon);
  }

  lemma ExpandFree(cmd: JsonValue)
    ensures SemicolonFree(Expand(cmd))
  {
    if IsSplit(cmd) {
      PiecesShape(cmd.s);
    }
  }

  /** Splitting distributes over concatenation of command lists. */
  lemma {:induction false} SplitAppend(a: seq<JsonValue>, b: seq<JsonValue>)
    ensures SplitBySemicolons(a + b) == SplitBySemicolons(a) + SplitBySemicolons(b)
    decreases |b|
  {
    if |b| == 0 {
      assert a + b == a;
    } else {
      var b', x := b[..|b| - 1], b[|b| - 1];
      assert (a + b)[..|a + b| - 1] == a + b';
      assert (a + b)[|a + b| - 1] == x;
      SplitAppend(a, b');
      ConcatAssoc(SplitBySemicolons(a), SplitBySemicolons(b'), Expand(x));
    }
  }

  lemma SemicolonFreeAppend(a: seq<JsonValue>, b: seq<JsonValue>)
    requires SemicolonFree(a) && SemicolonFree(b)
    ensures SemicolonFree(a + b)
  {
    assert forall k :: |a| <= k < |a + b| ==> (a + b)[k] == b[k - |a|];
  }

  /** No string in the result contains `;`. */
  lemma {:induction false} SplitIsSemicolonFree(cmds: seq<JsonValue>)
    ensures SemicolonFree(SplitBySemicolons(cmds))
    decreases |cmds|
  {
    if |cmds| > 0 {
      SplitIsSemicolonFree(cmds[..|cmds| - 1]);
      ExpandFree(cmds[|cmds| - 1]);
      SemicolonFreeAppend(SplitBySemicolons(cmds[..|cmds| - 1]), Expand(cmds[|cmds| - 1]));
    }
  }

  /** A list without `;`-strings, non-strings included, comes back unchanged. */
  lemma {:induction false} SplitKeepsFree(cmds: seq<JsonValue>)
    requires SemicolonFree(cmds)
    ensures SplitBySemicolons(cmds) == cmds
    decreases |cmds|
  {
    if |cmds| > 0 {
      var init := cmds[..|cmds| - 1];
      SplitKeepsFree(init);
      assert init + [cmds[|cmds| - 1]] == cmds;
    }
  }

  /** Splitting twice is splitting once. */
  lemma SplitIdempotent(cmds: seq<JsonValue>)
    ensures SplitBySemicolons(SplitBySemicolons(cmds)) == SplitBySemicolons(cmds)
  {
    SplitIsSemicolonFree(cmds);
    SplitKeepsFree(SplitBySemicolons(cmds));
  }

  lemma SplitSingle(cmd: JsonValue)
    ensures SplitBySemicolons([cmd]) == Expand(cmd)
  {
    assert [cmd][..0] == [];
  }

  /** A command keeps its place: the commands before it and after it are split on
      their own, and it is replaced by `Expand(cmd)` in between. */
  lemma SplitOne(before: seq<JsonValue>, cmd: JsonValue, after: seq<JsonValue>)
    ensures SplitBySemicolons(before + [cmd] + after)
            == SplitBySemicolons(before) + Expand(cmd) + SplitBySemicolons(after)
  {
    SplitAppend(before + [cmd], after);
    SplitAppend(before, [cmd]);
    SplitSingle(cmd);
  }
}
