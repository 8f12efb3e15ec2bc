/**
  How the shell rewrites a line: through an alias, or by repeating the history.
 */
module Expansion {
  import opened Wrappers
  import opened Chains
  import opened Rewriting
  import opened Text
  import A = Aliases
  import H = Histories

  type AliasMap = map<string, string>

  function Command(line: string): string {
    Head(line)
  }

  function Arguments(line: string): string {
    Trim(Tail(line))
  }

  /** The line an alias turns a command with arguments into. */
  function Expanded(expansion: string, args: string): string {
    if args == "" then expansion else expansion + [' '] + args
  }

  predicate Recorded(line: string) {
    line != "history" && !("history " <= line)
  }

  /** What a line with an aliased command turns into. */
  function Successor(aliases: AliasMap, line: string): string
    requires Command(line) in aliases
  {
    Expanded(aliases[Command(line)], Arguments(line))
  }

  // ----- The rules -----

  /** `r` are the shell's rules; said line by line, so that a proof looks only at the lines it names. */
  ghost predicate ShellRules(r: Rules, aliases: AliasMap) {
    forall line :: RuleAt(r, aliases, line)
  }

  /** Aliases rewrite a line, all but the history command itself are kept, and history lines are trimmed. */
  predicate RuleAt(r: Rules, aliases: AliasMap, line: string) {
    && r.next(line) == (if Command(line) in aliases then Some(Trim(Successor(aliases, line))) else None)
    && r.keep(line) == (if Recorded(line) then [H.Kept(line)] else [])
    && r.clean(line) == Trim(line)
  }

  /** Every table has such rules, so nothing said of them is empty. */
  lemma EveryTableHasRules(aliases: AliasMap)
    ensures exists r :: ShellRules(r, aliases)
  {
    var r := Rules(
      (line: string) => if Command(line) in aliases then Some(Trim(Successor(aliases, line))) else None,
      (line: string) => if Recorded(line) then [H.Kept(line)] else [],
      (line: string) => Trim(line));
    assert ShellRules(r, aliases);
  }

  /** The history keeps a line exactly when its command is not `history`, whatever its arguments. */
  lemma RecordedUnlessHistory(line: string)
    ensures Recorded(line) <==> Command(line) != "history"
  {
    assert "history " == "history" + [' '];
    HeadDecides(line, "history");
  }

  /** What the rules come to for a line other than `!!`. */
  lemma PerformLine(r: Rules, aliases: AliasMap, log: seq<string>, line: string, depth: nat)
    requires ShellRules(r, aliases) && line != "" && line != REPEAT
    ensures
      var log' := log + if Command(line) == "history" then [] else [H.Kept(line)];
      Perform(r, log, line, depth) ==
        if Command(line) !in aliases then (Dispatched(line), log')
        else if depth == 0 then (Overflow, log')
        else Perform(r, log', Trim(Successor(aliases, line)), depth - 1)
  {
    assert RuleAt(r, aliases, line);
    RecordedUnlessHistory(line);
  }

  // ----- Aliases as the shell defines them -----

  /** Not blank, and without white space at the end. */
  predicate Tidy(expansion: string) {
    expansion != "" && !IsSpace(expansion[|expansion| - 1])
  }

  ghost predicate TidyAliases(aliases: AliasMap) {
    forall w | w in aliases :: Tidy(aliases[w])
  }

  /** The alias tables the shell's own commands can build: tidy expansions under names the table accepts. */
  ghost predicate ShellAliases(aliases: AliasMap) {
    TidyAliases(aliases) && forall w | w in aliases :: |w| <= A.MAX_NAME
  }

  /** The `alias` command passes the table the first word of its trimmed arguments and the rest of them. */
  lemma AliasCommandIsTidy(args: string)
    requires Trimmed(args)
    ensures ' ' !in Head(args) && (Tail(args) == "" || Tidy(Tail(args)))
  {
    HeadHasNoSpace(args);
    TailIsSuffix(args);
    if Tail(args) != "" {
      assert Tail(args)[|Tail(args)| - 1] == args[|args| - 1];
    }
  }

  // ----- One expansion -----

  lemma {:induction false} TidyIsNotBlank(e: string)
    requires Tidy(e)
    ensures !Blank(e)
    ensures TrimLeft(e)[|TrimLeft(e)| - 1] == e[|e| - 1]
  {
    if IsSpace(e[0]) {
      TidyIsNotBlank(e[1..]);
    }
  }

  /**
    An expanded line starts with the expansion's own first word, whatever arguments follow it, and
    still carries those arguments at its end.
   */
  lemma ExpandedLine(e: string, args: string)
    requires Tidy(e) && Trimmed(args)
    ensures
      var line := Trim(Expanded(e, args));
      && line != "" && Trimmed(line)
      && Command(line) == Head(Trim(e))
      && Trimmed(Arguments(line)) && EndsWith(Arguments(line), args)
  {
    TidyIsNotBlank(e);
    TrimLeftIsSuffix(e);
    assert Trim(e) == TrimLeft(e);
    TrimTrims(Expanded(e, args));
    TrimTrims(Tail(Trim(Expanded(e, args))));
    if args != "" {
      ExpandedTrims(e, args);
      HeadOfConcat(TrimLeft(e), args);
      ArgumentsSurvive(TrimLeft(e), args);
    }
  }

  lemma ExpandedTrims(e: string, args: string)
    requires Tidy(e) && Trimmed(args) && args != ""
    ensures Trim(e + [' '] + args) == TrimLeft(e) + [' '] + args
  {
    TidyIsNotBlank(e);
    var rest := [' '] + args;
    TrimLeftOfConcat(e, rest);
    NothingToTrim(TrimLeft(e) + rest);
    Regroup(e, args);
    Regroup(TrimLeft(e), args);
  }

  /** The whole expansion survives, but for blanks before it, and so do all the arguments, one space apart. */
  lemma ExpandedReads(e: string, args: string)
    requires Tidy(e) && Trimmed(args)
    ensures Trim(Expanded(e, args)) == if args == "" then Trim(e) else Trim(e) + [' '] + args
  {
    TidyIsNotBlank(e);
    TrimLeftIsSuffix(e);
    NothingToTrim(TrimLeft(e));
    if args != "" {
      ExpandedTrims(e, args);
    }
  }

  lemma Regroup(s: string, t: string)
    ensures s + ([' '] + t) == s + [' '] + t
  {
  }

  lemma ArgumentsSurvive(l: string, args: string)
    requires Trimmed(args) && args != ""
    ensures EndsWith(Arguments(l + [' '] + args), args)
  {
    HeadOfConcat(l, args);
    if ' ' in l {
      TrimKeepsEnding(Tail(l) + [' '], args);
    } else {
      TrimOfTrimmed(args);
    }
  }

  // ----- The shell as a rewriting system -----

  /** How the shell reads lines: as a first word, looked up in the table, and arguments. */
  function ReadingOf(aliases: AliasMap): Reading {
    Reading(
      aliases.Keys,
      (w: string) => if w in aliases then Head(Trim(aliases[w])) else w,
      (line: string) => Command(line),
      (line: string) => Arguments(line),
      (line: string) => line != "" && Trimmed(line),
      "history")
  }

  lemma NextLine(aliases: AliasMap, line: string)
    requires TidyAliases(aliases) && line != "" && Trimmed(line) && Command(line) in aliases
    ensures
      var next := Trim(Successor(aliases, line));
      && next != "" && Trimmed(next)
      && Command(next) == Head(Trim(aliases[Command(line)]))
      && EndsWith(Arguments(next), Arguments(line))
  {
    TrimTrims(Tail(line));
    ExpandedLine(aliases[Command(line)], Arguments(line));
  }

  /** A line without arguments is its first word. */
  lemma BareLineIsWord(line: string)
    requires line != "" && Trimmed(line) && Arguments(line) == ""
    ensures ' ' !in line && line == Command(line)
  {
    if ' ' in line {
      SpacedLineHasArguments(line);
    } else {
      OneWord(line);
    }
  }

  /**
    A line is its command, a gap of white space that starts with a space character, and its arguments,
    which lose none of their own characters; without arguments it is the command alone.
   */
  lemma LineSplits(line: string) returns (gap: string)
    requires line != "" && Trimmed(line)
    ensures line == Command(line) + gap + Arguments(line) && ' ' !in Command(line)
    ensures (forall c | c in gap :: c in WHITE) && (gap == "" <==> Arguments(line) == "") && (gap != "" ==> gap[0] == ' ')
    ensures Arguments(line) != "" ==> Arguments(line)[0] !in WHITE
  {
    HeadHasNoSpace(line);
    BareIffWord(line);
    if Arguments(line) == "" {
      gap := "";
    } else {
      gap := GapBeforeArguments(line);
    }
  }

  lemma GapBeforeArguments(line: string) returns (gap: string)
    requires line != "" && Trimmed(line) && Arguments(line) != ""
    ensures line == Command(line) + gap + Arguments(line)
    ensures (forall c | c in gap :: c in WHITE) && gap != "" && gap[0] == ' ' && Arguments(line)[0] !in WHITE
  {
    SpaceBeforeArguments(line);
    HeadAndTail(line);
    var before, after := TrimTakesWhiteEnds(Tail(line));
    Assemble(line, Head(line), Tail(line), before, Arguments(line), after);
    gap := [' '] + before;
  }

  lemma SpaceBeforeArguments(line: string)
    ensures Arguments(line) != "" ==> ' ' in line
  {
    if ' ' !in line {
      OneWord(line);
    }
  }

  lemma Assemble(line: string, head: string, tail: string, before: string, args: string, after: string)
    requires line != "" && Trimmed(line) && line == head + [' '] + tail && tail == before + args + after
    requires forall c | c in before + after :: c in WHITE
    ensures line == head + ([' '] + before) + args
  {
    assert line == (head + ([' '] + before) + args) + after;
    NothingAfter(line, head + ([' '] + before) + args, after);
  }

  /** A line has no arguments iff it is its command. */
  lemma BareIffWord(line: string)
    requires line != "" && Trimmed(line)
    ensures Arguments(line) == "" <==> line == Command(line)
  {
    if Arguments(line) == "" {
      BareLineIsWord(line);
    } else {
      SpaceBeforeArguments(line);
      HeadHasNoSpace(line);
    }
  }

  lemma NothingAfter(line: string, start: string, after: string)
    requires line != "" && Trimmed(line) && line == start + after && forall c | c in after :: c in WHITE
    ensures after == ""
  {
    SpaceIsWhite(line[|line| - 1]);
    LastOfEnding(start, after);
  }

  lemma SpacedLineHasArguments(line: string)
    requires line != "" && Trimmed(line) && ' ' in line
    ensures Arguments(line) != ""
  {
    HeadAndTail(line);
    var t := Tail(line);
    assert line[|line| - 1] == if t == "" then ' ' else t[|t| - 1];
    TidyIsNotBlank(t);
    TrimTrims(t);
  }

  /** An alias name is too short to be cut, and has no space for the prefix of the history command to match. */
  lemma BareNameIsKept(w: string)
    requires ' ' !in w && |w| <= A.MAX_NAME
    ensures H.Kept(w) == w && (Recorded(w) <==> w != "history")
  {
    NoSpaceInside(w, "history ", 7);
  }

  /** The shell's rules obey the law of first words, whatever table its commands have built. */
  lemma ShellIsLawful(r: Rules, aliases: AliasMap)
    requires ShellRules(r, aliases) && ShellAliases(aliases)
    ensures Lawful(r, ReadingOf(aliases))
  {
    OneWord(REPEAT);
    forall line: string ensures Law(r, ReadingOf(aliases), line) {
      assert RuleAt(r, aliases, line);
      if line != "" && Trimmed(line) {
        LineIsLawful(r, aliases, line);
      }
    }
  }

  lemma LineIsLawful(r: Rules, aliases: AliasMap, line: string)
    requires ShellAliases(aliases) && RuleAt(r, aliases, line) && line != "" && Trimmed(line)
    ensures Law(r, ReadingOf(aliases), line)
  {
    if Command(line) in aliases {
      NextLine(aliases, line);
    }
    if Arguments(line) == "" {
      BareLineIsWord(line);
      if line in aliases {
        BareNameIsKept(line);
        TrimOfTrimmed(line);
      }
    }
  }

  // ----- What the history holds -----

  /** Execution only appends to the history, and the line `!!` itself is never recorded. */
  lemma HistoryNeverHoldsRepeat(r: Rules, aliases: AliasMap, log: seq<string>, line: string, depth: nat)
    requires ShellRules(r, aliases) && REPEAT !in log
    ensures log <= Perform(r, log, line, depth).1 && REPEAT !in Perform(r, log, line, depth).1
  {
    forall l: string | l != REPEAT ensures REPEAT !in r.keep(l) {
      assert RuleAt(r, aliases, l);
    }
    HistoryGrows(r, log, line, depth, REPEAT);
  }

  /** When the history holds a line that reads as `!!`: exactly when a long line was cut down to `!!` and white space. */
  lemma CutLineReadsAsRepeat(line: string)
    requires line != "" && Trimmed(line) && line != REPEAT
    ensures Trim(H.Kept(line)) == REPEAT <==>
      |line| > H.MAX_LINE && line[..2] == REPEAT && forall i | 2 <= i < H.MAX_LINE :: IsSpace(line[i])
  {
    if |line| <= H.MAX_LINE {
      TrimOfTrimmed(line);
    } else {
      CutReadsAs(line[..H.MAX_LINE], REPEAT);
      assert line[..H.MAX_LINE][..2] == line[..2];
    }
  }

  lemma CutReadsAs(s: string, t: string)
    requires s != "" && !IsSpace(s[0]) && t != "" && Trimmed(t) && |t| <= |s|
    ensures Trim(s) == t <==> s[..|t|] == t && forall i | |t| <= i < |s| :: IsSpace(s[i])
  {
    TrimRightIsPrefix(s);
    TrimRightDropsSpaces(s);
    if s[..|t|] == t && forall i | |t| <= i < |s| :: IsSpace(s[i]) {
      assert s[|t| - 1] == t[|t| - 1];
      TrimRightExactly(s, |t|);
    }
  }

  // ----- The whole picture -----

  /**
    The outcome of every line.  Its chain stops within as many expansions as there are aliases, or
    never.  It exhausts every stack if it never stops, or if it stops at the bare `!!` after at least
    one expansion other than that of the line `history` by itself; it is dispatched if it stops
    elsewhere and the stack is as deep as the chain is long; what is left is `!!` itself.
   */
  lemma EveryLineIsDecided(r: Rules, aliases: AliasMap, log: seq<string>, line: string, depth: nat)
    requires ShellRules(r, aliases) && ShellAliases(aliases) && line != "" && Trimmed(line)
    ensures
      var o := Perform(r, log, line, depth);
      if OpenUpTo(r, line, |aliases| + 1) then o.0 == Overflow
      else
        var n := ChainLength(r, line, |aliases| + 1);
        var end := At(r, line, n);
        if end != REPEAT then
          && Command(end) !in aliases && EndsWith(Arguments(end), Arguments(line))
          && o.0 == if depth < n then Overflow else Dispatched(end)
        else if n == 0 || (n == 1 && line == "history") then
          o == if depth < n then (Overflow, log) else Perform(r, log, REPEAT, depth - n)
        else o.0 == Overflow
  {
    ShellIsLawful(r, aliases);
    EveryChainIsDecided(r, ReadingOf(aliases), log, line, depth);
  }

  /** A line of nothing but white space does nothing. */
  lemma BlankDoesNothing(r: Rules, log: seq<string>, input: string, depth: nat)
    requires forall c | c in input :: c in WHITE
    ensures Perform(r, log, Trim(input), depth) == (Nothing, log)
  {
    var before, after := TrimTakesWhiteEnds(input);
    FirstOfMiddle(before, Trim(input), after);
  }

  /**
    An alias for `!!`: on its own its name overflows every stack, unless it is `history`, which repeats
    the line before it.  With arguments it is no repeat at all, and is dispatched as a command `!!` that nothing names.
   */
  lemma AliasForRepeat(r: Rules, aliases: AliasMap, log: seq<string>, w: string, line: string, depth: nat)
    requires ShellRules(r, aliases) && ShellAliases(aliases)
    requires w in aliases && Trim(aliases[w]) == REPEAT
    requires line != "" && Trimmed(line) && line != REPEAT && Command(line) == w
    ensures line == w && w != "history" ==> Perform(r, log, line, depth).0 == Overflow
    ensures line == w == "history" ==>
      Perform(r, log, line, depth) == if depth == 0 then (Overflow, log) else Perform(r, log, REPEAT, depth - 1)
    ensures line != w && REPEAT !in aliases ==>
      Perform(r, log, line, depth).0 == if depth == 0 then Overflow else Dispatched(REPEAT + [' '] + Arguments(line))
  {
    FirstOfRepeat(r, aliases, w, line);
    ShellIsLawful(r, aliases);
    if line == w {
      ChainToRepeat(r, ReadingOf(aliases), log, line, 1, depth);
    } else if REPEAT !in aliases {
      ChainIsDispatched(r, ReadingOf(aliases), log, line, 1, depth);
    }
  }

  /** A line under an alias is rewritten to the whole expansion followed by all the line's arguments. */
  lemma AliasCarriesArguments(r: Rules, aliases: AliasMap, line: string)
    requires ShellRules(r, aliases) && ShellAliases(aliases) && Command(line) in aliases
    ensures
      var e, args := Trim(aliases[Command(line)]), Arguments(line);
      r.next(line) == Some(if args == "" then e else e + [' '] + args)
  {
    assert RuleAt(r, aliases, line);
    TrimTrims(Tail(line));
    ExpandedReads(aliases[Command(line)], Arguments(line));
  }

  /** When the expansion's own command is no alias, that is the line dispatched. */
  lemma AliasIsDispatched(r: Rules, aliases: AliasMap, log: seq<string>, line: string, depth: nat)
    requires ShellRules(r, aliases) && ShellAliases(aliases)
    requires line != "" && Trimmed(line) && line != REPEAT && Command(line) in aliases
    requires Head(Trim(aliases[Command(line)])) !in aliases
    ensures
      var e, args := Trim(aliases[Command(line)]), Arguments(line);
      var whole := if args == "" then e else e + [' '] + args;
      whole != REPEAT ==> Perform(r, log, line, depth).0 == if depth == 0 then Overflow else Dispatched(whole)
  {
    var whole := Trim(Successor(aliases, line));
    AliasCarriesArguments(r, aliases, line);
    NextLine(aliases, line);
    assert RuleAt(r, aliases, line);
    PerformLine(r, aliases, log, line, depth);
    if whole != REPEAT && depth > 0 {
      PerformLine(r, aliases, log + if Command(line) == "history" then [] else [H.Kept(line)], whole, depth - 1);
    }
  }

  lemma FirstOfRepeat(r: Rules, aliases: AliasMap, w: string, line: string)
    requires ShellRules(r, aliases) && ShellAliases(aliases)
    requires w in aliases && Trim(aliases[w]) == REPEAT
    requires line != "" && Trimmed(line) && line != REPEAT && Command(line) == w
    ensures OpenUpTo(r, line, 1) && (Arguments(line) == "" <==> line == w)
    ensures At(r, line, 1) == if line == w then REPEAT else REPEAT + [' '] + Arguments(line)
    ensures line != w && REPEAT !in aliases ==> !OpenAt(r, line, 1)
  {
    assert At(r, line, 0) == line;
    AliasCarriesArguments(r, aliases, line);
    BareIffWord(line);
    if line != w {
      CommandOfRepeat(Arguments(line));
      assert RuleAt(r, aliases, At(r, line, 1));
    }
  }

  lemma CommandOfRepeat(args: string)
    ensures Command(REPEAT + [' '] + args) == REPEAT
  {
    OneWord(REPEAT);
    HeadOfConcat(REPEAT, args);
  }
}
