/**
  The shell: line execution over the mutable alias table and history.
 */
module Shells {
  import opened Wrappers
  import opened Text
  import opened Aliases
  import opened Histories
  import opened Rewriting
  import E = Expansion

  class Shell {
    const aliases: AliasTable
    const history: History

    ghost predicate Valid()
      reads aliases, history, history.entries
    {
      aliases.Valid() && history.Valid()
    }

    constructor ()
      ensures Valid() && aliases.Map() == map[] && history.log == []
    {
      aliases := new AliasTable();
      history := new History();
    }

    /**
      Everything `execute` does up to the dispatch of a command; `depth` is the stack it has left, `r` the
      rules it amounts to.
     */
    method Execute(input: string, depth: nat, ghost r: Rules) returns (o: Outcome)
      requires Valid() && E.ShellRules(r, aliases.Map())
      modifies history, history.entries
      ensures Valid()
      ensures (o, history.log) == Perform(r, old(history.log), Trim(input), depth)
      decreases depth, 1
    {
      var line := Trim(input);
      if line == "" {
        return Nothing;
      }
      if line != "!!" {
        o := ExecuteCommand(line, depth, r);
        return;
      }
      var last := history.Last();
      if last.None? {
        return NoPrevious;
      }
      if depth == 0 {
        return Overflow;
      }
      assert E.RuleAt(r, aliases.Map(), last.value);
      o := Execute(last.value, depth - 1, r);
    }

    method ExecuteCommand(line: string, depth: nat, ghost r: Rules) returns (o: Outcome)
      requires Valid() && E.ShellRules(r, aliases.Map()) && line != "" && line != "!!"
      modifies history, history.entries
      ensures Valid()
      ensures (o, history.log) == Perform(r, old(history.log), line, depth)
      decreases depth, 0
    {
      E.PerformLine(r, aliases.Map(), history.log, line, depth);
      E.RecordedUnlessHistory(line);
      assert history.log + [] == history.log;
      if line != "history" && !("history " <= line) {
        history.Push(line);
      }
      var cmd, args := Head(line), Trim(Tail(line));
      var expansion := aliases.Resolve(cmd);
      if expansion.None? {
        return Dispatched(line);
      }
      if depth == 0 {
        return Overflow;
      }
      var full := if args == "" then expansion.value else expansion.value + [' '] + args;
      o := Execute(full, depth - 1, r);
    }

    /**
      The `alias` command, on the trimmed arguments the dispatch hands it: it only ever builds tables the
      chain theorems speak of.
     */
    method CmdAlias(args: string) returns (r: Option<Result<(), AliasError>>)
      requires Valid() && Trimmed(args)
      modifies aliases
      ensures Valid()
      ensures r.None? <==> Head(args) == "" || Tail(args) == ""
      ensures aliases.Map() ==
              if r.Some? && r.value.Ok? then old(aliases.Map())[Head(args) := Tail(args)] else old(aliases.Map())
      ensures old(E.ShellAliases(aliases.Map())) ==> E.ShellAliases(aliases.Map())
    {
      E.AliasCommandIsTidy(args);
      var name, expansion := Head(args), Tail(args);
      if name == "" || expansion == "" {
        return None;
      }
      var defined := aliases.Define(name, expansion);
      r := Some(defined);
    }
  }
}
