/**
  User-defined command names.  The table is a list searched by name; its meaning is a map.
 */
module Aliases {
  import opened Wrappers

  const MAX_ALIASES: nat := 32
  const MAX_NAME: nat := 16

  datatype Alias = Alias(name: string, expansion: string)

  datatype AliasError = EmptyName | EmptyExpansion | NameTooLong | AliasTableFull

  ghost function Meaning(s: seq<Alias>): map<string, string> {
    if s == [] then map[] else Meaning(s[..|s| - 1])[s[|s| - 1].name := s[|s| - 1].expansion]
  }

  ghost predicate DistinctNames(s: seq<Alias>) {
    forall i, j | 0 <= i < j < |s| :: s[i].name != s[j].name
  }

  ghost predicate Named(s: seq<Alias>, k: string) {
    exists i | 0 <= i < |s| :: s[i].name == k
  }

  lemma LastName(s: seq<Alias>, k: string)
    requires s != []
    ensures Named(s, k) <==> Named(s[..|s| - 1], k) || s[|s| - 1].name == k
  {
    var init := s[..|s| - 1];
    forall i | 0 <= i < |init| ensures init[i] == s[i] { }
    if Named(init, k) {
      var i :| 0 <= i < |init| && init[i].name == k;
      assert s[i].name == k;
    }
  }

  lemma {:induction false} MeaningHasNames(s: seq<Alias>, k: string)
    ensures k in Meaning(s) <==> Named(s, k)
  {
    if s != [] {
      LastName(s, k);
      MeaningHasNames(s[..|s| - 1], k);
    }
  }

  lemma {:induction false} MeaningAt(s: seq<Alias>, i: nat)
    requires DistinctNames(s) && i < |s|
    ensures s[i].name in Meaning(s) && Meaning(s)[s[i].name] == s[i].expansion
  {
    var n := |s| - 1;
    if i < n {
      MeaningAt(s[..n], i);
      assert s[i].name != s[n].name;
    }
  }

  lemma {:induction false} MeaningSize(s: seq<Alias>)
    requires DistinctNames(s)
    ensures |Meaning(s)| == |s|
  {
    if s != [] {
      var n := |s| - 1;
      MeaningSize(s[..n]);
      MeaningHasNames(s[..n], s[n].name);
    }
  }

  lemma MeaningOf(s: seq<Alias>)
    requires DistinctNames(s)
    ensures |Meaning(s)| == |s|
    ensures forall k :: k in Meaning(s) <==> Named(s, k)
    ensures forall i | 0 <= i < |s| :: s[i].name in Meaning(s) && Meaning(s)[s[i].name] == s[i].expansion
  {
    MeaningSize(s);
    forall k ensures k in Meaning(s) <==> Named(s, k) {
      MeaningHasNames(s, k);
    }
    forall i | 0 <= i < |s| ensures s[i].name in Meaning(s) && Meaning(s)[s[i].name] == s[i].expansion {
      MeaningAt(s, i);
    }
  }

  /** Rewriting one entry's expansion is updating its name in the map. */
  lemma {:induction false} UpdateMeaning(s: seq<Alias>, i: nat, expansion: string)
    requires DistinctNames(s) && i < |s|
    ensures Meaning(s[i := Alias(s[i].name, expansion)]) == Meaning(s)[s[i].name := expansion]
  {
    var t := s[i := Alias(s[i].name, expansion)];
    var n := |s| - 1;
    if i < n {
      UpdateMeaning(s[..n], i, expansion);
      assert t[..n] == s[..n][i := t[i]];
      assert s[n].name != s[i].name;
    } else {
      assert t[..n] == s[..n];
    }
  }

  lemma AppendDistinct(s: seq<Alias>, a: Alias)
    requires DistinctNames(s) && a.name !in Meaning(s)
    ensures DistinctNames(s + [a]) && Meaning(s + [a]) == Meaning(s)[a.name := a.expansion]
  {
    MeaningOf(s);
    assert (s + [a])[..|s|] == s;
  }

  /** The entries other than those of one name, in order. */
  function Without(s: seq<Alias>, name: string): seq<Alias> {
    if s == [] then []
    else Without(s[..|s| - 1], name) + if s[|s| - 1].name != name then [s[|s| - 1]] else []
  }

  lemma {:induction false} WithoutKeeps(s: seq<Alias>, name: string, a: Alias)
    requires a in Without(s, name)
    ensures a in s && a.name != name
  {
    if a in Without(s[..|s| - 1], name) {
      WithoutKeeps(s[..|s| - 1], name, a);
    }
  }

  lemma {:induction false} WithoutIsDistinct(s: seq<Alias>, name: string)
    requires DistinctNames(s)
    ensures DistinctNames(Without(s, name)) && |Without(s, name)| <= |s|
  {
    if s != [] {
      var init, last := s[..|s| - 1], s[|s| - 1];
      WithoutIsDistinct(init, name);
      forall a | a in Without(init, name) ensures a.name != last.name {
        WithoutKeeps(init, name, a);
      }
    }
  }

  lemma {:induction false} WithoutMeaning(s: seq<Alias>, name: string)
    ensures Meaning(Without(s, name)) == Meaning(s) - {name}
  {
    if s != [] {
      var init, last := s[..|s| - 1], s[|s| - 1];
      var rest := Without(init, name);
      WithoutMeaning(init, name);
      RemoveAfterUpdate(Meaning(init), last.name, last.expansion, name);
      if last.name != name {
        assert (rest + [last])[..|rest|] == rest;
      } else {
        assert rest + [] == rest;
      }
    }
  }

  lemma RemoveAfterUpdate(m: map<string, string>, k: string, v: string, name: string)
    ensures m[k := v] - {name} == if k == name then m - {name} else (m - {name})[k := v]
  {
  }

  class AliasTable {
    var aliases: seq<Alias>

    ghost predicate Valid()
      reads this
    {
      DistinctNames(aliases) && |aliases| <= MAX_ALIASES
    }

    ghost function Map(): map<string, string>
      reads this
    {
      Meaning(aliases)
    }

    constructor ()
      ensures Valid() && Map() == map[]
    {
      aliases := [];
    }

    /** The position of a name, or the number of aliases if it is not defined. */
    method Find(name: string) returns (at: nat)
      requires Valid()
      ensures name in Map() <==> at < |aliases|
      ensures at <= |aliases| == |Map()|
      ensures at < |aliases| ==> aliases[at].name == name && Map()[name] == aliases[at].expansion
    {
      MeaningOf(aliases);
      for i := 0 to |aliases|
        invariant forall j | 0 <= j < i :: aliases[j].name != name
      {
        if aliases[i].name == name {
          return i;
        }
      }
      at := |aliases|;
    }

    method Define(name: string, expansion: string) returns (r: Result<(), AliasError>)
      requires Valid()
      modifies this
      ensures Valid()
      ensures r == if name == "" then Err(EmptyName)
                   else if expansion == "" then Err(EmptyExpansion)
                   else if |name| > 16 then Err(NameTooLong)
                   else if name !in old(Map()) && |old(Map())| >= 32 then Err(AliasTableFull)
                   else Ok(())
      ensures Map() == if r.Ok? then old(Map())[name := expansion] else old(Map())
    {
      if name == "" { return Err(EmptyName); }
      if expansion == "" { return Err(EmptyExpansion); }
      if |name| > MAX_NAME { return Err(NameTooLong); }
      var at := Find(name);
      if at < |aliases| {
        UpdateMeaning(aliases, at, expansion);
        aliases := aliases[at := Alias(name, expansion)];
        return Ok(());
      }
      if |aliases| >= MAX_ALIASES {
        return Err(AliasTableFull);
      }
      AppendDistinct(aliases, Alias(name, expansion));
      aliases := aliases + [Alias(name, expansion)];
      r := Ok(());
    }

    method Resolve(name: string) returns (r: Option<string>)
      requires Valid()
      ensures r == if name in Map() then Some(Map()[name]) else None
    {
      var at := Find(name);
      r := if at < |aliases| then Some(aliases[at].expansion) else None;
    }

    method Remove(name: string) returns (removed: bool)
      requires Valid()
      modifies this
      ensures Valid() && removed == (name in old(Map())) && Map() == old(Map()) - {name}
    {
      MeaningOf(aliases);
      WithoutIsDistinct(aliases, name);
      WithoutMeaning(aliases, name);
      MeaningOf(Without(aliases, name));
      ghost var m := Meaning(aliases);
      assert (m - {name}).Keys == m.Keys - {name};
      var before := |aliases|;
      aliases := Without(aliases, name);
      removed := |aliases| < before;
    }
  }
}
