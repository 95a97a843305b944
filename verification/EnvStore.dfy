/** Environment variables of cmd_nvedit.c: what `setenv` and `getenv` mean for an ordered list of definitions. */
module EnvStore {
  import opened Common
  import opened EnvBytes

  datatype Var = Var(name: string, value: string)

  function Entry(v: Var): string {
    v.name + "=" + v.value
  }

  function Entries(vs: seq<Var>): seq<string> {
    seq(|vs|, i requires 0 <= i < |vs| => Entry(vs[i]))
  }

  predicate ValidVar(v: Var) {
    NoNul(v.name) && NoNul(v.value) && '=' !in v.name
  }

  predicate ValidVars(vs: seq<Var>) {
    && (forall i :: 0 <= i < |vs| ==> ValidVar(vs[i]))
    && forall i, j :: 0 <= i < j < |vs| ==> vs[i].name != vs[j].name
  }

  /** What an argument of `setenv` or `getenv` names: `envmatch` stops at the first `=` of it. */
  function Target(name: string): (t: string)
    ensures '=' !in t && t <= name && (t == name || name[|t|] == '=')
  {
    if name == "" || name[0] == '=' then "" else [name[0]] + Target(name[1..])
  }

  function Position(vs: seq<Var>, name: string): (j: nat)
    ensures j <= |vs| && (j < |vs| ==> vs[j].name == name) && forall i :: 0 <= i < j ==> vs[i].name != name
  {
    if vs == [] || vs[0].name == name then 0 else 1 + Position(vs[1..], name)
  }

  function Lookup(vs: seq<Var>, name: string): Option<string> {
    var j := Position(vs, name);
    if j < |vs| then Some(vs[j].value) else None
  }

  function Remove(vs: seq<Var>, name: string): seq<Var> {
    var j := Position(vs, name);
    if j < |vs| then vs[..j] + vs[j + 1..] else vs
  }

  /** The definition that `name` and the other arguments make, cut at its first `=`. */
  function Definition(name: string, args: seq<string>): Var
    requires args != []
  {
    PartialExtends(name, args);
    var t := Target(name);
    Var(t, Text(name, args)[|t| + 1..])
  }

  /** Arguments joined by blanks. */
  function Join(args: seq<string>): string
    requires args != []
  {
    if |args| == 1 then args[0] else Join(args[..|args| - 1]) + " " + args[|args| - 1]
  }

  // ---- setenv

  predicate Protected(name: string) {
    name == "serial#" || name == "ethaddr"
  }

  predicate IsConsole(name: string) {
    name == "stdin" || name == "stdout" || name == "stderr"
  }

  /** A `setenv` command; `refuse` is what the console or baudrate switch says when it is asked. */
  datatype Command = Command(name: string, args: seq<string>, refuse: bool)

  predicate ValidCommand(c: Command) {
    NoNul(c.name) && forall i :: 0 <= i < |c.args| ==> NoNul(c.args[i])
  }

  /** An existing definition that must stay. */
  predicate Refused(overwrite: bool, c: Command) {
    || (!overwrite && Protected(c.name))
    || (IsConsole(c.name) && c.args == [])
    || ((IsConsole(c.name) || c.name == "baudrate") && c.refuse)
  }

  predicate FitsIn(vs: seq<Var>, size: nat) {
    |Image(Entries(vs))| <= size
  }

  /** `_do_setenv`: the list afterwards and whether it returns 0. */
  function SetEnv(vs: seq<Var>, size: nat, overwrite: bool, c: Command): (seq<Var>, bool) {
    if Lookup(vs, Target(c.name)).Some? && Refused(overwrite, c) then (vs, false)
    else
      var rest := Remove(vs, Target(c.name));
      if c.args == [] then (rest, true)
      else
        var all := rest + [Definition(c.name, c.args)];
        if FitsIn(all, size) then (all, true) else (rest, false)
  }

  // ---- texts and definitions

  lemma {:induction false} PartialExtends(name: string, args: seq<string>)
    ensures name <= Partial(name, args)
    ensures args != [] ==> |Partial(name, args)| > |name| && Partial(name, args)[|name|] == '='
  {
    if args != [] {
      PartialExtends(name, args[..|args| - 1]);
    }
  }

  lemma DefinitionText(name: string, args: seq<string>)
    requires args != [] && NoNul(name) && forall i :: 0 <= i < |args| ==> NoNul(args[i])
    ensures Entry(Definition(name, args)) == Text(name, args) && ValidVar(Definition(name, args))
  {
    PartialExtends(name, args);
    PartialNoNul(name, args);
    var t, text := Target(name), Text(name, args);
    assert text[..|t|] == t && text[|t|] == '=';
    assert text == text[..|t|] + [text[|t|]] + text[|t| + 1..];
  }

  lemma {:induction false} PartialJoin(name: string, args: seq<string>)
    requires args != []
    ensures Partial(name, args) == name + "=" + Join(args)
  {
    if |args| == 1 {
      assert args[..0] == [];
    } else {
      PartialJoin(name, args[..|args| - 1]);
    }
  }

  /** The value that a name and arguments give: for a plain name the arguments joined by blanks, otherwise what stands
      behind the first `=` of the name is part of it. */
  function Meant(name: string, args: seq<string>): string
    requires args != []
  {
    TextBehind(name, Join(args));
    if '=' !in name then Join(args) else name[|Target(name)| + 1..] + "=" + Join(args)
  }

  lemma DefinitionIs(name: string, args: seq<string>)
    requires args != []
    ensures Definition(name, args) == Var(Target(name), Meant(name, args))
    ensures '=' !in name ==> Target(name) == name
  {
    PartialExtends(name, args);
    PartialJoin(name, args);
    TextBehind(name, Join(args));
  }

  lemma TextBehind(name: string, value: string)
    ensures var t, text := Target(name), name + "=" + value;
            text[|t| + 1..] == if '=' !in name then value else name[|t| + 1..] + "=" + value
    ensures '=' !in name ==> Target(name) == name
    ensures '=' in name ==> |Target(name)| < |name|
  {
    var t := Target(name);
    assert t == name || name[|t|] == '=';
    if t != name {
      Behind(name, "=" + value, |t| + 1);
      assert name + "=" + value == name + ("=" + value);
    }
  }

  lemma Behind(a: string, b: string, k: nat)
    requires k <= |a|
    ensures (a + b)[k..] == a[k..] + b
  {
  }

  // ---- removing and finding

  lemma PositionUnique(vs: seq<Var>, j: nat)
    requires ValidVars(vs) && j < |vs|
    ensures Position(vs, vs[j].name) == j
  {
  }

  lemma RemoveValid(vs: seq<Var>, name: string)
    requires ValidVars(vs)
    ensures ValidVars(Remove(vs, name)) && forall v :: v in Remove(vs, name) <==> v in vs && v.name != name
  {
    var j, r := Position(vs, name), Remove(vs, name);
    if j < |vs| {
      forall a, b | 0 <= a < b < |r|
        ensures r[a].name != r[b].name
      {
        assert r[a] == vs[if a < j then a else a + 1] && r[b] == vs[if b < j then b else b + 1];
      }
      assert vs == vs[..j] + [vs[j]] + vs[j + 1..];
    }
  }

  /** In a list of distinct names looking up finds exactly what is there. */
  lemma LookupIn(vs: seq<Var>, v: Var)
    requires ValidVars(vs)
    ensures v in vs <==> Lookup(vs, v.name) == Some(v.value)
  {
    if v in vs {
      var j :| 0 <= j < |vs| && vs[j] == v;
      PositionUnique(vs, j);
    }
  }

  lemma LookupRemove(vs: seq<Var>, name: string, other: string)
    requires ValidVars(vs)
    ensures Lookup(Remove(vs, name), other) == if other == name then None else Lookup(vs, other)
  {
    var r := Remove(vs, name);
    RemoveValid(vs, name);
    if Lookup(r, other).Some? {
      LookupIn(r, Var(other, Lookup(r, other).value));
      LookupIn(vs, Var(other, Lookup(r, other).value));
    }
    if Lookup(vs, other).Some? && other != name {
      LookupIn(vs, Var(other, Lookup(vs, other).value));
      LookupIn(r, Var(other, Lookup(vs, other).value));
    }
  }

  lemma AppendValid(vs: seq<Var>, v: Var)
    requires ValidVars(vs) && ValidVar(v) && Lookup(vs, v.name) == None
    ensures ValidVars(vs + [v])
    ensures forall name :: Lookup(vs + [v], name) == if name == v.name then Some(v.value) else Lookup(vs, name)
  {
    assert Position(vs, v.name) == |vs|;
    var all := vs + [v];
    assert ValidVars(all);
    forall name
      ensures Lookup(all, name) == if name == v.name then Some(v.value) else Lookup(vs, name)
    {
      var j := Position(vs, name);
      if j < |vs| {
        PositionUnique(all, j);
      } else if name == v.name {
        PositionUnique(all, |vs|);
      }
    }
  }

  /** The list that is left when the name is taken out, and what is appended to it. */
  lemma SetEnvParts(vs: seq<Var>, size: nat, overwrite: bool, c: Command)
    requires ValidVars(vs) && ValidCommand(c) && FitsIn(vs, size) && size >= 2
    ensures ValidVars(SetEnv(vs, size, overwrite, c).0) && FitsIn(SetEnv(vs, size, overwrite, c).0, size)
  {
    var t := Target(c.name);
    RemoveValid(vs, t);
    LookupRemove(vs, t, t);
    RemoveFits(vs, t, size);
    if c.args != [] {
      DefinitionText(c.name, c.args);
      AppendValid(Remove(vs, t), Definition(c.name, c.args));
    }
  }

  lemma EntriesDrop(vs: seq<Var>, j: nat)
    requires j < |vs|
    ensures Entries(vs[..j] + vs[j + 1..]) == Drop(Entries(vs), j)
  {
  }

  lemma RemoveFits(vs: seq<Var>, name: string, size: nat)
    requires FitsIn(vs, size) && size >= 2
    ensures FitsIn(Remove(vs, name), size)
  {
    var j := Position(vs, name);
    if j < |vs| {
      EntriesDrop(vs, j);
      ImageDrop(Entries(vs), j);
    }
  }

  lemma ImageDrop(es: seq<string>, j: nat)
    requires j < |es|
    ensures Drop(es, j) == [] || |Image(Drop(es, j))| <= |Image(es)|
  {
    FlatSplit(es, j);
  }

  lemma RemoveMeaning(vs: seq<Var>, t: string)
    requires ValidVars(vs)
    ensures ValidVars(Remove(vs, t)) && Lookup(Remove(vs, t), t) == None
    ensures forall name :: name != t ==> Lookup(Remove(vs, t), name) == Lookup(vs, name)
  {
    RemoveValid(vs, t);
    forall name
      ensures Lookup(Remove(vs, t), name) == if name == t then None else Lookup(vs, name)
    {
      LookupRemove(vs, t, name);
    }
  }

  /** What a command does to the variable it names: refused ones change nothing, a deleted or overflowing variable is
      gone, a set one has its value and moves to the end. */
  lemma SetEnvTarget(vs: seq<Var>, size: nat, overwrite: bool, c: Command)
    requires ValidVars(vs) && ValidCommand(c)
    ensures var (r, ok), t := SetEnv(vs, size, overwrite, c), Target(c.name);
            if Lookup(vs, t).Some? && Refused(overwrite, c) then r == vs && !ok
            else if c.args == [] then r == Remove(vs, t) && ok && Lookup(r, t) == None
            else if ok then r == Remove(vs, t) + [Definition(c.name, c.args)]
                         && Lookup(r, t) == Some(Definition(c.name, c.args).value)
            else r == Remove(vs, t) && Lookup(r, t) == None && !FitsIn(r + [Definition(c.name, c.args)], size)
  {
    RemoveMeaning(vs, Target(c.name));
    if c.args != [] {
      DefinitionText(c.name, c.args);
      AppendValid(Remove(vs, Target(c.name)), Definition(c.name, c.args));
    }
  }

  /** All other variables stay. */
  lemma SetEnvOthers(vs: seq<Var>, size: nat, overwrite: bool, c: Command, name: string)
    requires ValidVars(vs) && ValidCommand(c) && name != Target(c.name)
    ensures Lookup(SetEnv(vs, size, overwrite, c).0, name) == Lookup(vs, name)
  {
    RemoveMeaning(vs, Target(c.name));
    if c.args != [] {
      DefinitionText(c.name, c.args);
      AppendValid(Remove(vs, Target(c.name)), Definition(c.name, c.args));
    }
  }

  // ---- runs

  function Run(vs: seq<Var>, size: nat, overwrite: bool, cs: seq<Command>): seq<Var> {
    if cs == [] then vs else SetEnv(Run(vs, size, overwrite, cs[..|cs| - 1]), size, overwrite, cs[|cs| - 1]).0
  }

  predicate ValidCommands(cs: seq<Command>) {
    forall i :: 0 <= i < |cs| ==> ValidCommand(cs[i])
  }

  /** Over any run the list keeps distinct names and fits its bytes. */
  lemma {:induction false} RunKeepsList(vs: seq<Var>, size: nat, overwrite: bool, cs: seq<Command>)
    requires ValidVars(vs) && FitsIn(vs, size) && size >= 2 && ValidCommands(cs)
    ensures ValidVars(Run(vs, size, overwrite, cs)) && FitsIn(Run(vs, size, overwrite, cs), size)
  {
    if cs != [] {
      RunKeepsList(vs, size, overwrite, cs[..|cs| - 1]);
      SetEnvParts(Run(vs, size, overwrite, cs[..|cs| - 1]), size, overwrite, cs[|cs| - 1]);
    }
  }

  /** A value stays what it is over commands on other names. */
  lemma {:induction false} RunKeepsOthers(vs: seq<Var>, size: nat, overwrite: bool, cs: seq<Command>, name: string)
    requires ValidVars(vs) && FitsIn(vs, size) && size >= 2 && ValidCommands(cs)
    requires forall i :: 0 <= i < |cs| ==> Target(cs[i].name) != name
    ensures Lookup(Run(vs, size, overwrite, cs), name) == Lookup(vs, name)
  {
    if cs != [] {
      var init := cs[..|cs| - 1];
      RunKeepsOthers(vs, size, overwrite, init, name);
      RunKeepsList(vs, size, overwrite, init);
      SetEnvOthers(Run(vs, size, overwrite, init), size, overwrite, cs[|cs| - 1], name);
    }
  }

  lemma {:induction false} SetThenOthers(vs: seq<Var>, size: nat, overwrite: bool, before: seq<Command>, c: Command,
                                         after: seq<Command>)
    requires ValidVars(vs) && FitsIn(vs, size) && size >= 2 && ValidCommands(before + [c]) && ValidCommands(after)
    requires c.args != [] && SetEnv(Run(vs, size, overwrite, before), size, overwrite, c).1
    requires forall i :: 0 <= i < |after| ==> Target(after[i].name) != Target(c.name)
    ensures Lookup(Run(Run(vs, size, overwrite, before + [c]), size, overwrite, after), Target(c.name))
         == Some(Definition(c.name, c.args).value)
  {
    assert (before + [c])[..|before|] == before && c == (before + [c])[|before|];
    assert forall i :: 0 <= i < |before| ==> before[i] == (before + [c])[i];
    RunKeepsList(vs, size, overwrite, before);
    var mid := Run(vs, size, overwrite, before);
    SetEnvTarget(mid, size, overwrite, c);
    SetEnvParts(mid, size, overwrite, c);
    RunKeepsOthers(SetEnv(mid, size, overwrite, c).0, size, overwrite, after, Target(c.name));
  }

  lemma ValidParts(a: seq<Command>, b: seq<Command>)
    requires ValidCommands(a + b)
    ensures ValidCommands(a) && ValidCommands(b)
  {
    assert forall i :: 0 <= i < |a| ==> a[i] == (a + b)[i];
    assert forall i :: 0 <= i < |b| ==> b[i] == (a + b)[|a| + i];
  }

  /** After any run, a variable has the value last stored, whatever was done to others since: for a plain name the
      arguments of that command joined by blanks. */
  lemma {:induction false} LastValueWins(vs: seq<Var>, size: nat, overwrite: bool, before: seq<Command>, c: Command,
                                         after: seq<Command>)
    requires ValidVars(vs) && FitsIn(vs, size) && size >= 2 && ValidCommands(before + [c] + after) && c.args != []
    requires SetEnv(Run(vs, size, overwrite, before), size, overwrite, c).1
    requires forall i :: 0 <= i < |after| ==> Target(after[i].name) != Target(c.name)
    ensures Lookup(Run(vs, size, overwrite, before + [c] + after), Target(c.name)) == Some(Meant(c.name, c.args))
    ensures '=' !in c.name
            ==> Lookup(Run(vs, size, overwrite, before + [c] + after), c.name) == Some(Join(c.args))
  {
    ValidParts(before + [c], after);
    SetThenOthers(vs, size, overwrite, before, c, after);
    RunConcat(vs, size, overwrite, before + [c], after);
    DefinitionIs(c.name, c.args);
  }

  lemma {:induction false} RunConcat(vs: seq<Var>, size: nat, overwrite: bool, a: seq<Command>, b: seq<Command>)
    ensures Run(vs, size, overwrite, a + b) == Run(Run(vs, size, overwrite, a), size, overwrite, b)
  {
    if b == [] {
      assert a + b == a;
    } else {
      assert (a + b)[..|a + b| - 1] == a + b[..|b| - 1];
      RunConcat(vs, size, overwrite, a, b[..|b| - 1]);
    }
  }

  // ---- refusals

  /** Which commands on a variable that exists are refused, and nothing else is: without overwriting serial# and ethaddr,
      deleting a console variable, and a console variable or baudrate whose switch says no. Any other command deletes, or
      stores unless the bytes run out. */
  lemma RefusedIff(vs: seq<Var>, size: nat, overwrite: bool, c: Command)
    requires ValidVars(vs) && ValidCommand(c)
    ensures var (r, ok) := SetEnv(vs, size, overwrite, c);
            if && Lookup(vs, Target(c.name)).Some?
               && (|| ((c.name == "serial#" || c.name == "ethaddr") && !overwrite)
                   || ((c.name == "stdin" || c.name == "stdout" || c.name == "stderr") && (c.args == [] || c.refuse))
                   || (c.name == "baudrate" && c.refuse))
            then r == vs && !ok
            else if c.args == [] then Lookup(r, Target(c.name)) == None && ok
            else ok ==> Lookup(r, Target(c.name)) == Some(Meant(c.name, c.args))
  {
    SetEnvTarget(vs, size, overwrite, c);
    if c.args != [] {
      DefinitionIs(c.name, c.args);
    }
  }

  /** Any other name is never refused: a command on it fails only for want of space. */
  lemma FailsForSpace(vs: seq<Var>, size: nat, overwrite: bool, c: Command)
    requires ValidVars(vs) && ValidCommand(c)
    requires !(c.name in ["stdin", "stdout", "stderr", "baudrate"])
    requires overwrite || !(c.name in ["serial#", "ethaddr"])
    ensures !SetEnv(vs, size, overwrite, c).1
       <==> c.args != []
            && |Image(Entries(Remove(vs, Target(c.name)) + [Var(Target(c.name), Meant(c.name, c.args))]))| > size
  {
    if c.args != [] {
      DefinitionIs(c.name, c.args);
    }
  }

  /** What arguments joined by blanks are. */
  lemma JoinIs(args: seq<string>, last: string)
    ensures Join([last]) == last
    ensures args != [] ==> Join(args + [last]) == Join(args) + " " + last
  {
    assert (args + [last])[..|args|] == args;
  }

  /** The bytes of a list: two NULs for an empty one; otherwise a definition more is its name, `=`, its value and a NUL
      in front of the last NUL. */
  lemma BytesOf(vs: seq<Var>, v: Var)
    ensures Image(Entries([])) == "\0\0"
    ensures Image(Entries([v])) == v.name + "=" + v.value + "\0\0"
    ensures vs != [] ==> |Image(Entries(vs))| > 0
                         && Image(Entries(vs + [v]))
                            == Image(Entries(vs))[..|Image(Entries(vs))| - 1] + (v.name + "=" + v.value) + "\0\0"
  {
    assert Entries([v]) == [Entry(v)];
    FlatOne(Entry(v));
    assert Entries(vs + [v]) == Entries(vs) + [Entry(v)];
    FlatConcat(Entries(vs), [Entry(v)]);
  }

  lemma FlatOne(e: string)
    ensures Flat([e]) == e + [NUL]
  {
    assert Flat([e][1..]) == "";
  }

  // ---- write-once variables

  /** Once set, serial# and ethaddr stay over any run on names free of `=`. */
  lemma {:induction false} WriteOnce(vs: seq<Var>, size: nat, cs: seq<Command>, p: string)
    requires ValidVars(vs) && FitsIn(vs, size) && size >= 2 && ValidCommands(cs)
    requires (p == "serial#" || p == "ethaddr") && Lookup(vs, p).Some?
    requires forall i :: 0 <= i < |cs| ==> '=' !in cs[i].name
    ensures Lookup(Run(vs, size, false, cs), p) == Lookup(vs, p)
  {
    if cs != [] {
      var init, c := cs[..|cs| - 1], cs[|cs| - 1];
      WriteOnce(vs, size, init, p);
      RunKeepsList(vs, size, false, init);
      assert Target(c.name) == c.name by {
        assert c.name[..|c.name|] == c.name;
      }
      if c.name == p {
        SetEnvTarget(Run(vs, size, false, init), size, false, c);
      } else {
        SetEnvOthers(Run(vs, size, false, init), size, false, c, p);
      }
    }
  }

  /** Which names the protection holds against: all but those that continue a protected name with `=`, for the test
      compares the whole argument while the deletion matches up to the `=`. */
  lemma WriteOnceIff(vs: seq<Var>, size: nat, name: string, p: string)
    requires ValidVars(vs) && (p == "serial#" || p == "ethaddr") && Lookup(vs, p).Some? && NoNul(name)
    ensures (forall c: Command :: ValidCommand(c) && c.name == name
                                  ==> Lookup(SetEnv(vs, size, false, c).0, p) == Lookup(vs, p))
       <==> !(p + "=" <= name)
  {
    TargetIff(p, name);
    if p + "=" <= name {
      var c := Command(name, [], false);
      SetEnvTarget(vs, size, false, c);
      assert ValidCommand(c) && Lookup(SetEnv(vs, size, false, c).0, p) == None;
    } else {
      forall c: Command | ValidCommand(c) && c.name == name
        ensures Lookup(SetEnv(vs, size, false, c).0, p) == Lookup(vs, p)
      {
        if name == p {
          SetEnvTarget(vs, size, false, c);
        } else {
          SetEnvOthers(vs, size, false, c, p);
        }
      }
    }
  }

  /** The arguments that name a variable: its name, alone or continued by `=`. */
  lemma {:induction false} TargetIff(p: string, name: string)
    requires '=' !in p
    ensures Target(name) == p <==> name == p || p + "=" <= name
  {
    if p != "" && name != "" && name[0] == p[0] {
      assert p[0] in p;
      TargetIff(p[1..], name[1..]);
      assert p == [p[0]] + p[1..] && name == [name[0]] + name[1..];
      assert p + "=" == [p[0]] + (p[1..] + "=");
    }
  }
}
