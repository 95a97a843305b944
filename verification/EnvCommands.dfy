/** `getenv`, `envmatch` and `_do_setenv` on the byte array. */
module EnvCommands {
  import opened Common
  import opened EnvBytes
  import opened EnvStore

  /** An entry's name, its `=` and its value, with the NUL. */
  /** The character of `p` or the `=` behind it. */
  function NameAt(p: string, k: nat): char
    requires k <= |p|
  {
    if k < |p| then p[k] else '='
  }

  /** An argument, from the character on where its NUL is. */
  function ArgAt(name: string, k: nat): char
    requires k <= |name|
  {
    if k < |name| then name[k] else NUL
  }

  predicate SameTo(p: string, name: string, k: nat) {
    k <= |name| && k <= |p| && name[..k] == p[..k]
  }

  /** What comparing the characters behind an equal part tells: they go on, the name ends, or they differ. */
  lemma SameOn(p: string, name: string, k: nat)
    requires SameTo(p, name, k) && '=' !in p && NoNul(p) && NoNul(name) && ArgAt(name, k) == NameAt(p, k)
    ensures k < |name| && (name[k] == '=' <==> k == |p|)
    ensures name[k] != '=' ==> SameTo(p, name, k + 1)
    ensures name[k] == '=' ==> Target(name) == p
  {
    if k < |p| {
      assert p[k] in p;
      SameMore(p, name, k);
    } else {
      TargetIs(p, name);
    }
  }

  lemma SameMore(p: string, name: string, k: nat)
    requires SameTo(p, name, k) && k < |p| && k < |name| && p[k] == name[k]
    ensures SameTo(p, name, k + 1)
  {
    assert name[..k + 1] == name[..k] + [name[k]] && p[..k + 1] == p[..k] + [p[k]];
  }

  lemma TargetIs(p: string, name: string)
    requires '=' !in p && |p| < |name| && name[..|p|] == p && name[|p|] == '='
    ensures Target(name) == p
  {
    var t := Target(name);
    assert forall i :: 0 <= i < |p| ==> p[i] in p && p[i] == name[i];
    assert forall i :: 0 <= i < |t| ==> t[i] in t && t[i] == name[i];
  }

  lemma DiffersAt(p: string, name: string, k: nat)
    requires SameTo(p, name, k) && '=' !in p && ArgAt(name, k) != NameAt(p, k)
    ensures Target(name) == p <==> k == |name| && NameAt(p, k) == '='
  {
    TargetIff(p, name);
    assert (p + "=")[k] == NameAt(p, k);
    if k < |p| {
      assert p[k] in p;
    }
  }

  lemma NameChar(data: seq<char>, i2: nat, v: Var, k: nat)
    requires Reads(data, i2, Entry(v)) && k <= |v.name|
    ensures i2 + k < |data| && data[i2 + k] == NameAt(v.name, k)
  {
    EntryAtName(data, i2, v);
  }

  lemma EntryAtName(data: seq<char>, i2: nat, v: Var)
    requires Reads(data, i2, Entry(v))
    ensures forall i :: i2 <= i < i2 + |v.name| ==> data[i] == v.name[i - i2]
    ensures data[i2 + |v.name|] == '=' && Reads(data, i2 + |v.name| + 1, v.value)
  {
    var e := Entry(v);
    assert forall t :: 0 <= t < |v.name| ==> e[t] == v.name[t];
    assert e[|v.name|] == '=';
    assert forall t :: 0 <= t < |v.value| ==> e[|v.name| + 1 + t] == v.value[t];
  }

  /** Entries are not empty, so the search stops behind the last one and not before. */
  lemma AtEnd(data: seq<char>, vs: seq<Var>, j: nat)
    requires Encodes(data, Entries(vs)) && j <= |vs|
    ensures var p := |Flat(Entries(vs)[..j])|; p < |data| && (data[p] == NUL <==> j == |vs|)
  {
    var es := Entries(vs);
    if j < |vs| {
      EntryReads(data, es, j);
      assert data[|Flat(es[..j])|] == es[j][0];
    } else {
      assert es[..j] == es;
      assert data[|Flat(es)|] == Image(es)[|Flat(es)|];
    }
  }

  /** Where the `j`-th entry is, and what is behind it. */
  lemma EntryFacts(data: seq<char>, vs: seq<Var>, j: nat)
    requires Encodes(data, Entries(vs)) && j < |vs|
    ensures var env, next := |Flat(Entries(vs)[..j])|, |Flat(Entries(vs)[..j + 1])|;
            && Reads(data, env, Entry(vs[j])) && next == env + |Entry(vs[j])| + 1 < |data|
            && (data[next] == NUL <==> j + 1 == |vs|)
  {
    EntryReads(data, Entries(vs), j);
    AtEnd(data, vs, j + 1);
  }

  class Environment {
    const buffer: Buffer
    const overwrite: bool

    constructor (size: nat, overwrite: bool)
      requires size >= 2
      ensures fresh(buffer) && fresh(buffer.data) && buffer.data.Length == size && this.overwrite == overwrite
      ensures Holds([])
    {
      buffer := new Buffer(size);
      this.overwrite := overwrite;
      new;
      assert Entries([]) == [];
    }

    /** The array encodes the definitions `vs`. */
    ghost predicate Holds(vs: seq<Var>)
      reads buffer.data
    {
      ValidVars(vs) && Encodes(buffer.data[..], Entries(vs))
    }

    /** `envmatch`: the index of the value when the entry at `i2` is the one `name` names, else -1. */
    method EnvMatch(name: string, i2: nat, ghost v: Var) returns (r: int)
      requires ValidVar(v) && NoNul(name) && Reads(buffer.data[..], i2, Entry(v))
      ensures r == if Target(name) == v.name then i2 + |v.name| + 1 else -1
      ensures r >= 0 ==> Reads(buffer.data[..], r, v.value)
    {
      EntryAtName(buffer.data[..], i2, v);
      NameChar(buffer.data[..], i2, v, 0);
      var k: nat := 0;
      while (if k < |name| then name[k] else NUL) == buffer.data[i2 + k]
        invariant SameTo(v.name, name, k) && buffer.data[i2 + k] == NameAt(v.name, k)
        decreases |name| - k
      {
        SameOn(v.name, name, k);
        if name[k] == '=' {
          return i2 + k + 1;
        }
        k := k + 1;
        NameChar(buffer.data[..], i2, v, k);
      }
      DiffersAt(v.name, name, k);
      if k == |name| && buffer.data[i2 + k] == '=' {
        return i2 + k + 1;
      }
      return -1;
    }

    /** `env` is where the `j`-th entry begins, or the end. */
    ghost predicate AtEntry(vs: seq<Var>, j: nat, env: nat)
      requires j <= |vs|
      reads this, buffer, buffer.data
    {
      && env == |Flat(Entries(vs)[..j])| && env < buffer.data.Length
      && (buffer.data[env] == NUL <==> j == |vs|)
    }

    /** One turn of the search loop at the `j`-th entry. */
    method MatchAt(env: nat, name: string, ghost vs: seq<Var>, ghost j: nat) returns (nxt: nat, val: int)
      requires Holds(vs) && NoNul(name) && j < |vs| && AtEntry(vs, j, env)
      ensures nxt == env + |Entry(vs[j])| && val >= -1 && (val >= 0 <==> Target(name) == vs[j].name)
      ensures val >= 0 ==> Reads(buffer.data[..], val, vs[j].value)
      ensures AtEntry(vs, j + 1, nxt + 1)
    {
      EntryFacts(buffer.data[..], vs, j);
      nxt := buffer.EndOf(env, Entries(vs), j);
      val := EnvMatch(name, env, vs[j]);
    }

    /** The search loop: where the entry of `name` starts and ends, and where its value is; -1 if there is none. */
    method Find(name: string, ghost vs: seq<Var>) returns (env: nat, nxt: nat, val: int, ghost j: nat)
      requires Holds(vs) && NoNul(name)
      ensures j == Position(vs, Target(name)) && (val >= 0 <==> j < |vs|)
      ensures val >= 0 ==> env == |Flat(Entries(vs)[..j])| && nxt == env + |Entry(vs[j])|
      ensures val >= 0 ==> Reads(buffer.data[..], val, vs[j].value)
    {
      env, nxt, val, j := 0, 0, -1, 0;
      AtEnd(buffer.data[..], vs, 0);
      while buffer.data[env] != NUL
        invariant 0 <= j <= Position(vs, Target(name)) && AtEntry(vs, j, env) && val == -1
        decreases |vs| - j
      {
        nxt, val := MatchAt(env, name, vs, j);
        if val >= 0 {
          return;
        }
        env := nxt + 1;
        j := j + 1;
      }
    }

    /** `getenv`: where the value is, which is a NUL-terminated string. */
    method GetEnv(name: string, ghost vs: seq<Var>) returns (r: Option<nat>)
      requires Holds(vs) && NoNul(name)
      ensures r.Some? <==> Lookup(vs, Target(name)).Some?
      ensures r.Some? ==> Reads(buffer.data[..], r.value, Lookup(vs, Target(name)).value)
    {
      var env, nxt, val;
      ghost var j;
      env, nxt, val, j := Find(name, vs);
      r := if val >= 0 then Some(val) else None;
    }

    /** Deletes any existing definition, unless it must stay. */
    method DeleteOld(c: Command, ghost vs: seq<Var>) returns (refused: bool)
      requires Holds(vs) && ValidCommand(c)
      modifies buffer.data
      ensures refused == (Lookup(vs, Target(c.name)).Some? && Refused(overwrite, c))
      ensures Holds(if refused then vs else Remove(vs, Target(c.name)))
    {
      var env, nxt, val;
      ghost var j;
      env, nxt, val, j := Find(c.name, vs);
      if val >= 0 {
        if (!overwrite && Protected(c.name))
          || (IsConsole(c.name) && c.args == [])
          || ((IsConsole(c.name) || c.name == "baudrate") && c.refuse) {
          return true;
        }
        EntriesDrop(vs, j);
        buffer.Delete(env, nxt, Entries(vs), j);
      }
      RemoveMeaning(vs, Target(c.name));
      refused := false;
    }

    /** Appends the new definition at the end. */
    method AppendNew(c: Command, ghost vs: seq<Var>) returns (ok: bool)
      requires Holds(vs) && ValidCommand(c) && c.args != [] && Lookup(vs, Target(c.name)) == None
      modifies buffer.data
      ensures ok == FitsIn(vs + [Definition(c.name, c.args)], buffer.data.Length)
      ensures Holds(if ok then vs + [Definition(c.name, c.args)] else vs)
    {
      ghost var v := Definition(c.name, c.args);
      DefinitionText(c.name, c.args);
      AppendValid(vs, v);
      assert Entries(vs + [v]) == Entries(vs) + [Text(c.name, c.args)];
      ok := buffer.Append(c.name, c.args, Entries(vs));
    }

    /** `_do_setenv`. */
    method SetEnv(c: Command, ghost vs: seq<Var>) returns (ok: bool)
      requires Holds(vs) && ValidCommand(c)
      modifies buffer.data
      ensures Holds(EnvStore.SetEnv(vs, buffer.data.Length, overwrite, c).0)
      ensures ok == EnvStore.SetEnv(vs, buffer.data.Length, overwrite, c).1
    {
      var refused := DeleteOld(c, vs);
      if refused {
        return false;
      }
      if c.args == [] {
        return true;
      }
      RemoveMeaning(vs, Target(c.name));
      ok := AppendNew(c, Remove(vs, Target(c.name)));
    }
  }
}