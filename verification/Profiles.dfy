/** The CLI's profile store: add, remove, rename and use over one configuration. */
module Profiles {
  import opened Text

  datatype Profile = Profile(server: string, apiKey: Option<string>, engineer: string, name: Option<string>,
                             email: Option<string>)

  datatype Config = Config(current: Option<string>, profiles: map<string, Profile>)

  const EMPTY := Config(None, map[])

  predicate Alphanumeric(c: char) { 'a' <= c <= 'z' || 'A' <= c <= 'Z' || '0' <= c <= '9' }

  predicate ValidName(name: string) {
    name != [] && Alphanumeric(name[0]) && forall i :: 0 <= i < |name| ==> Alphanumeric(name[i]) || name[i] == '-'
  }

  // ------------------------------------------------------------------ commands

  datatype Command =
    | Add(name: string, server: string, apiKey: string, engineer: string, fullName: Option<string>,
          email: Option<string>, switch: bool)
    | Remove(name: string)
    | Rename(from: string, to: string)
    | Use(name: string)

  predicate Accepts(c: Config, cmd: Command) {
    match cmd
    case Add(name, _, apiKey, engineer, _, _, _) =>
      ValidName(name) && name !in c.profiles && apiKey != "" && engineer != ""
    case Remove(name) => name in c.profiles && c.current != Some(name) && |c.profiles| != 1
    case Rename(from, to) => from == to || (ValidName(to) && from in c.profiles && to !in c.profiles)
    case Use(name) => name in c.profiles
  }

  /** Full name and e-mail default to the current profile's. */
  function Inherited(c: Config): (Option<string>, Option<string>) {
    if c.current.Some? && c.current.value in c.profiles then
      (c.profiles[c.current.value].name, c.profiles[c.current.value].email)
    else (None, None)
  }

  function Or(a: Option<string>, b: Option<string>): Option<string> { if a.Some? then a else b }

  function Apply(c: Config, cmd: Command): Config
    requires Accepts(c, cmd)
  {
    match cmd
    case Add(name, server, apiKey, engineer, fullName, email, switch) =>
      var profile := Profile(server, Some(apiKey), engineer, Or(fullName, Inherited(c).0), Or(email, Inherited(c).1));
      Config(if c.current.None? || switch then Some(name) else c.current, c.profiles[name := profile])
    case Remove(name) => c.(profiles := c.profiles - {name})
    case Rename(from, to) =>
      if from == to then c
      else
        Config(if c.current == Some(from) then Some(to) else c.current,
               (c.profiles - {from})[to := c.profiles[from]])
    case Use(name) => c.(current := Some(name))
  }

  /** A command whose save fails leaves the file as it was. */
  datatype Attempt = Attempt(cmd: Command, saved: bool)

  function OnDisk(c: Config, a: Attempt): Config {
    if Accepts(c, a.cmd) && a.saved then Apply(c, a.cmd) else c
  }

  function After(c: Config, attempts: seq<Attempt>): Config
    decreases |attempts|
  {
    if attempts == [] then c else After(OnDisk(c, attempts[0]), attempts[1..])
  }

  // ------------------------------------------------------------------ the invariant and its exactness

  ghost predicate Sound(c: Config) {
    && (c.current.None? <==> c.profiles == map[])
    && (c.current.Some? ==> c.current.value in c.profiles)
    && forall n :: n in c.profiles ==> ValidName(n)
  }

  lemma SoundStep(c: Config, a: Attempt)
    requires Sound(c)
    ensures Sound(OnDisk(c, a)) && (c.current.Some? ==> OnDisk(c, a).current.Some?)
  {
    var t := OnDisk(c, a);
    assert t.current.Some? ==> t.current.value in t.profiles;
  }

  /** Over every sequence of commands, saved or not, the current profile exists, names stay valid, and a
      store that has a profile never returns to none. */
  lemma {:induction false} SoundAlong(c: Config, attempts: seq<Attempt>)
    requires Sound(c)
    ensures Sound(After(c, attempts)) && (c.current.Some? ==> After(c, attempts).current.Some?)
    decreases |attempts|
  {
    if attempts != [] {
      SoundStep(c, attempts[0]);
      SoundAlong(OnDisk(c, attempts[0]), attempts[1..]);
    }
  }

  /** What `add` demands of a profile. */
  predicate Addable(p: Profile) { p.apiKey.Some? && p.apiKey.value != "" && p.engineer != "" }

  ghost predicate AllAddable(c: Config) { forall n :: n in c.profiles ==> Addable(c.profiles[n]) }

  lemma {:induction false} AddableAlong(c: Config, attempts: seq<Attempt>)
    requires AllAddable(c)
    ensures AllAddable(After(c, attempts))
    decreases |attempts|
  {
    if attempts != [] {
      AddableAlong(OnDisk(c, attempts[0]), attempts[1..]);
    }
  }

  lemma {:induction false} AfterConcat(c: Config, a: seq<Attempt>, b: seq<Attempt>)
    ensures After(c, a + b) == After(After(c, a), b)
    decreases |a|
  {
    if a == [] {
      assert a + b == b;
    } else {
      assert (a + b)[1..] == a[1..] + b;
      AfterConcat(OnDisk(c, a[0]), a[1..], b);
    }
  }

  lemma {:induction false} FreshName(names: set<string>) returns (unused: string)
    ensures ValidName(unused) && unused !in names
    ensures forall n :: n in names ==> |n| < |unused|
    decreases names
  {
    if names == {} {
      unused := "a";
    } else {
      var n :| n in names;
      var shorter := FreshName(names - {n});
      unused := seq(|shorter| + |n| + 1, _ => 'a');
      assert forall m :: m in names ==> m == n || m in names - {n};
    }
  }

  /** Every set of acceptable profiles can be added beside a blank temporary one. */
  lemma {:induction false} BuildBeside(profiles: map<string, Profile>, temp: string, blank: Profile)
    returns (attempts: seq<Attempt>)
    requires ValidName(temp) && temp !in profiles && Addable(blank) && blank.name.None? && blank.email.None?
    requires forall n :: n in profiles ==> ValidName(n) && Addable(profiles[n])
    ensures After(EMPTY, attempts) == Config(Some(temp), profiles[temp := blank])
    decreases |profiles|
  {
    if profiles == map[] {
      attempts := [Attempt(Add(temp, blank.server, blank.apiKey.value, blank.engineer, None, None, false), true)];
      assert attempts[1..] == [];
      assert profiles[temp := blank] == map[temp := blank];
    } else {
      var n :| n in profiles;
      var p := profiles[n];
      var rest := BuildBeside(profiles - {n}, temp, blank);
      var last := [Attempt(Add(n, p.server, p.apiKey.value, p.engineer, p.name, p.email, false), true)];
      attempts := rest + last;
      AfterConcat(EMPTY, rest, last);
      assert last[1..] == [];
      assert profiles[temp := blank] == (profiles - {n})[temp := blank][n := p];
    }
  }

  /** The invariant is exact: a configuration is reachable from the empty one precisely when it is sound and
      its profiles are such as `add` takes. */
  lemma {:induction false} ReachableExactly(c: Config)
    ensures (exists attempts :: After(EMPTY, attempts) == c) <==> Sound(c) && AllAddable(c)
  {
    if attempts :| After(EMPTY, attempts) == c {
      SoundAlong(EMPTY, attempts);
      AddableAlong(EMPTY, attempts);
    }
    if Sound(c) && AllAddable(c) {
      var attempts := Build(c);
      assert After(EMPTY, attempts) == c;
    }
  }

  lemma DropTemp(c: Config, temp: string, blank: Profile)
    requires Sound(c) && c.current.Some? && temp !in c.profiles
    ensures var full := Config(Some(temp), c.profiles[temp := blank]);
            After(full, [Attempt(Use(c.current.value), true), Attempt(Remove(temp), true)]) == c
  {
    var full := Config(Some(temp), c.profiles[temp := blank]);
    var used := full.(current := c.current);
    var finish := [Attempt(Use(c.current.value), true), Attempt(Remove(temp), true)];
    assert OnDisk(full, finish[0]) == used;
    assert used.profiles.Keys == c.profiles.Keys + {temp};
    assert |used.profiles| == |used.profiles.Keys| == |c.profiles.Keys| + 1;
    assert c.profiles.Keys - {c.current.value} + {c.current.value} == c.profiles.Keys;
    assert used.profiles - {temp} == c.profiles;
    assert OnDisk(used, finish[1]) == c;
    assert finish[1..] == [finish[1]] && finish[1..][1..] == [];
    assert After(c, []) == c;
    assert After(used, [finish[1]]) == After(c, [finish[1]][1..]);
  }

  lemma Build(c: Config) returns (attempts: seq<Attempt>)
    requires Sound(c) && AllAddable(c)
    ensures After(EMPTY, attempts) == c
  {
    if c.current.None? {
      attempts := [];
    } else {
      var temp := FreshName(c.profiles.Keys);
      var blank := Profile("", Some("k"), "e", None, None);
      var beside := BuildBeside(c.profiles, temp, blank);
      var finish := [Attempt(Use(c.current.value), true), Attempt(Remove(temp), true)];
      attempts := beside + finish;
      AfterConcat(EMPTY, beside, finish);
      DropTemp(c, temp, blank);
    }
  }

  /** After any commands an accepted add stores each of its arguments where it belongs, takes full name and e-mail
      from the current profile where they are not given, touches no other profile, and makes the new one current
      exactly when there was none before or it is told to. */
  lemma AddedExactly(attempts: seq<Attempt>, add: Command)
    requires add.Add? && Accepts(After(EMPTY, attempts), add)
    ensures var (c, t) := (After(EMPTY, attempts), OnDisk(After(EMPTY, attempts), Attempt(add, true)));
            && t.profiles.Keys == c.profiles.Keys + {add.name}
            && (forall n :: n in c.profiles ==> t.profiles[n] == c.profiles[n])
            && t.profiles[add.name].server == add.server
            && t.profiles[add.name].apiKey == Some(add.apiKey)
            && t.profiles[add.name].engineer == add.engineer
            && (add.fullName.Some? ==> t.profiles[add.name].name == add.fullName)
            && (add.email.Some? ==> t.profiles[add.name].email == add.email)
            && (c.profiles == map[] ==>
                  t.profiles[add.name].name == add.fullName && t.profiles[add.name].email == add.email)
            && (c.profiles != map[] ==>
                  && c.current.Some? && c.current.value in c.profiles
                  && (add.fullName.None? ==> t.profiles[add.name].name == c.profiles[c.current.value].name)
                  && (add.email.None? ==> t.profiles[add.name].email == c.profiles[c.current.value].email))
            && t.current == if c.profiles == map[] || add.switch then Some(add.name) else c.current
  {
    SoundAlong(EMPTY, attempts);
  }

  /** A name is one or more ASCII letters, digits and dashes, and does not begin with a dash. */
  lemma ValidNameExactly(name: string)
    ensures ValidName(name) <==>
            && name != "" && name[0] != '-'
            && forall i :: 0 <= i < |name| ==>
                 var code := name[i] as int; 48 <= code < 58 || 65 <= code < 91 || 97 <= code < 123 || code == 45
  {
    if name != "" && ValidName(name) {
      assert forall i :: 0 <= i < |name| ==> Alphanumeric(name[i]) || name[i] == '-';
    }
  }

  /** After any commands the others are accepted exactly so, and do exactly this: a profile is used if it exists; it
      is removed if it exists and is not the current one, so that the last one never is; it is renamed, current or
      not, if it exists and the new name is valid and free, or is the old one. */
  lemma CommandsExactly(attempts: seq<Attempt>, name: string, to: string)
    ensures var c := After(EMPTY, attempts);
            && (Accepts(c, Use(name)) <==> name in c.profiles)
            && (Accepts(c, Use(name)) ==> Apply(c, Use(name)) == Config(Some(name), c.profiles))
            && (Accepts(c, Remove(name)) <==> name in c.profiles && c.current != Some(name))
            && (Accepts(c, Remove(name)) ==>
                  && Apply(c, Remove(name)).current == c.current
                  && Apply(c, Remove(name)).profiles == map n | n in c.profiles && n != name :: c.profiles[n])
            && Accepts(c, Rename(name, name)) && Apply(c, Rename(name, name)) == c
            && (name != to ==> (Accepts(c, Rename(name, to)) <==>
                                  ValidName(to) && name in c.profiles && to !in c.profiles))
            && (name != to && Accepts(c, Rename(name, to)) ==>
                  var t := Apply(c, Rename(name, to));
                  && t.current == (if c.current == Some(name) then Some(to) else c.current)
                  && t.profiles.Keys == c.profiles.Keys - {name} + {to} && t.profiles[to] == c.profiles[name]
                  && forall n :: n in c.profiles && n != name ==> t.profiles[n] == c.profiles[n])
  {
    SoundAlong(EMPTY, attempts);
    var c := After(EMPTY, attempts);
    if name in c.profiles && c.current != Some(name) {
      assert {name, c.current.value} <= c.profiles.Keys;
      SetSizes({name, c.current.value}, c.profiles.Keys);
      assert |{name, c.current.value}| == 2;
    }
  }

  lemma {:induction false} SetSizes(a: set<string>, b: set<string>)
    requires a <= b
    ensures |a| <= |b|
    decreases a
  {
    if x :| x in a {
      assert |b - {x}| == |b| - 1 && |a - {x}| == |a| - 1;
      SetSizes(a - {x}, b - {x});
    }
  }

  // ------------------------------------------------------------------ inverses

  /** Renaming there and back restores the configuration, current profile included. */
  lemma RenameBack(c: Config, from: string, to: string)
    requires Sound(c) && Accepts(c, Rename(from, to))
    ensures Accepts(Apply(c, Rename(from, to)), Rename(to, from))
    ensures Apply(Apply(c, Rename(from, to)), Rename(to, from)) == c
  {
    if from != to {
      var there := Apply(c, Rename(from, to));
      assert (there.profiles - {to})[from := there.profiles[to]] == c.profiles;
    }
  }

  /** Removing a profile just added undoes the add exactly when there was one already and the add did not
      switch; otherwise the new profile is active and the removal is refused. */
  lemma AddThenRemoveExactly(c: Config, add: Command)
    requires Sound(c) && add.Add? && Accepts(c, add)
    ensures Accepts(Apply(c, add), Remove(add.name)) <==> c.current.Some? && !add.switch
    ensures Accepts(Apply(c, add), Remove(add.name)) ==> Apply(Apply(c, add), Remove(add.name)) == c
  {
    var t := Apply(c, add);
    assert t.profiles.Keys == c.profiles.Keys + {add.name};
    if c.current.Some? && !add.switch {
      assert |t.profiles.Keys| == |c.profiles.Keys| + 1;
      assert c.current.value in c.profiles.Keys;
      assert t.profiles - {add.name} == c.profiles;
    }
  }

  // ------------------------------------------------------------------ resolution

  /** A blank environment variable or pin counts as absent. */
  function NonBlank(s: Option<string>): Option<string> {
    if s.Some? && Trim(s.value) != "" then Some(Trim(s.value)) else None
  }

  /** Blank is what is white throughout; of anything else the white space around it is ignored. */
  lemma BlankExactly(value: string, wanted: string)
    ensures NonBlank(None).None?
    ensures NonBlank(Some(value)).None? <==> White(value)
    ensures NonBlank(Some(value)) == Some(wanted) <==> wanted != "" && Trimmed(wanted) && Padded(value, wanted)
  {
    TrimExactly(value, wanted);
    TrimExactly(value, "");
    if White(value) {
      assert value == value + "" + "";
    }
    if w, v :| White(w) && White(v) && value == w + "" + v {
      WhiteConcat(w, v);
      assert value == w + v;
    }
  }

  datatype Resolved = Name(name: string) | Unknown(name: string) | NoActive | NoProfiles

  function Lookup(c: Config, name: string): Resolved { if name in c.profiles then Name(name) else Unknown(name) }

  function Resolve(c: Config, flag: Option<string>, env: Option<string>, pin: Option<string>): Resolved {
    if flag.Some? then Lookup(c, flag.value)
    else if NonBlank(env).Some? then Lookup(c, NonBlank(env).value)
    else if NonBlank(pin).Some? then Lookup(c, NonBlank(pin).value)
    else if c.current.Some? && c.current.value != "" then Lookup(c, c.current.value)
    else if c.profiles == map[] then NoProfiles
    else NoActive
  }

  /** The name asked for: the first of flag, variable and pin that is given, else the current profile. */
  function Wanted(c: Config, flag: Option<string>, env: Option<string>, pin: Option<string>): Option<string> {
    Or(flag, Or(NonBlank(env), Or(NonBlank(pin), c.current)))
  }

  /** After any sequence of commands from the empty store, resolution finds the wanted profile exactly when it
      exists, is never left without an active one, and without flag, variable or pin fails only on a store that
      has no profile at all. */
  lemma ResolvesExactly(attempts: seq<Attempt>, flag: Option<string>, env: Option<string>, pin: Option<string>)
    ensures var c := After(EMPTY, attempts);
            var (r, wanted) := (Resolve(c, flag, env, pin), Wanted(c, flag, env, pin));
            && (r.Name? <==> wanted.Some? && wanted.value in c.profiles)
            && (r.Name? || r.Unknown? ==> Some(r.name) == wanted)
            && !r.NoActive? && (r.NoProfiles? <==> wanted.None?)
            && (flag.None? && NonBlank(env).None? && NonBlank(pin).None? ==> (r.Name? <==> c.profiles != map[]))
  {
    SoundAlong(EMPTY, attempts);
    var c := After(EMPTY, attempts);
    if c.current.Some? {
      assert ValidName(c.current.value);
    }
  }

  // ------------------------------------------------------------------ the source's own form

  class NemoConfig {
    var current: Option<string>
    var profiles: map<string, Profile>
    /** What the file holds. */
    ghost var disk: Config

    constructor (loaded: Config)
      ensures View() == disk == loaded
    {
      current, profiles, disk := loaded.current, loaded.profiles, loaded;
    }

    ghost function View(): Config
      reads this
    {
      Config(current, profiles)
    }

    /** What a command leaves: Ok means it was accepted and saved. */
    twostate predicate Ran(cmd: Command, saved: bool, ok: bool)
      reads this
    {
      && View() == (if Accepts(old(View()), cmd) then Apply(old(View()), cmd) else old(View()))
      && disk == OnDisk(old(View()), Attempt(cmd, saved))
      && (ok <==> Accepts(old(View()), cmd) && saved)
    }

    ghost method Save(saved: bool)
      modifies `disk
      ensures disk == if saved then View() else old(disk)
    {
      disk := if saved then View() else disk;
    }

    method RunAdd(name: string, server: string, apiKey: string, engineer: string, fullName: Option<string>,
                  email: Option<string>, switch: bool, saved: bool) returns (ok: bool)
      requires View() == disk
      modifies this
      ensures Ran(Add(name, server, apiKey, engineer, fullName, email, switch), saved, ok)
    {
      if !ValidName(name) || name in profiles || apiKey == "" || engineer == "" {
        return false;
      }
      var defaultName, defaultEmail: Option<string> := None, None;
      if current.Some? && current.value in profiles {
        defaultName, defaultEmail := profiles[current.value].name, profiles[current.value].email;
      }
      var profile := Profile(server, Some(apiKey), engineer, Or(fullName, defaultName), Or(email, defaultEmail));
      profiles := profiles[name := profile];
      var autoActivated := current.None?;
      if autoActivated {
        current := Some(name);
      }
      if switch && !autoActivated {
        current := Some(name);
      }
      Save(saved);
      ok := saved;
    }

    method RunRemove(name: string, saved: bool) returns (ok: bool)
      requires View() == disk
      modifies this
      ensures Ran(Remove(name), saved, ok)
    {
      if name !in profiles || current == Some(name) || |profiles| == 1 {
        return false;
      }
      profiles := profiles - {name};
      Save(saved);
      ok := saved;
    }

    method RunRename(from: string, to: string, saved: bool) returns (ok: bool)
      requires View() == disk
      modifies this
      ensures from == to ==> ok && View() == old(View()) && disk == old(disk)
      ensures from != to ==> Ran(Rename(from, to), saved, ok)
    {
      if from == to {
        return true;
      }
      if !ValidName(to) || from !in profiles || to in profiles {
        return false;
      }
      var profile := profiles[from];
      profiles := profiles - {from};
      profiles := profiles[to := profile];
      if current == Some(from) {
        current := Some(to);
      }
      Save(saved);
      ok := saved;
    }

    method RunUse(name: string, saved: bool) returns (ok: bool)
      requires View() == disk
      modifies this
      ensures Ran(Use(name), saved, ok)
    {
      if name !in profiles {
        return false;
      }
      current := Some(name);
      Save(saved);
      ok := saved;
    }
  }
}
