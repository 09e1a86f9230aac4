/**
 The command-line parser of third-party/argh/argh.h.
 */
module Argh {

  // parser::Mode, one flag a bit; PREFER_FLAG_FOR_UNREG_OPTION is the absence of preferParam
  datatype Mode = Mode(preferParam: bool, noSplit: bool, multiFlag: bool)

  datatype Option<T> = None | Some(value: T)

  // trim_leading_dashes: a string of dashes only stays as it is.
  function TrimLeadingDashes(name: string): string {
    if forall c :: c in name ==> c == '-' then name else Trimmed(name)
  }

  function Trimmed(s: string): string {
    if s == [] || s[0] != '-' then s else Trimmed(s[1..])
  }

  // The n dashes that go, when s[k] is none.
  lemma {:induction false} TrimmedShape(s: string, k: nat) returns (n: nat)
    requires k < |s| && s[k] != '-'
    ensures n <= k && Trimmed(s) == s[n..] && s[n] != '-'
    ensures forall i :: 0 <= i < n ==> s[i] == '-'
    decreases k
  {
    n := 0;
    if s[0] == '-' {
      var m := TrimmedShape(s[1..], k - 1);
      n := m + 1;
      assert s[1..][m..] == s[n..];
      assert forall i :: 0 < i < n ==> s[i] == s[1..][i - 1];
    }
  }

  /** Trimming takes off dashes only, and all of them unless there is nothing else. */
  lemma TrimMeans(s: string)
    ensures
      var t := TrimLeadingDashes(s);
      && |t| <= |s| && s[|s| - |t|..] == t && (forall k :: 0 <= k < |s| - |t| ==> s[k] == '-')
      && (t == s || (t != [] && t[0] != '-'))
      && (t != [] && t[0] == '-' ==> t == s && forall c :: c in s ==> c == '-')
  {
    hide Trimmed;
    if k :| 0 <= k < |s| && s[k] != '-' {
      var n := TrimmedShape(s, k);
    }
  }

  // What the program knows before it reads the arguments: the registered parameter names, the
  // mode, and what counts as a number.
  datatype Setting = Setting(registered: set<string>, mode: Mode, isNumber: string -> bool)

  // is_option
  predicate IsOption(arg: string, st: Setting) {
    !st.isNumber(arg) && arg != [] && arg[0] == '-'
  }

  // What an argument is used for; only a parameter with a separate value takes two.
  datatype Use =
    | Positional(at: nat, arg: string)
    | Assigned(at: nat, key: string, value: string)
    | Flagged(at: nat, names: seq<string>)
    | Valued(at: nat, names: seq<string>, key: string, value: string)
  {
    function Taken(): nat {
      if Valued? then 2 else 1
    }
  }

  function Chars(s: string): (r: seq<string>)
    ensures |r| == |s| && forall k :: 0 <= k < |s| ==> r[k] == [s[k]]
  {
    seq(|s|, k requires 0 <= k < |s| => [s[k]])
  }

  function IndexOf(s: string, c: char): (p: nat)
    requires c in s
    ensures p < |s| && s[p] == c && c !in s[..p]
  {
    if s[0] == c then 0 else
      var p := IndexOf(s[1..], c);
      assert s[..p + 1] == [s[0]] + s[1..][..p];
      p + 1
  }

  // Lines 236-264: an option takes the next argument as its value if that is no option and the
  // option is registered or parameters are preferred.
  function WithNext(args: seq<string>, i: nat, names: seq<string>, name: string, st: Setting): Use
    requires i < |args|
  {
    if i == |args| - 1 || IsOption(args[i + 1], st) then Flagged(i, names + [name])
    else if name in st.registered || st.mode.preferParam then Valued(i, names, name, args[i + 1])
    else Flagged(i, names + [name])
  }

  // Lines 206-232: a single dash may introduce many one-letter flags, the last of which may be a
  // registered parameter.
  function Switch(args: seq<string>, i: nat, name: string, st: Setting): Use
    requires i < |args|
  {
    if |args[i]| - |name| == 1 && st.mode.multiFlag && name !in st.registered then
      var n := |name| - 1;
      if 0 <= n && [name[n]] in st.registered then WithNext(args, i, Chars(name[..n]), [name[n]], st)
      else Flagged(i, Chars(name))
    else WithNext(args, i, [], name, st)
  }

  // What the argument at i is used for.
  function UseAt(args: seq<string>, i: nat, st: Setting): (u: Use)
    requires i < |args|
    ensures u.at == i && i + u.Taken() <= |args|
  {
    var arg, name := args[i], TrimLeadingDashes(args[i]);
    if !IsOption(arg, st) then Positional(i, arg)
    else if !st.mode.noSplit && '=' in name then
      var p := IndexOf(name, '=');
      Assigned(i, name[..p], name[p + 1..])
    else Switch(args, i, name, st)
  }

  function Uses(args: seq<string>, i: nat, st: Setting): seq<Use>
    requires i <= |args|
    decreases |args| - i
  {
    if i == |args| then [] else
      var u := UseAt(args, i, st);
      [u] + Uses(args, i + u.Taken(), st)
  }

  lemma UsesEnd(args: seq<string>, st: Setting)
    ensures Uses(args, |args|, st) == []
  {
  }

  lemma UsesStep(args: seq<string>, i: nat, st: Setting)
    requires i < |args|
    ensures var u := UseAt(args, i, st); Uses(args, i, st) == [u] + Uses(args, i + u.Taken(), st)
  {
  }

  function Indices(us: seq<Use>): seq<nat> {
    if us == [] then [] else (if us[0].Valued? then [us[0].at, us[0].at + 1] else [us[0].at]) + Indices(us[1..])
  }

  lemma NoIndices()
    ensures Indices([]) == []
  {
  }

  lemma IndicesCons(u: Use, us: seq<Use>)
    ensures Indices([u] + us) == (if u.Valued? then [u.at, u.at + 1] else [u.at]) + Indices(us)
  {
    assert ([u] + us)[1..] == us;
  }

  /** Every argument is consumed exactly once, in order. */
  lemma {:induction false} Partition(args: seq<string>, i: nat, st: Setting)
    requires i <= |args|
    ensures Indices(Uses(args, i, st)) == seq(|args| - i, k => i + k)
    decreases |args| - i
  {
    hide UseAt, Indices;
    if i == |args| {
      assert Uses(args, i, st) == [];
      NoIndices();
    } else {
      var u := UseAt(args, i, st);
      Partition(args, i + u.Taken(), st);
      IndicesCons(u, Uses(args, i + u.Taken(), st));
    }
  }

  // What the uses amount to: the first value given for a name counts.
  function PosArgs(us: seq<Use>): seq<string> {
    if us == [] then [] else (if us[0].Positional? then [us[0].arg] else []) + PosArgs(us[1..])
  }

  function Params(us: seq<Use>): map<string, string> {
    if us == [] then map[]
    else if us[0].Assigned? || us[0].Valued? then Params(us[1..])[us[0].key := us[0].value]
    else Params(us[1..])
  }

  function Flags(us: seq<Use>): multiset<string> {
    if us == [] then multiset{}
    else (if us[0].Flagged? || us[0].Valued? then multiset(us[0].names) else multiset{}) + Flags(us[1..])
  }

  // What one use adds to the results. params_.insert does not replace a value.
  function InsertFirst(m: map<string, string>, key: string, value: string): map<string, string> {
    if key in m then m else m[key := value]
  }

  function WithPos(pos: seq<string>, u: Use): seq<string> {
    if u.Positional? then pos + [u.arg] else pos
  }

  function WithParam(m: map<string, string>, u: Use): map<string, string> {
    if u.Assigned? || u.Valued? then InsertFirst(m, u.key, u.value) else m
  }

  function WithFlags(fs: multiset<string>, u: Use): multiset<string> {
    if u.Flagged? || u.Valued? then fs + multiset(u.names) else fs
  }

  lemma OneMore(names: seq<string>, name: string)
    ensures multiset(names + [name]) == multiset(names) + multiset{name}
  {
  }

  lemma FoldedUse(u: Use, us: seq<Use>)
    ensures PosArgs([u] + us) == (if u.Positional? then [u.arg] else []) + PosArgs(us)
    ensures Params([u] + us) == if u.Assigned? || u.Valued? then Params(us)[u.key := u.value] else Params(us)
    ensures Flags([u] + us) == (if u.Flagged? || u.Valued? then multiset(u.names) else multiset{}) + Flags(us)
  {
    assert ([u] + us)[1..] == us;
  }

  lemma Folded(pos: seq<string>, m: map<string, string>, fs: multiset<string>, u: Use, us: seq<Use>)
    ensures WithPos(pos, u) + PosArgs(us) == pos + PosArgs([u] + us)
    ensures Params(us) + WithParam(m, u) == Params([u] + us) + m
    ensures WithFlags(fs, u) + Flags(us) == fs + Flags([u] + us)
  {
    hide PosArgs, Params, Flags;
    FoldedUse(u, us);
  }

  lemma NothingFolded()
    ensures PosArgs([]) == [] && Params([]) == map[] && Flags([]) == multiset{}
  {
  }

  class Parser {
    var params: map<string, string>
    var posArgs: seq<string>
    var flags: multiset<string>
    var registeredParams: set<string>
    // is_number: stream conversion, not looked into
    const isNumber: string -> bool

    constructor (isNumber: string -> bool)
      ensures registeredParams == {} && this.isNumber == isNumber
    {
      this.isNumber := isNumber;
      params, posArgs, flags, registeredParams := map[], [], multiset{}, {};
    }

    function SettingFor(mode: Mode): Setting
      reads this
    {
      Setting(registeredParams, mode, isNumber)
    }

    // add_param
    method AddParam(name: string)
      modifies this`registeredParams
      ensures registeredParams == old(registeredParams) + {TrimLeadingDashes(name)}
    {
      registeredParams := registeredParams + {TrimLeadingDashes(name)};
    }

    // The loop of lines 219-222.
    method EmplaceChars(name: string)
      modifies this`flags
      ensures flags == old(flags) + multiset(Chars(name))
    {
      var k := 0;
      while k < |name|
        invariant 0 <= k <= |name| && flags == old(flags) + multiset(Chars(name[..k]))
      {
        assert Chars(name[..k + 1]) == Chars(name[..k]) + [[name[k]]];
        flags := flags + multiset{[name[k]]};
        k := k + 1;
      }
      assert name[..k] == name;
    }

    // Lines 234-264 for the option name at i; says whether the next argument was taken.
    method TakeNext(args: seq<string>, i: nat, name: string, mode: Mode,
                    ghost names: seq<string>, ghost before: multiset<string>)
      returns (skip: bool)
      requires i < |args| && flags == before + multiset(names)
      modifies this`flags, this`params
      ensures
        var u := WithNext(args, i, names, name, SettingFor(mode));
        && skip == u.Valued? && (u.Valued? || u.Flagged?) && params == WithParam(old(params), u)
        && flags == WithFlags(before, u)
    {
      hide IsOption, InsertFirst;
      OneMore(names, name);
      if i == |args| - 1 || IsOption(args[i + 1], SettingFor(mode)) {
        flags := flags + multiset{name};
        return false;
      }
      if name in registeredParams || mode.preferParam {
        params := InsertFirst(params, name, args[i + 1]);
        return true;
      }
      flags := flags + multiset{name};
      return false;
    }

    // Lines 206-264 for the option name at i.
    method ParseSwitch(args: seq<string>, i: nat, option: string, mode: Mode) returns (skip: bool)
      requires i < |args|
      modifies this`flags, this`params
      ensures
        var u := Switch(args, i, option, SettingFor(mode));
        && skip == u.Valued? && !u.Positional?
        && params == WithParam(old(params), u) && flags == WithFlags(old(flags), u)
    {
      hide WithNext;
      var name := option;
      ghost var names, before := [], flags;
      if |args[i]| - |name| == 1 && mode.multiFlag && name !in registeredParams {
        var n := |name| - 1;
        if 0 <= n && [name[n]] in registeredParams {
          names := Chars(name[..n]);
          EmplaceChars(name[..n]);
          name := [name[n]];
        } else {
          EmplaceChars(name);
          return false;
        }
      }
      skip := TakeNext(args, i, name, mode, names, before);
    }

    // The body of the parsing loop.
    method ParseOne(args: seq<string>, i: nat, mode: Mode) returns (skip: bool)
      requires i < |args|
      modifies this`flags, this`params, this`posArgs
      ensures
        var u := UseAt(args, i, SettingFor(mode));
        && skip == u.Valued? && posArgs == WithPos(old(posArgs), u)
        && params == WithParam(old(params), u) && flags == WithFlags(old(flags), u)
    {
      hide IndexOf, IsOption, TrimLeadingDashes, Switch;
      if !IsOption(args[i], SettingFor(mode)) {
        posArgs := posArgs + [args[i]];
        return false;
      }
      var name := TrimLeadingDashes(args[i]);
      if !mode.noSplit && '=' in name {
        var p := IndexOf(name, '=');
        params := InsertFirst(params, name[..p], name[p + 1..]);
        return false;
      }
      skip := ParseSwitch(args, i, name, mode);
    }

    /** parser::parse: what an earlier parse left behind makes no difference. */
    method Parse(args: seq<string>, mode: Mode)
      modifies this`flags, this`params, this`posArgs
      ensures
        var us := Uses(args, 0, SettingFor(mode));
        posArgs == PosArgs(us) && params == Params(us) && flags == Flags(us)
    {
      hide PosArgs, Params, Flags, UseAt, Uses, WithPos, WithParam, WithFlags;
      NothingFolded();
      UsesEnd(args, SettingFor(mode));
      flags, params, posArgs := multiset{}, map[], [];
      ghost var st := SettingFor(mode);
      ghost var us := Uses(args, 0, st);
      var i := 0;
      while i < |args|
        invariant 0 <= i <= |args|
        invariant posArgs + PosArgs(Uses(args, i, st)) == PosArgs(us)
        invariant Params(Uses(args, i, st)) + params == Params(us)
        invariant flags + Flags(Uses(args, i, st)) == Flags(us)
      {
        ghost var u := UseAt(args, i, st);
        UsesStep(args, i, st);
        Folded(posArgs, params, flags, u, Uses(args, i + u.Taken(), st));
        var skip := ParseOne(args, i, mode);
        if skip {
          i := i + 1;
        }
        i := i + 1;
      }
    }

    // got_flag
    predicate GotFlag(name: string)
      reads this
    {
      TrimLeadingDashes(name) in flags
    }

    // operator() with a name: the value, or a stream in the fail state
    function Param(name: string): Option<string>
      reads this
    {
      var key := TrimLeadingDashes(name);
      if key in params then Some(params[key]) else None
    }

    /** A flag or parameter is found under its name with or without the dashes it was given with. */
    lemma FoundWithDashes(name: string)
      requires name != [] && name[0] != '-'
      ensures GotFlag("--" + name) == GotFlag(name) == (name in flags)
      ensures Param("--" + name) == Param(name) == if name in params then Some(params[name]) else None
    {
      TrimTwoDashes(name);
      assert name[0] in name;
    }
  }

  // --- Rendering ------------------------------------------------------------------------------------

  // A name that survives: no equal sign, no leading dash.
  predicate Nameable(name: string) {
    '=' !in name && (name != [] ==> name[0] != '-')
  }

  predicate Renderable(pos: seq<string>, ps: seq<(string, string)>, fs: seq<string>, st: Setting) {
    && (forall k :: 0 <= k < |pos| ==> !IsOption(pos[k], st))
    && (forall k :: 0 <= k < |ps| ==> Nameable(ps[k].0))
    && (forall k :: 0 <= k < |fs| ==> Nameable(fs[k]) && fs[k] != [])
  }

  function ParamArg(p: (string, string)): string {
    "--" + p.0 + "=" + p.1
  }

  function FlagArg(f: string): string {
    "--" + f
  }

  // Positionals, then --key=value for each parameter, then --flag for each flag.
  function Render(pos: seq<string>, ps: seq<(string, string)>, fs: seq<string>): (args: seq<string>)
    ensures |args| == |pos| + |ps| + |fs|
    ensures forall k :: 0 <= k < |pos| ==> args[k] == pos[k]
    ensures forall k :: 0 <= k < |ps| ==> args[|pos| + k] == ParamArg(ps[k])
    ensures forall k :: 0 <= k < |fs| ==> args[|pos| + |ps| + k] == FlagArg(fs[k])
  {
    pos + seq(|ps|, k requires 0 <= k < |ps| => ParamArg(ps[k])) + seq(|fs|, k requires 0 <= k < |fs| => FlagArg(fs[k]))
  }

  // The map of a list of parameters, the first value for a key counting.
  function MapOf(ps: seq<(string, string)>): map<string, string> {
    if ps == [] then map[] else MapOf(ps[1..])[ps[0].0 := ps[0].1]
  }

  // is_number is false on anything that starts with two dashes.
  ghost predicate NumbersPlain(st: Setting) {
    forall s: string :: 2 <= |s| && s[0] == '-' && s[1] == '-' ==> !st.isNumber(s)
  }

  /** The map holds the names of the list, each with the first value given for it. */
  lemma {:induction false} FirstCounts(ps: seq<(string, string)>, key: string)
    ensures key in MapOf(ps) <==> exists i :: 0 <= i < |ps| && ps[i].0 == key
    ensures forall i :: 0 <= i < |ps| && ps[i].0 == key && (forall j :: 0 <= j < i ==> ps[j].0 != key)
              ==> MapOf(ps)[key] == ps[i].1
  {
    if ps != [] {
      FirstCounts(ps[1..], key);
      assert forall j :: 0 <= j < |ps| - 1 ==> ps[1..][j] == ps[j + 1];
      forall i | 0 < i < |ps| && ps[i].0 == key && (forall j :: 0 <= j < i ==> ps[j].0 != key)
        ensures MapOf(ps)[key] == ps[i].1
      {
        assert ps[1..][i - 1].0 == key && ps[0].0 != key;
      }
      if i :| 0 < i < |ps| && ps[i].0 == key {
        assert ps[1..][i - 1].0 == key;
      }
    }
  }

  /** With distinct keys the map is exactly the list of parameters. */
  lemma {:induction false} MapOfHas(ps: seq<(string, string)>, key: string)
    requires forall i, j :: 0 <= i < j < |ps| ==> ps[i].0 != ps[j].0
    ensures key in MapOf(ps) <==> exists i :: 0 <= i < |ps| && ps[i].0 == key
    ensures forall i :: 0 <= i < |ps| && ps[i].0 == key ==> MapOf(ps)[key] == ps[i].1
  {
    FirstCounts(ps, key);
  }

  lemma TrimTwoDashes(s: string)
    requires s != [] && s[0] != '-'
    ensures TrimLeadingDashes("--" + s) == s
  {
    var t := "--" + s;
    assert t[2] == s[0] && t[2] in t && t[0] == '-' && t[1] == '-';
    assert Trimmed(t) == Trimmed(t[1..]);
    assert Trimmed(t[1..]) == Trimmed(t[1..][1..]);
    assert t[1..][1..] == s;
  }

  lemma {:induction false} IndexOfEqual(k: string, v: string)
    requires '=' !in k
    ensures IndexOf(k + "=" + v, '=') == |k|
  {
    var s := k + "=" + v;
    assert s[|k|] == '=';
    if k != [] {
      assert s[0] == k[0] && s[1..] == k[1..] + "=" + v;
      IndexOfEqual(k[1..], v);
    }
  }

  lemma IsOptionTwoDashes(s: string, st: Setting)
    requires NumbersPlain(st)
    ensures IsOption("--" + s, st)
  {
    assert ("--" + s)[0] == '-' && ("--" + s)[1] == '-';
  }

  lemma FlagUse(args: seq<string>, i: nat, f: string, st: Setting)
    requires NumbersPlain(st) && i < |args| && args[i] == "--" + f && f != [] && f[0] != '-'
    requires st.mode.noSplit || '=' !in f
    requires i + 1 < |args| ==> IsOption(args[i + 1], st)
    ensures UseAt(args, i, st) == Flagged(i, [f])
  {
    hide IsOption, TrimLeadingDashes;
    IsOptionTwoDashes(f, st);
    TrimTwoDashes(f);
  }

  lemma ParamUse(args: seq<string>, i: nat, p: (string, string), st: Setting)
    requires NumbersPlain(st) && i < |args| && args[i] == ParamArg(p) && Nameable(p.0) && !st.mode.noSplit
    ensures UseAt(args, i, st) == Assigned(i, p.0, p.1)
  {
    hide IsOption, TrimLeadingDashes, IndexOf;
    var name := p.0 + "=" + p.1;
    assert args[i] == "--" + name && name[|p.0|] == '=';
    IsOptionTwoDashes(name, st);
    TrimTwoDashes(name);
    IndexOfEqual(p.0, p.1);
  }

  lemma RenderedOption(pos: seq<string>, ps: seq<(string, string)>, fs: seq<string>, i: nat, st: Setting)
    requires NumbersPlain(st) && |pos| <= i < |pos| + |ps| + |fs|
    ensures IsOption(Render(pos, ps, fs)[i], st)
  {
    hide IsOption;
    var k := i - |pos|;
    if k < |ps| {
      var name := ps[k].0 + "=" + ps[k].1;
      assert Render(pos, ps, fs)[|pos| + k] == "--" + name;
      IsOptionTwoDashes(name, st);
    } else {
      assert Render(pos, ps, fs)[|pos| + |ps| + (k - |ps|)] == "--" + fs[k - |ps|];
      IsOptionTwoDashes(fs[k - |ps|], st);
    }
  }

  // Reading the rendered command line from a flag on.
  lemma {:induction false} ReadFlags(pos: seq<string>, ps: seq<(string, string)>, fs: seq<string>, k: nat, st: Setting)
    requires NumbersPlain(st) && Renderable(pos, ps, fs, st) && k <= |fs|
    ensures
      var us := Uses(Render(pos, ps, fs), |pos| + |ps| + k, st);
      PosArgs(us) == [] && Params(us) == map[] && Flags(us) == multiset(fs[k..])
    decreases |fs| - k
  {
    hide UseAt, Uses, Render, PosArgs, Params, Flags, IsOption, NumbersPlain;
    NothingFolded();
    UsesEnd(Render(pos, ps, fs), st);
    if k < |fs| {
      var args, i := Render(pos, ps, fs), |pos| + |ps| + k;
      assert args[i] == "--" + fs[k] by {
        RenderAt(pos, ps, fs, i);
      }
      if i + 1 < |args| {
        RenderedOption(pos, ps, fs, i + 1, st);
      }
      FlagUse(args, i, fs[k], st);
      ReadFlags(pos, ps, fs, k + 1, st);
      UsesStep(args, i, st);
      FoldedUse(Flagged(i, [fs[k]]), Uses(args, i + 1, st));
      assert fs[k..] == [fs[k]] + fs[k + 1..];
    }
  }

  lemma RenderAt(pos: seq<string>, ps: seq<(string, string)>, fs: seq<string>, i: nat)
    requires i < |pos| + |ps| + |fs|
    ensures Render(pos, ps, fs)[i] ==
            if i < |pos| then pos[i]
            else if i < |pos| + |ps| then ParamArg(ps[i - |pos|])
            else FlagArg(fs[i - |pos| - |ps|])
  {
    var k := i - |pos|;
    assert 0 <= k ==> i == |pos| + k;
    assert |ps| <= k ==> i == |pos| + |ps| + (k - |ps|);
  }

  lemma KeyStarts(p: (string, string))
    requires Nameable(p.0)
    ensures var name := p.0 + "=" + p.1; name != [] && name[0] != '-' && ParamArg(p) == "--" + name
  {
    assert p.0 + "=" + p.1 == p.0 + ("=" + p.1);
  }

  // A parameter's argument is read as a parameter, or as a flag without the split.
  lemma ParamArgUse(pos: seq<string>, ps: seq<(string, string)>, fs: seq<string>, k: nat, st: Setting)
    requires NumbersPlain(st) && Renderable(pos, ps, fs, st) && k < |ps|
    ensures
      UseAt(Render(pos, ps, fs), |pos| + k, st) ==
      if st.mode.noSplit then Flagged(|pos| + k, [ps[k].0 + "=" + ps[k].1]) else Assigned(|pos| + k, ps[k].0, ps[k].1)
  {
    hide UseAt, Render, IsOption, Nameable, NumbersPlain, ParamArg;
    var args, i := Render(pos, ps, fs), |pos| + k;
    RenderAt(pos, ps, fs, i);
    if st.mode.noSplit {
      var name := ps[k].0 + "=" + ps[k].1;
      KeyStarts(ps[k]);
      if i + 1 < |args| {
        RenderedOption(pos, ps, fs, i + 1, st);
      }
      FlagUse(args, i, name, st);
    } else {
      ParamUse(args, i, ps[k], st);
    }
  }

  lemma {:induction false} ReadParams(pos: seq<string>, ps: seq<(string, string)>, fs: seq<string>, k: nat, st: Setting)
    requires NumbersPlain(st) && Renderable(pos, ps, fs, st) && k <= |ps|
    ensures
      var us := Uses(Render(pos, ps, fs), |pos| + k, st);
      && PosArgs(us) == []
      && Params(us) == (if st.mode.noSplit then map[] else MapOf(ps[k..]))
      && (!st.mode.noSplit || k == |ps| ==> Flags(us) == multiset(fs))
    decreases |ps| - k
  {
    hide UseAt, Render, PosArgs, Params, Flags, Renderable, NumbersPlain;
    if k == |ps| {
      ReadFlags(pos, ps, fs, 0, st);
      assert fs[0..] == fs;
    } else {
      ReadParams(pos, ps, fs, k + 1, st);
      ParamArgUse(pos, ps, fs, k, st);
      var args, i := Render(pos, ps, fs), |pos| + k;
      FoldedUse(UseAt(args, i, st), Uses(args, i + 1, st));
      assert ps[k..][1..] == ps[k + 1..];
    }
  }

  lemma PositionalUse(args: seq<string>, i: nat, st: Setting)
    requires i < |args| && !IsOption(args[i], st)
    ensures UseAt(args, i, st) == Positional(i, args[i])
  {
  }

  lemma {:induction false} ReadPositionals(pos: seq<string>, ps: seq<(string, string)>, fs: seq<string>,
                                           k: nat, st: Setting)
    requires NumbersPlain(st) && Renderable(pos, ps, fs, st) && k <= |pos|
    ensures
      var us := Uses(Render(pos, ps, fs), k, st);
      && PosArgs(us) == pos[k..]
      && Params(us) == (if st.mode.noSplit then map[] else MapOf(ps))
      && (!st.mode.noSplit || ps == [] ==> Flags(us) == multiset(fs))
    decreases |pos| - k
  {
    hide Render, PosArgs, Params, Flags, IsOption, UseAt, NumbersPlain, MapOf;
    if k == |pos| {
      ReadParams(pos, ps, fs, 0, st);
      assert ps[0..] == ps;
    } else {
      var args := Render(pos, ps, fs);
      RenderAt(pos, ps, fs, k);
      PositionalUse(args, k, st);
      ReadPositionals(pos, ps, fs, k + 1, st);
      FoldedUse(Positional(k, pos[k]), Uses(args, k + 1, st));
    }
  }

  /** Parsing what was rendered gives back the positionals in order, the parameters and the flags,
      in every mode that splits on equal signs; without the split exactly if there are no
      parameters. */
  lemma RoundTripIff(pos: seq<string>, ps: seq<(string, string)>, fs: seq<string>, st: Setting)
    requires NumbersPlain(st) && Renderable(pos, ps, fs, st)
    ensures
      var us := Uses(Render(pos, ps, fs), 0, st);
      && PosArgs(us) == pos
      && (Params(us) == MapOf(ps) && Flags(us) == multiset(fs) <==> !st.mode.noSplit || ps == [])
  {
    ReadPositionals(pos, ps, fs, 0, st);
    assert pos[0..] == pos;
    if ps != [] {
      assert ps[0].0 in MapOf(ps);
    }
  }
}
