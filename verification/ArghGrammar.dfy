/**
 What a command line means, stated from the writer's side: a command line is a list of items, each
 written as one or two arguments, and parsing it gives back the words, values and flags of the
 items. Nothing here looks at how third-party/argh/argh.h decides.
 */
module ArghGrammar {
  import opened Argh

  datatype Item =
    | Word(text: string)                                 // an argument that is no option
    | Assign(dashes: nat, key: string, value: string)    // --key=value
    | Flag(dashes: nat, name: string)                    // --name; dashes only if name is empty
    | Separate(dashes: nat, name: string, value: string) // --name value
    | Letters(letters: string)                           // -abc
    | LettersWith(letters: string, last: char, value: string) // -abx value

  function Dashes(n: nat): (s: string)
    ensures |s| == n && forall k :: 0 <= k < n ==> s[k] == '-'
  {
    seq(n, _ => '-')
  }

  // The arguments an item is written as.
  function Written(it: Item): (args: seq<string>)
    ensures 0 < |args|
  {
    match it
    case Word(v) => [v]
    case Assign(d, k, v) => [Dashes(d) + (k + "=" + v)]
    case Flag(d, n) => [Dashes(d) + n]
    case Separate(d, n, v) => [Dashes(d) + n, v]
    case Letters(s) => ["-" + s]
    case LettersWith(s, c, v) => ["-" + (s + [c]), v]
  }

  function Render(items: seq<Item>): seq<string> {
    if items == [] then [] else Written(items[0]) + Render(items[1..])
  }

  // An argument that can stand by itself or be a value: a number, or no dash in front.
  predicate Free(v: string, st: Setting) {
    st.isNumber(v) || v == [] || v[0] != '-'
  }

  // An option's text is none of the numbers that start with a dash.
  predicate Dashed(arg: string, st: Setting) {
    arg != [] && arg[0] == '-' && !st.isNumber(arg)
  }

  // What may follow the dashes without an equal sign's splitting it.
  predicate Whole(name: string, st: Setting) {
    (name == [] || name[0] != '-') && (st.mode.noSplit || '=' !in name)
  }

  // The name a flag or parameter is known by: the dashes themselves if there is nothing else.
  function Known(dashes: nat, name: string): string {
    if name == [] then Dashes(dashes) else name
  }

  // A single dash in front of an unregistered name makes a group of letters in that mode.
  predicate IsGroup(dashes: nat, name: string, st: Setting) {
    dashes == 1 && name != [] && st.mode.multiFlag && name !in st.registered
  }

  // The item can be written where free says whether a free argument comes next.
  predicate Fits(it: Item, free: bool, st: Setting) {
    match it
    case Word(v) => Free(v, st)
    case Assign(d, k, v) =>
      0 < d && !st.mode.noSplit && '=' !in k && (k != [] ==> k[0] != '-') && Dashed(Written(it)[0], st)
    case Flag(d, n) =>
      && 0 < d && Whole(n, st) && Dashed(Written(it)[0], st) && !IsGroup(d, n, st)
      && (free ==> Known(d, n) !in st.registered && !st.mode.preferParam)
    case Separate(d, n, v) =>
      && 0 < d && Whole(n, st) && Dashed(Written(it)[0], st) && !IsGroup(d, n, st) && Free(v, st)
      && (Known(d, n) in st.registered || st.mode.preferParam)
    case Letters(s) =>
      && s != [] && Whole(s, st) && Dashed(Written(it)[0], st) && IsGroup(1, s, st)
      && (free ==> [s[|s| - 1]] !in st.registered)
    case LettersWith(s, c, v) =>
      && Whole(s + [c], st) && Dashed(Written(it)[0], st) && IsGroup(1, s + [c], st) && Free(v, st)
      && [c] in st.registered
  }

  predicate Writable(items: seq<Item>, st: Setting) {
    items != [] ==>
      && Fits(items[0], 1 < |items| && items[1].Word?, st)
      && Writable(items[1..], st)
  }

  // What the items say.
  function Words(items: seq<Item>): seq<string> {
    if items == [] then [] else (if items[0].Word? then [items[0].text] else []) + Words(items[1..])
  }

  function ValueOf(it: Item): seq<(string, string)> {
    match it
    case Assign(_, k, v) => [(k, v)]
    case Separate(d, n, v) => [(Known(d, n), v)]
    case LettersWith(_, c, v) => [([c], v)]
    case _ => []
  }

  function Values(items: seq<Item>): seq<(string, string)> {
    if items == [] then [] else ValueOf(items[0]) + Values(items[1..])
  }

  // Each letter by itself.
  function Singles(s: string): seq<string> {
    if s == [] then [] else [[s[0]]] + Singles(s[1..])
  }

  function NamesOf(it: Item): seq<string> {
    match it
    case Flag(d, n) => [Known(d, n)]
    case Letters(s) => Singles(s)
    case LettersWith(s, _, _) => Singles(s)
    case _ => []
  }

  function Names(items: seq<Item>): seq<string> {
    if items == [] then [] else NamesOf(items[0]) + Names(items[1..])
  }

  // --- Trimming and splitting what was written ------------------------------------------------------

  lemma {:induction false} TrimmedDashes(d: nat, name: string)
    requires name != [] ==> name[0] != '-'
    ensures Trimmed(Dashes(d) + name) == name
  {
    var s := Dashes(d) + name;
    if d == 0 {
      assert s == name;
    } else {
      assert s[1..] == Dashes(d - 1) + name;
      TrimmedDashes(d - 1, name);
    }
  }

  lemma TrimWritten(d: nat, name: string)
    requires name != [] ==> name[0] != '-'
    ensures TrimLeadingDashes(Dashes(d) + name) == Known(d, name)
  {
    var s := Dashes(d) + name;
    if name == [] {
      assert s == Dashes(d);
    } else {
      assert s[d] == name[0] && s[d] in s;
      TrimmedDashes(d, name);
    }
  }

  lemma OneDash(s: string)
    ensures "-" + s == Dashes(1) + s
  {
  }

  lemma {:induction false} SinglesAre(s: string)
    ensures Singles(s) == Chars(s)
  {
    if s != [] {
      SinglesAre(s[1..]);
      assert forall k :: 0 < k < |s| ==> s[1..][k - 1] == s[k];
    }
  }

  // --- What one item is used for --------------------------------------------------------------------

  // The item stands at i, and what follows it is free or an option as said.
  predicate StandsAt(args: seq<string>, i: nat, it: Item, free: bool, st: Setting) {
    && i + |Written(it)| <= |args| && args[i..i + |Written(it)|] == Written(it) && Fits(it, free, st)
    && var j := i + |Written(it)|;
       if j == |args| then !free else IsOption(args[j], st) == !free
  }

  predicate Gives(u: Use, it: Item) {
    && (u.Valued? <==> |Written(it)| == 2)
    && (if u.Positional? then [u.arg] else []) == (if it.Word? then [it.text] else [])
    && (if u.Assigned? || u.Valued? then [(u.key, u.value)] else []) == ValueOf(it)
    && (if u.Flagged? || u.Valued? then u.names else []) == NamesOf(it)
  }

  lemma WordUse(args: seq<string>, i: nat, it: Item, free: bool, st: Setting)
    requires StandsAt(args, i, it, free, st) && it.Word?
    ensures Gives(UseAt(args, i, st), it)
  {
    assert args[i] == args[i..i + 1][0];
  }

  lemma AssignUse(args: seq<string>, i: nat, it: Item, free: bool, st: Setting)
    requires StandsAt(args, i, it, free, st) && it.Assign?
    ensures Gives(UseAt(args, i, st), it)
  {
    hide TrimLeadingDashes, IndexOf, Switch;
    assert args[i] == args[i..i + 1][0];
    var name := it.key + "=" + it.value;
    assert name[|it.key|] == '=' && name[0] == if it.key == [] then '=' else it.key[0];
    TrimWritten(it.dashes, name);
    IndexOfEqual(it.key, it.value);
    assert name[..|it.key|] == it.key && name[|it.key| + 1..] == it.value;
  }

  lemma FlagUseAt(args: seq<string>, i: nat, it: Item, free: bool, st: Setting)
    requires StandsAt(args, i, it, free, st) && it.Flag?
    ensures Gives(UseAt(args, i, st), it)
  {
    hide TrimLeadingDashes, IndexOf;
    assert args[i] == args[i..i + 1][0];
    TrimWritten(it.dashes, it.name);
    assert |args[i]| == it.dashes + |it.name|;
  }

  lemma SeparateUse(args: seq<string>, i: nat, it: Item, free: bool, st: Setting)
    requires StandsAt(args, i, it, free, st) && it.Separate?
    ensures Gives(UseAt(args, i, st), it)
  {
    hide TrimLeadingDashes, IndexOf;
    assert args[i] == args[i..i + 2][0] && args[i + 1] == args[i..i + 2][1];
    TrimWritten(it.dashes, it.name);
    assert |args[i]| == it.dashes + |it.name|;
  }

  lemma LettersSwitch(args: seq<string>, i: nat, s: string, st: Setting)
    requires i < |args| && |args[i]| == |s| + 1 && IsGroup(1, s, st)
    requires i + 1 < |args| && !IsOption(args[i + 1], st) ==> [s[|s| - 1]] !in st.registered
    ensures Switch(args, i, s, st) == Flagged(i, Chars(s))
  {
    hide IsOption;
    assert Chars(s[..|s| - 1]) + [[s[|s| - 1]]] == Chars(s);
  }

  lemma LettersUse(args: seq<string>, i: nat, it: Item, free: bool, st: Setting)
    requires StandsAt(args, i, it, free, st) && it.Letters?
    ensures Gives(UseAt(args, i, st), it)
  {
    hide TrimLeadingDashes, IndexOf, Switch;
    assert args[i] == args[i..i + 1][0];
    OneDash(it.letters);
    TrimWritten(1, it.letters);
    SinglesAre(it.letters);
    LettersSwitch(args, i, it.letters, st);
  }

  lemma LettersWithUse(args: seq<string>, i: nat, it: Item, free: bool, st: Setting)
    requires StandsAt(args, i, it, free, st) && it.LettersWith?
    ensures Gives(UseAt(args, i, st), it)
  {
    hide TrimLeadingDashes, IndexOf;
    assert args[i] == args[i..i + 2][0] && args[i + 1] == args[i..i + 2][1];
    var s := it.letters + [it.last];
    OneDash(s);
    TrimWritten(1, s);
    SinglesAre(it.letters);
    assert s[..|s| - 1] == it.letters && s[|s| - 1] == it.last;
  }

  lemma ItemUse(args: seq<string>, i: nat, it: Item, free: bool, st: Setting)
    requires StandsAt(args, i, it, free, st)
    ensures Gives(UseAt(args, i, st), it)
  {
    hide StandsAt, Gives, UseAt;
    match it
    case Word(_) => WordUse(args, i, it, free, st);
    case Assign(_, _, _) => AssignUse(args, i, it, free, st);
    case Flag(_, _) => FlagUseAt(args, i, it, free, st);
    case Separate(_, _, _) => SeparateUse(args, i, it, free, st);
    case Letters(_) => LettersUse(args, i, it, free, st);
    case LettersWith(_, _, _) => LettersWithUse(args, i, it, free, st);
  }

  // --- Parsing what was written ---------------------------------------------------------------------

  // Every item but a word starts with an option.
  lemma FirstArgument(it: Item, free: bool, st: Setting)
    requires Fits(it, free, st)
    ensures IsOption(Written(it)[0], st) == !it.Word?
  {
  }

  lemma HeadStands(args: seq<string>, i: nat, items: seq<Item>, st: Setting)
    requires i <= |args| && items != [] && args[i..] == Render(items) && Writable(items, st)
    ensures
      var free := 1 < |items| && items[1].Word?;
      var j := i + |Written(items[0])|;
      StandsAt(args, i, items[0], free, st) && args[j..] == Render(items[1..])
  {
    hide Fits, Written, IsOption;
    var it, rest := items[0], items[1..];
    var j := i + |Written(it)|;
    assert args[i..j] == args[i..][..|Written(it)|] == Written(it);
    assert args[j..] == args[i..][|Written(it)|..] == Render(rest);
    if rest != [] {
      assert args[j] == args[j..][0] == Written(rest[0])[0];
      FirstArgument(rest[0], 1 < |rest| && rest[1].Word?, st);
    }
  }

  lemma MapOfCons(p: seq<(string, string)>, ps: seq<(string, string)>)
    requires |p| <= 1
    ensures MapOf(p + ps) == if p == [] then MapOf(ps) else MapOf(ps)[p[0].0 := p[0].1]
  {
    if p == [] {
      assert p + ps == ps;
    } else {
      assert (p + ps)[1..] == ps;
    }
  }

  lemma {:induction false} ReadFrom(args: seq<string>, i: nat, items: seq<Item>, st: Setting)
    requires i <= |args| && args[i..] == Render(items) && Writable(items, st)
    ensures
      var us := Uses(args, i, st);
      PosArgs(us) == Words(items) && Params(us) == MapOf(Values(items)) && Flags(us) == multiset(Names(items))
    decreases |items|
  {
    hide UseAt, StandsAt, PosArgs, Params, Flags, MapOf, Written, Fits, NamesOf, ValueOf;
    if items == [] {
      assert |args| == i;
      NothingFolded();
      assert MapOf([]) == map[] by {
        MapOfNothing();
      }
    } else {
      HeadStands(args, i, items, st);
      var it, u := items[0], UseAt(args, i, st);
      ItemUse(args, i, it, 1 < |items| && items[1].Word?, st);
      assert |Written(it)| == u.Taken() by {
        OneOrTwo(it);
      }
      ReadFrom(args, i + u.Taken(), items[1..], st);
      FoldedUse(u, Uses(args, i + u.Taken(), st));
      MapOfCons(ValueOf(it), Values(items[1..]));
    }
  }

  lemma MapOfNothing()
    ensures MapOf([]) == map[]
  {
  }

  lemma OneOrTwo(it: Item)
    ensures |Written(it)| == 1 || |Written(it)| == 2
  {
  }

  /** Parsing a command line gives back its words in order, for every name the first value written for
      it, and every flag as often as it was written. */
  lemma ParseWritten(items: seq<Item>, st: Setting)
    requires Writable(items, st)
    ensures
      var us := Uses(Render(items), 0, st);
      PosArgs(us) == Words(items) && Params(us) == MapOf(Values(items)) && Flags(us) == multiset(Names(items))
  {
    assert Render(items)[0..] == Render(items);
    ReadFrom(Render(items), 0, items, st);
  }

  // --- Every command line is written somehow --------------------------------------------------------

  lemma {:induction false} Undashed(arg: string) returns (d: nat, name: string)
    ensures arg == Dashes(d) + name && (name != [] ==> name[0] != '-')
    ensures arg != [] && arg[0] == '-' ==> 0 < d
  {
    if arg == [] || arg[0] != '-' {
      d, name := 0, arg;
    } else {
      d, name := Undashed(arg[1..]);
      d := d + 1;
      assert arg == [arg[0]] + arg[1..];
    }
  }

  // An item for an option, when the argument after it is free or not, and what the value would be.
  lemma OptionItem(arg: string, free: bool, value: string, st: Setting) returns (it: Item)
    requires Dashed(arg, st) && (free ==> Free(value, st))
    ensures Fits(it, free, st) && !it.Word?
    ensures Written(it) == [arg] || (free && Written(it) == [arg, value])
  {
    var d, name := Undashed(arg);
    if !st.mode.noSplit && '=' in name {
      var p := IndexOf(name, '=');
      assert name == name[..p] + "=" + name[p + 1..];
      it := Assign(d, name[..p], name[p + 1..]);
    } else if !IsGroup(d, name, st) {
      var known := Known(d, name);
      it := if free && (known in st.registered || st.mode.preferParam) then Separate(d, name, value) else Flag(d, name);
    } else {
      OneDash(name);
      var n := |name| - 1;
      assert name == name[..n] + [name[n]];
      it := if free && [name[n]] in st.registered then LettersWith(name[..n], name[n], value) else Letters(name);
    }
  }

  lemma WritableCons(it: Item, rest: seq<Item>, st: Setting)
    requires Fits(it, rest != [] && rest[0].Word?, st) && Writable(rest, st)
    ensures Writable([it] + rest, st) && Render([it] + rest) == Written(it) + Render(rest)
  {
    assert ([it] + rest)[1..] == rest;
  }

  // Whether the first argument is free shows in the first item.
  lemma FirstIsWord(rest: seq<Item>, args: seq<string>, st: Setting)
    requires Writable(rest, st) && Render(rest) == args
    ensures (rest != [] && rest[0].Word?) == (args != [] && Free(args[0], st))
  {
    if rest != [] {
      FirstArgument(rest[0], 1 < |rest| && rest[1].Word?, st);
    }
  }

  /** Every command line can be written as items, in every mode and with any registered names. */
  lemma {:induction false} EveryLineWritten(args: seq<string>, st: Setting) returns (items: seq<Item>)
    ensures Writable(items, st) && Render(items) == args
    decreases |args|
  {
    hide Fits, Written, Free, Dashed;
    if args == [] {
      items := [];
    } else {
      var rest := EveryLineWritten(args[1..], st);
      FirstIsWord(rest, args[1..], st);
      var it;
      if Free(args[0], st) {
        it := Word(args[0]);
        WordFits(args[0], rest != [] && rest[0].Word?, st);
      } else {
        var free := 1 < |args| && Free(args[1], st);
        NotFree(args[0], st);
        it := OptionItem(args[0], free, if free then args[1] else "", st);
        if |Written(it)| == 2 {
          rest := EveryLineWritten(args[2..], st);
          ValueTaken(it, free, rest != [] && rest[0].Word?, st);
        }
      }
      WritableCons(it, rest, st);
      items := [it] + rest;
      assert args == args[..|Written(it)|] + args[|Written(it)|..];
    }
  }

  lemma NotFree(arg: string, st: Setting)
    ensures Free(arg, st) == !Dashed(arg, st)
  {
  }

  lemma WordFits(arg: string, free: bool, st: Setting)
    requires Free(arg, st)
    ensures Fits(Word(arg), free, st) && Written(Word(arg)) == [arg]
  {
  }

  // An item with its value fits whatever follows the value.
  lemma ValueTaken(it: Item, free: bool, after: bool, st: Setting)
    requires Fits(it, free, st) && |Written(it)| == 2
    ensures Fits(it, after, st)
  {
  }

  /** So the results of parsing any command line are those its items say, however it is written. */
  lemma ParseMeans(args: seq<string>, st: Setting) returns (items: seq<Item>)
    ensures Writable(items, st) && Render(items) == args
    ensures
      var us := Uses(args, 0, st);
      PosArgs(us) == Words(items) && Params(us) == MapOf(Values(items)) && Flags(us) == multiset(Names(items))
  {
    items := EveryLineWritten(args, st);
    ParseWritten(items, st);
  }
}
