/** A parser as the registration calls build it: the argument list, the map
    from option strings to arguments, the mutually exclusive groups and the
    subcommands. `Valid` is the invariant every registration call keeps. */
module Parsers {
  import opened Wrappers
  import opened Strings
  import opened NArgs
  import opened Errors
  import opened Arguments

  /** A mutually exclusive group: whether one member is required, and the
      members as indices into the parser's argument list. */
  datatype MutexGroup = MutexGroup(required: bool, members: seq<nat>)

  /** `ArgumentParser`. Arguments are referred to by their index in `args`
      (the source compares them by address); `subcommand` is the argument
      `add_subparsers` created and `childIndex` maps each subcommand name and
      alias to its parser in `children`. */
  datatype Parser = Parser(
    prefix: char,
    allowAbbrev: bool,
    args: seq<Argument>,
    optionMap: map<string, nat>,
    groups: seq<MutexGroup>,
    hasNegativeNumberOptions: bool,
    subcommand: Option<nat>,
    children: seq<Parser>,
    childIndex: map<string, nat>)

  /** The whole of `s` matches `^-\d+$|^-\d*\.\d+$`. */
  predicate NegativeNumberLike(s: string)
  {
    |s| >= 2 && s[0] == '-' &&
      (AllDigits(s[1..]) ||
       match IndexOf(s[1..], '.')
       case None => false
       case Some(k) => AllDigits(s[1..][..k]) && k + 1 < |s| - 1 && AllDigits(s[1..][k + 1..]))
  }

  /** Every option-map entry names an existing optional that lists the key,
      and every key starts with the prefix. */
  predicate MapSound(p: Parser)
  {
    forall k :: k in p.optionMap ==>
      p.optionMap[k] < |p.args| && k in p.args[p.optionMap[k]].optionStrings && |k| > 0 && k[0] == p.prefix
  }

  /** Every option string of every argument is mapped to that argument. */
  predicate MapComplete(p: Parser)
  {
    forall i, j :: 0 <= i < |p.args| && 0 <= j < |p.args[i].optionStrings| ==>
      p.args[i].optionStrings[j] in p.optionMap && p.optionMap[p.args[i].optionStrings[j]] == i
  }

  /** Optionals are exactly the arguments with option strings. */
  predicate KindsMatch(p: Parser)
  {
    forall i :: 0 <= i < |p.args| ==> (p.args[i].kind == OptionalArg <==> |p.args[i].optionStrings| > 0)
  }

  /** `has_negative_number_options_` is set exactly when some option string
      looks like a negative number. */
  predicate NegativeFlag(p: Parser)
  {
    p.hasNegativeNumberOptions <==> exists k :: k in p.optionMap && NegativeNumberLike(k)
  }

  predicate GroupsInRange(p: Parser)
  {
    forall g, m :: 0 <= g < |p.groups| && 0 <= m < |p.groups[g].members| ==> p.groups[g].members[m] < |p.args|
  }

  /** The subcommand argument, if any, is the one argument of that kind. */
  predicate SubcommandSound(p: Parser)
  {
    && (p.subcommand.Some? ==> p.subcommand.value < |p.args|)
    && (forall i :: 0 <= i < |p.args| ==> (p.args[i].kind == SubcommandArg <==> p.subcommand == Some(i)))
  }

  predicate ChildrenInRange(p: Parser)
  {
    forall k :: k in p.childIndex ==> p.childIndex[k] < |p.children|
  }

  /** The invariant of a parser: all of the above, and every subcommand
      parser is valid too. */
  predicate Valid(p: Parser)
    decreases p
  {
    && MapSound(p) && MapComplete(p) && KindsMatch(p) && NegativeFlag(p)
    && GroupsInRange(p) && SubcommandSound(p) && ChildrenInRange(p)
    && (forall c :: 0 <= c < |p.children| ==> Valid(p.children[c]))
  }

  /** A parser with no arguments. */
  function Empty(prefix: char, allowAbbrev: bool): (r: Parser)
    ensures Valid(r)
  {
    Parser(prefix, allowAbbrev, [], map[], [], false, None, [], map[])
  }

  /** The option strings of `a` that some registered argument already uses,
      in the order `a` lists them. */
  function Conflicting(p: Parser, options: seq<string>): (r: seq<string>)
    ensures forall s :: s in r <==> s in options && s in p.optionMap
  {
    if |options| == 0 then []
    else (if options[0] in p.optionMap then [options[0]] else []) + Conflicting(p, options[1..])
  }

  /** `__check_conflict`: refuses an argument reusing a registered option string. */
  function CheckConflict(p: Parser, a: Argument): (r: Option<ParseError>)
    ensures r.None? <==> forall s :: s in a.optionStrings ==> s !in p.optionMap
    ensures r.Some? ==> r.value == ArgumentError(ArgumentName(a), ConflictingOptions(Conflicting(p, a.optionStrings)))
  {
    var c := Conflicting(p, a.optionStrings);
    if |c| == 0 then None
    else assert c[0] in c; Some(ArgumentError(ArgumentName(a), ConflictingOptions(c)))
  }

  /** The option map with every string of `options` sent to `i`. */
  function MapAll(m: map<string, nat>, options: seq<string>, i: nat): (r: map<string, nat>)
    ensures r.Keys == m.Keys + set s | s in options
    ensures forall s :: s in options ==> r[s] == i
    ensures forall s :: s in m && s !in options ==> r[s] == m[s]
    decreases |options|
  {
    if |options| == 0 then m else MapAll(m[options[0] := i], options[1..], i)
  }

  /** The parser with `a` appended and its option strings mapped to it. */
  function Appended(p: Parser, a: Argument): (r: Parser)
    ensures r.args == p.args + [a] && r.optionMap == MapAll(p.optionMap, a.optionStrings, |p.args|)
    ensures r == p.(args := r.args, optionMap := r.optionMap, hasNegativeNumberOptions := r.hasNegativeNumberOptions)
  {
    p.(args := p.args + [a],
       optionMap := MapAll(p.optionMap, a.optionStrings, |p.args|),
       hasNegativeNumberOptions := p.hasNegativeNumberOptions ||
         exists s :: s in a.optionStrings && NegativeNumberLike(s))
  }

  /** Option strings that may be added: unused so far and prefixed. */
  predicate Fresh(p: Parser, a: Argument)
  {
    forall s :: s in a.optionStrings ==> s !in p.optionMap && |s| > 0 && s[0] == p.prefix
  }

  lemma AppendMapSound(p: Parser, a: Argument)
    requires MapSound(p) && Fresh(p, a)
    ensures MapSound(Appended(p, a))
  {
    var q := Appended(p, a);
    forall k | k in q.optionMap
      ensures q.optionMap[k] < |q.args| && k in q.args[q.optionMap[k]].optionStrings && |k| > 0 && k[0] == q.prefix
    {
      if k !in a.optionStrings {
        assert q.args[q.optionMap[k]] == p.args[p.optionMap[k]];
      }
    }
  }

  lemma AppendMapComplete(p: Parser, a: Argument)
    requires MapComplete(p) && Fresh(p, a)
    ensures MapComplete(Appended(p, a))
  {
    var q := Appended(p, a);
    forall i, j | 0 <= i < |q.args| && 0 <= j < |q.args[i].optionStrings|
      ensures q.args[i].optionStrings[j] in q.optionMap && q.optionMap[q.args[i].optionStrings[j]] == i
    {
      if i < |p.args| {
        assert q.args[i] == p.args[i];
        assert p.args[i].optionStrings[j] in p.optionMap;
      } else {
        assert q.args[i].optionStrings[j] in a.optionStrings;
      }
    }
  }

  lemma AppendNegativeFlag(p: Parser, a: Argument)
    requires NegativeFlag(p)
    ensures NegativeFlag(Appended(p, a))
  {
    var q := Appended(p, a);
    if q.hasNegativeNumberOptions {
      if p.hasNegativeNumberOptions {
        var k :| k in p.optionMap && NegativeNumberLike(k);
        assert k in q.optionMap;
      } else {
        var s :| s in a.optionStrings && NegativeNumberLike(s);
        assert s in q.optionMap;
      }
    }
    if exists k :: k in q.optionMap && NegativeNumberLike(k) {
      var k :| k in q.optionMap && NegativeNumberLike(k);
      if k !in a.optionStrings {
        assert k in p.optionMap;
      }
    }
  }

  /** Appending an argument whose option strings are fresh keeps the parser valid. */
  lemma AppendKeepsValid(p: Parser, a: Argument)
    requires Valid(p) && Fresh(p, a)
    requires a.kind == OptionalArg <==> |a.optionStrings| > 0
    requires a.kind != SubcommandArg
    ensures Valid(Appended(p, a))
  {
    AppendMapSound(p, a);
    AppendMapComplete(p, a);
    AppendNegativeFlag(p, a);
    AppendStructure(p, a);
  }

  /** Appending a non-subcommand argument keeps the kinds, the groups, the
      subcommand and the children in order. */
  lemma AppendStructure(p: Parser, a: Argument)
    requires KindsMatch(p) && GroupsInRange(p) && SubcommandSound(p) && ChildrenInRange(p)
    requires a.kind == OptionalArg <==> |a.optionStrings| > 0
    requires a.kind != SubcommandArg
    ensures KindsMatch(Appended(p, a)) && GroupsInRange(Appended(p, a))
    ensures SubcommandSound(Appended(p, a)) && ChildrenInRange(Appended(p, a))
    ensures Appended(p, a).children == p.children
  {
    var q := Appended(p, a);
    assert forall i :: 0 <= i < |p.args| ==> q.args[i] == p.args[i];
  }

  /** `__add_argument` once the argument is built: refuses reused option
      strings, appends the argument, maps its option strings to it and notes
      an option string that looks like a negative number. Returns the parser
      and the new argument's index. */
  function Register(p: Parser, a: Argument): (r: Result<(Parser, nat), ParseError>)
    requires Valid(p) && a.kind != SubcommandArg && (a.kind == OptionalArg <==> |a.optionStrings| > 0)
    requires forall s :: s in a.optionStrings ==> |s| > 0 && s[0] == p.prefix
    ensures r.Err? <==> CheckConflict(p, a).Some?
    ensures r.Err? ==> r.error == CheckConflict(p, a).value
    ensures r.Ok? ==> Valid(r.value.0) && r.value.1 == |p.args| && r.value.0.args == p.args + [a]
    ensures r.Ok? ==> forall s :: s in a.optionStrings ==> s in r.value.0.optionMap && r.value.0.optionMap[s] == |p.args|
    ensures r.Ok? ==> forall k :: k in p.optionMap ==> k in r.value.0.optionMap && r.value.0.optionMap[k] == p.optionMap[k]
    ensures r.Ok? ==> (r.value.0.hasNegativeNumberOptions <==>
      p.hasNegativeNumberOptions || exists s :: s in a.optionStrings && NegativeNumberLike(s))
    ensures r.Ok? ==> (r.value.0.groups == p.groups && r.value.0.children == p.children
      && r.value.0.subcommand == p.subcommand && r.value.0.childIndex == p.childIndex
      && r.value.0.prefix == p.prefix && r.value.0.allowAbbrev == p.allowAbbrev)
  {
    match CheckConflict(p, a)
    case Some(e) => Err(e)
    case None =>
      AppendKeepsValid(p, a);
      Ok((Appended(p, a), |p.args|))
  }

  /** `add_argument(names..., action)`: the argument `MakeArgument` builds,
      registered. */
  function AddArgument(p: Parser, names: seq<string>, action: Action): (r: Result<(Parser, nat), ParseError>)
    requires Valid(p) && |names| >= 1 && action != SelectParser
    ensures MakeArgument(names, action, p.prefix).Err? ==> r == Err(MakeArgument(names, action, p.prefix).error)
    ensures MakeArgument(names, action, p.prefix).Ok? ==> r == Register(p, MakeArgument(names, action, p.prefix).value)
    ensures r.Ok? ==> Valid(r.value.0) && r.value.1 == |p.args| && |r.value.0.args| == |p.args| + 1
    ensures r.Ok? ==> r.value.0.args[..|p.args|] == p.args && r.value.0.args[|p.args|].action == action
    ensures r.Ok? ==> (r.value.0.groups == p.groups && r.value.0.children == p.children
      && r.value.0.subcommand == p.subcommand && r.value.0.childIndex == p.childIndex
      && r.value.0.prefix == p.prefix && r.value.0.allowAbbrev == p.allowAbbrev)
  {
    var a :- MakeArgument(names, action, p.prefix);
    assert (p.args + [a])[..|p.args|] == p.args;
    Register(p, a)
  }

  /** The `-h`/`--help` argument, spelled with the parser's prefix. */
  function HelpNames(prefix: char): seq<string>
  {
    [[prefix, 'h'], [prefix, prefix] + "help"]
  }

  /** The help argument always builds. */
  lemma HelpArgumentBuilds(prefix: char)
    ensures MakeArgument(HelpNames(prefix), Help, prefix).Ok?
  {
    var names := HelpNames(prefix);
    assert FirstUnprefixed(names, prefix).None?;
    var a := InitAction(Blank.(kind := OptionalArg, optionStrings := names, action := Help)).value;
    assert a.dest == SUPPRESS;
    if prefix == '-' {
      assert FirstLong(names) == Some(1);
      assert names[1][2] == 'h';
    } else {
      assert FirstLong(names).None?;
    }
  }

  /** The constructor: an empty parser plus, when `help` holds, the help
      argument. */
  function NewParser(help: bool, prefix: char): (r: Parser)
    ensures Valid(r) && r.prefix == prefix && r.allowAbbrev && r.groups == [] && r.subcommand.None?
    ensures !help ==> r.args == []
    ensures help ==> |r.args| == 1 && r.args[0].action == Help && r.args[0].optionStrings == HelpNames(prefix)
    ensures help ==> forall s :: s in HelpNames(prefix) ==> s in r.optionMap && r.optionMap[s] == 0
  {
    var p := Empty(prefix, true);
    if !help then p
    else
      HelpArgumentBuilds(prefix);
      var a := MakeArgument(HelpNames(prefix), Help, prefix).value;
      assert a.kind == OptionalArg && a.optionStrings == HelpNames(prefix);
      AppendKeepsValid(p, a);
      Appended(p, a)
  }

  /** `add_mutually_exclusive_group(required)`; returns the group's index. */
  function AddMutexGroup(p: Parser, required: bool): (r: (Parser, nat))
    requires Valid(p)
    ensures Valid(r.0) && r.1 == |p.groups| && r.0.groups == p.groups + [MutexGroup(required, [])]
    ensures r.0 == p.(groups := r.0.groups)
  {
    (p.(groups := p.groups + [MutexGroup(required, [])]), |p.groups|)
  }

  /** `MutuallyExclusiveGroup::add_argument`: registers the argument as
      `add_argument` does and makes it a member of group `g`. */
  function AddToGroup(p: Parser, g: nat, names: seq<string>, action: Action): (r: Result<(Parser, nat), ParseError>)
    requires Valid(p) && g < |p.groups| && |names| >= 1 && action != SelectParser
    ensures r.Ok? ==> Valid(r.value.0)
    ensures r.Ok? ==> |r.value.0.groups| == |p.groups| && r.value.0.groups[g].members == p.groups[g].members + [r.value.1]
    ensures r.Err? <==> AddArgument(p, names, action).Err?
    ensures r.Ok? ==> r.value.0.args == AddArgument(p, names, action).value.0.args
  {
    var (q, i) :- AddArgument(p, names, action);
    var grp := q.groups[g];
    var q2 := q.(groups := q.groups[g := grp.(members := grp.members + [i])]);
    assert forall h, m :: 0 <= h < |q2.groups| && 0 <= m < |q2.groups[h].members| ==> q2.groups[h].members[m] < |q2.args| by {
      forall h, m | 0 <= h < |q2.groups| && 0 <= m < |q2.groups[h].members|
        ensures q2.groups[h].members[m] < |q2.args|
      {
        if h == g && m == |grp.members| {
        } else {
          assert q2.groups[h].members[m] == q.groups[h].members[m];
        }
      }
    }
    Ok((q2, i))
  }

  /** Replaces the argument at `i` with a reconfigured copy, as the setters
      returned by `add_argument` do; the option strings, kind and action
      cannot change, and neither can a positional's `required`, which
      `set_required` refuses. */
  function Reconfigure(p: Parser, i: nat, a: Argument): (r: Parser)
    requires Valid(p) && i < |p.args|
    requires a.optionStrings == p.args[i].optionStrings && a.kind == p.args[i].kind && a.action == p.args[i].action
    requires a.kind == PositionalArg ==> a.required == p.args[i].required
    ensures Valid(r) && |r.args| == |p.args| && r.args[i] == a
    ensures forall j :: 0 <= j < |p.args| && j != i ==> r.args[j] == p.args[j]
    ensures r == p.(args := r.args)
  {
    var q := p.(args := p.args[i := a]);
    assert forall j :: 0 <= j < |p.args| && j != i ==> q.args[j] == p.args[j];
    SameShapeKeepsValid(p, q);
    q
  }

  /** Changing arguments without touching their option strings or kinds
      keeps a parser valid. */
  lemma SameShapeKeepsValid(p: Parser, q: Parser)
    requires Valid(p) && q == p.(args := q.args) && |q.args| == |p.args|
    requires forall j :: 0 <= j < |p.args| ==>
      q.args[j].optionStrings == p.args[j].optionStrings && q.args[j].kind == p.args[j].kind
    ensures Valid(q)
  {
    assert MapSound(q) && MapComplete(q) && KindsMatch(q);
    assert SubcommandSound(q);
  }

  /** `add_subparsers`: refused when the parser has one already; otherwise
      appends the subcommand argument. */
  function AddSubparsers(p: Parser): (r: Result<Parser, ParseError>)
    requires Valid(p)
    ensures r.Err? <==> p.subcommand.Some?
    ensures r.Err? ==> r.error == MultipleSubparsers
    ensures r.Ok? ==> (Valid(r.value) && r.value.subcommand == Some(|p.args|)
      && r.value.args == p.args + [SubcommandArgument]
      && r.value.optionMap == p.optionMap && r.value.groups == p.groups)
  {
    if p.subcommand.Some? then Err(MultipleSubparsers)
    else
      SubcommandKeepsValid(p);
      Ok(p.(args := p.args + [SubcommandArgument], subcommand := Some(|p.args|)))
  }

  /** Appending the subcommand argument to a parser without one keeps it valid. */
  lemma SubcommandKeepsValid(p: Parser)
    requires Valid(p) && p.subcommand.None?
    ensures Valid(p.(args := p.args + [SubcommandArgument], subcommand := Some(|p.args|)))
  {
    var q := p.(args := p.args + [SubcommandArgument], subcommand := Some(|p.args|));
    forall k | k in q.optionMap
      ensures q.optionMap[k] < |q.args| && k in q.args[q.optionMap[k]].optionStrings && |k| > 0 && k[0] == q.prefix
    {
      assert q.args[p.optionMap[k]] == p.args[p.optionMap[k]];
    }
    forall i, j | 0 <= i < |q.args| && 0 <= j < |q.args[i].optionStrings|
      ensures q.args[i].optionStrings[j] in q.optionMap && q.optionMap[q.args[i].optionStrings[j]] == i
    {
      assert q.args[i] == p.args[i];
    }
    forall i | 0 <= i < |q.args|
      ensures (q.args[i].kind == OptionalArg <==> |q.args[i].optionStrings| > 0)
      ensures (q.args[i].kind == SubcommandArg <==> q.subcommand == Some(i))
    {
      if i < |p.args| {
        assert q.args[i] == p.args[i];
      }
    }
  }

  /** The first alias that is already a choice. */
  function FirstTaken(aliases: seq<string>, choices: seq<string>): (r: Option<nat>)
    ensures r.Some? ==> r.value < |aliases| && aliases[r.value] in choices
    ensures r.Some? ==> forall j :: 0 <= j < r.value ==> aliases[j] !in choices
    ensures r.None? <==> forall j :: 0 <= j < |aliases| ==> aliases[j] !in choices
  {
    if |aliases| == 0 then None
    else if aliases[0] in choices then Some(0)
    else match FirstTaken(aliases[1..], choices)
      case None => None
      case Some(k) => Some(k + 1)
  }

  /** Adding a valid child parser reachable under in-range names keeps the
      parser valid. */
  lemma AdoptKeepsValid(q: Parser, child: Parser, idx: map<string, nat>)
    requires Valid(q) && Valid(child)
    requires forall k :: k in idx ==> idx[k] <= |q.children|
    ensures Valid(q.(children := q.children + [child], childIndex := idx))
  {
    var r := q.(children := q.children + [child], childIndex := idx);
    assert MapSound(r) && MapComplete(r) && KindsMatch(r) && NegativeFlag(r);
    assert GroupsInRange(r) && SubcommandSound(r);
    forall c | 0 <= c < |r.children|
      ensures Valid(r.children[c])
    {
      if c < |q.children| {
        assert r.children[c] == q.children[c];
      }
    }
  }

  /** The successful part of `add_parser`: the subcommand argument `s`
      gains the name and aliases as choices, and the child becomes reachable
      under each of them. */
  function Adopt(p: Parser, s: nat, name: string, aliases: seq<string>, child: Parser): (r: Parser)
    requires Valid(p) && Valid(child) && p.subcommand == Some(s)
    ensures Valid(r) && r.children == p.children + [child] && r.subcommand == p.subcommand
    ensures |r.args| == |p.args| && r.args[s] == p.args[s].(choices := p.args[s].choices + [name] + aliases)
    ensures forall j :: 0 <= j < |p.args| && j != s ==> r.args[j] == p.args[j]
    ensures r.optionMap == p.optionMap && r.groups == p.groups && r.prefix == p.prefix
    ensures forall x :: x == name || x in aliases ==>
      x in r.childIndex && r.children[r.childIndex[x]] == child
    ensures forall x :: x in p.childIndex && x != name && x !in aliases ==>
      x in r.childIndex && r.childIndex[x] == p.childIndex[x]
  {
    var a := p.args[s];
    var c := |p.children|;
    var q := Reconfigure(p, s, a.(choices := a.choices + [name] + aliases));
    var idx := MapAll(p.childIndex[name := c], aliases, c);
    NamesMapped(p.childIndex, name, aliases, c);
    AdoptKeepsValid(q, child, idx);
    q.(children := p.children + [child], childIndex := idx)
  }

  /** Mapping a name and its aliases to `c` sends each of them to `c` and
      keeps every other entry. */
  lemma NamesMapped(m: map<string, nat>, name: string, aliases: seq<string>, c: nat)
    ensures var idx := MapAll(m[name := c], aliases, c);
      && (forall x :: x == name || x in aliases ==> x in idx && idx[x] == c)
      && (forall x :: x in m && x != name && x !in aliases ==> x in idx && idx[x] == m[x])
      && (forall x :: x in idx ==> x in m || x == name || x in aliases)
  {
  }

  /** `add_parser(name, aliases)` on the subcommand argument: refused on a
      parser without one, and when the name or an alias is already a choice. */
  function AddParser(p: Parser, name: string, aliases: seq<string>, child: Parser): (r: Result<Parser, ParseError>)
    requires Valid(p) && Valid(child)
    ensures p.subcommand.None? ==> r == Err(ArgumentError("", AddParserUnsupported))
    ensures p.subcommand.Some? && name in p.args[p.subcommand.value].choices ==>
      r == Err(ArgumentError(ArgumentName(p.args[p.subcommand.value]), ConflictingSubparser(name)))
    ensures p.subcommand.Some? && name !in p.args[p.subcommand.value].choices ==>
      (r.Err? <==> exists x :: x in aliases && x in p.args[p.subcommand.value].choices)
    ensures r.Ok? ==> p.subcommand.Some? && r.value == Adopt(p, p.subcommand.value, name, aliases, child)
  {
    match p.subcommand
    case None => Err(ArgumentError("", AddParserUnsupported))
    case Some(s) =>
      var a := p.args[s];
      if name in a.choices then Err(ArgumentError(ArgumentName(a), ConflictingSubparser(name)))
      else match FirstTaken(aliases, a.choices)
        case Some(j) => Err(ArgumentError(ArgumentName(a), ConflictingAlias(aliases[j])))
        case None => Ok(Adopt(p, s, name, aliases, child))
  }
}
