/** The consumption engine: `parse_args`, `parse_known_args` and the
    `__parse_known_args` family. The classified command line is walked from
    left to right, alternating runs of positionals with options; every
    argument found is taken (`__take_argument`), and the walk ends with the
    required-argument and required-group checks. A subcommand's action parses
    the rest of the line with the child parser, so the whole family is one
    group of mutually recursive functions over the finite tree of parsers. */
module Engine {
  import opened Wrappers
  import opened Strings
  import opened NArgs
  import opened Errors
  import opened Arguments
  import opened Namespaces
  import opened Actions
  import opened Parsers
  import opened Classifier

  /** The command line with its symbol pattern and its resolved options. */
  datatype Line = Line(tokens: seq<string>, syms: seq<Sym>, res: seq<Option<Resolution>>)

  predicate WellFormed(line: Line)
  {
    |line.syms| == |line.tokens| && |line.res| == |line.tokens|
  }

  /** Every resolved option of the line names the argument its option string
      is mapped to. */
  predicate LineSound(p: Parser, line: Line)
    requires WellFormed(line)
  {
    forall j :: 0 <= j < |line.tokens| && line.res[j].Some? && line.res[j].value.target.Some? ==>
      line.res[j].value.optString in p.optionMap
      && line.res[j].value.target.value == p.optionMap[line.res[j].value.optString]
  }

  /** What the walk has done so far: the namespace, the arguments seen
      (by index), the strings nobody took, and how many positionals have been
      assigned. */
  datatype State = State(ns: Namespace, seen: set<nat>, extras: seq<string>, next: nat)

  // ------------------------------------------------------------ the parser

  /** `__get_positional_args` from index `i` on: the arguments without option
      strings, in the order they were added. */
  function PositionalsFrom(args: seq<Argument>, i: nat): (r: seq<nat>)
    requires i <= |args|
    ensures forall j :: 0 <= j < |r| ==> i <= r[j] < |args| && args[r[j]].kind != OptionalArg
    ensures forall k :: i <= k < |args| && args[k].kind != OptionalArg ==> k in r
    ensures forall j, l :: 0 <= j < l < |r| ==> r[j] < r[l]
    decreases |args| - i
  {
    if i == |args| then []
    else if args[i].kind != OptionalArg then [i] + PositionalsFrom(args, i + 1)
    else PositionalsFrom(args, i + 1)
  }

  function Positionals(p: Parser): seq<nat>
  {
    PositionalsFrom(p.args, 0)
  }

  /** The arities of the arguments at `idxs`, in order. */
  function ArityList(args: seq<Argument>, idxs: seq<nat>): (r: seq<NArgs>)
    requires forall j :: 0 <= j < |idxs| ==> idxs[j] < |args|
    ensures |r| == |idxs| && forall j :: 0 <= j < |idxs| ==> r[j] == args[idxs[j]].nargs
  {
    if |idxs| == 0 then [] else [args[idxs[0]].nargs] + ArityList(args, idxs[1..])
  }

  /** The members of a group other than `idx`, in order. */
  function Others(members: seq<nat>, idx: nat): (r: seq<nat>)
    ensures forall c :: c in r <==> c in members && c != idx
  {
    if |members| == 0 then []
    else (if members[0] != idx then [members[0]] else []) + Others(members[1..], idx)
  }

  /** The conflict list of `idx`: for every group holding it, in order, the
      other members of that group. */
  function ConflictsIn(groups: seq<MutexGroup>, idx: nat): (r: seq<nat>)
    ensures forall g, c :: 0 <= g < |groups| && idx in groups[g].members && c in groups[g].members && c != idx ==> c in r
    ensures forall c :: c in r ==> c != idx
    ensures forall c :: c in r ==> exists g :: 0 <= g < |groups| && idx in groups[g].members && c in groups[g].members
    ensures (forall g :: 0 <= g < |groups| ==> idx !in groups[g].members) ==> r == []
  {
    if |groups| == 0 then []
    else
      var rest := ConflictsIn(groups[1..], idx);
      assert forall g :: 1 <= g < |groups| ==> groups[g] == groups[1..][g - 1];
      (if idx in groups[0].members then Others(groups[0].members, idx) else []) + rest
  }

  /** The first entry of `list` that has been seen. */
  function FirstSeen(list: seq<nat>, seen: set<nat>): (r: Option<nat>)
    ensures r.Some? ==> r.value in list && r.value in seen
    ensures r.Some? ==> exists j :: 0 <= j < |list| && list[j] == r.value && forall i :: 0 <= i < j ==> list[i] !in seen
    ensures r.None? <==> forall c :: c in list ==> c !in seen
  {
    if |list| == 0 then None
    else if list[0] in seen then Some(list[0])
    else FirstSeen(list[1..], seen)
  }

  /** No two different members of one group have both been seen. */
  predicate MutexFree(groups: seq<MutexGroup>, seen: set<nat>)
  {
    forall g, i, j ::
      (0 <= g < |groups| && 0 <= i < |groups[g].members| && 0 <= j < |groups[g].members|
       && groups[g].members[i] in seen && groups[g].members[j] in seen) ==> groups[g].members[i] == groups[g].members[j]
  }

  /** Seeing `idx` keeps the groups respected when none of its conflicts
      has been seen. */
  lemma SeeKeepsMutexFree(groups: seq<MutexGroup>, seen: set<nat>, idx: nat)
    requires MutexFree(groups, seen)
    requires FirstSeen(ConflictsIn(groups, idx), seen).None?
    ensures MutexFree(groups, seen + {idx})
  {
    var conflicts := ConflictsIn(groups, idx);
    forall g, i, j | 0 <= g < |groups| && 0 <= i < |groups[g].members| && 0 <= j < |groups[g].members|
      && groups[g].members[i] in seen + {idx} && groups[g].members[j] in seen + {idx}
      ensures groups[g].members[i] == groups[g].members[j]
    {
      var a, b := groups[g].members[i], groups[g].members[j];
      assert a == idx && b != idx ==> b in conflicts;
      assert b == idx && a != idx ==> a in conflicts;
    }
  }

  /** The `required` flag `initialize` leaves on an argument. */
  function Required(a: Argument): (r: bool)
    ensures Validate(a).None? ==> Initialize(a).Ok? && r == Initialize(a).value.required
  {
    a.required || (a.kind == PositionalArg && a.nargs != Optional && (a.nargs != ZeroOrMore || a.defaultValue == []))
  }

  /** The check `initialize` runs on every argument before a parse: the first
      argument, in order, whose action refuses it. */
  function FirstInvalidArgument(args: seq<Argument>): (r: Option<ParseError>)
    ensures r.None? <==> forall i :: 0 <= i < |args| ==> Validate(args[i]).None?
    ensures r.Some? ==> exists i :: 0 <= i < |args| && Validate(args[i]) == r
  {
    if |args| == 0 then None
    else if Validate(args[0]).Some? then Validate(args[0])
    else
      var rest := FirstInvalidArgument(args[1..]);
      assert forall i :: 1 <= i < |args| ==> args[i] == args[1..][i - 1];
      rest
  }

  /** Whether the default of `a` is stored before the parse. */
  predicate Prefilled(a: Argument)
  {
    a.dest != SUPPRESS && a.defaultValue != [] && a.defaultValue != [SUPPRESS]
  }

  /** The default pre-fill of `parse_known_args`: each argument in order
      stores its default under its destination. */
  function Prefill(args: seq<Argument>, ns: Namespace): (r: Namespace)
    ensures forall k :: k in r <==> k in ns || exists i :: 0 <= i < |args| && Prefilled(args[i]) && args[i].dest == k
    ensures forall k :: k in ns && (forall i :: 0 <= i < |args| && Prefilled(args[i]) ==> args[i].dest != k) ==>
      r[k] == ns[k]
    decreases |args|
  {
    if |args| == 0 then ns
    else
      var last := args[|args| - 1];
      var m := Prefill(args[..|args| - 1], ns);
      assert forall i :: 0 <= i < |args| - 1 ==> args[..|args| - 1][i] == args[i];
      if Prefilled(last) then m[last.dest := last.defaultValue] else m
  }

  /** When several arguments share a destination, the default of the last
      of them is the one stored. */
  lemma {:induction false} PrefillLastWins(args: seq<Argument>, ns: Namespace, i: nat)
    requires i < |args| && Prefilled(args[i])
    requires forall j :: i < j < |args| && Prefilled(args[j]) ==> args[j].dest != args[i].dest
    ensures Prefill(args, ns)[args[i].dest] == args[i].defaultValue
    decreases |args|
  {
    var init := args[..|args| - 1];
    if i < |args| - 1 {
      assert init[i] == args[i];
      PrefillLastWins(init, ns, i);
    }
  }

  /** Every destination a parse with `p` may write: its arguments' and, for
      a subcommand, its children's. */
  function AllDests(p: Parser): set<string>
    decreases p
  {
    (set i | 0 <= i < |p.args| :: p.args[i].dest)
    + (set c, d | 0 <= c < |p.children| && d in AllDests(p.children[c]) :: d)
  }

  // ------------------------------------------------------------ the walk

  /** What every step keeps: seen arguments exist and respect the groups,
      every extra string comes from the command line, only destinations of
      the parser tree are added to the namespace, and no more positionals
      are assigned than exist. */
  predicate Inv(p: Parser, line: Line, base: set<string>, st: State)
  {
    && (forall i :: i in st.seen ==> i < |p.args|)
    && MutexFree(p.groups, st.seen)
    && (forall e :: e in st.extras ==> e in line.tokens)
    && st.ns.Keys <= base + AllDests(p)
    && st.next <= |Positionals(p)|
    && (forall i :: i in st.seen ==> p.args[i].kind == OptionalArg || i in Positionals(p)[..st.next])
  }

  /** `__match_argument` for argument `a`: the number of strings it takes,
      or its arity error. */
  function MatchFor(a: Argument, text: seq<Sym>): (r: Result<nat, ParseError>)
    ensures r.Ok? ==> r.value <= |text|
    ensures r.Ok? <==> MatchArgument(a.nargs, a.kind == OptionalArg, text).Some?
    ensures r.Ok? ==> r.value == MatchArgument(a.nargs, a.kind == OptionalArg, text).value
    ensures r.Err? ==> r.error == ArgumentError(ArgumentName(a), Arity(ArityFailureOf(a.nargs)))
  {
    match MatchArgument(a.nargs, a.kind == OptionalArg, text)
    case None => Err(ArgumentError(ArgumentName(a), Arity(ArityFailureOf(a.nargs))))
    case Some(n) => Ok(n)
  }

  /** `s[1]` of a `std::string`, which is the terminating '\0' when `s` has
      one character. */
  function SecondChar(s: string): char
  {
    if |s| > 1 then s[1] else '\0'
  }

  /** An option given without an explicit value takes the strings after it
      that its arity matches. */
  function FollowingValues(a: Argument, target: nat, line: Line, start: nat)
    : (r: Result<(seq<(nat, seq<string>)>, nat), ParseError>)
    requires WellFormed(line) && start < |line.tokens|
    ensures r.Ok? ==> start < r.value.1 <= |line.tokens| && r.value.0 == [(target, line.tokens[start + 1..r.value.1])]
    ensures r.Ok? <==> MatchFor(a, line.syms[start + 1..]).Ok?
    ensures r.Ok? ==> r.value.1 == start + 1 + MatchFor(a, line.syms[start + 1..]).value
  {
    var n :- MatchFor(a, line.syms[start + 1..]);
    Ok(([(target, line.tokens[start + 1..start + 1 + n])], start + 1 + n))
  }

  /** Every (argument, strings) pair names an optional argument of `p`. */
  predicate OptionUses(p: Parser, tuples: seq<(nat, seq<string>)>)
  {
    forall j :: 0 <= j < |tuples| ==> tuples[j].0 < |p.args| && p.args[tuples[j].0].kind == OptionalArg
  }

  /** A use of an optional argument in front of such uses. */
  lemma OptionUsesCons(p: Parser, head: (nat, seq<string>), tuples: seq<(nat, seq<string>)>)
    requires head.0 < |p.args| && p.args[head.0].kind == OptionalArg && OptionUses(p, tuples)
    ensures OptionUses(p, [head] + tuples)
  {
    assert forall j :: 1 <= j < |tuples| + 1 ==> ([head] + tuples)[j] == tuples[j - 1];
  }

  /** The loop of `__consume_optionals` for an option token at `start` that
      resolved to `target` through `optString`, with explicit value
      `explicit`: the (argument, strings) pairs to take and where the walk
      continues. Without an explicit value the option takes the strings
      after it. */
  function Cluster(p: Parser, line: Line, start: nat, optString: string, target: nat, explicit: string)
    : (r: Result<(seq<(nat, seq<string>)>, nat), ParseError>)
    requires MapSound(p) && KindsMatch(p) && WellFormed(line) && start < |line.tokens| && target < |p.args| && |optString| > 0
    requires p.args[target].kind == OptionalArg
    ensures r.Ok? ==> |r.value.0| >= 1 && start < r.value.1 <= |line.tokens|
    ensures r.Ok? ==> OptionUses(p, r.value.0)
    ensures r.Ok? && explicit != "" ==> |r.value.0| <= |explicit| + 1
    decreases |explicit|, 1
  {
    if explicit == "" then FollowingValues(p.args[target], target, line, start)
    else ExplicitCluster(p, line, start, optString, target, explicit)
  }

  /** The same loop once an explicit value is present: an option taking one
      value takes it, and a single-dash option that takes nothing hands the
      rest of the token on to the option named by its next character. */
  function ExplicitCluster(p: Parser, line: Line, start: nat, optString: string, target: nat, explicit: string)
    : (r: Result<(seq<(nat, seq<string>)>, nat), ParseError>)
    requires MapSound(p) && KindsMatch(p) && WellFormed(line) && start < |line.tokens| && target < |p.args| && |optString| > 0
    requires p.args[target].kind == OptionalArg && explicit != ""
    ensures r.Ok? ==> 1 <= |r.value.0| <= |explicit| + 1 && start < r.value.1 <= |line.tokens|
    ensures r.Ok? ==> OptionUses(p, r.value.0)
    decreases |explicit|, 0
  {
    var a := p.args[target];
    var count :- MatchFor(a, [A]);
    if count == 0 && SecondChar(optString) != p.prefix then
      var key := [optString[0], explicit[0]];
      if key in p.optionMap then
        assert key in p.args[p.optionMap[key]].optionStrings;
        var rest :- Cluster(p, line, start, optString, p.optionMap[key], explicit[1..]);
        OptionUsesCons(p, (target, []), rest.0);
        Ok(([(target, [])] + rest.0, rest.1))
      else Err(ArgumentError(ArgumentName(a), IgnoredExplicit(explicit)))
    else if count == 1 then Ok(([(target, [explicit])], start + 1))
    else Err(ArgumentError(ArgumentName(a), IgnoredExplicit(explicit)))
  }

  /** The first option index at or after `start`. */
  function NextOption(line: Line, start: nat): (r: Option<nat>)
    requires WellFormed(line)
    ensures r.Some? ==> start <= r.value < |line.tokens| && line.res[r.value].Some?
    ensures r.Some? ==> forall j :: start <= j < r.value ==> line.res[j].None?
    ensures r.None? ==> forall j :: start <= j < |line.tokens| ==> line.res[j].None?
    decreases |line.tokens| - start
  {
    if start >= |line.tokens| then None
    else if line.res[start].Some? then Some(start)
    else NextOption(line, start + 1)
  }

  /** The indices from `i` on of the required arguments not seen: exactly
      those, in increasing order. */
  function Unseen(args: seq<Argument>, seen: set<nat>, i: nat): (r: seq<nat>)
    requires i <= |args|
    ensures forall j :: 0 <= j < |r| ==> i <= r[j] < |args|
    decreases |args| - i
  {
    if i == |args| then []
    else if i !in seen && Required(args[i]) then [i] + Unseen(args, seen, i + 1)
    else Unseen(args, seen, i + 1)
  }

  /** Every index `Unseen` lists is of an unseen required argument. */
  lemma {:induction false} UnseenSound(args: seq<Argument>, seen: set<nat>, i: nat)
    requires i <= |args|
    ensures forall j :: 0 <= j < |Unseen(args, seen, i)| ==>
      Unseen(args, seen, i)[j] !in seen && Required(args[Unseen(args, seen, i)[j]])
    decreases |args| - i
  {
    if i < |args| {
      UnseenSound(args, seen, i + 1);
      var r, r1 := Unseen(args, seen, i), Unseen(args, seen, i + 1);
      if i !in seen && Required(args[i]) {
        assert forall j :: 1 <= j < |r| ==> r[j] == r1[j - 1];
      }
    }
  }

  /** Every unseen required argument from `i` on is listed by `Unseen`. */
  lemma {:induction false} UnseenComplete(args: seq<Argument>, seen: set<nat>, i: nat)
    requires i <= |args|
    ensures forall k :: i <= k < |args| && k !in seen && Required(args[k]) ==> k in Unseen(args, seen, i)
    decreases |args| - i
  {
    if i < |args| {
      UnseenComplete(args, seen, i + 1);
      var r, r1 := Unseen(args, seen, i), Unseen(args, seen, i + 1);
      if i !in seen && Required(args[i]) {
        assert r == [i] + r1;
      }
    }
  }

  /** `Unseen` lists its indices in increasing order. */
  lemma {:induction false} UnseenSorted(args: seq<Argument>, seen: set<nat>, i: nat)
    requires i <= |args|
    ensures forall j1, j2 :: 0 <= j1 < j2 < |Unseen(args, seen, i)| ==>
      Unseen(args, seen, i)[j1] < Unseen(args, seen, i)[j2]
    decreases |args| - i
  {
    if i < |args| {
      UnseenSorted(args, seen, i + 1);
      var r, r1 := Unseen(args, seen, i), Unseen(args, seen, i + 1);
      if i !in seen && Required(args[i]) {
        assert forall j :: 1 <= j < |r| ==> r[j] == r1[j - 1];
      }
    }
  }

  /** The names of the required arguments not seen, in `args_list_` order. */
  function MissingNames(args: seq<Argument>, seen: set<nat>, i: nat): (r: seq<string>)
    requires i <= |args|
    ensures r == [] <==> forall k :: i <= k < |args| && Required(args[k]) ==> k in seen
    ensures |r| <= |args| - i
    decreases |args| - i
  {
    if i == |args| then []
    else if i !in seen && Required(args[i]) then [ArgumentName(args[i])] + MissingNames(args, seen, i + 1)
    else MissingNames(args, seen, i + 1)
  }

  /** The names of the arguments at `idx`, in that order. */
  function NamesOf(args: seq<Argument>, idx: seq<nat>): (r: seq<string>)
    requires forall j :: 0 <= j < |idx| ==> idx[j] < |args|
    ensures |r| == |idx|
  {
    if |idx| == 0 then [] else [ArgumentName(args[idx[0]])] + NamesOf(args, idx[1..])
  }

  /** Entry `j` of `NamesOf` is the name of the argument at `idx[j]`. */
  lemma {:induction false} NamesOfAt(args: seq<Argument>, idx: seq<nat>, j: nat)
    requires forall j :: 0 <= j < |idx| ==> idx[j] < |args|
    requires j < |idx|
    ensures NamesOf(args, idx)[j] == ArgumentName(args[idx[j]])
    decreases j
  {
    if j > 0 {
      NamesOfAt(args, idx[1..], j - 1);
    }
  }

  /** The reported names are the names of the indices `Unseen` lists, in
      the same order. */
  lemma {:induction false} MissingNamesUnseen(args: seq<Argument>, seen: set<nat>, i: nat)
    requires i <= |args|
    ensures MissingNames(args, seen, i) == NamesOf(args, Unseen(args, seen, i))
    decreases |args| - i
  {
    if i < |args| {
      MissingNamesUnseen(args, seen, i + 1);
      var u := Unseen(args, seen, i);
      if i !in seen && Required(args[i]) {
        assert u[1..] == Unseen(args, seen, i + 1);
      }
    }
  }

  /** Every unseen required argument's name is reported, and every reported
      name is one of theirs. */
  lemma MissingNamesAll(args: seq<Argument>, seen: set<nat>, i: nat)
    requires i <= |args|
    ensures forall k :: i <= k < |args| && k !in seen && Required(args[k]) ==>
      ArgumentName(args[k]) in MissingNames(args, seen, i)
    ensures forall s :: s in MissingNames(args, seen, i) ==>
      exists k :: i <= k < |args| && k !in seen && Required(args[k]) && s == ArgumentName(args[k])
  {
    var r, u := MissingNames(args, seen, i), Unseen(args, seen, i);
    MissingNamesUnseen(args, seen, i);
    UnseenSound(args, seen, i);
    UnseenComplete(args, seen, i);
    forall k | i <= k < |args| && k !in seen && Required(args[k])
      ensures ArgumentName(args[k]) in r
    {
      var j :| 0 <= j < |u| && u[j] == k;
      NamesOfAt(args, u, j);
    }
    forall s | s in r
      ensures exists k :: i <= k < |args| && k !in seen && Required(args[k]) && s == ArgumentName(args[k])
    {
      var j :| 0 <= j < |r| && r[j] == s;
      NamesOfAt(args, u, j);
      assert u[j] !in seen && Required(args[u[j]]);
    }
  }

  /** The names of a group's members whose help is not suppressed. */
  function ListedNames(p: Parser, members: seq<nat>): (r: seq<string>)
    requires forall j :: 0 <= j < |members| ==> members[j] < |p.args|
    ensures |r| <= |members|
    ensures |members| == 1 ==>
      r == if p.args[members[0]].help != SUPPRESS then [ArgumentName(p.args[members[0]])] else []
  {
    if |members| == 0 then []
    else
      var head := if p.args[members[0]].help != SUPPRESS then [ArgumentName(p.args[members[0]])] else [];
      head + ListedNames(p, members[1..])
  }

  /** Listing two runs of members lists the first run's names, then the
      second's; with the one-member case this fixes every listing: the names
      of the members whose help is not suppressed, in member order. */
  lemma {:induction false} ListedNamesAppend(p: Parser, m1: seq<nat>, m2: seq<nat>)
    requires forall j :: 0 <= j < |m1| ==> m1[j] < |p.args|
    requires forall j :: 0 <= j < |m2| ==> m2[j] < |p.args|
    ensures ListedNames(p, m1 + m2) == ListedNames(p, m1) + ListedNames(p, m2)
    decreases |m1|
  {
    if |m1| == 0 {
      assert m1 + m2 == m2;
    } else {
      var h := if p.args[m1[0]].help != SUPPRESS then [ArgumentName(p.args[m1[0]])] else [];
      assert (m1 + m2)[0] == m1[0] && (m1 + m2)[1..] == m1[1..] + m2;
      assert ListedNames(p, m1 + m2) == h + ListedNames(p, m1[1..] + m2);
      ListedNamesAppend(p, m1[1..], m2);
      assert ListedNames(p, m1) == h + ListedNames(p, m1[1..]);
    }
  }

  /** The first required group none of whose members has been seen. */
  function UnmetGroup(groups: seq<MutexGroup>, seen: set<nat>, g: nat): (r: Option<nat>)
    requires g <= |groups|
    ensures r.Some? ==> (g <= r.value < |groups| && groups[r.value].required
      && forall m :: m in groups[r.value].members ==> m !in seen)
    ensures r.Some? ==> forall h :: g <= h < r.value && groups[h].required ==>
      exists m :: m in groups[h].members && m in seen
    ensures r.None? <==> forall h :: g <= h < |groups| && groups[h].required ==>
      exists m :: m in groups[h].members && m in seen
    decreases |groups| - g
  {
    if g == |groups| then None
    else if groups[g].required && forall m :: m in groups[g].members ==> m !in seen then Some(g)
    else UnmetGroup(groups, seen, g + 1)
  }

  /** The checks after the walk: every required argument was seen, then
      every required group had a member seen. */
  function CheckRequired(p: Parser, st: State): (r: Result<State, ParseError>)
    requires GroupsInRange(p)
    ensures r.Ok? ==> r.value == st
    ensures r.Ok? <==> ((forall i :: 0 <= i < |p.args| && Required(p.args[i]) ==> i in st.seen)
      && forall g :: 0 <= g < |p.groups| && p.groups[g].required ==> exists m :: m in p.groups[g].members && m in st.seen)
    ensures r.Err? && MissingNames(p.args, st.seen, 0) != [] ==> r.error == MissingRequired(MissingNames(p.args, st.seen, 0))
    ensures r.Err? && MissingNames(p.args, st.seen, 0) == [] ==>
      (UnmetGroup(p.groups, st.seen, 0).Some?
       && r.error == MissingGroup(ListedNames(p, p.groups[UnmetGroup(p.groups, st.seen, 0).value].members)))
  {
    var missing := MissingNames(p.args, st.seen, 0);
    if missing != [] then Err(MissingRequired(missing))
    else match UnmetGroup(p.groups, st.seen, 0)
      case Some(g) => Err(MissingGroup(ListedNames(p, p.groups[g].members)))
      case None => Ok(st)
  }

  /** `parse_args`: a parse from an empty namespace in which strings left
      over are an error. */
  function ParseArgs(p: Parser, tokens: seq<string>): (r: Result<Namespace, ParseError>)
    requires Valid(p)
    ensures r.Ok? ==> r.value.Keys <= AllDests(p)
    ensures Run(p, map[], tokens).Ok? ==> (r.Ok? <==> Run(p, map[], tokens).value.extras == [])
    ensures Run(p, map[], tokens).Ok? && r.Err? ==>
      r.error.Unrecognized? && r.error.extras != [] && forall e :: e in r.error.extras ==> e in tokens
    ensures Run(p, map[], tokens).Err? ==> r == Err(Run(p, map[], tokens).error)
    decreases p, 8, 0
  {
    var st :- Run(p, map[], tokens);
    if st.extras != [] then Err(Unrecognized(st.extras)) else Ok(st.ns)
  }

  /** `parse_known_args` on namespace `ns`: the check of every argument,
      the default pre-fill, the classification, the walk and the required
      checks. The final state carries the namespace, the arguments seen and
      the strings left over. */
  function Run(p: Parser, ns: Namespace, tokens: seq<string>): (r: Result<State, ParseError>)
    requires Valid(p)
    ensures r.Ok? ==> Inv(p, Line(tokens, [], []), ns.Keys, r.value)
    ensures r.Ok? ==> forall i :: 0 <= i < |p.args| && Required(p.args[i]) ==> i in r.value.seen
    ensures r.Ok? ==> forall g :: 0 <= g < |p.groups| && p.groups[g].required ==>
      exists m :: m in p.groups[g].members && m in r.value.seen
    decreases p, 7, 0
  {
    match FirstInvalidArgument(p.args)
    case Some(e) => Err(e)
    case None =>
      var classified :- Classify(p, tokens);
      ClassifySound(p, tokens);
      var line := Line(tokens, classified.0, classified.1);
      var st :- WalkAll(p, line, ns.Keys, State(Prefill(p.args, ns), {}, [], 0));
      CheckRequired(p, st)
  }

  /** The walk over the whole line: the loop, a last positional run, and
      every string after where it stopped as an extra. */
  function WalkAll(p: Parser, line: Line, base: set<string>, st: State): (r: Result<State, ParseError>)
    requires Valid(p) && WellFormed(line) && LineSound(p, line) && Inv(p, line, base, st)
    ensures r.Ok? ==> Inv(p, line, base, r.value)
    decreases p, 6, 0
  {
    var walked :- Walk(p, line, base, st, 0);
    var last :- ConsumePositionals(p, line, base, walked.0, walked.1);
    Ok(last.0.(extras := last.0.extras + line.tokens[last.1..]))
  }

  /** The loop of `__parse_known_args` from `start` while an option lies
      ahead. */
  function Walk(p: Parser, line: Line, base: set<string>, st: State, start: nat): (r: Result<(State, nat), ParseError>)
    requires Valid(p) && WellFormed(line) && LineSound(p, line) && start <= |line.tokens| && Inv(p, line, base, st)
    ensures r.Ok? ==> Inv(p, line, base, r.value.0) && start <= r.value.1 <= |line.tokens|
    ensures r.Ok? ==> NextOption(line, r.value.1).None?
    decreases p, 5, |line.tokens| - start
  {
    match NextOption(line, start)
    case None => Ok((st, start))
    case Some(next) =>
      var stepped :- WalkStep(p, line, base, st, start, next);
      Walk(p, line, base, stepped.0, stepped.1)
  }

  /** One pass of that loop at `start` with the option at `next` ahead: a
      positional run if the string at `start` is not that option; if the run
      took nothing, the strings before the option are extras and the option
      is consumed. Either way the walk moves forward. */
  function WalkStep(p: Parser, line: Line, base: set<string>, st: State, start: nat, next: nat)
    : (r: Result<(State, nat), ParseError>)
    requires Valid(p) && WellFormed(line) && LineSound(p, line) && Inv(p, line, base, st)
    requires start <= next < |line.tokens| && line.res[next].Some?
    ensures r.Ok? ==> Inv(p, line, base, r.value.0) && start < r.value.1 <= |line.tokens|
    decreases p, 4, 0
  {
    var pos :- if start != next then ConsumePositionals(p, line, base, st, start) else Ok((st, start));
    if pos.1 > start then Ok(pos)
    else
      var skipped := pos.0.(extras := pos.0.extras + line.tokens[start..next]);
      ConsumeOptionals(p, line, base, skipped, next)
  }

  /** `__consume_optionals` at the option index `start`: an unknown option is
      an extra; a known one takes its strings, and so do the options of a
      single-dash cluster, in order. */
  function ConsumeOptionals(p: Parser, line: Line, base: set<string>, st: State, start: nat)
    : (r: Result<(State, nat), ParseError>)
    requires Valid(p) && WellFormed(line) && LineSound(p, line) && Inv(p, line, base, st)
    requires start < |line.tokens| && line.res[start].Some?
    ensures r.Ok? ==> Inv(p, line, base, r.value.0) && start < r.value.1 <= |line.tokens|
    ensures line.res[start].value.target.None? ==>
      r == Ok((st.(extras := st.extras + [line.tokens[start]]), start + 1))
    decreases p, 3, 0
  {
    var res := line.res[start].value;
    match res.target
    case None => Ok((st.(extras := st.extras + [line.tokens[start]]), start + 1))
    case Some(target) =>
      assert res.optString in p.args[target].optionStrings;
      var tuples :- Cluster(p, line, start, res.optString, target, res.explicit);
      var taken :- TakeAll(p, line, base, st, tuples.0);
      Ok((taken, tuples.1))
  }

  /** `__consume_positionals` at `start`: the partial match of the waiting
      positionals assigns strings to the first of them only. */
  function ConsumePositionals(p: Parser, line: Line, base: set<string>, st: State, start: nat)
    : (r: Result<(State, nat), ParseError>)
    requires Valid(p) && WellFormed(line) && start <= |line.tokens| && Inv(p, line, base, st)
    ensures r.Ok? ==> Inv(p, line, base, r.value.0) && start <= r.value.1 <= |line.tokens|
    ensures r.Ok? ==> r.value.0.next == st.next || r.value.0.next == st.next + 1
    ensures r.Ok? && r.value.0.next == st.next ==> r.value == (st, start)
    ensures r.Ok? ==> r.value.0.extras == st.extras
    decreases p, 3, 0
  {
    var pos := Positionals(p);
    match MatchPartial(ArityList(p.args, pos[st.next..]), line.syms[start..])
    case None => Ok((st, start))
    case Some(n) =>
      AdvanceKeepsInv(p, line, base, st);
      var taken :- TakeArgument(p, line, base, st.(next := st.next + 1), pos[st.next], line.tokens[start..start + n]);
      Ok((taken, start + n))
  }

  /** Assigning the next waiting positional keeps the invariant, and that
      positional is among the assigned ones. */
  lemma AdvanceKeepsInv(p: Parser, line: Line, base: set<string>, st: State)
    requires Inv(p, line, base, st) && st.next < |Positionals(p)|
    ensures Inv(p, line, base, st.(next := st.next + 1))
    ensures Positionals(p)[st.next] in Positionals(p)[..st.next + 1]
  {
    var pos := Positionals(p);
    assert pos[st.next] in pos[..st.next + 1];
    assert forall i :: i in pos[..st.next] ==> i in pos[..st.next + 1];
  }

  /** The pairs of one option token taken in order. */
  function TakeAll(p: Parser, line: Line, base: set<string>, st: State, tuples: seq<(nat, seq<string>)>)
    : (r: Result<State, ParseError>)
    requires Valid(p) && Inv(p, line, base, st)
    requires OptionUses(p, tuples)
    ensures r.Ok? ==> Inv(p, line, base, r.value) && r.value.next == st.next && r.value.extras == st.extras
    decreases p, 2, |tuples|
  {
    if |tuples| == 0 then Ok(st)
    else
      var st1 :- TakeArgument(p, line, base, st, tuples[0].0, tuples[0].1);
      TakeAll(p, line, base, st1, tuples[1..])
  }

  /** `__take_argument`: the argument is seen, and its effect on the
      namespace is stored. */
  function TakeArgument(p: Parser, line: Line, base: set<string>, st: State, idx: nat, tokens: seq<string>)
    : (r: Result<State, ParseError>)
    requires Valid(p) && Inv(p, line, base, st) && idx < |p.args|
    requires p.args[idx].kind == OptionalArg || idx in Positionals(p)[..st.next]
    ensures r.Ok? ==> Inv(p, line, base, r.value)
    ensures r.Ok? ==> r.value == st.(seen := st.seen + {idx}, ns := r.value.ns)
    decreases p, 1, 1
  {
    var ns :- Effect(p, st, idx, tokens);
    SeeKeepsInv(p, line, base, st, idx, ns);
    Ok(st.(seen := st.seen + {idx}, ns := ns))
  }

  /** The rest of `__take_argument`: its values are extracted, an already
      seen partner from one of its groups is an error, and unless the values
      are the suppression marker the action runs. */
  function Effect(p: Parser, st: State, idx: nat, tokens: seq<string>): (r: Result<Namespace, ParseError>)
    requires Valid(p) && idx < |p.args| && forall i :: i in st.seen ==> i < |p.args|
    ensures r.Ok? ==> FirstSeen(ConflictsIn(p.groups, idx), st.seen + {idx}).None?
    ensures r.Ok? ==> r.value.Keys <= st.ns.Keys + AllDests(p)
    decreases p, 1, 0
  {
    var a := p.args[idx];
    var values :- GetValues(a, tokens);
    match FirstSeen(ConflictsIn(p.groups, idx), st.seen + {idx})
    case Some(other) => Err(ArgumentError(ArgumentName(a), NotAllowedWith(ArgumentName(p.args[other]))))
    case None => if values == [SUPPRESS] then Ok(st.ns) else Act(p, idx, st.ns, values)
  }

  /** Seeing an argument none of whose partners was seen, and storing into
      destinations of the parser tree, keeps the invariant. */
  lemma SeeKeepsInv(p: Parser, line: Line, base: set<string>, st: State, idx: nat, ns: Namespace)
    requires Inv(p, line, base, st) && idx < |p.args|
    requires p.args[idx].kind == OptionalArg || idx in Positionals(p)[..st.next]
    requires FirstSeen(ConflictsIn(p.groups, idx), st.seen + {idx}).None?
    requires ns.Keys <= st.ns.Keys + AllDests(p)
    ensures Inv(p, line, base, st.(seen := st.seen + {idx}, ns := ns))
  {
    SeeKeepsMutexFree(p.groups, st.seen, idx);
  }

  /** The action of argument `idx`: a built-in action, or the subcommand
      dispatch. */
  function Act(p: Parser, idx: nat, ns: Namespace, values: seq<string>): (r: Result<Namespace, ParseError>)
    requires Valid(p) && idx < |p.args|
    ensures r.Ok? ==> r.value.Keys <= ns.Keys + AllDests(p)
    decreases p, 0, 1
  {
    if p.args[idx].action != SelectParser then Apply(p.args[idx], ns, values)
    else Dispatch(p, idx, ns, values)
  }

  /** The subcommand action: the first value names the child parser, which
      parses the remaining values; its namespace is copied over this one. */
  function Dispatch(p: Parser, idx: nat, ns: Namespace, values: seq<string>): (r: Result<Namespace, ParseError>)
    requires Valid(p) && idx < |p.args| && p.args[idx].action == SelectParser
    ensures r.Ok? ==> r.value.Keys <= ns.Keys + AllDests(p)
    ensures values != [] && values[0] !in p.childIndex ==>
      r == Err(ArgumentError(ArgumentName(p.args[idx]), UnknownParser(values[0], p.args[idx].choices)))
    decreases p, 0, 0
  {
    var a := p.args[idx];
    if values == [] then Err(EmptyValues(ArgumentName(a)))
    else
      var name := values[0];
      var ns1 := if a.dest != SUPPRESS then SetValue(ns, a.dest, name) else ns;
      if name !in p.childIndex then Err(ArgumentError(ArgumentName(a), UnknownParser(name, a.choices)))
      else
        var c := p.childIndex[name];
        var sub :- ParseArgs(p.children[c], values[1..]);
        assert forall d :: d in sub ==> d in AllDests(p);
        Ok(Merge(ns1, sub))
  }

  /** A successful dispatch ran the named child parser on the remaining
      values: the child's entries replace the parent's, the parent's other
      entries stay, and the subcommand name is stored when the argument has
      a destination the child does not overwrite. */
  lemma DispatchMerges(p: Parser, idx: nat, ns: Namespace, values: seq<string>)
    requires Valid(p) && idx < |p.args| && p.args[idx].action == SelectParser
    requires Dispatch(p, idx, ns, values).Ok?
    ensures values != [] && values[0] in p.childIndex
    ensures var r := Dispatch(p, idx, ns, values).value;
      var sub := ParseArgs(p.children[p.childIndex[values[0]]], values[1..]);
      && sub.Ok?
      && (forall k :: k in sub.value ==> r[k] == sub.value[k])
      && (forall k :: k in ns && k !in sub.value && k != p.args[idx].dest ==> r[k] == ns[k])
      && (p.args[idx].dest != SUPPRESS && p.args[idx].dest !in sub.value ==>
            |r[p.args[idx].dest]| >= 1 && r[p.args[idx].dest][0] == values[0])
  {
  }

  /** A successful classification is well formed and resolves options to
      the arguments they are mapped to. */
  lemma ClassifySound(p: Parser, tokens: seq<string>)
    requires MapSound(p) && Classify(p, tokens).Ok?
    ensures var c := Classify(p, tokens).value; WellFormed(Line(tokens, c.0, c.1)) && LineSound(p, Line(tokens, c.0, c.1))
  {
    var c := Classify(p, tokens).value;
    ClassifySymbols(p, tokens);
    forall j | 0 <= j < |tokens| && c.1[j].Some? && c.1[j].value.target.Some?
      ensures c.1[j].value.optString in p.optionMap && c.1[j].value.target.value == p.optionMap[c.1[j].value.optString]
    {
      assert c.0[j] == O;
    }
  }
}
