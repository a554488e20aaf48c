/** Properties of the parsing engine that span several of its steps: option
    clusters such as `-vvv`, explicit values, the unanchored arity search,
    mutually exclusive groups, and the one-positional-per-run behaviour of
    the positional matcher. */
module EngineFacts {
  import opened Wrappers
  import opened Strings
  import opened NArgs
  import NArgsFacts
  import opened Errors
  import opened Arguments
  import opened Namespaces
  import opened Actions
  import opened Parsers
  import opened Classifier
  import opened Engine

  /** `k` uses of argument `t` with no values. */
  function Uses(t: nat, k: nat): (r: seq<(nat, seq<string>)>)
    ensures |r| == k
  {
    if k == 0 then [] else [(t, [])] + Uses(t, k - 1)
  }

  /** Every use in `Uses(t, k)` is a use of `t` with no values. */
  lemma {:induction false} UsesAll(t: nat, k: nat)
    ensures forall j :: 0 <= j < k ==> Uses(t, k)[j] == (t, [])
  {
    if k > 0 {
      UsesAll(t, k - 1);
      assert forall j :: 1 <= j < k ==> Uses(t, k)[j] == Uses(t, k - 1)[j - 1];
    }
  }

  /** An option matched against a single plain string, as its explicit
      value is: arity 0 takes nothing, a fixed count of two or more fails,
      every other arity takes the string. */
  lemma MatchForExplicit(a: Argument)
    requires a.kind == OptionalArg
    ensures MatchFor(a, [A]) ==
      if a.nargs == Integer(0) || a.nargs == Suppress then Ok(0)
      else if a.nargs.Integer? && a.nargs.n >= 2 then Err(ArgumentError(ArgumentName(a), Arity(ArityFailureOf(a.nargs))))
      else Ok(1)
  {
    NArgsFacts.MatchExplicitValue(a.nargs);
  }

  /** An option of arity 0 takes none of the strings after it. */
  lemma FollowingNothing(a: Argument, t: nat, line: Line, start: nat)
    requires WellFormed(line) && start < |line.tokens|
    requires a.kind == OptionalArg && a.nargs == Integer(0)
    ensures FollowingValues(a, t, line, start) == Ok(([(t, [])], start + 1))
  {
    NArgsFacts.MatchOptionalNothing(a.nargs, line.syms[start + 1..]);
    assert MatchFor(a, line.syms[start + 1..]) == Ok(0);
    assert line.tokens[start + 1..start + 1] == [];
  }

  /** An option of arity 0 without an explicit value is used once and
      consumes only its own string. */
  lemma ClusterNothing(p: Parser, line: Line, start: nat, optString: string, t: nat)
    requires MapSound(p) && KindsMatch(p) && WellFormed(line) && start < |line.tokens| && t < |p.args| && |optString| > 0
    requires p.args[t].kind == OptionalArg && p.args[t].nargs == Integer(0)
    ensures Cluster(p, line, start, optString, t, "") == Ok(([(t, [])], start + 1))
  {
    FollowingNothing(p.args[t], t, line, start);
  }

  /** A single-prefix option of arity 0 whose explicit value starts with the
      letter of a registered option is used once, and the rest of the value
      is read as that option's cluster. */
  lemma ClusterStep(p: Parser, line: Line, start: nat, optString: string, t: nat, explicit: string)
    requires MapSound(p) && KindsMatch(p) && WellFormed(line) && start < |line.tokens| && t < |p.args| && |optString| > 1
    requires p.args[t].kind == OptionalArg && p.args[t].nargs == Integer(0)
    requires optString[1] != p.prefix && explicit != "" && [optString[0], explicit[0]] in p.optionMap
    ensures var u := p.optionMap[[optString[0], explicit[0]]];
      Cluster(p, line, start, optString, t, explicit).Ok? <==> Cluster(p, line, start, optString, u, explicit[1..]).Ok?
    ensures var u := p.optionMap[[optString[0], explicit[0]]];
      Cluster(p, line, start, optString, t, explicit).Ok? ==>
        Cluster(p, line, start, optString, t, explicit).value ==
          ([(t, [])] + Cluster(p, line, start, optString, u, explicit[1..]).value.0, Cluster(p, line, start, optString, u, explicit[1..]).value.1)
  {
    MatchForExplicit(p.args[t]);
    assert SecondChar(optString) != p.prefix;
  }

  /** A single-prefix option of arity 0 whose explicit value starts with a
      letter that names no registered option is rejected, and the error
      quotes the whole remaining value. */
  lemma ClusterUnknownLetter(p: Parser, line: Line, start: nat, optString: string, t: nat, explicit: string)
    requires MapSound(p) && KindsMatch(p) && WellFormed(line) && start < |line.tokens| && t < |p.args| && |optString| > 1
    requires p.args[t].kind == OptionalArg && p.args[t].nargs == Integer(0)
    requires optString[1] != p.prefix && explicit != "" && [optString[0], explicit[0]] !in p.optionMap
    ensures Cluster(p, line, start, optString, t, explicit) == Err(ArgumentError(ArgumentName(p.args[t]), IgnoredExplicit(explicit)))
  {
    MatchForExplicit(p.args[t]);
    assert SecondChar(optString) != p.prefix;
  }

  /** `n` copies of the character `c`. */
  function Copies(c: char, n: nat): (r: string)
    ensures |r| == n && forall i :: 0 <= i < n ==> r[i] == c
  {
    if n == 0 then "" else [c] + Copies(c, n - 1)
  }

  /** A single-prefix option of arity 0 followed by `n` more copies of its
      letter (`-vvv` for `n == 2`) stands for `n + 1` uses of it and
      consumes only its own string. */
  lemma {:induction false} ClusterRepeats(p: Parser, line: Line, start: nat, c: char, t: nat, n: nat)
    requires MapSound(p) && KindsMatch(p) && WellFormed(line) && start < |line.tokens| && c != p.prefix
    requires t < |p.args| && p.args[t].kind == OptionalArg && p.args[t].nargs == Integer(0)
    requires [p.prefix, c] in p.optionMap && p.optionMap[[p.prefix, c]] == t
    ensures Cluster(p, line, start, [p.prefix, c], t, Copies(c, n)) == Ok((Uses(t, n + 1), start + 1))
    decreases n
  {
    var none: seq<string> := [];
    var optString := [p.prefix, c];
    var explicit := Copies(c, n);
    if n == 0 {
      ClusterNothing(p, line, start, optString, t);
      assert Uses(t, 1) == [(t, none)];
    } else {
      assert explicit[0] == c && explicit[1..] == Copies(c, n - 1);
      ClusterRepeats(p, line, start, c, t, n - 1);
      ClusterStep(p, line, start, optString, t, explicit);
      assert Uses(t, n + 1) == [(t, none)] + Uses(t, n);
    }
  }

  /** A cluster of two different letters (`-xv`) uses both options once,
      the first letter's first, when neither takes a value. */
  lemma ClusterPair(p: Parser, line: Line, start: nat, x: char, v: char)
    requires MapSound(p) && KindsMatch(p) && WellFormed(line) && start < |line.tokens| && x != p.prefix
    requires [p.prefix, x] in p.optionMap && [p.prefix, v] in p.optionMap
    requires p.args[p.optionMap[[p.prefix, x]]].nargs == Integer(0)
    requires p.args[p.optionMap[[p.prefix, v]]].nargs == Integer(0)
    ensures var tx, tv := p.optionMap[[p.prefix, x]], p.optionMap[[p.prefix, v]];
      Cluster(p, line, start, [p.prefix, x], tx, [v]) == Ok(([(tx, []), (tv, [])], start + 1))
  {
    var tx, tv := p.optionMap[[p.prefix, x]], p.optionMap[[p.prefix, v]];
    assert [p.prefix, x] in p.args[tx].optionStrings;
    assert [p.prefix, v] in p.args[tv].optionStrings;
    var optString, explicit := [p.prefix, x], [v];
    assert [optString[0], explicit[0]] == [p.prefix, v] && explicit[1..] == "";
    ClusterNothing(p, line, start, optString, tv);
    ClusterStep(p, line, start, optString, tx, explicit);
    var none: seq<string> := [];
    assert [(tx, none)] + [(tv, none)] == [(tx, none), (tv, none)];
  }

  /** In `-xfVALUE`, an option `x` of arity 0 is used once and the rest of
      the token is the explicit value of the single-value option `f`. */
  lemma ClusterThenValue(p: Parser, line: Line, start: nat, x: char, f: char, value: string)
    requires MapSound(p) && KindsMatch(p) && WellFormed(line) && start < |line.tokens| && x != p.prefix && value != ""
    requires [p.prefix, x] in p.optionMap && [p.prefix, f] in p.optionMap
    requires p.args[p.optionMap[[p.prefix, x]]].nargs == Integer(0)
    requires var a := p.args[p.optionMap[[p.prefix, f]]];
      a.nargs != Integer(0) && a.nargs != Suppress && !(a.nargs.Integer? && a.nargs.n >= 2)
    ensures var tx, tf := p.optionMap[[p.prefix, x]], p.optionMap[[p.prefix, f]];
      Cluster(p, line, start, [p.prefix, x], tx, [f] + value) == Ok(([(tx, []), (tf, [value])], start + 1))
  {
    var tx, tf := p.optionMap[[p.prefix, x]], p.optionMap[[p.prefix, f]];
    assert [p.prefix, x] in p.args[tx].optionStrings;
    assert [p.prefix, f] in p.args[tf].optionStrings;
    var optString, explicit := [p.prefix, x], [f] + value;
    assert [optString[0], explicit[0]] == [p.prefix, f] && explicit[1..] == value;
    ExplicitValueTaken(p, line, start, optString, tf, value);
    ClusterStep(p, line, start, optString, tx, explicit);
    var none: seq<string> := [];
    assert [(tx, none)] + [(tf, [value])] == [(tx, none), (tf, [value])];
  }

  /** `__consume_optional` on a resolved option string whose cluster yields
      `tuples` and stops before `next` takes those tuples in turn. */
  lemma ConsumeCluster(p: Parser, line: Line, base: set<string>, st: State, start: nat, optString: string,
                       target: nat, explicit: string, tuples: seq<(nat, seq<string>)>, next: nat, after: State)
    requires Valid(p) && WellFormed(line) && LineSound(p, line) && Inv(p, line, base, st)
    requires start < |line.tokens| && line.res[start] == Some(Resolution(optString, Some(target), explicit))
    requires target < |p.args| && p.args[target].kind == OptionalArg && |optString| > 0
    requires Cluster(p, line, start, optString, target, explicit) == Ok((tuples, next))
    requires OptionUses(p, tuples) && TakeAll(p, line, base, st, tuples) == Ok(after)
    ensures ConsumeOptionals(p, line, base, st, start) == Ok((after, next))
  {
  }

  /** No mutually exclusive group mentions argument `t`. */
  predicate Ungrouped(p: Parser, t: nat)
  {
    forall g :: 0 <= g < |p.groups| ==> t !in p.groups[g].members
  }

  /** `t` is an ungrouped option of arity 0 without choices whose action is
      a built-in one. */
  predicate ZeroArity(p: Parser, t: nat)
  {
    && t < |p.args| && p.args[t].kind == OptionalArg && p.args[t].action != SelectParser
    && p.args[t].nargs == Integer(0) && p.args[t].choices == [] && Ungrouped(p, t)
  }

  /** Uses of `t` are taken from `st`: the parser and the state are
      consistent and `t` is an ungrouped option of arity 0. */
  predicate Setting(p: Parser, line: Line, base: set<string>, st: State, t: nat)
  {
    Valid(p) && Inv(p, line, base, st) && ZeroArity(p, t)
  }

  /** An explicit value (`--foo=v`, or `-fv`) is the option's one value
      unless the option takes no value or at least two. */
  lemma ExplicitValueTaken(p: Parser, line: Line, start: nat, optString: string, t: nat, v: string)
    requires MapSound(p) && KindsMatch(p) && WellFormed(line) && start < |line.tokens| && t < |p.args| && |optString| > 0
    requires p.args[t].kind == OptionalArg && v != ""
    requires p.args[t].nargs != Integer(0) && p.args[t].nargs != Suppress
    requires !(p.args[t].nargs.Integer? && p.args[t].nargs.n >= 2)
    ensures Cluster(p, line, start, optString, t, v) == Ok(([(t, [v])], start + 1))
  {
    MatchForExplicit(p.args[t]);
  }

  /** An explicit value given to a long option that takes no value is
      rejected as ignored; one given to an option that takes two or more
      values fails the arity match. */
  lemma ExplicitValueRejected(p: Parser, line: Line, start: nat, optString: string, t: nat, v: string)
    requires MapSound(p) && KindsMatch(p) && WellFormed(line) && start < |line.tokens| && t < |p.args| && |optString| > 1
    requires p.args[t].kind == OptionalArg && v != ""
    requires ((p.args[t].nargs == Integer(0) || p.args[t].nargs == Suppress) && optString[1] == p.prefix)
      || (p.args[t].nargs.Integer? && p.args[t].nargs.n >= 2)
    ensures Cluster(p, line, start, optString, t, v) ==
      if p.args[t].nargs.Integer? && p.args[t].nargs.n >= 2
      then Err(ArgumentError(ArgumentName(p.args[t]), Arity(ArityFailureOf(p.args[t].nargs))))
      else Err(ArgumentError(ArgumentName(p.args[t]), IgnoredExplicit(v)))
  {
    MatchForExplicit(p.args[t]);
  }

  /** An option of default arity takes the string right after it when a
      plain string lies anywhere after it, and fails otherwise. */
  lemma FollowingDefault(a: Argument, t: nat, line: Line, start: nat)
    requires WellFormed(line) && start < |line.tokens|
    requires a.kind == OptionalArg && a.nargs == Default
    ensures FollowingValues(a, t, line, start) ==
      if A in line.syms[start + 1..] then Ok(([(t, [line.tokens[start + 1]])], start + 2))
      else Err(ArgumentError(ArgumentName(a), Arity(ArityFailureOf(Default))))
  {
    NArgsFacts.MatchOptionalDefault(line.syms[start + 1..]);
    if A in line.syms[start + 1..] {
      assert line.tokens[start + 1..start + 2] == [line.tokens[start + 1]];
    }
  }

  /** An option of default arity takes the string right after it whenever a
      plain argument lies anywhere ahead, even when that string is itself an
      option: the arity search is not anchored, yet the value is cut from the
      front. */
  lemma DefaultTakesNext(p: Parser, line: Line, start: nat, optString: string, t: nat)
    requires MapSound(p) && KindsMatch(p) && WellFormed(line) && start < |line.tokens| && t < |p.args| && |optString| > 0
    requires p.args[t].kind == OptionalArg && p.args[t].nargs == Default
    ensures Cluster(p, line, start, optString, t, "") ==
      if A in line.syms[start + 1..] then Ok(([(t, [line.tokens[start + 1]])], start + 2))
      else Err(ArgumentError(ArgumentName(p.args[t]), Arity(ArityFailureOf(Default))))
  {
    FollowingDefault(p.args[t], t, line, start);
  }

  /** Using an argument after another member of one of its mutually
      exclusive groups fails with a conflict error. */
  lemma ConflictRejected(p: Parser, line: Line, base: set<string>, st: State, idx: nat, tokens: seq<string>, g: nat, other: nat)
    requires Valid(p) && Inv(p, line, base, st) && idx < |p.args|
    requires p.args[idx].kind == OptionalArg || idx in Positionals(p)[..st.next]
    requires GetValues(p.args[idx], tokens).Ok?
    requires g < |p.groups| && idx in p.groups[g].members && other in p.groups[g].members && other != idx
    requires other in st.seen
    ensures TakeArgument(p, line, base, st, idx, tokens).Err?
    ensures TakeArgument(p, line, base, st, idx, tokens).error.ArgumentError?
    ensures TakeArgument(p, line, base, st, idx, tokens).error.argument == ArgumentName(p.args[idx])
    ensures TakeArgument(p, line, base, st, idx, tokens).error.reason.NotAllowedWith?
  {
    assert other in ConflictsIn(p.groups, idx);
    assert FirstSeen(ConflictsIn(p.groups, idx), st.seen + {idx}).Some?;
  }

  /** No string of the command line starts with the prefix character. */
  predicate Plain(p: Parser, tokens: seq<string>)
  {
    forall j :: 0 <= j < |tokens| ==> |tokens[j]| == 0 || tokens[j][0] != p.prefix
  }

  /** A command line without option-like strings classifies without error
      and resolves no option. */
  lemma PlainClassified(p: Parser, tokens: seq<string>)
    requires MapSound(p) && Plain(p, tokens)
    ensures Classify(p, tokens).Ok?
    ensures forall j :: 0 <= j < |tokens| ==> Classify(p, tokens).value.1[j].None?
  {
    ClassifyFails(p, tokens);
    ClassifySymbols(p, tokens);
    var (syms, res) := Classify(p, tokens).value;
    forall j | 0 <= j < |tokens| ensures res[j].None? {
      if NoSeparatorBefore(tokens, j) && tokens[j] != "--" {
        assert ParseOptional(p, tokens[j]) == Ok(None);
      } else {
        assert syms[j] != O;
      }
    }
  }

  /** The walk starts over a line on which no option was resolved, with the
      parser and the line consistent and no positional assigned yet. */
  predicate QuietStart(p: Parser, line: Line, base: set<string>, st: State)
  {
    && Valid(p) && WellFormed(line) && LineSound(p, line) && Inv(p, line, base, st) && st.next == 0
    && forall j :: 0 <= j < |line.tokens| ==> line.res[j].None?
  }

  /** With no option resolved anywhere ahead, the walk stops where it
      started and changes nothing. */
  lemma PlainWalk(p: Parser, line: Line, base: set<string>, st: State)
    requires QuietStart(p, line, base, st)
    ensures Walk(p, line, base, st, 0) == Ok((st, 0))
  {
    assert NextOption(line, 0).None?;
  }

  /** With no option resolved, the whole walk is one positional run from the
      start, which assigns at most the first positional. */
  lemma PlainWalkAll(p: Parser, line: Line, base: set<string>, st: State)
    requires QuietStart(p, line, base, st)
    ensures WalkAll(p, line, base, st).Ok? ==> WalkAll(p, line, base, st).value.next <= 1
  {
    PlainWalk(p, line, base, st);
  }

  /** Once at most one positional was assigned, every positional marked seen
      is the first one. */
  lemma FirstPositionalOnly(p: Parser, line: Line, base: set<string>, st: State)
    requires Inv(p, line, base, st) && st.next <= 1
    ensures forall i :: i in st.seen && p.args[i].kind != OptionalArg ==> i == Positionals(p)[0]
  {
    forall i | i in st.seen && p.args[i].kind != OptionalArg
      ensures i == Positionals(p)[0]
    {
      assert i in Positionals(p)[..st.next];
    }
  }

  /** A command line without option-like strings starts a quiet walk. */
  lemma PlainStart(p: Parser, ns: Namespace, tokens: seq<string>)
    requires Valid(p) && Plain(p, tokens)
    ensures Classify(p, tokens).Ok?
    ensures QuietStart(p, Line(tokens, Classify(p, tokens).value.0, Classify(p, tokens).value.1), ns.Keys, State(Prefill(p.args, ns), {}, [], 0))
  {
    PlainClassified(p, tokens);
    ClassifySound(p, tokens);
  }

  /** With no option-like strings, a run assigns strings to at most the
      first positional: every positional marked seen is the first one. */
  lemma OnePositionalPerRun(p: Parser, ns: Namespace, tokens: seq<string>)
    requires Valid(p) && Plain(p, tokens) && Run(p, ns, tokens).Ok?
    ensures forall i :: i in Run(p, ns, tokens).value.seen && p.args[i].kind != OptionalArg ==> i == Positionals(p)[0]
  {
    PlainStart(p, ns, tokens);
    var (syms, res) := Classify(p, tokens).value;
    PlainWalkAll(p, Line(tokens, syms, res), ns.Keys, State(Prefill(p.args, ns), {}, [], 0));
    FirstPositionalOnly(p, Line(tokens, [], []), ns.Keys, Run(p, ns, tokens).value);
  }

  /** Hence two required positionals can never both be filled from a command
      line without option-like strings: parsing fails. */
  lemma TwoRequiredPositionalsFail(p: Parser, ns: Namespace, tokens: seq<string>, i: nat, j: nat)
    requires Valid(p) && Plain(p, tokens)
    requires i < j < |p.args| && p.args[i].kind != OptionalArg && p.args[j].kind != OptionalArg
    requires Required(p.args[i]) && Required(p.args[j])
    ensures Run(p, ns, tokens).Err?
  {
    if Run(p, ns, tokens).Ok? {
      OnePositionalPerRun(p, ns, tokens);
    }
  }

  /** `k >= 1` uses of `t` can be taken from `st`, and applying the
      action of `t` that many times to no values ends in `out`. */
  predicate Ready(p: Parser, line: Line, base: set<string>, st: State, t: nat, k: nat, out: Namespace)
  {
    Setting(p, line, base, st, t) && k >= 1 && ApplyTimes(p.args[t], st.ns, k) == Ok(out)
  }

  /** Taking `k` uses of `t` from `st` ends in `out` with `t` seen. */
  predicate Repeats(p: Parser, line: Line, base: set<string>, st: State, t: nat, k: nat, out: Namespace)
  {
    && Setting(p, line, base, st, t)
    && (UsesAll(t, k); TakeAll(p, line, base, st, Uses(t, k)) == Ok(st.(ns := out, seen := st.seen + {t})))
  }
}
