/** Repeated single-letter options such as `-vvv`: a cluster of copies of
    one letter applies the option's action once per copy and marks it seen
    once. */
module Clusters {
  import opened Wrappers
  import opened Strings
  import opened NArgs
  import opened Errors
  import opened Arguments
  import opened Namespaces
  import opened Actions
  import opened Parsers
  import opened Classifier
  import opened Engine
  import opened EngineFacts

  /** `Ready` held as one fact, so that the recursive lemmas below carry it
      as a single precondition. */
  predicate Pending(p: Parser, line: Line, base: set<string>, st: State, t: nat, k: nat, out: Namespace)
  {
    Ready(p, line, base, st, t, k, out)
  }

  /** The option string at `start` is `-c` followed by `n` more `c`s, and
      `-c` names the ungrouped option `t` of arity 0 without choices. */
  predicate RepeatedLetter(p: Parser, line: Line, base: set<string>, st: State, start: nat, c: char, t: nat, n: nat)
  {
    Valid(p) && WellFormed(line) && LineSound(p, line) && Inv(p, line, base, st)
    && start < |line.tokens| && c != p.prefix && [p.prefix, c] in p.optionMap && t == p.optionMap[[p.prefix, c]]
    && line.res[start] == Some(Resolution([p.prefix, c], Some(t), Copies(c, n))) && ZeroArity(p, t)
  }

  /** Taking an ungrouped option of arity 0 once applies its action to no
      values and marks it seen. */
  lemma TakeNothing(p: Parser, line: Line, base: set<string>, st: State, t: nat)
    requires Setting(p, line, base, st, t) && Apply(p.args[t], st.ns, []).Ok?
    ensures TakeArgument(p, line, base, st, t, []) == Ok(st.(seen := st.seen + {t}, ns := Apply(p.args[t], st.ns, []).value))
  {
    var none: seq<string> := [];
    assert RawValues(p.args[t], none) == none;
    assert GetValues(p.args[t], none) == Ok(none);
    assert ConflictsIn(p.groups, t) == [];
    assert Effect(p, st, t, none) == Apply(p.args[t], st.ns, none);
  }

  /** `Repeats` held as one fact, for the same reason as `Pending`. */
  predicate Repeated(p: Parser, line: Line, base: set<string>, st: State, t: nat, k: nat, out: Namespace)
  {
    Repeats(p, line, base, st, t, k, out)
  }

  /** The first of `k >= 1` uses applies the action once and marks `t`
      seen, leaving `k - 1` uses and `k - 1` applications that end in `out`. */
  lemma TakeStep(p: Parser, line: Line, base: set<string>, st: State, t: nat, k: nat, out: Namespace)
    returns (st1: State)
    requires Pending(p, line, base, st, t, k, out)
    ensures k > 1 ==> Pending(p, line, base, st1, t, k - 1, out)
    ensures k == 1 ==> Repeated(p, line, base, st, t, k, out)
    ensures k > 1 && Repeated(p, line, base, st1, t, k - 1, out) ==> Repeated(p, line, base, st, t, k, out)
  {
    st1 := st.(seen := st.seen + {t}, ns := Apply(p.args[t], st.ns, []).value);
    var tuples := Uses(t, k);
    UsesAll(t, k);
    UsesAll(t, k - 1);
    TakeNothing(p, line, base, st, t);
    assert tuples[0] == (t, []) && tuples[1..] == Uses(t, k - 1);
    assert st1.seen + {t} == st.seen + {t};
    if k == 1 {
      assert Uses(t, 0) == [];
      assert TakeAll(p, line, base, st1, []) == Ok(st1);
    }
  }

  /** Taking an ungrouped option of arity 0 `k >= 1` times applies its
      action `k` times, ending in `out`, and marks it seen. */
  lemma {:induction false} TakeRepeated(p: Parser, line: Line, base: set<string>, st: State, t: nat, k: nat, out: Namespace)
    requires Pending(p, line, base, st, t, k, out)
    ensures Repeated(p, line, base, st, t, k, out)
    decreases k
  {
    var st1 := TakeStep(p, line, base, st, t, k, out);
    if k > 1 {
      TakeRepeated(p, line, base, st1, t, k - 1, out);
    }
  }

  /** A cluster of `n + 1` copies of the letter of an ungrouped option of
      arity 0 applies its action `n + 1` times and consumes one string. */
  lemma ClusterTaken(p: Parser, line: Line, base: set<string>, st: State, start: nat, c: char, t: nat, n: nat)
    requires RepeatedLetter(p, line, base, st, start, c, t, n) && ApplyTimes(p.args[t], st.ns, n + 1).Ok?
    ensures ConsumeOptionals(p, line, base, st, start) ==
      Ok((st.(ns := ApplyTimes(p.args[t], st.ns, n + 1).value, seen := st.seen + {t}), start + 1))
  {
    var out := ApplyTimes(p.args[t], st.ns, n + 1).value;
    TakeRepeated(p, line, base, st, t, n + 1, out);
    ConsumeRepeated(p, line, base, st, start, c, t, n, out);
  }

  /** Once its `n + 1` uses are known to end in `out`, the cluster is
      consumed as one string. */
  lemma ConsumeRepeated(p: Parser, line: Line, base: set<string>, st: State, start: nat, c: char, t: nat, n: nat, out: Namespace)
    requires RepeatedLetter(p, line, base, st, start, c, t, n) && Repeated(p, line, base, st, t, n + 1, out)
    ensures ConsumeOptionals(p, line, base, st, start) == Ok((st.(ns := out, seen := st.seen + {t}), start + 1))
  {
    ClusterRepeats(p, line, start, c, t, n);
    ConsumeCluster(p, line, base, st, start, [p.prefix, c], t, Copies(c, n), Uses(t, n + 1), start + 1,
      st.(ns := out, seen := st.seen + {t}));
  }

  /** `-vvv` on a counting option with nothing stored yet stores "3": a
      cluster of `n + 1` copies of the letter stores `n + 1` and consumes one
      string. */
  lemma CountCluster(p: Parser, line: Line, base: set<string>, st: State, start: nat, c: char, t: nat, n: nat)
    requires RepeatedLetter(p, line, base, st, start, c, t, n)
    requires p.args[t].action == Count && Lookup(st.ns, p.args[t].dest) == [] && n + 1 <= IntMax
    ensures ConsumeOptionals(p, line, base, st, start) ==
      Ok((st.(ns := st.ns[p.args[t].dest := [NatToString(n + 1)]], seen := st.seen + {t}), start + 1))
  {
    CountFromNothing(p.args[t], st.ns, n + 1);
    ClusterTaken(p, line, base, st, start, c, t, n);
  }
}
