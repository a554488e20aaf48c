/** The built-in actions' effect on the namespace (`StoreAction` through
    `HelpAction`). The subcommand action needs the parser and lives with the
    parsing engine. */
module Actions {
  import opened Wrappers
  import opened Strings
  import opened NArgs
  import opened Errors
  import opened Arguments
  import opened Namespaces

  /** `size_t` on the 64-bit platforms the library targets. */
  const SizeModulus: int := 0x1_0000_0000_0000_0000

  /** The counting action's arithmetic on a stored value:
      `size_t v = std::stoi(text); v += 1; std::to_string(v)`. */
  function Increment(text: string): (r: Result<string, ParseError>)
    ensures r.Err? <==> Stoi(text).None?
    ensures r.Ok? && 0 <= Stoi(text).value < IntMax ==> Stoi(r.value) == Some(Stoi(text).value + 1)
    ensures r.Ok? ==> AllDigits(r.value)
  {
    match Stoi(text)
    case None => Err(NotANumber(text))
    case Some(v) =>
      var w := (v % SizeModulus + 1) % SizeModulus;
      if 0 <= v < IntMax then
        assert w == v + 1;
        StoiNatToString(w); Ok(NatToString(w))
      else Ok(NatToString(w))
  }

  /** `-1` stored before counting wraps through `size_t` back to zero. */
  lemma IncrementMinusOne()
    ensures Increment("-1") == Ok("0")
  {
    StoiNegative(1);
    assert "-" + NatToString(1) == "-1";
  }

  /** A negative stored count below -1 becomes a huge unsigned number. */
  lemma IncrementMinusTwo()
    ensures Increment("-2") == Ok(NatToString(SizeModulus - 1))
  {
    StoiNegative(2);
    assert "-" + NatToString(2) == "-2";
  }

  /** The action of `a` applied to `values`. Every action but help writes
      only the argument's destination; help ends the program. */
  function Apply(a: Argument, ns: Namespace, values: seq<string>): (r: Result<Namespace, ParseError>)
    requires a.action != SelectParser
    ensures r.Ok? ==> r.value.Keys == ns.Keys + {a.dest}
    ensures r.Ok? ==> forall k :: k in ns && k != a.dest ==> r.value[k] == ns[k]
    ensures r.Err? <==> (a.action == Help
      || (a.action == Store && (Validate(a).Some? || ((a.nargs == Default || a.nargs == Optional) && values == [])))
      || (a.action == Count && Lookup(ns, a.dest) != [] && Stoi(Lookup(ns, a.dest)[0]).None?))
    ensures a.action == Help ==> r == Err(HelpExit)
    ensures a.action in {StoreConst, StoreTrue, StoreFalse} ==> Lookup(r.value, a.dest) == a.constValue
    ensures a.action == Append ==> Lookup(r.value, a.dest) == Lookup(ns, a.dest) + values
    ensures a.action == AppendConst ==> Lookup(r.value, a.dest) == Lookup(ns, a.dest) + a.constValue
    ensures r.Ok? && a.action == Store && (a.nargs == Default || a.nargs == Optional) ==>
      values != [] && |Lookup(r.value, a.dest)| >= 1 && Lookup(r.value, a.dest)[0] == values[0]
      && |Lookup(r.value, a.dest)| == if Lookup(ns, a.dest) == [] then 1 else |Lookup(ns, a.dest)|
    ensures r.Ok? && a.action == Store && a.nargs != Default && a.nargs != Optional ==>
      Lookup(r.value, a.dest) == values
    ensures a.action == Count && Lookup(ns, a.dest) == [] ==> Lookup(r.value, a.dest) == ["1"]
  {
    match a.action
    case Store =>
      if a.nargs == Integer(0) then Err(StoreZeroNargs)
      else if |a.constValue| > 0 && a.nargs != Optional then Err(ConstNeedsOptional)
      else if a.nargs == Default || a.nargs == Optional then
        if values == [] then Err(EmptyValues(ArgumentName(a)))
        else Ok(SetValue(ns, a.dest, values[0]))
      else Ok(SetValues(ns, a.dest, values))
    case StoreConst => Ok(SetValues(ns, a.dest, a.constValue))
    case StoreTrue => Ok(SetValues(ns, a.dest, a.constValue))
    case StoreFalse => Ok(SetValues(ns, a.dest, a.constValue))
    case Append => Ok(AppendValues(ns, a.dest, values))
    case AppendConst => Ok(AppendValues(ns, a.dest, a.constValue))
    case Count =>
      var cur := Lookup(ns, a.dest);
      if cur == [] then Ok(ns[a.dest := ["1"]])
      else
        var next :- Increment(cur[0]);
        Ok(ns[a.dest := [next] + cur[1..]])
    case Help => Err(HelpExit)
  }

  /** Counting on a stored list replaces its first element by the result of
      `Increment` and keeps the rest. */
  lemma ApplyCount(a: Argument, ns: Namespace, values: seq<string>)
    requires a.action == Count && Lookup(ns, a.dest) != []
    ensures Apply(a, ns, values).Ok? ==>
      var after := Lookup(Apply(a, ns, values).value, a.dest);
      |after| == |Lookup(ns, a.dest)| && after[1..] == Lookup(ns, a.dest)[1..]
      && Increment(Lookup(ns, a.dest)[0]) == Ok(after[0])
  {
  }

  /** The action applied `k` times to no values, as `-vvv` does for `k == 3`. */
  function ApplyTimes(a: Argument, ns: Namespace, k: nat): Result<Namespace, ParseError>
    requires a.action != SelectParser
    decreases k
  {
    if k == 0 then Ok(ns)
    else
      var n :- Apply(a, ns, []);
      ApplyTimes(a, n, k - 1)
  }

  /** One count on a stored `m` stores `m + 1`. */
  lemma CountStep(a: Argument, ns: Namespace, m: nat)
    requires a.action == Count && Lookup(ns, a.dest) == [NatToString(m)] && m < IntMax
    ensures Apply(a, ns, []) == Ok(ns[a.dest := [NatToString(m + 1)]])
  {
    StoiNatToString(m);
    assert (m % SizeModulus + 1) % SizeModulus == m + 1;
    assert Increment(NatToString(m)) == Ok(NatToString(m + 1));
    assert [NatToString(m + 1)] + [NatToString(m)][1..] == [NatToString(m + 1)];
  }

  /** One count followed by `k - 1` more. */
  lemma CountThen(a: Argument, ns: Namespace, m: nat, k: nat, out: Namespace)
    requires a.action == Count && Lookup(ns, a.dest) == [NatToString(m)] && m < IntMax && k >= 1
    requires ApplyTimes(a, ns[a.dest := [NatToString(m + 1)]], k - 1) == Ok(out)
    ensures ApplyTimes(a, ns, k) == Ok(out)
  {
    CountStep(a, ns, m);
  }

  /** Counting `k` more times from a stored count `m` stores `total`, the
      induction being on `k` with the final count held fixed. */
  lemma {:induction false} CountTo(a: Argument, ns: Namespace, m: nat, k: nat, total: nat)
    requires a.action == Count && Lookup(ns, a.dest) == [NatToString(m)] && total == m + k <= IntMax
    ensures ApplyTimes(a, ns, k) == Ok(ns[a.dest := [NatToString(total)]])
    decreases k
  {
    var last := [NatToString(total)];
    if k > 0 {
      var n := ns[a.dest := [NatToString(m + 1)]];
      CountTo(a, n, m + 1, k - 1, total);
      CountThen(a, ns, m, k, n[a.dest := last]);
      UpdateTwice(ns, a.dest, [NatToString(m + 1)], last);
    } else {
      assert ns[a.dest := last] == ns;
    }
  }

  /** Counting `k` more times from a stored count `m` stores `m + k`. */
  lemma CountFrom(a: Argument, ns: Namespace, m: nat, k: nat)
    requires a.action == Count && Lookup(ns, a.dest) == [NatToString(m)] && m + k <= IntMax
    ensures ApplyTimes(a, ns, k) == Ok(ns[a.dest := [NatToString(m + k)]])
  {
    CountTo(a, ns, m, k, m + k);
  }

  /** The first count on nothing stores "1"; `k - 1` more counts follow. */
  lemma CountFirstThen(a: Argument, ns: Namespace, k: nat, out: Namespace)
    requires a.action == Count && Lookup(ns, a.dest) == [] && k >= 1
    requires ApplyTimes(a, ns[a.dest := [NatToString(1)]], k - 1) == Ok(out)
    ensures ApplyTimes(a, ns, k) == Ok(out)
  {
    assert NatToString(1) == "1";
    assert Apply(a, ns, []) == Ok(ns[a.dest := ["1"]]);
  }

  /** Counting `k >= 1` times from nothing stores `k`. */
  lemma CountFromNothing(a: Argument, ns: Namespace, k: nat)
    requires a.action == Count && Lookup(ns, a.dest) == [] && 1 <= k <= IntMax
    ensures ApplyTimes(a, ns, k) == Ok(ns[a.dest := [NatToString(k)]])
  {
    var n := ns[a.dest := [NatToString(1)]];
    var last := [NatToString(k)];
    CountTo(a, n, 1, k - 1, k);
    CountFirstThen(a, ns, k, n[a.dest := last]);
    UpdateTwice(ns, a.dest, [NatToString(1)], last);
  }

  /** Storing twice keeps only the later value. */
  lemma StoreTwice(a: Argument, ns: Namespace, v: seq<string>, w: seq<string>)
    requires a.action == Store && Validate(a).None? && v != [] && w != []
    ensures Apply(a, ns, v).Ok?
    ensures Apply(a, Apply(a, ns, v).value, w) == Apply(a, ns, w)
  {
    if a.nargs == Default || a.nargs == Optional {
      SetValueTwice(ns, a.dest, v[0], w[0]);
    } else {
      assert SetValues(SetValues(ns, a.dest, v), a.dest, w) == SetValues(ns, a.dest, w);
    }
  }

  /** Appending twice appends both value lists in order. */
  lemma AppendTwice(a: Argument, ns: Namespace, v: seq<string>, w: seq<string>)
    requires a.action == Append
    ensures Apply(a, Apply(a, ns, v).value, w) == Apply(a, ns, v + w)
  {
    AppendValuesTwice(ns, a.dest, v, w);
  }
}
