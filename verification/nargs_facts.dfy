/** What each compiled arity actually matches. These lemmas turn the
    backtracking search of `NArgs` into closed forms: the number of tokens an
    option or positional of a given arity takes from a pattern string. */
module NArgsFacts {
  import opened Wrappers
  import opened NArgs

  /** Length of the run of symbols from `c` starting at `pos`. */
  function Run(c: set<Sym>, text: seq<Sym>, pos: nat): (r: nat)
    requires pos <= |text|
    ensures pos + r <= |text|
    ensures forall j :: pos <= j < pos + r ==> text[j] in c
    ensures pos + r < |text| ==> text[pos + r] !in c
    decreases |text| - pos
  {
    if pos < |text| && text[pos] in c then 1 + Run(c, text, pos + 1) else 0
  }

  /** `n` argument symbols in a row at `pos`. */
  predicate ArgsAt(text: seq<Sym>, pos: nat, n: nat)
  {
    pos + n <= |text| && forall j :: pos <= j < pos + n ==> text[j] == A
  }

  /** A pattern that matches at every position. */
  predicate Total(items: seq<Atom>, text: seq<Sym>)
  {
    forall q :: 0 <= q <= |text| ==> Bt(items, text, q).Some?
  }

  lemma {:induction false} RunAtEnd(c: set<Sym>, text: seq<Sym>, pos: nat)
    requires pos <= |text|
    ensures Run(c, text, pos + Run(c, text, pos)) == 0
  {
  }

  /** A greedy star in front of a pattern that cannot fail takes the whole run. */
  lemma {:induction false} BtManyTotal(c: set<Sym>, rest: seq<Atom>, text: seq<Sym>, pos: nat)
    requires pos <= |text| && Total(rest, text)
    ensures Bt([Atom(c, Many)] + rest, text, pos) == Bt(rest, text, pos + Run(c, text, pos))
    decreases |text| - pos
  {
    var items := [Atom(c, Many)] + rest;
    assert items[1..] == rest;
    if pos < |text| && text[pos] in c {
      BtManyTotal(c, rest, text, pos + 1);
    }
  }

  lemma BtClose(text: seq<Sym>, pos: nat)
    requires pos <= |text|
    ensures Bt([Close], text, pos) == Some([pos])
  {
    assert [Close][1..] == [];
    assert Bt([], text, pos) == Some([]);
    assert [pos] + [] == [pos];
  }

  lemma {:induction false} TotalClose(text: seq<Sym>)
    ensures Total([Close], text)
  {
    forall q | 0 <= q <= |text| ensures Bt([Close], text, q).Some? {
      BtClose(text, q);
    }
  }

  /** `[c]*` followed by the group end ends after the run. */
  lemma ManyClose(c: set<Sym>, text: seq<Sym>, pos: nat)
    requires pos <= |text|
    ensures Bt([Atom(c, Many), Close], text, pos) == Some([pos + Run(c, text, pos)])
  {
    TotalClose(text);
    assert [Atom(c, Many), Close] == [Atom(c, Many)] + [Close];
    BtManyTotal(c, [Close], text, pos);
    BtClose(text, pos + Run(c, text, pos));
  }

  /** A block of n single-argument atoms succeeds exactly on n arguments in a row. */
  lemma {:induction false} BtArgs(n: nat, rest: seq<Atom>, text: seq<Sym>, pos: nat)
    requires pos <= |text|
    ensures Bt(Repeat([ArgOnce], n) + rest, text, pos) ==
            if ArgsAt(text, pos, n) then Bt(rest, text, pos + n) else None
    decreases n
  {
    if n == 0 {
      assert Repeat([ArgOnce], 0) + rest == rest;
    } else {
      var items := Repeat([ArgOnce], n) + rest;
      assert items == [ArgOnce] + (Repeat([ArgOnce], n - 1) + rest);
      assert items[1..] == Repeat([ArgOnce], n - 1) + rest;
      if pos < |text| && text[pos] == A {
        BtArgs(n - 1, rest, text, pos + 1);
      }
    }
  }

  /** When every match at k ends its first group at k + len, the search
      reports len exactly when some start matches. */
  lemma FixedGroup(items: seq<Atom>, text: seq<Sym>, len: nat)
    requires Closes(items) >= 1
    requires forall k :: 0 <= k <= |text| && Bt(items, text, k).Some? ==> Bt(items, text, k).value[0] == k + len
    ensures Group1Length(items, text) == if exists k :: 0 <= k <= |text| && Bt(items, text, k).Some? then Some(len) else None
  {
    match Search(items, text)
    case None =>
    case Some((s, e)) =>
      assert Bt(items, text, s) == Some(e);
  }

  /** A pattern that already matches at 0 is found at 0. */
  lemma SearchAtZero(items: seq<Atom>, text: seq<Sym>)
    requires Closes(items) >= 1 && Bt(items, text, 0).Some?
    ensures Group1Length(items, text) == Some(Bt(items, text, 0).value[0])
  {
  }

  // ---------------------------------------------------------------------------
  // Closed forms for an optional's own run (`__match_argument`)
  // ---------------------------------------------------------------------------

  /** Integer n >= 1: the option takes n tokens when n arguments stand in a row
      ANYWHERE in the remaining pattern (the search is not anchored), and
      fails otherwise. */
  lemma {:induction false} MatchOptionalInteger(n: nat, text: seq<Sym>)
    requires n >= 1
    ensures MatchArgument(Integer(n), true, text) ==
            if exists k :: 0 <= k <= |text| && ArgsAt(text, k, n) then Some(n) else None
  {
    IntegerPatternOptional(n);
    var items := Pattern(Integer(n), true);
    assert items == Repeat([ArgOnce], n) + [Close];
    PatternCloses(Integer(n), true);
    forall k | 0 <= k <= |text|
      ensures Bt(items, text, k) == if ArgsAt(text, k, n) then Some([k + n]) else None
    {
      BtArgs(n, [Close], text, k);
      if ArgsAt(text, k, n) {
        BtClose(text, k + n);
      }
    }
    FixedGroup(items, text, n);
  }

  /** The default arity of an option is exactly one argument. */
  lemma DefaultIsInteger1Optional()
    ensures Pattern(Default, true) == Pattern(Integer(1), true)
  {
    IntegerPatternOptional(1);
    assert ArgOnce != Dashes && ArgOnce.cls - {Sep} == {A};
    assert Repeat([ArgOnce], 1) == [ArgOnce];
  }

  /** Default arity: one token, provided an argument appears somewhere ahead. */
  lemma MatchOptionalDefault(text: seq<Sym>)
    ensures MatchArgument(Default, true, text) == if A in text then Some(1) else None
  {
    DefaultIsInteger1Optional();
    MatchOptionalInteger(1, text);
    if A in text {
      var k :| 0 <= k < |text| && text[k] == A;
      assert ArgsAt(text, k, 1);
    }
  }

  /** Integer 0 and `Suppress` take nothing and never fail. */
  lemma MatchOptionalNothing(nargs: NArgs, text: seq<Sym>)
    requires nargs == Integer(0) || nargs == Suppress
    ensures MatchArgument(nargs, true, text) == Some(0)
  {
    IntegerPatternOptional(0);
    BtClose(text, 0);
    SearchAtZero([Close], text);
  }

  /** '?': one token when an argument comes next, otherwise none. */
  lemma MatchOptionalOptional(text: seq<Sym>)
    ensures MatchArgument(Optional, true, text) == Some(if |text| > 0 && text[0] == A then 1 else 0)
  {
    var items := Pattern(Optional, true);
    assert Atom({A}, Maybe) != Dashes && Atom({A}, Maybe).cls - {Sep} == {A};
    assert items == [Atom({A}, Maybe), Close];
    assert items[1..] == [Close];
    BtClose(text, 0);
    if |text| > 0 {
      BtClose(text, 1);
    }
    SearchAtZero(items, text);
  }

  /** '*': the run of arguments that follows directly. */
  lemma MatchOptionalZeroOrMore(text: seq<Sym>)
    ensures MatchArgument(ZeroOrMore, true, text) == Some(Run({A}, text, 0))
  {
    var items := Pattern(ZeroOrMore, true);
    assert Atom({A, Sep}, Many) != Dashes && Atom({A, Sep}, Many).cls - {Sep} == {A};
    assert items == [Atom({A}, Many), Close];
    ManyClose({A}, text, 0);
    SearchAtZero(items, text);
  }

  /** Remainder: the run of arguments and options that follows directly. */
  lemma MatchOptionalRemainder(text: seq<Sym>)
    ensures MatchArgument(Remainder, true, text) == Some(Run({A, O}, text, 0))
  {
    var items := Pattern(Remainder, true);
    assert Atom({Sep, A, O}, Many) != Dashes && Atom({Sep, A, O}, Many).cls - {Sep} == {A, O};
    assert items == [Atom({A, O}, Many), Close];
    ManyClose({A, O}, text, 0);
    SearchAtZero(items, text);
  }

  /** The first argument symbol of the text. */
  function FirstArg(text: seq<Sym>): (k: nat)
    requires A in text
    ensures k < |text| && text[k] == A && forall j :: 0 <= j < k ==> text[j] != A
  {
    if text[0] == A then 0 else 1 + FirstArg(text[1..])
  }

  /** '+': the run of arguments that starts at the FIRST argument ahead, or a
      failure when there is none. */
  lemma MatchOptionalOneOrMore(text: seq<Sym>)
    ensures MatchArgument(OneOrMore, true, text) ==
            if A in text then Some(Run({A}, text, FirstArg(text))) else None
  {
    var items := Pattern(OneOrMore, true);
    assert ArgOnce != Dashes && ArgOnce.cls - {Sep} == {A};
    assert Atom({A, Sep}, Many) != Dashes && Atom({A, Sep}, Many).cls - {Sep} == {A};
    assert items == [ArgOnce, Atom({A}, Many), Close];
    assert items[1..] == [Atom({A}, Many), Close];
    PatternCloses(OneOrMore, true);
    forall k | 0 <= k <= |text|
      ensures Bt(items, text, k) == if k < |text| && text[k] == A then Some([k + Run({A}, text, k)]) else None
    {
      if k < |text| && text[k] == A {
        ManyClose({A}, text, k + 1);
      }
    }
    if A in text {
      var f := FirstArg(text);
      assert Bt(items, text, f).Some?;
      var r := Search(items, text);
      assert r.Some? && r.value.0 == f;
    }
  }

  /** With an explicit `opt=value`, the value stands alone as the pattern "A":
      arity 0 takes nothing, arity n >= 2 fails, every other arity takes it. */
  lemma MatchExplicitValue(nargs: NArgs)
    ensures MatchArgument(nargs, true, [A]) ==
            if nargs == Integer(0) || nargs == Suppress then Some(0)
            else if nargs.Integer? && nargs.n >= 2 then None
            else Some(1)
  {
    var text := [A];
    match nargs
    case Integer(n) =>
      if n == 0 {
        MatchOptionalNothing(nargs, text);
      } else {
        MatchOptionalInteger(n, text);
        if n == 1 {
          assert ArgsAt(text, 0, 1);
        } else {
          assert forall k :: 0 <= k <= |text| ==> !ArgsAt(text, k, n);
        }
      }
    case Suppress => MatchOptionalNothing(nargs, text);
    case Default => MatchOptionalDefault(text);
    case Optional => MatchOptionalOptional(text);
    case ZeroOrMore => MatchOptionalZeroOrMore(text);
    case OneOrMore => MatchOptionalOneOrMore(text);
    case Remainder => MatchOptionalRemainder(text);
    case Subparser =>
  }

  // ---------------------------------------------------------------------------
  // Positional patterns
  // ---------------------------------------------------------------------------

  /** A positional of arity 0 (or `Suppress`) still swallows a leading `--`:
      its pattern `(-*-*)` keeps the separators. */
  lemma MatchPositionalNothing(nargs: NArgs, text: seq<Sym>)
    requires nargs == Integer(0) || nargs == Suppress
    ensures MatchArgument(nargs, false, text) == Some(Run({Sep}, text, 0))
  {
    var items := Pattern(nargs, false);
    assert items == [Dashes] + [Dashes, Close];
    TotalClose(text);
    forall q | 0 <= q <= |text| ensures Bt([Dashes, Close], text, q).Some? {
      ManyClose({Sep}, text, q);
    }
    BtManyTotal({Sep}, [Dashes, Close], text, 0);
    var r := Run({Sep}, text, 0);
    ManyClose({Sep}, text, r);
    RunAtEnd({Sep}, text, 0);
    SearchAtZero(items, text);
  }

  /** A run over a wider class is a run over a narrower one followed by the rest. */
  lemma {:induction false} RunSplit(c: set<Sym>, d: set<Sym>, text: seq<Sym>, pos: nat)
    requires d <= c && pos <= |text|
    ensures Run(c, text, pos) == Run(d, text, pos) + Run(c, text, pos + Run(d, text, pos))
    decreases |text| - pos
  {
    if pos < |text| && text[pos] in d {
      RunSplit(c, d, text, pos + 1);
    }
  }

  /** A '*' positional takes the run of arguments and separators ahead. */
  lemma MatchPositionalZeroOrMore(text: seq<Sym>)
    ensures MatchArgument(ZeroOrMore, false, text) == Some(Run({A, Sep}, text, 0))
  {
    RunSplit({A, Sep}, {Sep}, text, 0);
    var items := Pattern(ZeroOrMore, false);
    assert items == [Dashes] + [Atom({A, Sep}, Many), Close];
    forall q | 0 <= q <= |text| ensures Bt([Atom({A, Sep}, Many), Close], text, q).Some? {
      ManyClose({A, Sep}, text, q);
    }
    BtManyTotal({Sep}, [Atom({A, Sep}, Many), Close], text, 0);
    ManyClose({A, Sep}, text, Run({Sep}, text, 0));
    SearchAtZero(items, text);
  }
}
