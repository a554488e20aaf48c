/** `NArgs` and its compiled patterns.

    The source turns an arity into a small regular expression over the token
    alphabet {A, O, -} and runs `std::regex_search` (ECMAScript flavour, so
    leftmost start and greedy backtracking) on the pattern string of the
    remaining tokens. Here a pattern is a list of atoms (a symbol class with a
    quantifier) plus `Close` markers that end a capture group, and the search
    is an explicit backtracking matcher that tries alternatives in exactly the
    order the regex engine does. */
module NArgs {
  import opened Wrappers

  /** The token alphabet: `A` argument, `O` option, `Sep` the `--` separator. */
  datatype Sym = A | O | Sep

  /** `NArgs::Type` with the count carried by `integer`. */
  datatype NArgs =
    | Default          // none: a single argument
    | Integer(n: nat)  // exactly n arguments
    | Optional         // '?'
    | ZeroOrMore       // '*'
    | OneOrMore        // '+'
    | Remainder
    | Subparser        // parser: a selector followed by everything
    | Suppress

  /** `NArgs(char)`: only '?', '*' and '+' are accepted. */
  function NArgsOfChar(c: char): (r: Option<NArgs>)
    ensures r.Some? <==> c in {'?', '*', '+'}
    ensures c == '?' ==> r == Some(Optional)
    ensures c == '*' ==> r == Some(ZeroOrMore)
    ensures c == '+' ==> r == Some(OneOrMore)
  {
    if c == '?' then Some(Optional)
    else if c == '*' then Some(ZeroOrMore)
    else if c == '+' then Some(OneOrMore)
    else None
  }

  datatype Quant = Once | Maybe | Many

  /** One regex element: a symbol class with a quantifier, or the end of a
      capture group. */
  datatype Atom = Atom(cls: set<Sym>, q: Quant) | Close

  const Dashes: Atom := Atom({Sep}, Many)
  const ArgOnce: Atom := Atom({A}, Once)

  function Repeat(xs: seq<Atom>, n: nat): (r: seq<Atom>)
    ensures |r| == n * |xs|
  {
    if n == 0 then [] else xs + Repeat(xs, n - 1)
  }

  /** `get_nargs_pattern(false)`: the pattern of a positional, without its
      enclosing group. */
  function PositionalPattern(nargs: NArgs): seq<Atom>
  {
    match nargs
    case Default => [Dashes, ArgOnce, Dashes]
    case Optional => [Dashes, Atom({A}, Maybe), Dashes]
    case ZeroOrMore => [Dashes, Atom({A, Sep}, Many)]
    case OneOrMore => [Dashes, ArgOnce, Atom({A, Sep}, Many)]
    case Remainder => [Atom({Sep, A, O}, Many)]
    case Subparser => [Dashes, ArgOnce, Atom({Sep, A, O}, Many)]
    case Suppress => [Dashes, Dashes]
    case Integer(n) => if n == 0 then [Dashes, Dashes] else [Dashes] + Repeat([ArgOnce, Dashes], n)
  }

  /** The two `replace_all` calls for optionals: `-*` disappears and `-` is
      removed from every character class. */
  function Strip(p: seq<Atom>): (r: seq<Atom>)
    ensures forall i :: 0 <= i < |r| ==> r[i].Atom? ==> Sep !in r[i].cls
    ensures |r| <= |p|
  {
    if |p| == 0 then []
    else if p[0] == Dashes then Strip(p[1..])
    else if p[0].Atom? then [Atom(p[0].cls - {Sep}, p[0].q)] + Strip(p[1..])
    else [p[0]] + Strip(p[1..])
  }

  /** `get_nargs_pattern(optional)` with its enclosing group. */
  function Pattern(nargs: NArgs, optional: bool): seq<Atom>
  {
    (if optional then Strip(PositionalPattern(nargs)) else PositionalPattern(nargs)) + [Close]
  }

  /** An optional's pattern never mentions the separator, so the run of tokens
      an option consumes can never reach across a `--`. */
  lemma OptionalPatternHasNoSep(nargs: NArgs)
    ensures forall i :: 0 <= i < |Pattern(nargs, true)| ==> Pattern(nargs, true)[i].Atom? ==> Sep !in Pattern(nargs, true)[i].cls
  {
  }

  lemma {:induction false} StripRepeat(n: nat)
    ensures Strip(Repeat([ArgOnce, Dashes], n)) == Repeat([ArgOnce], n)
    decreases n
  {
    if n > 0 {
      StripRepeat(n - 1);
      assert ArgOnce != Dashes && ArgOnce.cls - {Sep} == {A};
      assert Repeat([ArgOnce], n) == [ArgOnce] + Repeat([ArgOnce], n - 1);
      assert Repeat([ArgOnce, Dashes], n) == [ArgOnce, Dashes] + Repeat([ArgOnce, Dashes], n - 1);
      assert ([ArgOnce, Dashes] + Repeat([ArgOnce, Dashes], n - 1))[1..] == [Dashes] + Repeat([ArgOnce, Dashes], n - 1);
      assert ([Dashes] + Repeat([ArgOnce, Dashes], n - 1))[1..] == Repeat([ArgOnce, Dashes], n - 1);
    }
  }

  /** An integer arity n >= 1 compiles, for an optional, to exactly n `A`s;
      n == 0 and `Suppress` compile to the empty group. */
  lemma IntegerPatternOptional(n: nat)
    ensures n >= 1 ==> Pattern(Integer(n), true) == Repeat([ArgOnce], n) + [Close]
    ensures Pattern(Integer(0), true) == [Close] && Pattern(Suppress, true) == [Close]
  {
    if n >= 1 {
      StripRepeat(n);
      assert ([Dashes] + Repeat([ArgOnce, Dashes], n))[1..] == Repeat([ArgOnce, Dashes], n);
    }
  }

  // ---------------------------------------------------------------------------
  // Backtracking matcher
  // ---------------------------------------------------------------------------

  function Closes(items: seq<Atom>): nat
  {
    if |items| == 0 then 0 else (if items[0] == Close then 1 else 0) + Closes(items[1..])
  }

  lemma {:induction false} ClosesAppend(x: seq<Atom>, y: seq<Atom>)
    ensures Closes(x + y) == Closes(x) + Closes(y)
    decreases |x|
  {
    if |x| > 0 {
      assert (x + y)[0] == x[0];
      assert (x + y)[1..] == x[1..] + y;
      ClosesAppend(x[1..], y);
    } else {
      assert x + y == y;
    }
  }

  /** Matches `items` against `text` from `pos` in the regex engine's order
      (a greedy quantifier first tries to take one more symbol) and returns the
      end position of every capture group of the first successful match. */
  function Bt(items: seq<Atom>, text: seq<Sym>, pos: nat): (r: Option<seq<nat>>)
    requires pos <= |text|
    ensures r.Some? ==> |r.value| == Closes(items)
    ensures r.Some? ==> forall k :: 0 <= k < |r.value| ==> pos <= r.value[k] <= |text|
    decreases |items|, |text| - pos
  {
    if |items| == 0 then Some([])
    else match items[0]
      case Close =>
        (match Bt(items[1..], text, pos)
         case None => None
         case Some(e) => Some([pos] + e))
      case Atom(c, q) =>
        var hit := pos < |text| && text[pos] in c;
        match q
        case Once => if hit then Bt(items[1..], text, pos + 1) else None
        case Maybe =>
          var t := if hit then Bt(items[1..], text, pos + 1) else None;
          if t.Some? then t else Bt(items[1..], text, pos)
        case Many =>
          var t := if hit then Bt(items, text, pos + 1) else None;
          if t.Some? then t else Bt(items[1..], text, pos)
  }

  /** `std::regex_search`: the first start position, scanning from `from`, at
      which the pattern matches, with the group ends of that match. */
  function SearchFrom(items: seq<Atom>, text: seq<Sym>, from: nat): (r: Option<(nat, seq<nat>)>)
    requires from <= |text|
    ensures r.Some? ==> from <= r.value.0 <= |text| && Bt(items, text, r.value.0) == Some(r.value.1)
    ensures r.Some? ==> forall k :: from <= k < r.value.0 ==> Bt(items, text, k).None?
    ensures r.None? ==> forall k :: from <= k <= |text| ==> Bt(items, text, k).None?
    decreases |text| - from
  {
    match Bt(items, text, from)
    case Some(e) => Some((from, e))
    case None => if from == |text| then None else SearchFrom(items, text, from + 1)
  }

  function Search(items: seq<Atom>, text: seq<Sym>): Option<(nat, seq<nat>)>
  {
    SearchFrom(items, text, 0)
  }

  /** `match.str(1).length()`: the length of the first capture group of the
      leftmost match, or no value when the search fails. */
  function Group1Length(items: seq<Atom>, text: seq<Sym>): (r: Option<nat>)
    requires Closes(items) >= 1
    ensures r.Some? ==> r.value <= |text|
    ensures r.Some? <==> exists k :: 0 <= k <= |text| && Bt(items, text, k).Some?
  {
    match Search(items, text)
    case None => None
    case Some((s, e)) =>
      assert Bt(items, text, s).Some?;
      Some(e[0] - s)
  }

  lemma PatternCloses(nargs: NArgs, optional: bool)
    ensures Closes(Pattern(nargs, optional)) >= 1
  {
    var body := if optional then Strip(PositionalPattern(nargs)) else PositionalPattern(nargs);
    ClosesAppend(body, [Close]);
  }

  /** `__match_argument`: the number of tokens the arity takes from the
      pattern string, measured from the leftmost match of its pattern. */
  function MatchArgument(nargs: NArgs, optional: bool, text: seq<Sym>): (r: Option<nat>)
    ensures r.Some? ==> r.value <= |text|
  {
    PatternCloses(nargs, optional);
    Group1Length(Pattern(nargs, optional), text)
  }

  /** The kind-specific failure of `__match_argument`. */
  datatype ArityFailure = ExpectedOne | ExpectedAtMostOne | ExpectedAtLeastOne | ExpectedCount(n: nat)

  function ArityFailureOf(nargs: NArgs): (f: ArityFailure)
    ensures nargs == Default <==> f == ExpectedOne
    ensures nargs == Optional <==> f == ExpectedAtMostOne
    ensures nargs == OneOrMore <==> f == ExpectedAtLeastOne
    ensures nargs.Integer? ==> f == ExpectedCount(nargs.n)
  {
    match nargs
    case Default => ExpectedOne
    case Optional => ExpectedAtMostOne
    case OneOrMore => ExpectedAtLeastOne
    case Integer(n) => ExpectedCount(n)
    // `get_nargs()` of the remaining kinds: parser resets it to 0; the others never fail to match
    case _ => ExpectedCount(0)
  }

  // ---------------------------------------------------------------------------
  // Positional runs: `__match_arguments_partial`
  // ---------------------------------------------------------------------------

  lemma {:induction false} RepeatAtoms(xs: seq<Atom>, n: nat)
    requires forall i :: 0 <= i < |xs| ==> xs[i].Atom?
    ensures forall i :: 0 <= i < |Repeat(xs, n)| ==> Repeat(xs, n)[i].Atom?
    decreases n
  {
    if n > 0 {
      RepeatAtoms(xs, n - 1);
    }
  }

  lemma {:induction false} NoCloses(items: seq<Atom>)
    requires forall i :: 0 <= i < |items| ==> items[i].Atom?
    ensures Closes(items) == 0
    decreases |items|
  {
    if |items| > 0 {
      NoCloses(items[1..]);
    }
  }

  lemma PositionalPatternCloses(nargs: NArgs)
    ensures Closes(PositionalPattern(nargs)) == 0
  {
    if nargs.Integer? && nargs.n > 0 {
      RepeatAtoms([ArgOnce, Dashes], nargs.n);
    }
    NoCloses(PositionalPattern(nargs));
  }

  /** The concatenated patterns of a list of positionals, one group each. */
  function Concat(kinds: seq<NArgs>): (r: seq<Atom>)
    ensures Closes(r) == |kinds|
  {
    if |kinds| == 0 then []
    else
      var rest := Concat(kinds[1..]);
      PositionalPatternCloses(kinds[0]);
      ClosesAppend(PositionalPattern(kinds[0]), [Close]);
      ClosesAppend(Pattern(kinds[0], false), rest);
      Pattern(kinds[0], false) + rest
  }

  /** `__match_arguments_partial`: the concatenation of the first k patterns is
      tried for k = |kinds| down to 1; the first that matches decides, and only
      the length of its FIRST group is reported. */
  function MatchPartial(kinds: seq<NArgs>, text: seq<Sym>): (r: Option<nat>)
    ensures r.Some? ==> r.value <= |text|
    ensures |kinds| == 0 ==> r.None?
  {
    PartialFrom(kinds, |kinds|, text)
  }

  function PartialFrom(kinds: seq<NArgs>, k: nat, text: seq<Sym>): (r: Option<nat>)
    requires k <= |kinds|
    ensures r.Some? ==> r.value <= |text|
    ensures k == 0 ==> r.None?
    decreases k
  {
    if k == 0 then None
    else match Group1Length(Concat(kinds[..k]), text)
      case Some(n) => Some(n)
      case None => PartialFrom(kinds, k - 1, text)
  }

  /** What `PartialFrom` computes: it fails exactly when no prefix of length
      1..k matches, ... */
  lemma {:induction false} PartialFromFails(kinds: seq<NArgs>, k: nat, text: seq<Sym>)
    requires k <= |kinds|
    ensures PartialFrom(kinds, k, text).None? <==>
      forall j :: 1 <= j <= k ==> Group1Length(Concat(kinds[..j]), text).None?
    decreases k
  {
    if k > 0 {
      var here := Group1Length(Concat(kinds[..k]), text);
      if here.None? {
        assert PartialFrom(kinds, k, text) == PartialFrom(kinds, k - 1, text);
        PartialFromFails(kinds, k - 1, text);
      } else {
        assert PartialFrom(kinds, k, text) == here;
      }
    }
  }

  /** The length of the leading run whose match `PartialFrom` reports, or 0
      when none matches. */
  function Chosen(kinds: seq<NArgs>, k: nat, text: seq<Sym>): (j: nat)
    requires k <= |kinds|
    ensures j <= k
    decreases k
  {
    if k == 0 || Group1Length(Concat(kinds[..k]), text).Some? then k
    else Chosen(kinds, k - 1, text)
  }

  lemma {:induction false} ChosenFacts(kinds: seq<NArgs>, k: nat, text: seq<Sym>)
    requires k <= |kinds|
    ensures PartialFrom(kinds, k, text).Some? ==> 1 <= Chosen(kinds, k, text)
    ensures PartialFrom(kinds, k, text).Some? ==>
      Group1Length(Concat(kinds[..Chosen(kinds, k, text)]), text) == PartialFrom(kinds, k, text)
    ensures forall i :: Chosen(kinds, k, text) < i <= k ==> Group1Length(Concat(kinds[..i]), text).None?
    decreases k
  {
    if k > 0 {
      var here := Group1Length(Concat(kinds[..k]), text);
      if here.None? {
        assert PartialFrom(kinds, k, text) == PartialFrom(kinds, k - 1, text);
        assert Chosen(kinds, k, text) == Chosen(kinds, k - 1, text);
        ChosenFacts(kinds, k - 1, text);
      } else {
        assert PartialFrom(kinds, k, text) == here;
        assert Chosen(kinds, k, text) == k;
      }
    }
  }

  /** ... and otherwise reports the first group of the LONGEST prefix that
      matches. */
  lemma PartialFromLongest(kinds: seq<NArgs>, k: nat, text: seq<Sym>)
    requires k <= |kinds|
    ensures PartialFrom(kinds, k, text).Some? ==>
      exists j :: 1 <= j <= k && Group1Length(Concat(kinds[..j]), text) == PartialFrom(kinds, k, text)
        && forall i :: j < i <= k ==> Group1Length(Concat(kinds[..i]), text).None?
  {
    ChosenFacts(kinds, k, text);
  }

  /** The same for the whole list of remaining positionals. */
  lemma MatchPartialLongest(kinds: seq<NArgs>, text: seq<Sym>)
    ensures MatchPartial(kinds, text).None? <==>
      forall j :: 1 <= j <= |kinds| ==> Group1Length(Concat(kinds[..j]), text).None?
    ensures MatchPartial(kinds, text).Some? ==>
      exists j :: 1 <= j <= |kinds| && Group1Length(Concat(kinds[..j]), text) == MatchPartial(kinds, text)
        && forall i :: j < i <= |kinds| ==> Group1Length(Concat(kinds[..i]), text).None?
  {
    PartialFromFails(kinds, |kinds|, text);
    PartialFromLongest(kinds, |kinds|, text);
  }

  /** With one positional left, the partial match is that positional's own
      pattern, so it takes exactly what `__match_argument` would. */
  lemma SinglePositional(nargs: NArgs, text: seq<Sym>)
    ensures MatchPartial([nargs], text) == MatchArgument(nargs, false, text)
  {
    assert [nargs][..1] == [nargs];
    assert [nargs][1..] == [];
    assert Concat([nargs]) == Pattern(nargs, false);
  }
}
