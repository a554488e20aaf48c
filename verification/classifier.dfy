/** Deciding, token by token, whether a command-line string is an option
    (`__parse_optional`) and turning the command line into the pattern of
    `A`, `O` and `-` symbols the arity matcher works on. */
module Classifier {
  import opened Wrappers
  import opened Strings
  import opened NArgs
  import opened Errors
  import opened Parsers

  /** How an option token was resolved: the option string it stands for,
      the argument it selects (none for an option this parser does not know)
      and the explicit value that came with it. */
  datatype Resolution = Resolution(optString: string, target: Option<nat>, explicit: string)

  /** The keys a token starting with two prefix characters abbreviates: those
      in which `before` occurs at the start and nowhere later. */
  function LongCandidates(p: Parser, before: string): (r: set<string>)
    ensures forall k :: k in r <==> k in p.optionMap && RFindIsZero(k, before)
  {
    set k | k in p.optionMap && RFindIsZero(k, before)
  }

  /** The keys a single-prefix token may stand for: its first two characters
      (the rest being the value), or a key it abbreviates. */
  function ShortCandidates(p: Parser, token: string): (r: set<string>)
    requires |token| >= 2
    ensures forall k :: k in r <==> k in p.optionMap && (k == token[..2] || RFindIsZero(k, token))
  {
    set k | k in p.optionMap && (k == token[..2] || RFindIsZero(k, token))
  }

  lemma SingletonUnique(s: set<string>)
    requires |s| == 1
    ensures forall a, b :: a in s && b in s ==> a == b
  {
    var x :| x in s;
    var t := s - {x};
    assert |t| == 0;
    assert t == {};
    assert s == {x};
  }

  /** The part of `token` before its first '=', and the part after it. */
  function SplitAtEquals(token: string): (r: (string, string))
    ensures IndexOf(token, '=').None? ==> r == (token, "")
    ensures IndexOf(token, '=').Some? ==>
      var i := IndexOf(token, '=').value; r == (token[..i], token[i + 1..])
    ensures |r.0| <= |token| && r.0 == token[..|r.0|]
  {
    match IndexOf(token, '=')
    case None => (token, "")
    case Some(i) => (token[..i], token[i + 1..])
  }

  /** `__parse_optional`: no resolution means the token is a positional
      string; a resolution without target is an option this parser does not
      know. More than one possible option is an error. */
  function ParseOptional(p: Parser, token: string): (r: Result<Option<Resolution>, ParseError>)
    requires MapSound(p)
    ensures |token| == 0 || token[0] != p.prefix ==> r == Ok(None)
    ensures token in p.optionMap ==> r == Ok(Some(Resolution(token, Some(p.optionMap[token]), "")))
    ensures r.Ok? && r.value.Some? && r.value.value.target.Some? ==>
      r.value.value.optString in p.optionMap && r.value.value.target.value == p.optionMap[r.value.value.optString]
    ensures r.Ok? && r.value.Some? && r.value.value.target.None? ==>
      r.value.value == Resolution("", None, "") && ' ' !in token && |token| >= 2
      && (NegativeNumberLike(token) ==> p.hasNegativeNumberOptions)
    ensures r.Ok? && r.value.None? ==> token !in p.optionMap
    ensures r.Err? ==> (r.error.AmbiguousOption? && r.error.token == token && |r.error.candidates| >= 2
      && forall c :: c in r.error.candidates ==> c in p.optionMap)
  {
    if |token| == 0 || token[0] != p.prefix then Ok(None)
    else if token in p.optionMap then Ok(Some(Resolution(token, Some(p.optionMap[token]), "")))
    else if |token| == 1 then Ok(None)
    else
      var (before, after) := SplitAtEquals(token);
      if IndexOf(token, '=').Some? && before in p.optionMap then
        Ok(Some(Resolution(before, Some(p.optionMap[before]), after)))
      else
        var long := token[1] == p.prefix;
        var cands := if long then (if p.allowAbbrev then LongCandidates(p, before) else {})
                     else ShortCandidates(p, token);
        if |cands| > 1 then
          Err(AmbiguousOption(token, cands))
        else if |cands| == 1 then
          SingletonUnique(cands);
          var k :| k in cands;
          var explicit := if long then after else if k == token[..2] then token[2..] else "";
          Ok(Some(Resolution(k, Some(p.optionMap[k]), explicit)))
        else if NegativeNumberLike(token) && !p.hasNegativeNumberOptions then Ok(None)
        else if ' ' in token then Ok(None)
        else Ok(Some(Resolution("", None, "")))
  }

  /** No "--" among the first `j` strings of the command line. */
  predicate NoSeparatorBefore(tokens: seq<string>, j: nat)
    requires j <= |tokens|
  {
    "--" !in tokens[..j]
  }

  /** `n` plain strings. */
  function Plains(n: nat): (r: seq<Sym>)
    ensures |r| == n && forall j :: 0 <= j < n ==> r[j] == A
  {
    if n == 0 then [] else [A] + Plains(n - 1)
  }

  /** `n` strings that resolve to no option. */
  function Unresolved(n: nat): (r: seq<Option<Resolution>>)
    ensures |r| == n && forall j :: 0 <= j < n ==> r[j] == None
  {
    if n == 0 then [] else [None] + Unresolved(n - 1)
  }

  /** The symbols of a command line: `-` for the first "--", `A` for every
      later string, and up to there `O` for options and `A` for the rest;
      beside it, the resolution of every option. */
  function Classify(p: Parser, tokens: seq<string>): (r: Result<(seq<Sym>, seq<Option<Resolution>>), ParseError>)
    requires MapSound(p)
    ensures r.Ok? ==> |r.value.0| == |tokens| && |r.value.1| == |tokens|
    ensures r.Ok? ==> forall j :: 0 <= j < |tokens| ==> (r.value.0[j] == O <==> r.value.1[j].Some?)
    decreases |tokens|
  {
    if |tokens| == 0 then Ok(([], []))
    else if tokens[0] == "--" then Ok(([Sep] + Plains(|tokens| - 1), Unresolved(|tokens|)))
    else
      var head :- ParseOptional(p, tokens[0]);
      var rest :- Classify(p, tokens[1..]);
      Ok(([if head.Some? then O else A] + rest.0, [head] + rest.1))
  }

  /** A prefix of the command line that starts with something other than
      "--" is free of "--" exactly when the prefix of the rest is. */
  lemma SeparatorShift(tokens: seq<string>)
    requires |tokens| > 0 && tokens[0] != "--"
    ensures forall j :: 0 < j <= |tokens| ==> (NoSeparatorBefore(tokens, j) <==> NoSeparatorBefore(tokens[1..], j - 1))
  {
    forall j | 0 < j <= |tokens|
      ensures NoSeparatorBefore(tokens, j) <==> NoSeparatorBefore(tokens[1..], j - 1)
    {
      assert tokens[..j] == [tokens[0]] + tokens[1..][..j - 1];
    }
  }

  /** Only the first "--" is a separator, everything after it is a plain
      string, and every string before it is classified on its own. */
  lemma {:induction false} ClassifySymbols(p: Parser, tokens: seq<string>)
    requires MapSound(p) && Classify(p, tokens).Ok?
    ensures var (syms, res) := Classify(p, tokens).value;
      forall j :: 0 <= j < |tokens| ==>
        (syms[j] == Sep <==> tokens[j] == "--" && NoSeparatorBefore(tokens, j))
        && (!NoSeparatorBefore(tokens, j) ==> syms[j] == A)
        && (NoSeparatorBefore(tokens, j) && tokens[j] != "--" ==> ParseOptional(p, tokens[j]) == Ok(res[j]))
    decreases |tokens|
  {
    var (syms, res) := Classify(p, tokens).value;
    if |tokens| == 0 {
    } else if tokens[0] == "--" {
      forall j | 0 < j < |tokens| ensures !NoSeparatorBefore(tokens, j) {
        assert tokens[..j][0] == "--";
      }
    } else {
      ClassifySymbols(p, tokens[1..]);
      SeparatorShift(tokens);
      assert NoSeparatorBefore(tokens, 0);
      var (rs, rr) := Classify(p, tokens[1..]).value;
      forall j | 0 < j < |tokens|
        ensures syms[j] == rs[j - 1] && res[j] == rr[j - 1] && tokens[j] == tokens[1..][j - 1]
      {
      }
    }
  }

  /** The command line is rejected exactly when a string before the first
      "--" is an ambiguous option. */
  lemma {:induction false} ClassifyFails(p: Parser, tokens: seq<string>)
    requires MapSound(p)
    ensures Classify(p, tokens).Err? <==>
      exists j :: 0 <= j < |tokens| && NoSeparatorBefore(tokens, j) && tokens[j] != "--"
        && ParseOptional(p, tokens[j]).Err?
    decreases |tokens|
  {
    if |tokens| == 0 {
    } else if tokens[0] == "--" {
      forall j | 0 < j < |tokens| ensures !NoSeparatorBefore(tokens, j) {
        assert tokens[..j][0] == "--";
      }
    } else {
      ClassifyFails(p, tokens[1..]);
      SeparatorShift(tokens);
      assert NoSeparatorBefore(tokens, 0);
      if Classify(p, tokens).Err? && ParseOptional(p, tokens[0]).Ok? {
        var j :| 0 <= j < |tokens[1..]| && NoSeparatorBefore(tokens[1..], j) && tokens[1..][j] != "--"
          && ParseOptional(p, tokens[1..][j]).Err?;
        assert NoSeparatorBefore(tokens, j + 1);
      }
      if ParseOptional(p, tokens[0]).Ok? && Classify(p, tokens[1..]).Ok? {
        forall j | 0 < j < |tokens| && NoSeparatorBefore(tokens, j) && tokens[j] != "--"
          ensures ParseOptional(p, tokens[j]).Ok?
        {
          assert tokens[j] == tokens[1..][j - 1];
        }
      }
    }
  }
}
