/** What `__parse_optional` does with each shape of token: `opt=value`,
    abbreviations of long options, a short option with its value attached,
    negative numbers and unknown options. */
module ClassifierFacts {
  import opened Wrappers
  import opened Strings
  import opened Errors
  import opened Parsers
  import opened Classifier

  /** The first '=' of `opt + "=" + value` is the one after `opt`. */
  lemma IndexOfEquals(opt: string, value: string)
    requires '=' !in opt
    ensures IndexOf(opt + "=" + value, '=') == Some(|opt|)
  {
    var t := opt + "=" + value;
    assert t[|opt|] == '=';
    assert t[..|opt|] == opt;
  }

  /** `opt=value` for a registered `opt` resolves to `opt` with the value. */
  lemma ExplicitAfterEquals(p: Parser, opt: string, value: string)
    requires MapSound(p) && opt in p.optionMap && '=' !in opt
    requires opt + "=" + value !in p.optionMap
    ensures ParseOptional(p, opt + "=" + value) == Ok(Some(Resolution(opt, Some(p.optionMap[opt]), value)))
  {
    var t := opt + "=" + value;
    IndexOfEquals(opt, value);
    assert t[..|opt|] == opt && t[|opt| + 1..] == value;
    assert t[0] == opt[0];
  }

  /** A long token that abbreviates exactly one option resolves to it when
      abbreviations are allowed. */
  lemma UniqueAbbreviation(p: Parser, token: string, k: string)
    requires MapSound(p) && p.allowAbbrev
    requires |token| >= 2 && token[0] == p.prefix && token[1] == p.prefix && '=' !in token && token !in p.optionMap
    requires k in p.optionMap && RFindIsZero(k, token)
    requires forall o :: o in p.optionMap && RFindIsZero(o, token) ==> o == k
    ensures ParseOptional(p, token) == Ok(Some(Resolution(k, Some(p.optionMap[k]), "")))
  {
    assert LongCandidates(p, token) == {k};
  }

  /** A long token that abbreviates two options is ambiguous, and the error
      lists both. */
  lemma AmbiguousAbbreviation(p: Parser, token: string, k1: string, k2: string)
    requires MapSound(p) && p.allowAbbrev
    requires |token| >= 2 && token[0] == p.prefix && token[1] == p.prefix && '=' !in token && token !in p.optionMap
    requires k1 in p.optionMap && RFindIsZero(k1, token) && k2 in p.optionMap && RFindIsZero(k2, token) && k1 != k2
    ensures ParseOptional(p, token).Err?
    ensures ParseOptional(p, token).error == AmbiguousOption(token, LongCandidates(p, token))
    ensures k1 in LongCandidates(p, token) && k2 in LongCandidates(p, token)
  {
    var cands := LongCandidates(p, token);
    assert IndexOf(token, '=').None?;
    assert cands - {k1} != {} by { assert k2 in cands - {k1}; }
    assert |cands| > 1 by {
      assert |cands - {k1}| > 0;
      assert cands == (cands - {k1}) + {k1};
    }
  }

  /** A single-prefix token that two registered options could stand for
      is ambiguous. */
  lemma AmbiguousShort(p: Parser, token: string, k1: string, k2: string)
    requires MapSound(p) && |token| >= 2 && token[0] == p.prefix && token[1] != p.prefix
    requires '=' !in token && token !in p.optionMap
    requires k1 in ShortCandidates(p, token) && k2 in ShortCandidates(p, token) && k1 != k2
    ensures ParseOptional(p, token) == Err(AmbiguousOption(token, ShortCandidates(p, token)))
  {
    var cands := ShortCandidates(p, token);
    assert IndexOf(token, '=').None?;
    assert cands - {k1} != {} by { assert k2 in cands - {k1}; }
    assert |cands| > 1 by {
      assert |cands - {k1}| > 0;
      assert cands == (cands - {k1}) + {k1};
    }
  }

  /** The bare prefix character is a positional string unless it is itself
      registered. */
  lemma BarePrefix(p: Parser)
    requires MapSound(p)
    ensures ParseOptional(p, [p.prefix]) ==
      if [p.prefix] in p.optionMap then Ok(Some(Resolution([p.prefix], Some(p.optionMap[[p.prefix]]), "")))
      else Ok(None)
  {
  }

  /** Without abbreviations, a long token that is not registered never
      selects a registered option. */
  lemma NoAbbreviation(p: Parser, token: string)
    requires MapSound(p) && !p.allowAbbrev
    requires |token| >= 2 && token[0] == p.prefix && token[1] == p.prefix && '=' !in token && token !in p.optionMap
    ensures ParseOptional(p, token).Ok?
    ensures ParseOptional(p, token).value.None? || ParseOptional(p, token).value.value.target.None?
  {
  }

  /** A single-prefix token whose first two characters are a registered
      option, and which no option extends, is that option with the rest of
      the token as its value. */
  lemma ShortOptionWithValue(p: Parser, token: string)
    requires MapSound(p) && |token| > 2 && token[0] == p.prefix && token[1] != p.prefix
    requires '=' !in token && token !in p.optionMap && token[..2] in p.optionMap
    requires forall o :: o in p.optionMap ==> !RFindIsZero(o, token)
    ensures ParseOptional(p, token) == Ok(Some(Resolution(token[..2], Some(p.optionMap[token[..2]]), token[2..])))
  {
    assert ShortCandidates(p, token) == {token[..2]};
  }

  /** After its sign, a negative number holds only digits and a dot. */
  lemma NegativeNumberChars(s: string)
    requires NegativeNumberLike(s)
    ensures forall i :: 1 <= i < |s| ==> s[i] == '.' || IsDigit(s[i])
  {
    if AllDigits(s[1..]) {
      forall i | 1 <= i < |s| ensures s[i] == '.' || IsDigit(s[i]) {
        assert s[i] == s[1..][i - 1];
      }
    } else {
      var k := IndexOf(s[1..], '.').value;
      forall i | 1 <= i < |s| ensures s[i] == '.' || IsDigit(s[i]) {
        if i - 1 < k {
          assert s[i] == s[1..][..k][i - 1];
        } else if i - 1 > k {
          assert s[i] == s[1..][k + 1..][i - 2 - k];
        }
      }
    }
  }

  /** A negative number is a positional string when no option looks like a
      negative number and none starts with it. */
  lemma NegativeNumberIsPositional(p: Parser, token: string)
    requires MapSound(p) && p.prefix == '-' && !p.hasNegativeNumberOptions
    requires NegativeNumberLike(token) && token !in p.optionMap && ShortCandidates(p, token) == {}
    ensures ParseOptional(p, token) == Ok(None)
  {
    NegativeNumberChars(token);
    assert forall i :: 0 <= i < |token| ==> token[i] != '=';
  }

  /** A prefixed token that matches no option in any way is an unknown
      option, unless it contains a space or is a negative number while no
      option looks like one; then it is a positional string. */
  lemma UnknownOption(p: Parser, token: string)
    requires MapSound(p) && |token| >= 2 && token[0] == p.prefix && '=' !in token && token !in p.optionMap
    requires token[1] == p.prefix ==> !p.allowAbbrev || LongCandidates(p, token) == {}
    requires token[1] != p.prefix ==> ShortCandidates(p, token) == {}
    ensures ParseOptional(p, token) ==
      if (NegativeNumberLike(token) && !p.hasNegativeNumberOptions) || ' ' in token then Ok(None)
      else Ok(Some(Resolution("", None, "")))
  {
  }

  /** Of `--foobar` and `--foonley`, only the second starts with `--foon`
      in the sense of `rfind`. */
  lemma FoonPrefixes()
    ensures RFindIsZero("--foonley", "--foon") && !RFindIsZero("--foobar", "--foon")
  {
    assert "--foonley"[..6] == "--foon";
    assert forall k: nat :: 0 < k <= 2 ==> !OccursAt("--foonley", "--foon", k) by {
      assert "--foonley"[1..7] != "--foon" by { assert "--foonley"[1..7][1] != "--foon"[1]; }
      assert "--foonley"[2..8] != "--foon" by { assert "--foonley"[2..8][0] != "--foon"[0]; }
    }
    assert "--foobar"[..6][5] != "--foon"[5];
  }

  /** `--foon` against `--foobar` and `--foonley` picks `--foonley`. */
  lemma FoonAbbreviatesFoonley(p: Parser)
    requires MapSound(p) && p.allowAbbrev && p.prefix == '-' && p.optionMap.Keys == {"--foobar", "--foonley"}
    ensures ParseOptional(p, "--foon") == Ok(Some(Resolution("--foonley", Some(p.optionMap["--foonley"]), "")))
  {
    FoonPrefixes();
    assert '=' !in "--foon";
    UniqueAbbreviation(p, "--foon", "--foonley");
  }
}
