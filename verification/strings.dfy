/** String helpers the parser relies on: `utils::join`, prefix tests with the
    source's `rfind(..) == 0` idiom, character search, and the decimal
    conversions behind `std::to_string` / `std::stoi` as used by the counting
    action. */
module Strings {
  import opened Wrappers

  /** `utils::join`: the parts separated by `sep`, no separator after the last. */
  function Join(parts: seq<string>, sep: string): (r: string)
    ensures |parts| == 0 ==> r == ""
    ensures |parts| == 1 ==> r == parts[0]
    ensures |parts| >= 1 ==> |r| >= |parts[0]| && r[..|parts[0]|] == parts[0]
  {
    if |parts| == 0 then ""
    else if |parts| == 1 then parts[0]
    else parts[0] + sep + Join(parts[1..], sep)
  }

  /** Sum of the lengths of the parts. */
  function TotalLength(parts: seq<string>): nat
  {
    if |parts| == 0 then 0 else |parts[0]| + TotalLength(parts[1..])
  }

  /** A joined string is exactly as long as its parts plus one separator
      between each pair of neighbours. */
  lemma {:induction false} JoinLength(parts: seq<string>, sep: string)
    requires |parts| >= 1
    ensures |Join(parts, sep)| == TotalLength(parts) + (|parts| - 1) * |sep|
    decreases |parts|
  {
    if |parts| > 1 {
      JoinLength(parts[1..], sep);
    }
  }

  /** Appending one more part to a non-empty list adds one separator and the part. */
  lemma {:induction false} JoinSnoc(parts: seq<string>, x: string, sep: string)
    requires |parts| >= 1
    ensures Join(parts + [x], sep) == Join(parts, sep) + sep + x
    decreases |parts|
  {
    if |parts| == 1 {
      assert parts + [x] == [parts[0], x];
      assert ([parts[0], x])[1..] == [x];
    } else {
      assert (parts + [x])[1..] == parts[1..] + [x];
      JoinSnoc(parts[1..], x, sep);
    }
  }

  /** Where part `k` begins in the parts joined by `sep`: after the `k`
      earlier parts and their `k` separators. */
  function PartStart(parts: seq<string>, sep: string, k: nat): nat
    requires k <= |parts|
  {
    TotalLength(parts[..k]) + k * |sep|
  }

  /** `r` is the parts laid end to end with `sep` between neighbours: it has
      the joined length, each part sits at its start, and a separator
      follows every part but the last. */
  predicate Joined(r: string, parts: seq<string>, sep: string)
    requires |parts| >= 1
  {
    && |r| == TotalLength(parts) + (|parts| - 1) * |sep|
    && (forall k :: 0 <= k < |parts| ==>
          PartStart(parts, sep, k) + |parts[k]| <= |r|
          && r[PartStart(parts, sep, k)..PartStart(parts, sep, k) + |parts[k]|] == parts[k])
    && (forall k :: 0 <= k < |parts| - 1 ==>
          PartStart(parts, sep, k) + |parts[k]| + |sep| <= |r|
          && r[PartStart(parts, sep, k) + |parts[k]|..PartStart(parts, sep, k) + |parts[k]| + |sep|] == sep)
  }

  /** Part `k >= 1` begins after the first part, one separator, and the
      start of part `k - 1` among the rest. */
  lemma PartStartTail(parts: seq<string>, sep: string, k: nat)
    requires 1 <= k <= |parts|
    ensures PartStart(parts, sep, k) == |parts[0]| + |sep| + PartStart(parts[1..], sep, k - 1)
  {
    assert parts[..k][1..] == parts[1..][..k - 1];
  }

  /** Part `k` of the joined string sits at its start. */
  lemma {:induction false} JoinPartAt(parts: seq<string>, sep: string, k: nat)
    requires k < |parts|
    ensures PartStart(parts, sep, k) + |parts[k]| <= |Join(parts, sep)|
    ensures Join(parts, sep)[PartStart(parts, sep, k)..PartStart(parts, sep, k) + |parts[k]|] == parts[k]
    decreases k
  {
    if k == 0 {
      assert parts[..0] == [];
    } else {
      PartStartTail(parts, sep, k);
      JoinPartAt(parts[1..], sep, k - 1);
      var o, a := |parts[0]| + |sep|, PartStart(parts[1..], sep, k - 1);
      var rest := Join(parts[1..], sep);
      assert Join(parts, sep)[o + a..o + a + |parts[k]|] == rest[a..a + |parts[k]|];
    }
  }

  /** A separator follows part `k` whenever another part comes after it. */
  lemma {:induction false} JoinSepAt(parts: seq<string>, sep: string, k: nat)
    requires k < |parts| - 1
    ensures PartStart(parts, sep, k) + |parts[k]| + |sep| <= |Join(parts, sep)|
    ensures Join(parts, sep)[PartStart(parts, sep, k) + |parts[k]|..PartStart(parts, sep, k) + |parts[k]| + |sep|] == sep
    decreases k
  {
    if k == 0 {
      assert parts[..0] == [];
    } else {
      PartStartTail(parts, sep, k);
      JoinSepAt(parts[1..], sep, k - 1);
      var o, a := |parts[0]| + |sep|, PartStart(parts[1..], sep, k - 1) + |parts[k]|;
      var rest := Join(parts[1..], sep);
      assert Join(parts, sep)[o + a..o + a + |sep|] == rest[a..a + |sep|];
    }
  }

  /** `Join` lays the parts out as `Joined` describes. */
  lemma JoinIsJoined(parts: seq<string>, sep: string)
    requires |parts| >= 1
    ensures Joined(Join(parts, sep), parts, sep)
  {
    JoinLength(parts, sep);
    forall k | 0 <= k < |parts|
      ensures PartStart(parts, sep, k) + |parts[k]| <= |Join(parts, sep)|
        && Join(parts, sep)[PartStart(parts, sep, k)..PartStart(parts, sep, k) + |parts[k]|] == parts[k]
    {
      JoinPartAt(parts, sep, k);
    }
    forall k | 0 <= k < |parts| - 1
      ensures PartStart(parts, sep, k) + |parts[k]| + |sep| <= |Join(parts, sep)|
        && Join(parts, sep)[PartStart(parts, sep, k) + |parts[k]|..PartStart(parts, sep, k) + |parts[k]| + |sep|] == sep
    {
      JoinSepAt(parts, sep, k);
    }
  }

  /** The loop of `utils::join`, computing the same string as `Join`. */
  method JoinLoop(text: seq<string>, chars: string) returns (ret: string)
    ensures ret == Join(text, chars)
  {
    ret := "";
    var i := 0;
    while i < |text|
      invariant 0 <= i <= |text|
      invariant i == 0 ==> ret == ""
      invariant 0 < i ==> ret == Join(text[..i], chars) + (if i < |text| then chars else "")
    {
      if i == 0 {
        assert text[..1] == [text[0]];
      } else {
        JoinSnoc(text[..i], text[i], chars);
        assert text[..i] + [text[i]] == text[..i + 1];
      }
      ret := ret + text[i];
      if i < |text| - 1 {
        ret := ret + chars;
      }
      i := i + 1;
    }
    assert text[..|text|] == text;
  }

  /** `s` begins with `p`. */
  predicate StartsWith(s: string, p: string)
  {
    |p| <= |s| && s[..|p|] == p
  }

  /** `p` occurs in `s` at offset `k`. */
  predicate OccursAt(s: string, p: string, k: nat)
  {
    k + |p| <= |s| && s[k..k + |p|] == p
  }

  /** The source's `s.rfind(p) == 0`: the LAST occurrence of `p` in `s` is at
      offset 0, i.e. `s` starts with `p` and `p` does not occur again later. */
  predicate RFindIsZero(s: string, p: string)
  {
    OccursAt(s, p, 0) && forall k: nat :: 0 < k <= |s| - |p| ==> !OccursAt(s, p, k)
  }

  /** `s.find(c)`: the first index holding `c`, if any. */
  function IndexOf(s: string, c: char): (r: Option<nat>)
    ensures r.Some? ==> r.value < |s| && s[r.value] == c && c !in s[..r.value]
    ensures r.None? ==> c !in s
  {
    if |s| == 0 then None
    else if s[0] == c then Some(0)
    else match IndexOf(s[1..], c)
      case None => None
      case Some(k) => assert s[1..][..k] == s[1..k + 1]; Some(k + 1)
  }

  /** `s.find_first_not_of(c)`: the first index not holding `c`, if any. */
  function FirstNotOf(s: string, c: char): (r: Option<nat>)
    ensures r.Some? ==> r.value < |s| && s[r.value] != c && forall j :: 0 <= j < r.value ==> s[j] == c
    ensures r.None? ==> forall j :: 0 <= j < |s| ==> s[j] == c
  {
    if |s| == 0 then None
    else if s[0] != c then Some(0)
    else match FirstNotOf(s[1..], c)
      case None => None
      case Some(k) => Some(k + 1)
  }

  /** Every occurrence of `from` replaced by `to`, everything else unchanged. */
  function ReplaceChar(s: string, from: char, to: char): (r: string)
    ensures |r| == |s|
    ensures forall i :: 0 <= i < |s| ==> r[i] == if s[i] == from then to else s[i]
  {
    if |s| == 0 then "" else [if s[0] == from then to else s[0]] + ReplaceChar(s[1..], from, to)
  }

  predicate IsDigit(c: char)
  {
    '0' <= c <= '9'
  }

  predicate AllDigits(s: string)
  {
    forall i :: 0 <= i < |s| ==> IsDigit(s[i])
  }

  function DigitChar(d: nat): (c: char)
    requires d < 10
    ensures IsDigit(c) && c as int - '0' as int == d
  {
    (d + '0' as int) as char
  }

  /** `std::to_string` on a natural number: its decimal digits, most significant first. */
  function NatToString(n: nat): (s: string)
    ensures |s| >= 1 && AllDigits(s)
    decreases n
  {
    if n < 10 then [DigitChar(n)] else NatToString(n / 10) + [DigitChar(n % 10)]
  }

  /** The number a string of decimal digits denotes. */
  function DigitsValue(s: string): nat
    requires AllDigits(s)
    decreases |s|
  {
    if |s| == 0 then 0
    else DigitsValue(s[..|s| - 1]) * 10 + (s[|s| - 1] as int - '0' as int)
  }

  /** The longest run of decimal digits at the front of `s`. */
  function LeadingDigits(s: string): (r: string)
    ensures AllDigits(r) && StartsWith(s, r)
    ensures |r| < |s| ==> !IsDigit(s[|r|])
  {
    if |s| == 0 || !IsDigit(s[0]) then "" else [s[0]] + LeadingDigits(s[1..])
  }

  const IntMin: int := -0x8000_0000
  const IntMax: int := 0x7fff_ffff

  /** 1 when `s` opens with a sign character, 0 otherwise. */
  function SignLength(s: string): (r: nat)
    ensures r <= |s|
  {
    if |s| > 0 && (s[0] == '-' || s[0] == '+') then 1 else 0
  }

  /** `std::stoi` on text without leading white space: an optional sign and
      the leading digits after it. There is no value (the source throws)
      when no digit follows the sign or the number does not fit in `int`. */
  function Stoi(s: string): (r: Option<int>)
    ensures r.Some? ==> IntMin <= r.value <= IntMax
    ensures |s| == SignLength(s) || !IsDigit(s[SignLength(s)]) ==> r.None?
    ensures r.Some? && SignLength(s) == 0 ==> r.value >= 0
  {
    var d := LeadingDigits(s[SignLength(s)..]);
    if |d| == 0 then None
    else
      var v: int := if SignLength(s) == 1 && s[0] == '-' then 0 - DigitsValue(d) as int else DigitsValue(d);
      if IntMin <= v <= IntMax then Some(v) else None
  }

  lemma {:induction false} LeadingDigitsOfDigits(s: string)
    requires AllDigits(s)
    ensures LeadingDigits(s) == s
    decreases |s|
  {
    if |s| > 0 {
      LeadingDigitsOfDigits(s[1..]);
      assert [s[0]] + s[1..] == s;
    }
  }

  lemma {:induction false} DigitsValueNatToString(n: nat)
    ensures DigitsValue(NatToString(n)) == n
    decreases n
  {
    var s := NatToString(n);
    if n >= 10 {
      DigitsValueNatToString(n / 10);
      assert s[..|s| - 1] == NatToString(n / 10);
    }
  }

  /** `std::stoi(std::to_string(n)) == n` for every `n` an `int` can hold:
      the decimal conversions round-trip. */
  lemma StoiNatToString(n: nat)
    requires n <= IntMax
    ensures Stoi(NatToString(n)) == Some(n)
  {
    var s := NatToString(n);
    assert s[SignLength(s)..] == s;
    LeadingDigitsOfDigits(s);
    DigitsValueNatToString(n);
  }

  /** A minus sign in front of the digits of `n` reads back as `-n`. */
  lemma StoiNegative(n: nat)
    requires n <= -IntMin
    ensures Stoi("-" + NatToString(n)) == Some(-(n as int))
  {
    var s := "-" + NatToString(n);
    assert s[SignLength(s)..] == NatToString(n);
    LeadingDigitsOfDigits(NatToString(n));
    DigitsValueNatToString(n);
  }
}
