/** The failures a parse can end in, and the text the source composes for
    them. Every `throw` and every `__error` of the parsing core becomes one
    constructor; printing and process exit are not modelled, so a failure is
    simply returned. */
module Errors {
  import opened Wrappers
  import opened NArgs
  import opened Strings

  /** Why an `argument_error` was raised; rendered after "argument NAME: ". */
  datatype Reason =
    | Arity(failure: ArityFailure)
    | IgnoredExplicit(value: string)
    | InvalidChoice(value: string, choices: seq<string>)
    | NotAllowedWith(other: string)
    | UnknownParser(name: string, choices: seq<string>)
    | ConflictingOptions(options: seq<string>)
    | ConflictingSubparser(name: string)
    | ConflictingAlias(alias: string)
    | AddParserUnsupported

  datatype ParseError =
    | ArgumentError(argument: string, reason: Reason)
    | AmbiguousOption(token: string, candidates: set<string>)
    | MissingRequired(names: seq<string>)
    | MissingGroup(names: seq<string>)
    | Unrecognized(extras: seq<string>)
    | HelpExit                       // the help action prints help and exits with status 0
    | NotANumber(value: string)      // `std::stoi` in the counting action throws
    | EmptyValues(argument: string)  // `values[0]` of an empty list: undefined in the source
    | InvalidNargsValue
    | StoreZeroNargs
    | AppendZeroNargs
    | ConstNeedsOptional
    | RequiredForPositional
    | InvalidOptionString(option: string)
    | OptionOutOfRange(option: string) // `substr(npos)` on an option made only of prefix characters
    | MultipleSubparsers

  function Quote(s: string): string
  {
    "'" + s + "'"
  }

  function QuoteAll(xs: seq<string>): (r: seq<string>)
    ensures |r| == |xs|
    ensures forall i :: 0 <= i < |xs| ==> r[i] == Quote(xs[i])
  {
    if |xs| == 0 then [] else [Quote(xs[0])] + QuoteAll(xs[1..])
  }

  /** `get_choice_str`: each choice in single quotes, separated by ", ". */
  function ChoiceStr(choices: seq<string>): string
  {
    Join(QuoteAll(choices), ", ")
  }

  function ArityText(f: ArityFailure): string
  {
    match f
    case ExpectedOne => "expected one argument"
    case ExpectedAtMostOne => "expected at most one argument"
    case ExpectedAtLeastOne => "expected at least one argument"
    case ExpectedCount(n) => "expected " + NatToString(n) + " argument(s)"
  }

  /** The count message has a digit where the others have a letter. */
  lemma CountTextDigit(n: nat)
    ensures IsDigit(ArityText(ExpectedCount(n))[9])
    ensures forall f: ArityFailure :: !f.ExpectedCount? ==> !IsDigit(ArityText(f)[9])
  {
    assert ArityText(ExpectedCount(n))[9] == NatToString(n)[0];
  }

  /** Different arity failures read differently, so the message names the
      failure that happened. */
  lemma ArityTextInjective(f: ArityFailure, g: ArityFailure)
    requires ArityText(f) == ArityText(g)
    ensures f == g
  {
    var s := ArityText(f);
    if f.ExpectedCount? && g.ExpectedCount? {
      var a := NatToString(f.n);
      var b := NatToString(g.n);
      assert |a| == |b|;
      assert a == s[9..9 + |a|] == b;
      DigitsValueNatToString(f.n);
      DigitsValueNatToString(g.n);
    } else if !f.ExpectedCount? && !g.ExpectedCount? {
      assert s[9..13] == ArityText(g)[9..13];
    } else {
      CountTextDigit(if f.ExpectedCount? then f.n else g.n);
    }
  }

  function ReasonText(r: Reason): string
  {
    match r
    case Arity(f) => ArityText(f)
    case IgnoredExplicit(v) => "ignored explicit argument " + v
    case InvalidChoice(v, cs) => "invalid choice: " + v + " (choose from " + ChoiceStr(cs) + ")"
    case NotAllowedWith(o) => "not allowed with argument " + o
    case UnknownParser(n, cs) => "unknown parser " + n + " (choices: " + ChoiceStr(cs) + ")"
    case ConflictingOptions(os) => "conflicting option string(s): " + Join(os, ", ")
    case ConflictingSubparser(n) => "conflicting subparser: " + n
    case ConflictingAlias(a) => "conflicting subparser alias: " + a
    case AddParserUnsupported => "add_parser is not supported for this argument"
  }

  /** The message the source composes for a failure, when it composes one:
      help exits without a message, and the failures raised inside the C++
      standard library or left undefined carry no text of the source's own.
      The candidates of an ambiguous option come from an unordered map, so
      the order in which that message lists them is a parameter. */
  function Message(e: ParseError, listed: seq<string>): Option<string>
    requires e.AmbiguousOption? ==> forall c :: c in listed <==> c in e.candidates
  {
    match e
    case ArgumentError(name, r) => Some("argument " + name + ": " + ReasonText(r))
    case AmbiguousOption(t, _) => Some("ambiguous option: " + t + " could match " + Join(listed, ", "))
    case MissingRequired(ns) => Some("the following arguments are required: " + Join(ns, ", "))
    case MissingGroup(ns) => Some("one of the arguments " + Join(ns, " ") + " is required")
    case Unrecognized(xs) => Some("unrecognized arguments: " + Join(xs, " "))
    case HelpExit => None
    case NotANumber(_) => None
    case EmptyValues(_) => None
    case InvalidNargsValue => Some("invalid nargs value")
    case StoreZeroNargs => Some("nargs for store actions must be != 0; if you have nothing to store, actions such as store true or false const may be more appropriate")
    case AppendZeroNargs => Some("nargs for append actions must be != 0; if arg strings are not supplying the value to append, the append const action may be more appropriate")
    case ConstNeedsOptional => Some("nargs must be '?'(optional) to supply const")
    case RequiredForPositional => Some("'required' is an invalid argument for positionals")
    case InvalidOptionString(o) => Some("invalid option string '" + o + "': must start with a character '-'")
    case OptionOutOfRange(_) => None
    case MultipleSubparsers => Some(" cannot have multiple subparser arguments")
  }
}
