/** One argument of a parser: how it is named, how many tokens it takes,
    what it does with them, and the two steps that turn tokens into values
    (`__get_values`) and that prepare it for a parse (`initialize`). */
module Arguments {
  import opened Wrappers
  import opened Strings
  import opened NArgs
  import opened Errors

  /** `Argument::SUPPRESS`: a value, destination or help text marked as absent. */
  const SUPPRESS: string := "===SUPPRESS==="

  datatype ArgKind = PositionalArg | OptionalArg | SubcommandArg

  /** The built-in actions; `SelectParser` is the action `add_subparsers` installs. */
  datatype Action =
    | Store | StoreConst | StoreTrue | StoreFalse
    | Append | AppendConst | Count | Help | SelectParser

  datatype Argument = Argument(
    kind: ArgKind,
    optionStrings: seq<string>,
    action: Action,
    nargs: NArgs,
    required: bool,
    help: string,
    dest: string,
    choices: seq<string>,
    constValue: seq<string>,
    defaultValue: seq<string>)

  /** A freshly constructed argument: every field at its default. */
  const Blank := Argument(PositionalArg, [], Store, Default, false, "", "", [], [], [])

  /** `get_argument_name`: the option strings joined by "/", else the
      destination, else the choices in braces, else nothing. */
  function ArgumentName(a: Argument): (r: string)
    ensures |a.optionStrings| > 0 ==> StartsWith(r, a.optionStrings[0])
    ensures |a.optionStrings| == 0 && a.dest != "" && a.dest != SUPPRESS ==> r == a.dest
    ensures |a.optionStrings| == 0 ==> (r == "" <==> (a.dest == "" || a.dest == SUPPRESS) && |a.choices| == 0)
    ensures |a.optionStrings| == 0 && (a.dest == "" || a.dest == SUPPRESS) && |a.choices| > 0 ==>
      |r| >= 2 && r[0] == '{' && r[|r| - 1] == '}'
  {
    if |a.optionStrings| > 0 then Join(a.optionStrings, "/")
    else if a.dest != "" && a.dest != SUPPRESS then a.dest
    else if |a.choices| > 0 then "{" + Join(a.choices, ",") + "}"
    else ""
  }

  /** The contents of a name: an option's strings laid out with "/"
      between them, or the choices laid out with "," inside the braces. */
  lemma ArgumentNameLayout(a: Argument)
    ensures |a.optionStrings| > 0 ==> Joined(ArgumentName(a), a.optionStrings, "/")
    ensures |a.optionStrings| == 0 && (a.dest == "" || a.dest == SUPPRESS) && |a.choices| > 0 ==>
      Joined(ArgumentName(a)[1..|ArgumentName(a)| - 1], a.choices, ",")
  {
    if |a.optionStrings| > 0 {
      JoinIsJoined(a.optionStrings, "/");
    } else if (a.dest == "" || a.dest == SUPPRESS) && |a.choices| > 0 {
      var inner := Join(a.choices, ",");
      JoinIsJoined(a.choices, ",");
      assert ("{" + inner + "}")[1..|inner| + 1] == inner;
    }
  }

  /** Two option strings are shown as `-f/--foo`; a destination-less
      argument with two choices as `{a,b}`. */
  lemma TwoPartNames(a: Argument, s: string, t: string)
    ensures a.optionStrings == [s, t] ==> ArgumentName(a) == s + "/" + t
    ensures a.optionStrings == [] && a.dest == SUPPRESS && a.choices == [s, t] ==>
      ArgumentName(a) == "{" + s + "," + t + "}"
  {
    assert [s, t][1..] == [t];
  }

  // ---------------------------------------------------------------- values

  /** The tokens handed to `__get_values` with a leading "--" removed; parser
      and remainder arguments keep it. */
  function DropSeparator(nargs: NArgs, tokens: seq<string>): (r: seq<string>)
    ensures r == tokens || (|tokens| > 0 && tokens[0] == "--" && r == tokens[1..])
    ensures (nargs == Subparser || nargs == Remainder) ==> r == tokens
    ensures |r| > 0 && nargs != Subparser && nargs != Remainder ==> r == tokens[|tokens| - |r|..]
  {
    if nargs != Subparser && nargs != Remainder && |tokens| > 0 && tokens[0] == "--" then tokens[1..]
    else tokens
  }

  /** The values an argument receives before the choice check: the tokens
      themselves, the constant or default when no token was given, or the
      suppression marker. */
  function RawValues(a: Argument, tokens: seq<string>): (r: seq<string>)
    ensures var t := DropSeparator(a.nargs, tokens);
      && (a.nargs == Suppress ==> r == [SUPPRESS])
      && (a.nargs != Suppress && |t| > 0 ==> r == t)
      && (|t| == 0 && a.nargs == Optional && a.kind == OptionalArg ==> r == a.constValue)
      && (|t| == 0 && a.nargs == Optional && a.kind != OptionalArg ==> r == a.defaultValue)
      && (|t| == 0 && a.nargs == ZeroOrMore && a.kind != OptionalArg ==> r == a.defaultValue)
      && ((|t| == 0 && a.nargs != Suppress
           && !(a.nargs == Optional || (a.nargs == ZeroOrMore && a.kind != OptionalArg))) ==> r == [])
  {
    var t := DropSeparator(a.nargs, tokens);
    if |t| == 0 && a.nargs == Optional then
      (if a.kind == OptionalArg then a.constValue else a.defaultValue)
    else if |t| == 0 && a.nargs == ZeroOrMore && a.kind != OptionalArg then a.defaultValue
    else if |t| == 1 && (a.nargs == Default || a.nargs == Optional) then [t[0]]
    else if a.nargs == Remainder || a.nargs == Subparser then t
    else if a.nargs == Suppress then [SUPPRESS]
    else t
  }

  /** A value is acceptable when it is empty or one of the choices. */
  predicate Allowed(value: string, choices: seq<string>)
  {
    value == "" || value in choices
  }

  /** The index of the first value that is not allowed, looking only at the
      first value when `onlyFirst` holds. */
  function FirstInvalid(values: seq<string>, choices: seq<string>, onlyFirst: bool): (r: Option<nat>)
    ensures r.Some? ==> r.value < |values| && !Allowed(values[r.value], choices)
    ensures r.Some? ==> forall j :: 0 <= j < r.value ==> Allowed(values[j], choices)
    ensures r.Some? && onlyFirst ==> r.value == 0
    ensures r.None? <==> forall j :: 0 <= j < |values| && (!onlyFirst || j == 0) ==> Allowed(values[j], choices)
  {
    if |values| == 0 then None
    else if !Allowed(values[0], choices) then Some(0)
    else if onlyFirst then None
    else match FirstInvalid(values[1..], choices, false)
      case None => None
      case Some(k) => Some(k + 1)
  }

  /** `__get_values`: the values, or an invalid-choice error naming the first
      value outside a non-empty choice list (only the first value is checked
      for a subcommand argument). */
  function GetValues(a: Argument, tokens: seq<string>): (r: Result<seq<string>, ParseError>)
    ensures r.Ok? ==> r.value == RawValues(a, tokens)
    ensures r.Ok? <==> (|a.choices| == 0 ||
      forall j :: 0 <= j < |RawValues(a, tokens)| && (a.nargs != Subparser || j == 0) ==>
        Allowed(RawValues(a, tokens)[j], a.choices))
    ensures r.Err? ==> (r.error.ArgumentError? && r.error.argument == ArgumentName(a)
      && r.error.reason.InvalidChoice? && r.error.reason.value in RawValues(a, tokens)
      && r.error.reason.value !in a.choices && r.error.reason.choices == a.choices)
  {
    var ret := RawValues(a, tokens);
    if |a.choices| == 0 then Ok(ret)
    else match FirstInvalid(ret, a.choices, a.nargs == Subparser)
      case None => Ok(ret)
      case Some(i) => Err(ArgumentError(ArgumentName(a), InvalidChoice(ret[i], a.choices)))
  }

  // ------------------------------------------------------- initialization

  /** The `get_valid` check of the argument's action: store and append refuse
      `nargs` 0 and a constant without `nargs` '?'. */
  function Validate(a: Argument): (r: Option<ParseError>)
    ensures r.Some? ==> a.action == Store || a.action == Append
    ensures r.Some? <==> ((a.action == Store || a.action == Append)
      && (a.nargs == Integer(0) || (|a.constValue| > 0 && a.nargs != Optional)))
    ensures r == Some(ConstNeedsOptional) ==> |a.constValue| > 0 && a.nargs != Optional
  {
    if a.action == Store && a.nargs == Integer(0) then Some(StoreZeroNargs)
    else if a.action == Append && a.nargs == Integer(0) then Some(AppendZeroNargs)
    else if (a.action == Store || a.action == Append) && |a.constValue| > 0 && a.nargs != Optional then
      Some(ConstNeedsOptional)
    else None
  }

  /** `Argument::initialize`: a positional that always takes a token, or a
      '*' positional without default, becomes required; then the action's
      check runs. Nothing else about the argument changes. */
  function Initialize(a: Argument): (r: Result<Argument, ParseError>)
    ensures r.Err? <==> Validate(a).Some?
    ensures r.Ok? ==> r.value == a.(required := r.value.required)
    ensures r.Ok? && a.required ==> r.value.required
    ensures r.Ok? && a.kind != PositionalArg ==> r.value.required == a.required
    ensures r.Ok? && a.kind == PositionalArg ==>
      (r.value.required <==> a.required || (a.nargs != Optional && (a.nargs != ZeroOrMore || a.defaultValue == [])))
  {
    var req := a.required ||
      (a.kind == PositionalArg && a.nargs != Optional && (a.nargs != ZeroOrMore || a.defaultValue == []));
    var b := a.(required := req);
    match Validate(b)
    case Some(e) => Err(e)
    case None => Ok(b)
  }

  /** `set_required`: refused for positionals. */
  function SetRequired(a: Argument, required: bool): (r: Result<Argument, ParseError>)
    ensures r.Err? <==> a.kind == PositionalArg
    ensures r.Ok? ==> r.value == a.(required := required)
  {
    if a.kind == PositionalArg then Err(RequiredForPositional) else Ok(a.(required := required))
  }

  /** `set_nargs(char)`: '?', '*' or '+', anything else refused. */
  function SetNargsChar(a: Argument, c: char): (r: Result<Argument, ParseError>)
    ensures r.Err? <==> c !in {'?', '*', '+'}
    ensures r.Ok? ==> r.value == a.(nargs := r.value.nargs) && r.value.nargs in {Optional, ZeroOrMore, OneOrMore}
  {
    match NArgsOfChar(c)
    case None => Err(InvalidNargsValue)
    case Some(n) => Ok(a.(nargs := n))
  }

  /** The `initialize` of each built-in action, run when the argument is
      created: the flag-like actions take no token, cannot be required and
      (for store true/false) get their constant and default. */
  function InitAction(a: Argument): (r: Result<Argument, ParseError>)
    ensures r.Err? <==> a.kind == PositionalArg && a.action !in {Store, Help, SelectParser}
    ensures r.Ok? && a.action in {StoreConst, StoreTrue, StoreFalse, AppendConst, Count, Help} ==>
      r.value.nargs == Integer(0)
    ensures r.Ok? && a.action !in {Store, Help, SelectParser} ==> !r.value.required
    ensures r.Ok? ==> (r.value.optionStrings == a.optionStrings && r.value.kind == a.kind
      && r.value.action == a.action && r.value.choices == a.choices)
  {
    match a.action
    case Store => Ok(a)
    case SelectParser => Ok(a)
    case StoreConst =>
      var b :- SetRequired(a, false); Ok(b.(nargs := Integer(0)))
    case StoreTrue =>
      var b :- SetRequired(a.(constValue := ["true"], defaultValue := ["false"]), false);
      Ok(b.(nargs := Integer(0)))
    case StoreFalse =>
      var b :- SetRequired(a.(constValue := ["false"], defaultValue := ["true"]), false);
      Ok(b.(nargs := Integer(0)))
    case Append => SetRequired(a, false)
    case AppendConst =>
      var b :- SetRequired(a.(nargs := Integer(0)), false); Ok(b)
    case Count =>
      var b :- SetRequired(a.(nargs := Integer(0)), false); Ok(b)
    case Help => Ok(a.(nargs := Integer(0), defaultValue := [SUPPRESS], dest := SUPPRESS))
  }

  /** An option string whose second character is '-' names the destination. */
  predicate IsLong(s: string)
  {
    |s| >= 2 && s[1] == '-'
  }

  /** The first long option string, if any. */
  function FirstLong(options: seq<string>): (r: Option<nat>)
    ensures r.Some? ==> r.value < |options| && IsLong(options[r.value])
    ensures r.Some? ==> forall j :: 0 <= j < r.value ==> !IsLong(options[j])
    ensures r.None? ==> forall j :: 0 <= j < |options| ==> !IsLong(options[j])
  {
    if |options| == 0 then None
    else if IsLong(options[0]) then Some(0)
    else match FirstLong(options[1..])
      case None => None
      case Some(k) => Some(k + 1)
  }

  /** `s.substr(s.find_first_not_of(prefix))`: the option without its prefix
      characters, out of range when it has nothing else. */
  function StripPrefix(s: string, prefix: char): (r: Result<string, ParseError>)
    ensures r.Err? <==> forall j :: 0 <= j < |s| ==> s[j] == prefix
    ensures r.Ok? ==> 0 < |r.value| <= |s| && r.value[0] != prefix && s == s[..|s| - |r.value|] + r.value
    ensures r.Ok? ==> forall j :: 0 <= j < |s| - |r.value| ==> s[j] == prefix
  {
    match FirstNotOf(s, prefix)
    case None => Err(OptionOutOfRange(s))
    case Some(k) => Ok(s[k..])
  }

  /** The destination of an optional: from the first long option string,
      else (when no destination is set yet) from the first option string,
      with every '-' turned into '_'. */
  function DeriveDest(options: seq<string>, prefix: char, current: string): (r: Result<string, ParseError>)
    requires |options| >= 1
    ensures r.Ok? ==> forall j :: 0 <= j < |r.value| ==> r.value[j] != '-'
    ensures r.Ok? && FirstLong(options).None? && current != "" ==> r.value == ReplaceChar(current, '-', '_')
    ensures FirstLong(options).Some? ==>
      (r.Err? <==> StripPrefix(options[FirstLong(options).value], prefix).Err?)
  {
    var d :-
      match FirstLong(options)
      case Some(i) => StripPrefix(options[i], prefix)
      case None => if current == "" then StripPrefix(options[0], prefix) else Ok(current);
    Ok(ReplaceChar(d, '-', '_'))
  }

  /** The first option string that does not begin with the prefix. */
  function FirstUnprefixed(options: seq<string>, prefix: char): (r: Option<nat>)
    ensures r.Some? ==> r.value < |options| && !(|options[r.value]| > 0 && options[r.value][0] == prefix)
    ensures r.None? <==> forall j :: 0 <= j < |options| ==> |options[j]| > 0 && options[j][0] == prefix
  {
    if |options| == 0 then None
    else if !(|options[0]| > 0 && options[0][0] == prefix) then Some(0)
    else match FirstUnprefixed(options[1..], prefix)
      case None => None
      case Some(k) => Some(k + 1)
  }

  /** `add_argument(names..., action)`: one name without the prefix makes a
      positional named by it; otherwise every name is an option string. The
      action's `initialize` runs first, then the option strings are checked
      and the destination derived. */
  function MakeArgument(names: seq<string>, action: Action, prefix: char): (r: Result<Argument, ParseError>)
    requires |names| >= 1 && action != SelectParser
    ensures r.Ok? ==> r.value.action == action && r.value.choices == []
    ensures r.Ok? ==> r.value.kind != SubcommandArg && (r.value.kind == OptionalArg <==> |r.value.optionStrings| > 0)
    ensures r.Ok? ==> (r.value.kind == OptionalArg <==> |names| > 1 || (|names[0]| > 0 && names[0][0] == prefix))
    ensures r.Ok? && r.value.kind == OptionalArg ==>
      && r.value.optionStrings == names
      && (forall j :: 0 <= j < |names| ==> |names[j]| > 0 && names[j][0] == prefix)
      && (forall j :: 0 <= j < |r.value.dest| ==> r.value.dest[j] != '-')
    ensures r.Ok? && r.value.kind == PositionalArg ==>
      r.value.optionStrings == [] && r.value.dest == names[0] && r.value.action in {Store, Help}
      && (r.value.nargs != Optional && r.value.nargs != ZeroOrMore ==> r.value.required)
    ensures (|names| > 1 || (|names[0]| > 0 && names[0][0] == prefix)) && FirstUnprefixed(names, prefix).Some? ==>
      r == Err(InvalidOptionString(names[FirstUnprefixed(names, prefix).value]))
    ensures !(|names| > 1 || (|names[0]| > 0 && names[0][0] == prefix)) ==>
      (r.Err? <==> action !in {Store, Help})
  {
    var optional := |names| > 1 || (|names[0]| > 0 && names[0][0] == prefix);
    var base := Blank.(kind := if optional then OptionalArg else PositionalArg,
                       optionStrings := if optional then names else [],
                       action := action);
    var a :- InitAction(base);
    if optional then
      match FirstUnprefixed(names, prefix)
      case Some(i) => Err(InvalidOptionString(names[i]))
      case None =>
        var d :- DeriveDest(names, prefix, a.dest);
        Ok(a.(dest := d))
    else
      var req := a.required || (a.nargs != Optional && a.nargs != ZeroOrMore);
      Ok(a.(required := req, dest := names[0]))
  }

  /** The subcommand argument `add_subparsers` creates: no option strings, no
      destination, never required, consuming everything after it. */
  const SubcommandArgument := Blank.(kind := SubcommandArg, action := SelectParser,
                                     nargs := Subparser, dest := SUPPRESS)
}
