/** Copland phrases (lib/common/copland.c): printing a phrase with its arguments and parsing one
    against a list of templates. */
module Copland {
  import opened Options
  import opened CStrings

  datatype ArgType = Integer | String | Place

  datatype Data = IntData(n: int) | StrData(s: string) | PlaceData(id: string)
  {
    function Kind(): ArgType {
      match this
      case IntData(_) => Integer
      case StrData(_) => String
      case PlaceData(_) => Place
    }
  }

  datatype Arg = Arg(name: string, data: Data)

  /** An actual phrase. */
  datatype Phrase = Phrase(text: string, args: seq<Arg>)

  datatype Param = Param(name: string, typ: ArgType)

  /** A phrase that an APB supports: its text and the names and types of its arguments. */
  datatype Template = Template(text: string, params: seq<Param>)

  // ----- printing

  function ValueText(a: Arg): string {
    match a.data
    case IntData(n) => PrintInt(n)
    case StrData(s) => s
    case PlaceData(id) => id
  }

  function ArgText(a: Arg): string {
    a.name + "=" + ValueText(a)
  }

  function ArgTexts(args: seq<Arg>): (r: seq<string>)
    ensures |r| == |args|
    ensures forall i | 0 <= i < |args| :: r[i] == ArgText(args[i])
  {
    seq(|args|, i requires 0 <= i < |args| => ArgText(args[i]))
  }

  function ArgsText(args: seq<Arg>): string {
    Join(ArgTexts(args), ',')
  }

  method CopyAt(buf: array<char>, at: nat, s: string)
    requires at + |s| <= buf.Length
    modifies buf
    ensures buf[..at] == old(buf[..at]) && buf[at..at + |s|] == s
  {
    forall i | 0 <= i < |s| {
      buf[at + i] := s[i];
    }
  }

  /** The printed arguments so far, with the comma that follows each. */
  function Commas(args: seq<Arg>): string {
    if args == [] then "" else ArgsText(args) + ","
  }

  /** Grows the buffer by one argument and a final character, and writes "name=value" at `loc`. */
  method AppendTo(tmp: array<char>, loc: nat, name: string, value: string) returns (grown: array<char>, end: nat)
    requires loc <= tmp.Length
    ensures fresh(grown) && end + 1 == grown.Length
    ensures grown[..end] == tmp[..loc] + name + "=" + value
  {
    grown := new char[|name| + |value| + 2 + loc];
    end := loc;
    CopyAt(grown, 0, tmp[..loc]);
    assert grown[..end] == tmp[..loc];
    CopyAt(grown, end, name);
    end := end + |name|;
    assert grown[..end] == tmp[..loc] + name;
    grown[end] := '=';
    end := end + 1;
    assert grown[..end] == tmp[..loc] + name + "=";
    CopyAt(grown, end, value);
    end := end + |value|;
  }

  /** copland_args_to_string: the buffer is grown for each argument by its own length and two
      more characters.  Every write is within the grown buffer. */
  method ArgsToString(args: seq<Arg>) returns (str: Option<string>)
    ensures str == if args == [] then None else Some(ArgsText(args))
  {
    hide ArgsText, ValueText;
    if |args| == 0 {
      return None;
    }
    var tmp, loc := new char[0], 0;
    assert args[..0] == [];
    for i := 0 to |args|
      invariant loc <= tmp.Length && fresh(tmp)
      invariant i < |args| ==> tmp[..loc] == Commas(args[..i])
      invariant i == |args| ==> loc < tmp.Length && tmp[loc] == '\0' && tmp[..loc] == ArgsText(args)
    {
      AppendArg(args, i);
      tmp, loc := AppendTo(tmp, loc, args[i].name, ValueText(args[i]));
      ghost var text := tmp[..loc];
      if i == |args| - 1 {
        tmp[loc] := '\0';
        assert tmp[..loc] == text;
      } else {
        tmp[loc] := ',';
        loc := loc + 1;
        assert tmp[..loc] == text + ",";
      }
    }
    str := Some(tmp[..loc]);
  }

  lemma {:induction false} AppendArg(args: seq<Arg>, i: nat)
    requires i < |args|
    ensures Commas(args[..i]) + args[i].name + "=" + ValueText(args[i]) == ArgsText(args[..i + 1])
    ensures i + 1 == |args| ==> args[..i + 1] == args
  {
    hide ValueText, Join;
    var before := ArgTexts(args[..i]);
    assert args[..i + 1] == args[..i] + [args[i]];
    assert ArgTexts(args[..i + 1]) == before + [ArgText(args[i])];
    JoinSnoc(before, ArgText(args[i]), ',');
    assert Commas(args[..i]) + ArgText(args[i]) == Commas(args[..i]) + args[i].name + "=" + ValueText(args[i]);
  }

  /** copland_phrase_to_string */
  function PrintPhrase(p: Phrase): string {
    if p.args == [] then p.text else p.text + ":" + ArgsText(p.args)
  }

  // ----- parsing

  /** The first parameter of that name. */
  function FindParam(params: seq<Param>, name: string): (i: nat)
    ensures i <= |params|
    ensures i < |params| ==> params[i].name == name
    ensures forall j | 0 <= j < i :: params[j].name != name
  {
    if params == [] || params[0].name == name then 0 else 1 + FindParam(params[1..], name)
  }

  function TypeOf(params: seq<Param>, name: string): Option<ArgType> {
    var i := FindParam(params, name);
    if i < |params| then Some(params[i].typ) else None
  }

  /** parse_phrase_arg: a value of the given type. */
  function ParseValue(typ: ArgType, value: string): Option<Data> {
    match typ
    case Integer => var r := ParseInt(value); if r.Some? then Some(IntData(r.value)) else None
    case Place => var r := ParseInt(value); if r.Some? && r.value >= 0 then Some(PlaceData(value)) else None
    case String => Some(StrData(value))
  }

  /** The two tokens around '='; whatever follows a second '=' is dropped. */
  function KeyValue(tok: string): (r: Option<(string, string)>)
    ensures r.Some? ==> r.value.0 != "" && r.value.1 != "" && '=' !in r.value.0 && '=' !in r.value.1
  {
    match Strtok(tok, '=')
    case None => None
    case Some((k, rest)) =>
      match Strtok(rest, '=')
      case None => None
      case Some((v, _)) => Some((k, v))
  }

  function ParseToken(params: seq<Param>, tok: string): Option<Arg> {
    match KeyValue(tok)
    case None => None
    case Some((k, v)) =>
      match TypeOf(params, k)
      case None => None
      case Some(typ) =>
        var d := ParseValue(typ, v);
        if d.Some? then Some(Arg(k, d.value)) else None
  }

  function ParseTokens(params: seq<Param>, toks: seq<string>): (r: Option<seq<Arg>>)
    ensures r.Some? ==> |r.value| == |toks|
  {
    if toks == [] then Some([])
    else
      var n := |toks| - 1;
      match ParseTokens(params, toks[..n])
      case None => None
      case Some(args) =>
        var a := ParseToken(params, toks[n]);
        if a.Some? then Some(args + [a.value]) else None
  }

  /** What parse_phrase_args accepts: as many arguments as parameters, each of them one of the
      parameters. */
  function ParsedArgs(params: seq<Param>, args: Option<string>): Option<seq<Arg>> {
    var toks := if args.Some? then Tokens(args.value, ',') else [];
    if |toks| == |params| then ParseTokens(params, toks) else None
  }

  lemma {:induction false} ParseTokensPrefix(params: seq<Param>, toks: seq<string>, n: nat)
    requires n <= |toks| && ParseTokens(params, toks[..n]).None?
    ensures ParseTokens(params, toks).None?
    decreases |toks|
  {
    hide ParseToken;
    if n == |toks| {
      assert toks[..n] == toks;
    } else {
      var m := |toks| - 1;
      assert toks[..m][..n] == toks[..n];
      ParseTokensPrefix(params, toks[..m], n);
    }
  }

  /** parse_phrase_args */
  method ParsePhraseArgs(params: seq<Param>, args: Option<string>) returns (r: Option<seq<Arg>>)
    ensures r == ParsedArgs(params, args)
  {
    hide ParseToken, Strtok;
    var parsed: seq<Arg> := [];
    if args.Some? {
      var hay := args.value;
      ghost var all, done := Tokens(args.value, ','), 0;
      var tok := Strtok(hay, ',');
      assert all[..0] == [];
      while tok.Some?
        invariant 0 <= done <= |all| && |parsed| == done && done <= |params|
        invariant tok == Strtok(hay, ',') && Tokens(hay, ',') == all[done..]
        invariant ParseTokens(params, all[..done]) == Some(parsed)
        decreases |hay|
      {
        if |parsed| >= |params| {
          return None;
        }
        assert all[done] == tok.value.0 && all[done..][1..] == all[done + 1..];
        assert all[..done + 1][..done] == all[..done];
        var arg := ParseToken(params, tok.value.0);
        if arg.None? {
          ParseTokensPrefix(params, all, done + 1);
          return None;
        }
        parsed := parsed + [arg.value];
        hay := tok.value.1;
        tok := Strtok(hay, ',');
        done := done + 1;
      }
      assert all[..done] == all;
    }
    r := if |parsed| == |params| then Some(parsed) else None;
  }

  function NumArgs(args: Option<string>): nat {
    if args.Some? then Count(args.value, '=') else 0
  }

  /** The first template with that text and number of arguments. */
  function FindTemplate(ts: seq<Template>, text: string, arity: nat): (i: nat)
    ensures i <= |ts|
    ensures i < |ts| ==> ts[i].text == text && |ts[i].params| == arity
    ensures forall j | 0 <= j < i :: !(ts[j].text == text && |ts[j].params| == arity)
  {
    if ts == [] || (ts[0].text == text && |ts[0].params| == arity) then 0 else 1 + FindTemplate(ts[1..], text, arity)
  }

  /** `Undefined`: there is nothing but colons, and a missing first token is copied. */
  datatype Outcome = Parsed(p: Phrase) | Rejected | Undefined

  /** parse_copland_from_pair_list; the arguments are the second colon-separated token. */
  function ParsePhrase(ts: seq<Template>, s: string): Outcome {
    match Strtok(s, ':')
    case None => Undefined
    case Some((text, rest)) =>
      var more := Strtok(rest, ':');
      var args := if more.Some? then Some(more.value.0) else None;
      var i := FindTemplate(ts, text, NumArgs(args));
      if i == |ts| then Rejected
      else
        var r := ParsedArgs(ts[i].params, args);
        if r.Some? then Parsed(Phrase(text, r.value)) else Rejected
  }

  // ----- printing and parsing back

  /** Names and values that can be told apart again. */
  predicate Clean(s: string) {
    s != "" && ',' !in s && '=' !in s && ':' !in s
  }

  /** An argument as the parameters describe it. */
  predicate Fits(params: seq<Param>, a: Arg) {
    && Clean(a.name) && TypeOf(params, a.name) == Some(a.data.Kind())
    && match a.data
       case IntData(n) => INT_MIN <= n <= INT_MAX
       case StrData(s) => Clean(s)
       case PlaceData(id) => Clean(id) && ParseInt(id).Some? && ParseInt(id).value >= 0
  }

  lemma {:induction false} DigitsClean(n: nat)
    ensures Clean(Digits(n)) && AllDigits(Digits(n))
  {
    var s := Digits(n);
    assert forall i | 0 <= i < |s| :: IsDigit(s[i]);
  }

  lemma {:induction false} ValueClean(params: seq<Param>, a: Arg)
    requires Fits(params, a)
    ensures Clean(ValueText(a)) && ParseValue(a.data.Kind(), ValueText(a)) == Some(a.data)
  {
    if a.data.IntData? {
      IntRoundTrip(a.data.n);
      DigitsClean(if a.data.n < 0 then -a.data.n else a.data.n);
    }
  }

  lemma {:induction false} KeyValueOf(name: string, value: string)
    requires Clean(name) && Clean(value)
    ensures KeyValue(name + "=" + value) == Some((name, value))
    ensures Plain(name + "=" + value, ',') && ':' !in name + "=" + value && Count(name + "=" + value, '=') == 1
  {
    hide Strtok;
    StrtokPlain(name, '=', value);
    StrtokPlain(value, '=', "");
    CountConcat(name, "=" + value, '=');
    CountConcat("=", value, '=');
    CountNone(name, '=');
    CountNone(value, '=');
    assert name + "=" + value == name + ("=" + value);
  }

  lemma {:induction false} ArgTextParses(params: seq<Param>, a: Arg)
    requires Fits(params, a)
    ensures ParseToken(params, ArgText(a)) == Some(a)
    ensures Plain(ArgText(a), ',') && ':' !in ArgText(a) && Count(ArgText(a), '=') == 1
  {
    hide KeyValue, ValueText, ParseValue, Plain, Count, Clean;
    ValueClean(params, a);
    KeyValueOf(a.name, ValueText(a));
  }

  lemma {:induction false} TextsParse(params: seq<Param>, args: seq<Arg>)
    requires forall a <- args :: Fits(params, a)
    ensures ParseTokens(params, ArgTexts(args)) == Some(args)
  {
    hide ParseToken, Fits;
    if args != [] {
      var n := |args| - 1;
      TextsParse(params, args[..n]);
      assert ArgTexts(args)[..n] == ArgTexts(args[..n]);
      ArgTextParses(params, args[n]);
      assert args == args[..n] + [args[n]];
    }
  }

  lemma {:induction false} JoinProperties(params: seq<Param>, args: seq<Arg>)
    requires forall a <- args :: Fits(params, a)
    ensures ':' !in ArgsText(args) && Count(ArgsText(args), '=') == |args|
    ensures args != [] ==> ArgsText(args) != ""
  {
    hide Fits, Count, ArgText;
    if args == [] {
      CountNone("", '=');
    } else {
      ArgTextParses(params, args[0]);
      var t, rest := ArgText(args[0]), ArgsText(args[1..]);
      JoinProperties(params, args[1..]);
      assert ArgTexts(args)[1..] == ArgTexts(args[1..]);
      if |args| > 1 {
        assert ArgsText(args) == t + ("," + rest);
        CountConcat(t, "," + rest, '=');
        CountConcat(",", rest, '=');
        CountNone(",", '=');
      }
    }
  }

  /** Printing a phrase and parsing it against any list of templates gives it back, when the first
      template of its text and arity describes its arguments. */
  lemma {:induction false} PhraseRoundTrip(ts: seq<Template>, p: Phrase)
    requires Plain(p.text, ':')
    requires var i := FindTemplate(ts, p.text, |p.args|); i < |ts| && forall a <- p.args :: Fits(ts[i].params, a)
    ensures ParsePhrase(ts, PrintPhrase(p)) == Parsed(p)
  {
    var i := FindTemplate(ts, p.text, |p.args|);
    var text := ArgsText(p.args);
    StrtokPlain(p.text, ':', text);
    JoinProperties(ts[i].params, p.args);
    if p.args != [] {
      assert PrintPhrase(p) == p.text + [':'] + text;
      StrtokPlain(text, ':', "");
      forall t | t in ArgTexts(p.args) ensures Plain(t, ',') {
        var j :| 0 <= j < |p.args| && ArgTexts(p.args)[j] == t;
        ArgTextParses(ts[i].params, p.args[j]);
      }
      TokensOfJoin(ArgTexts(p.args), ',');
      TextsParse(ts[i].params, p.args);
    }
  }

  // ----- what a successful parse guarantees

  /** An argument that a successful parse can produce. */
  predicate Described(params: seq<Param>, a: Arg) {
    && a.name != "" && TypeOf(params, a.name) == Some(a.data.Kind())
    && match a.data
       case IntData(n) => INT_MIN <= n <= INT_MAX
       case StrData(s) => s != ""
       case PlaceData(id) => ParseInt(id).Some? && 0 <= ParseInt(id).value <= INT_MAX
  }

  lemma {:induction false} ParsedTokenDescribed(params: seq<Param>, tok: string)
    requires ParseToken(params, tok).Some?
    ensures Described(params, ParseToken(params, tok).value)
  {
    hide KeyValue, ParseInt, FindParam;
  }

  lemma {:induction false} ParsedTokensDescribed(params: seq<Param>, toks: seq<string>)
    requires ParseTokens(params, toks).Some?
    ensures forall i | 0 <= i < |toks| :: Described(params, ParseTokens(params, toks).value[i])
  {
    hide ParseToken, Described;
    if toks != [] {
      ParsedTokensDescribed(params, toks[..|toks| - 1]);
      ParsedTokenDescribed(params, toks[|toks| - 1]);
    }
  }

  /** Every successful parse of any string has the text and arity of the first template with that
      text and as many parameters as the string has '=' signs, and only arguments of that template,
      with its types and in range. */
  lemma {:induction false} ParseSound(ts: seq<Template>, s: string)
    requires ParsePhrase(ts, s).Parsed?
    ensures var p := ParsePhrase(ts, s).p; var i := FindTemplate(ts, p.text, |p.args|);
            && Plain(p.text, ':') && i < |ts|
            && forall j | 0 <= j < |p.args| :: Described(ts[i].params, p.args[j])
  {
    var text, rest := Strtok(s, ':').value.0, Strtok(s, ':').value.1;
    var more := Strtok(rest, ':');
    var args := if more.Some? then Some(more.value.0) else None;
    var i := FindTemplate(ts, text, NumArgs(args));
    var toks := if args.Some? then Tokens(args.value, ',') else [];
    ParsedTokensDescribed(ts[i].params, toks);
  }

  // ----- the grammar

  /** A text that is read as that int. */
  ghost predicate ReadsInt(s: string, n: int) {
    && -0x8000_0000 <= n <= 0x7fff_ffff
    && exists space, sign, digits :: Numeral(s, space, sign, digits) && n == Signed(sign, digits)
  }

  /** The value of an argument of that type, written as `v`. */
  ghost predicate IsValue(typ: ArgType, v: string, d: Data) {
    match typ
    case Integer => d.IntData? && ReadsInt(v, d.n)
    case Place => d == PlaceData(v) && exists n :: 0 <= n && ReadsInt(v, n)
    case String => d == StrData(v)
  }

  /** The argument that a token stands for: its first two parts around '=' are the name and the value,
      and the first parameter of that name gives the type. */
  ghost predicate IsArg(params: seq<Param>, tok: string, a: Arg) {
    var parts := Tokens(tok, '=');
    && |parts| >= 2 && a.name == parts[0]
    && exists k | 0 <= k < |params| ::
         && params[k].name == a.name && (forall j | 0 <= j < k :: params[j].name != a.name)
         && IsValue(params[k].typ, parts[1], a.data)
  }

  function Occurrences(s: string, c: char): nat {
    |set i | 0 <= i < |s| && s[i] == c|
  }

  /** The phrase that a string stands for: the text before a colon, a template of that text with as many
      parameters as there are '=' signs before a second colon, the first such, and as many arguments
      between commas there, each an argument of that template. */
  ghost predicate StandsFor(ts: seq<Template>, s: string, p: Phrase) {
    var words := Tokens(s, ':');
    && words != [] && p.text == words[0]
    && var text := if |words| >= 2 then words[1] else "";
    var toks := Tokens(text, ',');
    exists i | 0 <= i < |ts| ::
      && MayTake(ts[i], p.text, Occurrences(text, '='))
      && (forall j | 0 <= j < i :: !MayTake(ts[j], p.text, Occurrences(text, '=')))
      && |toks| == |p.args| == |ts[i].params|
      && forall j | 0 <= j < |toks| :: IsArg(ts[i].params, toks[j], p.args[j])
  }

  predicate MayTake(t: Template, text: string, arity: nat) {
    t.text == text && |t.params| == arity
  }

  lemma {:induction false} TwoTokens(s: string, d: char)
    ensures var toks := Tokens(s, d);
            match Strtok(s, d)
            case None => toks == []
            case Some((first, rest)) =>
              && toks != [] && toks[0] == first
              && match Strtok(rest, d)
                 case None => |toks| == 1
                 case Some((second, _)) => |toks| >= 2 && toks[1] == second
  {
    hide Strtok;
  }

  lemma {:induction false} ValueMeans(typ: ArgType, v: string, d: Data)
    requires v != ""
    ensures ParseValue(typ, v) == Some(d) <==> IsValue(typ, v, d)
  {
    hide ParseInt, ReadsInt;
    forall n ensures ParseInt(v) == Some(n) <==> ReadsInt(v, n) { IntMeans(v, n); }
  }

  lemma {:induction false} IntMeans(v: string, n: int)
    requires v != ""
    ensures ParseInt(v) == Some(n) <==> ReadsInt(v, n)
  {
    hide ParseInt, Numeral, Signed;
    ParseIntMeans(v, n);
  }

  lemma {:induction false} TokenMeans(params: seq<Param>, tok: string, a: Arg)
    ensures ParseToken(params, tok) == Some(a) <==> IsArg(params, tok, a)
  {
    hide Strtok, Tokens, ParseValue, IsValue, FindParam;
    TwoTokens(tok, '=');
    var parts := Tokens(tok, '=');
    if |parts| >= 2 {
      var k := FindParam(params, parts[0]);
      if k < |params| { ValueMeans(params[k].typ, parts[1], a.data); }
    }
  }

  lemma {:induction false} TokensMean(params: seq<Param>, toks: seq<string>, args: seq<Arg>)
    ensures ParseTokens(params, toks) == Some(args) <==>
            |args| == |toks| && forall j | 0 <= j < |toks| :: IsArg(params, toks[j], args[j])
  {
    hide ParseToken, IsArg;
    if toks != [] {
      var n := |toks| - 1;
      if |args| == |toks| {
        TokensMean(params, toks[..n], args[..n]);
        TokenMeans(params, toks[n], args[n]);
        assert args == args[..n] + [args[n]];
      }
      assert ParseTokens(params, toks).Some? ==>
               ParseTokens(params, toks).value[..n] == ParseTokens(params, toks[..n]).value;
    }
  }

  /** A string is parsed to a phrase exactly when it stands for it. */
  lemma {:induction false} ParseMeans(ts: seq<Template>, s: string, p: Phrase)
    ensures ParsePhrase(ts, s) == Parsed(p) <==> StandsFor(ts, s, p)
  {
    hide Strtok, Tokens, ParseTokens, IsArg, FindTemplate, Count, Occurrences;
    TwoTokens(s, ':');
    var words := Tokens(s, ':');
    if words != [] {
      var text := if |words| >= 2 then words[1] else "";
      NoTokens(',');
      CountNone("", '=');
      assert Occurrences(text, '=') == Count(text, '=') by { OccurrencesCount(text, '='); }
      var toks, i := Tokens(text, ','), FindTemplate(ts, words[0], Count(text, '='));
      if i < |ts| { TokensMean(ts[i].params, toks, p.args); }
    }
  }

  lemma {:induction false} OccurrencesCount(s: string, c: char)
    ensures Occurrences(s, c) == Count(s, c)
  {
    CountIs(s, c);
  }

  /** The parser's result is undetermined exactly for strings that consist of colons. */
  lemma {:induction false} ParseUndefined(ts: seq<Template>, s: string)
    ensures ParsePhrase(ts, s) == Undefined <==> forall i | 0 <= i < |s| :: s[i] == ':'
  {
    SkipAll(s, ':');
  }

  lemma {:induction false} SkipAll(s: string, d: char)
    ensures Skip(s, d) == "" <==> forall i | 0 <= i < |s| :: s[i] == d
  {
    if s != "" && s[0] == d {
      SkipAll(s[1..], d);
      assert forall i | 1 <= i < |s| :: s[i] == s[1..][i - 1];
    }
  }

  /** parse_copland_from_pair_list with find_copland_template's search. */
  method ParseFromPairs(ts: seq<Template>, s: string) returns (r: Outcome)
    ensures r == ParsePhrase(ts, s)
    ensures forall p :: r == Parsed(p) <==> StandsFor(ts, s, p)
  {
    hide StandsFor, Strtok;
    forall p ensures ParsePhrase(ts, s) == Parsed(p) <==> StandsFor(ts, s, p) { ParseMeans(ts, s, p); }
    var first := Strtok(s, ':');
    if first.None? {
      return Undefined;
    }
    var more := Strtok(first.value.1, ':');
    var args := if more.Some? then Some(more.value.0) else None;
    var text, arity := first.value.0, NumArgs(args);
    var i := 0;
    while i < |ts| && !(ts[i].text == text && |ts[i].params| == arity)
      invariant 0 <= i <= |ts|
      invariant forall j | 0 <= j < i :: !(ts[j].text == text && |ts[j].params| == arity)
    {
      i := i + 1;
    }
    assert i == FindTemplate(ts, text, arity);
    if i == |ts| {
      return Rejected;
    }
    var parsed := ParsePhraseArgs(ts[i].params, args);
    r := if parsed.Some? then Parsed(Phrase(text, parsed.value)) else Rejected;
  }

  // ----- repeated names

  function ArgNames(args: seq<Arg>): (r: seq<string>)
    ensures |r| == |args| && forall i | 0 <= i < |args| :: r[i] == args[i].name
  {
    seq(|args|, i requires 0 <= i < |args| => args[i].name)
  }

  function ParamNames(params: seq<Param>): (r: seq<string>)
    ensures |r| == |params| && forall i | 0 <= i < |params| :: r[i] == params[i].name
  {
    seq(|params|, i requires 0 <= i < |params| => params[i].name)
  }

  predicate Distinct(names: seq<string>) {
    forall i, j | 0 <= i < j < |names| :: names[i] != names[j]
  }

  function Elements(names: seq<string>): set<string> {
    set n | n in names
  }

  lemma {:induction false} ElementsCount(names: seq<string>)
    ensures |Elements(names)| <= |names|
    ensures |Elements(names)| == |names| <==> Distinct(names)
  {
    if names != [] {
      var rest, last := names[..|names| - 1], names[|names| - 1];
      ElementsCount(rest);
      assert Elements(names) == Elements(rest) + {last};
      if last in rest {
        assert Elements(names) == Elements(rest);
        var i :| 0 <= i < |rest| && rest[i] == last;
        assert names[i] == names[|names| - 1];
      } else {
        assert Distinct(rest) <==> Distinct(names);
      }
    }
  }

  lemma {:induction false} SubsetOfSameSize(a: set<string>, b: set<string>)
    requires a <= b
    ensures |a| <= |b| && (|a| == |b| <==> a == b)
  {
    assert b == a + (b - a);
    assert |b| == |a| + |b - a|;
    if a != b { var x :| x in b - a; }
  }

  /** A successful parse names every parameter exactly when no name is repeated: with a repeated
      name, one parameter goes unmentioned and the arity check does not notice. */
  lemma {:induction false} RepeatedNames(ts: seq<Template>, s: string)
    requires ParsePhrase(ts, s).Parsed?
    requires var p := ParsePhrase(ts, s).p;
             var i := FindTemplate(ts, p.text, |p.args|); i < |ts| ==> Distinct(ParamNames(ts[i].params))
    ensures var p := ParsePhrase(ts, s).p; var i := FindTemplate(ts, p.text, |p.args|);
            && i < |ts|
            && (Elements(ArgNames(p.args)) == Elements(ParamNames(ts[i].params)) <==> Distinct(ArgNames(p.args)))
  {
    hide ParsePhrase, FindTemplate, ParseInt;
    ParseSound(ts, s);
    var p := ParsePhrase(ts, s).p;
    var i := FindTemplate(ts, p.text, |p.args|);
    TemplateFound(ts, p.text, |p.args|);
    var used, known := ArgNames(p.args), ParamNames(ts[i].params);
    forall n | n in Elements(used) ensures n in Elements(known) {
      var j :| 0 <= j < |used| && used[j] == n;
      assert Described(ts[i].params, p.args[j]);
      var k := FindParam(ts[i].params, n);
      assert known[k] == n;
    }
    ElementsCount(used);
    ElementsCount(known);
    SubsetOfSameSize(Elements(used), Elements(known));
  }

  /** Which happens: with any two parameters, naming the first twice is accepted. */
  lemma {:induction false} RepeatedNameParses(text: string, x: string, y: string, v: string, w: string)
    requires Plain(text, ':') && Clean(x) && Clean(v) && Clean(w) && x != y
    ensures var ts := [Template(text, [Param(x, String), Param(y, String)])];
            var p := Phrase(text, [Arg(x, StrData(v)), Arg(x, StrData(w))]);
            && ParsePhrase(ts, PrintPhrase(p)) == Parsed(p)
            && y !in ArgNames(p.args) && |p.args| == |ts[0].params|
  {
    var ts := [Template(text, [Param(x, String), Param(y, String)])];
    var p := Phrase(text, [Arg(x, StrData(v)), Arg(x, StrData(w))]);
    assert FindTemplate(ts, text, 2) == 0;
    assert FindParam(ts[0].params, x) == 0;
    PhraseRoundTrip(ts, p);
  }

  lemma {:induction false} TemplateFound(ts: seq<Template>, text: string, arity: nat)
    ensures var i := FindTemplate(ts, text, arity); i < |ts| ==> ts[i].text == text && |ts[i].params| == arity
  {
  }

  // ----- the argument string handed to an APB

  /** What parse_copland_args_kv does with an argument string: `Overrun` when it would store past
      the slots it allocated, one for each '='. */
  datatype KvOutcome = NoArgs | Pairs(kvs: seq<(string, string)>) | Malformed | Overrun

  function KvRun(toks: seq<string>, slots: nat): (r: KvOutcome)
    ensures r.Pairs? ==> |r.kvs| == |toks| <= slots
  {
    if toks == [] then Pairs([])
    else
      var n := |toks| - 1;
      match KvRun(toks[..n], slots)
      case Pairs(kvs) =>
        if n >= slots then Overrun
        else
          var kv := KeyValue(toks[n]);
          if kv.Some? then Pairs(kvs + [kv.value]) else Malformed
      case other => other
  }

  /** What the pairs are: the first two parts of each token around '='. */
  lemma {:induction false} PairsMean(toks: seq<string>, slots: nat, kvs: seq<(string, string)>)
    ensures KvRun(toks, slots) == Pairs(kvs) <==>
            && |kvs| == |toks| <= slots
            && forall i | 0 <= i < |toks| :: IsPair(toks[i], kvs[i])
  {
    hide KeyValue, IsPair;
    if toks != [] {
      var n := |toks| - 1;
      if |kvs| == |toks| {
        PairsMean(toks[..n], slots, kvs[..n]);
        PairMeans(toks[n], kvs[n]);
        assert kvs == kvs[..n] + [kvs[n]];
      }
      assert KvRun(toks, slots).Pairs? ==> KvRun(toks, slots).kvs[..n] == KvRun(toks[..n], slots).kvs;
    }
  }

  predicate IsPair(tok: string, kv: (string, string)) {
    var parts := Tokens(tok, '=');
    |parts| >= 2 && kv == (parts[0], parts[1])
  }

  lemma {:induction false} PairMeans(tok: string, kv: (string, string))
    ensures KeyValue(tok) == Some(kv) <==> IsPair(tok, kv)
  {
    hide Strtok, Tokens;
    TwoTokens(tok, '=');
  }

  function ParsedKv(args: string): KvOutcome {
    if Count(args, '=') == 0 then NoArgs else KvRun(Tokens(args, ','), Count(args, '='))
  }

  lemma {:induction false} KvRunPrefix(toks: seq<string>, slots: nat, n: nat)
    requires n <= |toks| && !KvRun(toks[..n], slots).Pairs?
    ensures KvRun(toks, slots) == KvRun(toks[..n], slots)
    decreases |toks|
  {
    hide KeyValue;
    if n == |toks| {
      assert toks[..n] == toks;
    } else {
      var m := |toks| - 1;
      assert toks[..m][..n] == toks[..n];
      KvRunPrefix(toks[..m], slots, n);
    }
  }

  /** parse_copland_args_kv; on success the count returned is the number of '=' signs. */
  method ParseArgsKv(args: string) returns (r: KvOutcome, count: int)
    ensures r == ParsedKv(args)
    ensures count == match r { case NoArgs => 0 case Pairs(_) => Count(args, '=') case _ => -1 }
    ensures r == NoArgs <==> '=' !in args
    ensures r.Pairs? ==>
              var toks := Tokens(args, ',');
              |r.kvs| == |toks| && forall i | 0 <= i < |toks| :: IsPair(toks[i], r.kvs[i])
  {
    hide KeyValue, Strtok, Count, IsPair;
    CountZero(args, '=');
    var slots := Count(args, '=');
    if slots == 0 {
      return NoArgs, 0;
    }
    var kvs: seq<(string, string)> := [];
    var hay := args;
    ghost var all, done := Tokens(args, ','), 0;
    var tok := Strtok(hay, ',');
    assert all[..0] == [];
    while tok.Some?
      invariant 0 <= done <= |all| && |kvs| == done <= slots
      invariant tok == Strtok(hay, ',') && Tokens(hay, ',') == all[done..]
      invariant KvRun(all[..done], slots) == Pairs(kvs)
      decreases |hay|
    {
      assert all[done] == tok.value.0 && all[done..][1..] == all[done + 1..];
      assert all[..done + 1][..done] == all[..done];
      if |kvs| == slots {
        KvRunPrefix(all, slots, done + 1);
        return Overrun, -1;
      }
      var kv := KeyValue(tok.value.0);
      if kv.None? {
        KvRunPrefix(all, slots, done + 1);
        return Malformed, -1;
      }
      kvs := kvs + [kv.value];
      hay := tok.value.1;
      tok := Strtok(hay, ',');
      done := done + 1;
    }
    assert all[..done] == all;
    PairsMean(all, slots, kvs);
    return Pairs(kvs), slots;
  }

  lemma {:induction false} CountZero(s: string, c: char)
    ensures Count(s, c) == 0 <==> c !in s
  {
    if c in s { CountSome(s, c); } else { CountNone(s, c); }
  }

  lemma {:induction false} KvRunOverruns(toks: seq<string>, slots: nat)
    ensures KvRun(toks, slots) == Overrun
            <==> |toks| > slots && forall i | 0 <= i < slots :: KeyValue(toks[i]).Some?
  {
    hide KeyValue;
    if toks != [] {
      var n := |toks| - 1;
      KvRunOverruns(toks[..n], slots);
      PairsWhen(toks[..n], slots);
      assert forall i | 0 <= i < n :: toks[..n][i] == toks[i];
    }
  }

  lemma {:induction false} PairsWhen(toks: seq<string>, slots: nat)
    ensures KvRun(toks, slots).Pairs? <==> |toks| <= slots && forall i | 0 <= i < |toks| :: KeyValue(toks[i]).Some?
  {
    hide KeyValue;
    if toks != [] {
      var n := |toks| - 1;
      PairsWhen(toks[..n], slots);
      assert forall i | 0 <= i < n :: toks[..n][i] == toks[i];
    }
  }

  /** Which argument strings make the parser store past its slots: those in which a token without '='
      comes, and only tokens of the form name=value come before it, at least one of them, and they
      hold all the '=' there are. */
  lemma {:induction false} OverrunWhen(args: string)
    ensures var toks, slots := Tokens(args, ','), Count(args, '=');
            ParsedKv(args) == Overrun
            <==> && 0 < slots < |toks|
                 && (forall i | 0 <= i < slots :: KeyValue(toks[i]).Some? && Count(toks[i], '=') == 1)
                 && (forall i | slots <= i < |toks| :: Count(toks[i], '=') == 0)
  {
    hide KeyValue, Count, KvRun, Tokens;
    var toks, slots := Tokens(args, ','), Count(args, '=');
    KvRunOverruns(toks, slots);
    CountTokens(args, ',', '=');
    if 0 < slots < |toks| && forall i | 0 <= i < slots :: KeyValue(toks[i]).Some? {
      forall i | 0 <= i < slots ensures Count(toks[i], '=') >= 1 { KeyValueHasEquals(toks[i]); }
      OnesFirst(toks, slots, '=');
    }
  }

  lemma {:induction false} KeyValueHasEquals(tok: string)
    requires KeyValue(tok).Some?
    ensures Count(tok, '=') >= 1
  {
    if '=' !in tok {
      if tok != "" { StrtokPlain(tok, '=', ""); }
      NoToken('=');
      assert false;
    }
    CountSome(tok, '=');
  }

  /** A short argument string that does. */
  lemma {:induction false} OverrunAt()
    ensures ParsedKv("a=b,c") == Overrun
  {
    hide Tokens, Strtok, KvRun;
    var toks := ["a=b", "c"];
    assert toks[1..] == ["c"];
    assert Join(toks, ',') == "a=b,c";
    TokensOfJoin(toks, ',');
    StrtokPlain("a", '=', "b");
    StrtokPlain("b", '=', "");
    assert "a" + ['='] + "b" == "a=b";
    CountConcat("a", "=b,c", '=');
    CountConcat("=", "b,c", '=');
    CountNone("a", '=');
    CountNone("b,c", '=');
    assert "a" + "=b,c" == "a=b,c" && "=" + "b,c" == "=b,c";
    KvRunOverruns(toks, 1);
  }

  /** The count returned on success is the number of pairs stored if and only if every token has one
      '='; otherwise it also counts slots that were never set. */
  lemma {:induction false} CountIsPairs(args: string)
    requires ParsedKv(args).Pairs?
    ensures var toks := Tokens(args, ',');
            && |ParsedKv(args).kvs| <= Count(args, '=')
            && (|ParsedKv(args).kvs| == Count(args, '=') <==> forall i | 0 <= i < |toks| :: Count(toks[i], '=') == 1)
  {
    hide KeyValue, Count, Tokens;
    var toks := Tokens(args, ',');
    PairsWhen(toks, Count(args, '='));
    CountTokens(args, ',', '=');
    forall i | 0 <= i < |toks| ensures Count(toks[i], '=') >= 1 { KeyValueHasEquals(toks[i]); }
    CountAllOnes(toks, '=');
  }

  lemma {:induction false} CountOverstates()
    ensures ParsedKv("a=b=c") == Pairs([("a", "b")]) && Count("a=b=c", '=') == 2
  {
    hide Tokens, Strtok, KvRun;
    TokensNext("a=b=c", ',', "");
    StrtokPlain("a", '=', "b=c");
    StrtokPlain("b", '=', "c");
    assert "a" + ['='] + "b=c" == "a=b=c" && "b" + ['='] + "c" == "b=c";
    CountConcat("a", "=b=c", '=');
    CountConcat("=b", "=c", '=');
    assert "a" + "=b=c" == "a=b=c" && "=b" + "=c" == "=b=c";
    OneToken("a=b=c", 2);
  }

  lemma {:induction false} OneToken(tok: string, slots: nat)
    requires slots > 0 && KeyValue(tok).Some?
    ensures KvRun([tok], slots) == Pairs([KeyValue(tok).value])
  {
    hide KeyValue;
    assert [tok][..0] == [];
  }

  /** An argument whose name and value hold neither ',' nor '='. */
  predicate Separable(a: Arg) {
    Plain(a.name, ',') && Plain(a.name, '=') && Plain(ValueText(a), ',') && Plain(ValueText(a), '=')
  }

  lemma {:induction false} SeparableText(a: Arg)
    requires Separable(a)
    ensures KeyValue(ArgText(a)) == Some((a.name, ValueText(a)))
    ensures Plain(ArgText(a), ',') && Count(ArgText(a), '=') == 1
  {
    hide Strtok, ValueText;
    var v := ValueText(a);
    StrtokPlain(a.name, '=', v);
    StrtokPlain(v, '=', "");
    CountConcat(a.name, "=" + v, '=');
    CountConcat("=", v, '=');
    CountNone(a.name, '=');
    CountNone(v, '=');
    assert ArgText(a) == a.name + ("=" + v);
  }

  lemma {:induction false} ArgsTextCount(args: seq<Arg>)
    requires forall a <- args :: Separable(a)
    ensures Count(ArgsText(args), '=') == |args|
  {
    hide Separable, Count, ArgText;
    if args == [] {
      CountNone("", '=');
    } else {
      var t, rest := ArgText(args[0]), ArgsText(args[1..]);
      SeparableText(args[0]);
      ArgsTextCount(args[1..]);
      assert ArgTexts(args)[1..] == ArgTexts(args[1..]);
      if |args| > 1 {
        assert ArgsText(args) == t + ("," + rest);
        CountConcat(t, "," + rest, '=');
        CountConcat(",", rest, '=');
        CountNone(",", '=');
      }
    }
  }

  function PairsOf(args: seq<Arg>): seq<(string, string)> {
    seq(|args|, i requires 0 <= i < |args| => (args[i].name, ValueText(args[i])))
  }

  lemma {:induction false} KvRunTexts(args: seq<Arg>, slots: nat)
    requires (forall a <- args :: Separable(a)) && |args| <= slots
    ensures KvRun(ArgTexts(args), slots) == Pairs(PairsOf(args))
  {
    hide KeyValue, Separable, ValueText;
    if args != [] {
      var n := |args| - 1;
      KvRunTexts(args[..n], slots);
      assert ArgTexts(args)[..n] == ArgTexts(args[..n]);
      SeparableText(args[n]);
      assert PairsOf(args) == PairsOf(args[..n]) + [(args[n].name, ValueText(args[n]))];
    }
  }

  /** The arguments a manager prints for an APB arrive there with the same names and values in the
      same order, and the slots suffice. */
  lemma {:induction false} ArgsArrive(args: seq<Arg>)
    requires args != [] && forall a <- args :: Separable(a)
    ensures ParsedKv(ArgsText(args)) == Pairs(PairsOf(args)) && Count(ArgsText(args), '=') == |args|
  {
    hide KvRun, Separable;
    ArgsTextCount(args);
    forall t | t in ArgTexts(args) ensures Plain(t, ',') {
      var j :| 0 <= j < |args| && ArgTexts(args)[j] == t;
      SeparableText(args[j]);
    }
    TokensOfJoin(ArgTexts(args), ',');
    KvRunTexts(args, |args|);
  }
}
