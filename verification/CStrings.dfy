/** The string functions of the C library that the parsers rely on: strtok with a single delimiter
    (section 7.24.5.8 of ISO/IEC 9899:2011), comparison without case,
    decimal printing and strtol.  Strings have no NUL. */
module CStrings {
  import opened Options

  // ----- case

  function Lower(c: char): char {
    if 'A' <= c <= 'Z' then c - 'A' + 'a' else c
  }

  /** What strcasecmp compares. */
  function LowerCase(s: string): (r: string)
    ensures |r| == |s|
  {
    seq(|s|, i requires 0 <= i < |s| => Lower(s[i]))
  }

  /** The same character, or one letter in its two cases. */
  predicate Alike(c: char, d: char) {
    || c == d
    || ('A' <= c <= 'Z' && d as int == c as int + 32)
    || ('A' <= d <= 'Z' && c as int == d as int + 32)
  }

  predicate AlikeStrings(a: string, b: string) {
    |a| == |b| && forall i | 0 <= i < |a| :: Alike(a[i], b[i])
  }

  lemma {:induction false} LowerIsAlike(c: char, d: char)
    ensures Lower(c) == Lower(d) <==> Alike(c, d)
  {}

  /** Comparison without case, character by character. */
  lemma {:induction false} LowerCaseIsAlike(a: string, b: string)
    ensures LowerCase(a) == LowerCase(b) <==> AlikeStrings(a, b)
  {
    if |a| == |b| {
      forall i | 0 <= i < |a| ensures LowerCase(a)[i] == LowerCase(b)[i] <==> Alike(a[i], b[i]) {
        LowerIsAlike(a[i], b[i]);
      }
      if AlikeStrings(a, b) { assert LowerCase(a) == LowerCase(b); }
    }
  }

  lemma {:induction false} LowerCaseLower(s: string)
    requires forall i | 0 <= i < |s| :: !('A' <= s[i] <= 'Z')
    ensures LowerCase(s) == s
  {}

  // ----- strtok

  function Skip(s: string, d: char): (t: string)
    ensures |t| <= |s| && (t == "" || t[0] != d)
  {
    if s != "" && s[0] == d then Skip(s[1..], d) else s
  }

  /** The first position of `d`, or the length. */
  function Find(s: string, d: char): (n: nat)
    ensures n <= |s| && d !in s[..n]
    ensures n < |s| ==> s[n] == d
  {
    if s == "" || s[0] == d then 0 else 1 + Find(s[1..], d)
  }

  /** One call: leading delimiters are skipped; the token runs to the next delimiter, which is
      consumed; there is no token in a string of delimiters only. */
  function Strtok(s: string, d: char): (r: Option<(string, string)>)
    ensures r.Some? ==> r.value.0 != "" && d !in r.value.0 && |r.value.1| < |s|
  {
    var t := Skip(s, d);
    if t == "" then None
    else
      var n := Find(t, d);
      Some((t[..n], if n < |t| then t[n + 1..] else ""))
  }

  /** All tokens of successive calls. */
  function Tokens(s: string, d: char): (r: seq<string>)
    ensures forall i | 0 <= i < |r| :: Plain(r[i], d)
    decreases |s|
  {
    match Strtok(s, d)
    case None => []
    case Some((tok, rest)) => [tok] + Tokens(rest, d)
  }

  /** A nonempty string without the delimiter. */
  predicate Plain(s: string, d: char) {
    s != "" && d !in s
  }

  lemma {:induction false} FindEnd(s: string, d: char, rest: string)
    requires d !in s
    ensures Find(s, d) == |s| && Find(s + [d] + rest, d) == |s|
  {
    if s != "" {
      assert s[0] != d && (s + [d] + rest)[1..] == s[1..] + [d] + rest;
      FindEnd(s[1..], d, rest);
    }
  }

  lemma {:induction false} StrtokPlain(tok: string, d: char, rest: string)
    requires Plain(tok, d)
    ensures Strtok(tok + [d] + rest, d) == Some((tok, rest))
    ensures Strtok(tok, d) == Some((tok, ""))
  {
    FindEnd(tok, d, rest);
    assert tok[0] != d && (tok + [d] + rest)[0] == tok[0];
    var s := tok + [d] + rest;
    assert tok[..|tok|] == tok && s[..|tok|] == tok && s[|tok| + 1..] == rest;
  }

  /** Strings with the delimiter between them. */
  function Join(parts: seq<string>, d: char): string {
    if parts == [] then ""
    else if |parts| == 1 then parts[0]
    else parts[0] + [d] + Join(parts[1..], d)
  }

  lemma {:induction false} JoinSnoc(parts: seq<string>, p: string, d: char)
    ensures Join(parts + [p], d) == if parts == [] then p else Join(parts, d) + [d] + p
  {
    if parts == [] {
      assert parts + [p] == [p];
    } else {
      assert (parts + [p])[1..] == parts[1..] + [p];
      JoinSnoc(parts[1..], p, d);
    }
  }

  /** A plain token followed by a delimiter is the next token ... */
  lemma {:induction false} TokensNext(tok: string, d: char, rest: string)
    requires Plain(tok, d)
    ensures Tokens(tok + [d] + rest, d) == [tok] + Tokens(rest, d)
    ensures Tokens(tok, d) == [tok]
  {
    hide Strtok;
    StrtokPlain(tok, d, rest);
    assert Strtok("", d) == None by { NoToken(d); }
  }

  lemma {:induction false} NoToken(d: char)
    ensures Strtok("", d) == None
  {
  }

  /** ... and a leading delimiter changes nothing. */
  lemma {:induction false} TokensSkip(s: string, d: char)
    ensures Tokens([d] + s, d) == Tokens(s, d)
  {
    assert ([d] + s)[1..] == s;
    assert Strtok([d] + s, d) == Strtok(s, d);
  }

  /** Splitting undoes joining for nonempty parts without the delimiter. */
  lemma {:induction false} TokensOfJoin(parts: seq<string>, d: char)
    requires forall p <- parts :: Plain(p, d)
    ensures Tokens(Join(parts, d), d) == parts
  {
    hide Strtok, Tokens;
    if parts == [] {
      NoTokens(d);
    } else {
      TokensNext(parts[0], d, Join(parts[1..], d));
      if |parts| > 1 { TokensOfJoin(parts[1..], d); }
    }
  }

  lemma {:induction false} NoTokens(d: char)
    ensures Tokens("", d) == []
  {
  }

  function Count(s: string, c: char): nat {
    if s == "" then 0 else (if s[0] == c then 1 else 0) + Count(s[1..], c)
  }

  lemma {:induction false} CountConcat(a: string, b: string, c: char)
    ensures Count(a + b, c) == Count(a, c) + Count(b, c)
  {
    if a == "" {
      assert a + b == b;
    } else {
      assert (a + b)[1..] == a[1..] + b;
      CountConcat(a[1..], b, c);
    }
  }

  /** The count is the number of positions. */
  lemma {:induction false} CountIs(s: string, c: char)
    ensures Count(s, c) == |set i | 0 <= i < |s| && s[i] == c|
  {
    if s != "" {
      var n := |s| - 1;
      var front, last := s[..n], [s[n]];
      CountIs(front, c);
      assert s == front + last;
      CountConcat(front, last, c);
      var all, before := set i | 0 <= i < |s| && s[i] == c, set i | 0 <= i < |front| && front[i] == c;
      assert all == if s[n] == c then before + {n} else before;
    }
  }

  lemma {:induction false} CountNone(s: string, c: char)
    requires c !in s
    ensures Count(s, c) == 0
  {
    if s != "" { CountNone(s[1..], c); }
  }

  lemma {:induction false} CountSome(s: string, c: char)
    requires c in s
    ensures Count(s, c) >= 1
  {
    if s[0] != c { CountSome(s[1..], c); }
  }

  function CountAll(parts: seq<string>, c: char): nat {
    if parts == [] then 0 else Count(parts[0], c) + CountAll(parts[1..], c)
  }

  /** Splitting at another character loses no occurrence. */
  lemma {:induction false} CountTokens(s: string, d: char, c: char)
    requires c != d
    ensures CountAll(Tokens(s, d), c) == Count(s, c)
    decreases |s|
  {
    CountSkip(s, d, c);
    var t := Skip(s, d);
    if t != "" {
      var n := Find(t, d);
      var tok, rest := t[..n], if n < |t| then t[n + 1..] else "";
      CountTokens(rest, d, c);
      if n < |t| {
        assert t == tok + ([d] + rest);
        CountConcat(tok, [d] + rest, c);
        CountConcat([d], rest, c);
        CountNone([d], c);
      } else {
        assert t == tok;
      }
    }
  }

  lemma {:induction false} CountSkip(s: string, d: char, c: char)
    requires c != d
    ensures Count(Skip(s, d), c) == Count(s, c)
  {
    if s != "" && s[0] == d { CountSkip(s[1..], d, c); }
  }

  /** As many strings with an occurrence as there are occurrences have one each. */
  lemma {:induction false} OnesFirst(parts: seq<string>, n: nat, c: char)
    requires n <= |parts| && (forall i | 0 <= i < n :: Count(parts[i], c) >= 1)
    ensures CountAll(parts, c) >= n
    ensures CountAll(parts, c) == n ==>
              (forall i | 0 <= i < n :: Count(parts[i], c) == 1) && forall i | n <= i < |parts| ::
                    Count(parts[i], c) == 0
  {
    hide Count;
    if parts != [] {
      OnesFirst(parts[1..], if n == 0 then 0 else n - 1, c);
      assert forall i | 1 <= i < |parts| :: parts[i] == parts[1..][i - 1];
    }
  }

  lemma {:induction false} CountAllOnes(parts: seq<string>, c: char)
    requires forall i | 0 <= i < |parts| :: Count(parts[i], c) >= 1
    ensures CountAll(parts, c) >= |parts|
    ensures CountAll(parts, c) == |parts| <==> forall i | 0 <= i < |parts| :: Count(parts[i], c) == 1
  {
    hide Count;
    if parts != [] {
      CountAllOnes(parts[1..], c);
      assert forall i | 1 <= i < |parts| :: parts[i] == parts[1..][i - 1];
    }
  }

  // ----- decimal numbers

  predicate IsSpace(c: char) {
    c == ' ' || '\t' <= c <= '\r'
  }

  function SkipSpace(s: string): string {
    if s != "" && IsSpace(s[0]) then SkipSpace(s[1..]) else s
  }

  predicate IsDigit(c: char) {
    '0' <= c <= '9'
  }

  predicate AllDigits(s: string) {
    forall i | 0 <= i < |s| :: IsDigit(s[i])
  }

  /** "%u" */
  function Digits(n: nat): (s: string)
    ensures s != "" && AllDigits(s)
  {
    if n < 10 then ['0' + n as char] else Digits(n / 10) + ['0' + (n % 10) as char]
  }

  function Number(s: string): nat
    requires AllDigits(s)
  {
    if s == "" then 0 else 10 * Number(s[..|s| - 1]) + (s[|s| - 1] as int - '0' as int)
  }

  lemma {:induction false} NumberOfDigits(n: nat)
    ensures Number(Digits(n)) == n
  {
    if n >= 10 {
      NumberOfDigits(n / 10);
      assert Digits(n)[..|Digits(n)| - 1] == Digits(n / 10);
    }
  }

  const INT_MAX: int := 0x7fff_ffff
  const INT_MIN: int := -0x8000_0000

  /** "%d" */
  function PrintInt(n: int): string {
    if n < 0 then "-" + Digits(-n) else Digits(n)
  }

  /** strtol in base 10 with the checks around it: the whole string is white space, a sign and
      digits, and the value is an int.  An empty string counts as zero. */
  function ParseInt(s: string): (r: Option<int>)
    ensures r.Some? ==> INT_MIN <= r.value <= INT_MAX
  {
    if s == "" then Some(0)
    else
      var t := SkipSpace(s);
      var signed := t != "" && (t[0] == '-' || t[0] == '+');
      var body := if signed then t[1..] else t;
      if body == "" || !AllDigits(body) then None
      else
        var v: int := if signed && t[0] == '-' then 0 - Number(body) else Number(body);
        if INT_MIN <= v <= INT_MAX then Some(v) else None
  }

  // ----- what is read as a number

  /** Nothing but the six white-space characters. */
  predicate Blank(s: string) {
    forall i | 0 <= i < |s| :: s[i] in {' ', '\t', '\n', '\U{0b}', '\U{0c}', '\r'}
  }

  /** White space, a sign or none, and digits. */
  predicate Numeral(s: string, space: string, sign: string, digits: string) {
    s == space + sign + digits && Blank(space) && sign in {"", "-", "+"} && digits != "" && AllDigits(digits)
  }

  function Signed(sign: string, digits: string): int
    requires AllDigits(digits)
  {
    if sign == "-" then 0 - Number(digits) else Number(digits)
  }

  /** Numbers are decimal. */
  lemma {:induction false} NumberAppend(s: string, c: char)
    requires AllDigits(s) && '0' <= c <= '9'
    ensures AllDigits(s + [c]) && Number(s + [c]) == 10 * Number(s) + (c as int - 48) && Number("") == 0
  {
    assert (s + [c])[..|s|] == s;
  }

  lemma {:induction false} SkipSpaceSplit(s: string) returns (space: string)
    ensures s == space + SkipSpace(s) && Blank(space)
    ensures SkipSpace(s) != "" ==> !Blank(SkipSpace(s)[..1])
  {
    if s != "" && IsSpace(s[0]) {
      var rest := SkipSpaceSplit(s[1..]);
      space := [s[0]] + rest;
    } else {
      space := "";
    }
  }

  lemma {:induction false} SkipSpaceBlank(space: string, t: string)
    requires Blank(space) && (t != "" ==> !Blank(t[..1]))
    ensures SkipSpace(space + t) == t
  {
    if space == "" {
      assert space + t == t;
    } else {
      assert (space + t)[1..] == space[1..] + t;
      SkipSpaceBlank(space[1..], t);
    }
  }

  /** Exactly what is read as an int, and as which: the empty string as zero, and numerals in range. */
  lemma {:induction false} ParseIntMeans(s: string, v: int)
    ensures ParseInt(s) == Some(v) <==>
            || (s == "" && v == 0)
            || (&& -0x8000_0000 <= v <= 0x7fff_ffff
                && exists space, sign, digits :: Numeral(s, space, sign, digits) && v == Signed(sign, digits))
  {
    hide ParseInt, Signed;
    ParseEmpty();
    if ParseInt(s) == Some(v) && s != "" { var space, sign, digits := ParsedNumeral(s, v); }
    if -0x8000_0000 <= v <= 0x7fff_ffff {
      forall space, sign, digits | Numeral(s, space, sign, digits) && v == Signed(sign, digits)
        ensures ParseInt(s) == Some(v)
      {
        NumeralParses(s, space, sign, digits);
      }
    }
  }

  lemma {:induction false} ParseEmpty()
    ensures ParseInt("") == Some(0)
  {}

  lemma {:induction false} ParsedNumeral(s: string, v: int) returns (space: string, sign: string, digits: string)
    requires ParseInt(s) == Some(v) && s != ""
    ensures Numeral(s, space, sign, digits) && v == Signed(sign, digits) && -0x8000_0000 <= v <= 0x7fff_ffff
  {
    hide Number;
    space := SkipSpaceSplit(s);
    var t := SkipSpace(s);
    sign := if t[0] == '-' then "-" else if t[0] == '+' then "+" else "";
    digits := if sign == "" then t else t[1..];
    assert t == sign + digits;
    assert s == space + sign + digits;
  }

  lemma {:induction false} NumeralParses(s: string, space: string, sign: string, digits: string)
    requires Numeral(s, space, sign, digits) && -0x8000_0000 <= Signed(sign, digits) <= 0x7fff_ffff
    ensures ParseInt(s) == Some(Signed(sign, digits))
  {
    hide Number;
    var t := sign + digits;
    assert IsDigit(digits[0]);
    assert s == space + t;
    assert !Blank(t[..1]) by { assert t[..1][0] == t[0]; }
    SkipSpaceBlank(space, t);
    if sign == "" { assert t == digits; } else { assert t[1..] == digits; }
  }

  /** Every int survives print and scan. */
  lemma {:induction false} IntRoundTrip(n: int)
    requires INT_MIN <= n <= INT_MAX
    ensures ParseInt(PrintInt(n)) == Some(n)
  {
    var m := if n < 0 then -n else n;
    NumberOfDigits(m);
    var s := PrintInt(n);
    if n < 0 { assert s[1..] == Digits(m); } else { assert IsDigit(s[0]); }
  }
}
