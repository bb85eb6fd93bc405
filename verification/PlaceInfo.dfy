/** Place information: reading CSV files (lib/util/csv.c), and handing an APB the columns of a
    place that its permissions allow (lib/common/copland.c).

    A line keeps the newline it was read with, so the last column ends with it. */
module PlaceInfo {
  import opened Options
  import opened CStrings

  const MAX_LINE: nat := 1024

  // ----- csv.c

  /** At most 1023 characters, with a newline at most at the end. */
  predicate OneLine(l: string) {
    0 < |l| <= 1023 && '\n' !in l[..|l| - 1]
  }

  /** Nothing more belongs to the line. */
  predicate Ends(l: string) {
    l != "" && (l[|l| - 1] == '\n' || |l| == 1023)
  }

  /** The next line of a file: through the first newline, but at most one character less than the
      buffer; and what follows it. */
  function Fgets(file: string): (r: (string, string))
    requires file != ""
    ensures r.0 + r.1 == file && 0 < |r.0| < MAX_LINE
    ensures OneLine(r.0) && (r.1 != "" ==> Ends(r.0))
  {
    var n := Find(file, '\n');
    var end := if n < |file| then n + 1 else n;
    var cut := if end < MAX_LINE then end else MAX_LINE - 1;
    (file[..cut], file[cut..])
  }

  predicate HasKey(line: string, key: string, col: nat) {
    var toks := Tokens(line, ',');
    col < |toks| && toks[col] == key
  }

  /** The first line whose column `col` is the key. */
  function LineFor(file: string, key: string, col: nat): Option<string>
    decreases |file|
  {
    if file == "" then None
    else
      var (line, rest) := Fgets(file);
      if HasKey(line, key, col) then Some(line) else LineFor(rest, key, col)
  }

  /** The lines of a file as they are read: a line ends with its only newline, after 1023 characters, or
      with the file. */
  function Lines(file: string): (ls: seq<string>)
    ensures Concat(ls) == file
    ensures forall i | 0 <= i < |ls| :: OneLine(ls[i]) && (i < |ls| - 1 ==> Ends(ls[i]))
    decreases |file|
  {
    if file == "" then [] else var (line, rest) := Fgets(file); [line] + Lines(rest)
  }

  function Concat(parts: seq<string>): string {
    if parts == [] then "" else parts[0] + Concat(parts[1..])
  }

  function TokenAt(toks: seq<string>, k: nat): Option<string> {
    if k < |toks| then Some(toks[k]) else None
  }

  /** The first of the lines in which the column asked for is the key, nothing more and nothing less. */
  ghost predicate IsLineFor(ls: seq<string>, key: string, col: nat, r: Option<string>) {
    match r
    case None => forall l <- ls :: TokenAt(Tokens(l, ','), col) != Some(key)
    case Some(line) =>
      exists i | 0 <= i < |ls| ::
        && ls[i] == line && TokenAt(Tokens(line, ','), col) == Some(key)
        && forall k | 0 <= k < i :: TokenAt(Tokens(ls[k], ','), col) != Some(key)
  }

  lemma {:induction false} IsLineForNext(line: string, more: seq<string>, key: string, col: nat, r: Option<string>)
    requires TokenAt(Tokens(line, ','), col) != Some(key) && IsLineFor(more, key, col, r)
    ensures IsLineFor([line] + more, key, col, r)
  {
    hide Tokens, TokenAt;
    var ls := [line] + more;
    if r.Some? {
      var i :| 0 <= i < |more| && more[i] == r.value && TokenAt(Tokens(r.value, ','), col) == Some(key)
               && forall k | 0 <= k < i :: TokenAt(Tokens(more[k], ','), col) != Some(key);
      assert ls[i + 1] == r.value;
      assert forall k | 1 <= k < i + 1 :: ls[k] == more[k - 1];
    }
  }

  lemma {:induction false} IsLineForFirst(line: string, more: seq<string>, key: string, col: nat)
    requires TokenAt(Tokens(line, ','), col) == Some(key)
    ensures IsLineFor([line] + more, key, col, Some(line))
  {
    hide Tokens, TokenAt;
    assert ([line] + more)[0] == line;
  }

  lemma {:induction false} KeyIsToken(line: string, key: string, col: nat)
    ensures HasKey(line, key, col) <==> TokenAt(Tokens(line, ','), col) == Some(key)
  {
    hide Tokens;
  }

  lemma {:induction false} LineForMeans(file: string, key: string, col: nat)
    ensures IsLineFor(Lines(file), key, col, LineFor(file, key, col))
    decreases |file|
  {
    hide Tokens, Fgets, HasKey, IsLineFor, TokenAt;
    if file == "" {
      NoLines(key, col);
    } else {
      var (line, rest) := Fgets(file);
      KeyIsToken(line, key, col);
      if HasKey(line, key, col) {
        IsLineForFirst(line, Lines(rest), key, col);
      } else {
        LineForMeans(rest, key, col);
        IsLineForNext(line, Lines(rest), key, col, LineFor(rest, key, col));
      }
    }
  }

  lemma {:induction false} NoLines(key: string, col: nat)
    ensures IsLineFor([], key, col, None)
  {}

  /** read_line_csv */
  method ReadLine(file: string, key: string, col: nat) returns (r: Option<string>)
    ensures r == LineFor(file, key, col)
    ensures IsLineFor(Lines(file), key, col, r)
  {
    hide Strtok, Tokens, Find, IsLineFor, Lines;
    LineForMeans(file, key, col);
    var rest := file;
    while rest != ""
      invariant LineFor(rest, key, col) == LineFor(file, key, col)
      decreases |rest|
    {
      var next := Fgets(rest);
      var found := ScanKey(next.0, key, col);
      if found {
        return Some(next.0);
      }
      rest := next.1;
    }
    r := None;
  }

  /** The token loop of read_line_csv. */
  method ScanKey(line: string, key: string, col: nat) returns (found: bool)
    ensures found == HasKey(line, key, col)
    ensures found <==> TokenAt(Tokens(line, ','), col) == Some(key)
  {
    hide Strtok;
    var i, hay := 0, line;
    ghost var all := Tokens(line, ',');
    var tok := Strtok(hay, ',');
    while tok.Some?
      invariant 0 <= i <= |all| && tok == Strtok(hay, ',') && Tokens(hay, ',') == all[i..]
      invariant i > col ==> !HasKey(line, key, col)
      decreases |hay|
    {
      assert all[i] == tok.value.0 && all[i..][1..] == all[i + 1..];
      if i == col && tok.value.0 == key {
        return true;
      } else if i > col {
        break;
      }
      i := i + 1;
      hay := tok.value.1;
      tok := Strtok(hay, ',');
    }
    found := false;
  }

  /** The text that is searched for a column: it is cut to the given buffer. */
  function Cut(line: string, max: nat): string
    requires max > 0
  {
    if |line| < max then line else line[..max - 1]
  }

  /** What get_col_from_csv_line finds. */
  function Column(line: string, col: nat, max: nat): Option<string> {
    if max == 0 then None
    else
      var toks := Tokens(Cut(line, max), ',');
      if col < |toks| then Some(toks[col]) else None
  }

  /** get_col_from_csv_line */
  method GetColumn(line: string, col: nat, max: nat) returns (r: Option<string>)
    ensures r == Column(line, col, max)
  {
    hide Strtok;
    if max == 0 {
      return None;
    }
    var i, hay := 0, Cut(line, max);
    ghost var all := Tokens(hay, ',');
    var tok := Strtok(hay, ',');
    while tok.Some?
      invariant 0 <= i <= |all| && tok == Strtok(hay, ',') && Tokens(hay, ',') == all[i..] && i <= col
      decreases |hay|
    {
      assert all[i] == tok.value.0 && all[i..][1..] == all[i + 1..];
      if i == col {
        return Some(tok.value.0);
      }
      i := i + 1;
      hay := tok.value.1;
      tok := Strtok(hay, ',');
    }
    r := None;
  }

  // ----- permissions

  type Perms = n: nat | n < 0x1_0000_0000

  /** The four columns of a place: address, port, kernel version, domain. */
  const FIELDS: nat := 4

  function Bit(k: nat): nat {
    match k case 0 => 1 case 1 => 2 case 2 => 4 case _ => 8
  }

  predicate Permits(perms: Perms, k: nat)
    requires k < FIELDS
  {
    perms / Bit(k) % 2 == 1
  }

  /** The digits a string starts with. */
  function DigitRun(s: string): (d: string)
    ensures AllDigits(d)
  {
    if s != "" && IsDigit(s[0]) then [s[0]] + DigitRun(s[1..]) else ""
  }

  /** A value that may be read from memory that was never set. */
  datatype Answer<T> = Error | Undefined | Known(value: T)

  /** str_to_place_perm: a number that does not fit 64 bits is an error, a larger one than 32 bits is
      cut, and text that is no number leaves the result unset. */
  function ReadPerms(s: string): Answer<Perms> {
    var t := SkipSpace(s);
    if t == "" then Error
    else
      var signed := t[0] == '-' || t[0] == '+';
      var d := DigitRun(if signed then t[1..] else t);
      if d == "" then Undefined
      else if Number(d) >= 0x1_0000_0000_0000_0000 then Error
      else Known((if t[0] == '-' then 0 - Number(d) else Number(d)) % 0x1_0000_0000)
  }

  // ----- the line built for an APB

  /** handle_csv_perm_db_line: `line` without its final newline gets another column, the database's
      when it is permitted and "0" when it is not; None when the column is not found or the result
      would be too long. */
  function AddColumn(line: string, dbLine: string, perms: Perms, k: nat): (r: Option<string>)
    requires k < FIELDS && line != ""
    ensures r.Some? ==> r.value != "" && |line| + 2 <= |r.value| < MAX_LINE - 1
  {
    var ele := if !Permits(perms, k) then Some("0")
               else if |line| < MAX_LINE then Column(dbLine, k + 1, MAX_LINE - |line|) else None;
    if ele.None? || |line| + |ele.value| + 2 >= MAX_LINE then None
    else Some(line[..|line| - 1] + "," + ele.value + "\n")
  }

  datatype Query = Failed | NoInformation | NoPlace | Line(text: string)

  function Start(id: string, perms: Perms): string {
    id + "," + Digits(perms) + "\n"
  }

  /** Columns `k` on; `useful` records whether a column so far was longer than the placeholder. */
  function Columns(line: string, dbLine: string, perms: Perms, k: nat, useful: bool): Query
    requires k <= FIELDS && line != ""
    decreases FIELDS - k
  {
    if k == FIELDS then (if useful then Line(line) else NoInformation)
    else
      var next := AddColumn(line, dbLine, perms, k);
      if next.None? then Failed
      else Columns(next.value, dbLine, perms, k + 1, useful || |next.value| > |line| + 2)
  }

  /** What query_place_info_csv makes of the database line of a place. */
  function FillIn(id: string, perms: Perms, dbLine: string): Query {
    Columns(Start(id, perms), dbLine, perms, 0, false)
  }

  /** query_place_info_csv.  `tooLong` is the early check of a length that is not yet set. */
  method QueryPlace(id: string, perms: Perms, database: string, tooLong: bool) returns (q: Query)
    ensures tooLong ==> q == Failed
    ensures !tooLong && perms == 0 ==> q == NoInformation
    ensures !tooLong && perms != 0 ==>
              q == if |id| + |Digits(perms)| >= MAX_LINE then Failed
                   else match LineFor(database, id, 0)
                        case None => NoPlace
                        case Some(dbLine) => FillIn(id, perms, dbLine)
    ensures !tooLong && perms != 0 && |id| + |Digits(perms)| < MAX_LINE ==>
              exists found ::
                && IsLineFor(Lines(database), id, 0, found)
                && q == match found case None => NoPlace case Some(dbLine) => FillIn(id, perms, dbLine)
  {
    hide LineFor, AddColumn, Digits, IsLineFor, Lines;
    if tooLong {
      return Failed;
    }
    if perms == 0 {
      return NoInformation;
    }
    var perm := Digits(perms);
    if |id| + |perm| >= MAX_LINE {
      return Failed;
    }
    var line := id + "," + perm + "\n";
    var dbLine := ReadLine(database, id, 0);
    if dbLine.None? {
      return NoPlace;
    }
    var l0, u0 := TakeColumn(line, dbLine.value, perms, 0, false);
    if l0.None? {
      return Failed;
    }
    var l1, u1 := TakeColumn(l0.value, dbLine.value, perms, 1, u0);
    if l1.None? {
      return Failed;
    }
    var l2, u2 := TakeColumn(l1.value, dbLine.value, perms, 2, u1);
    if l2.None? {
      return Failed;
    }
    var l3, u3 := TakeColumn(l2.value, dbLine.value, perms, 3, u2);
    if l3.None? {
      return Failed;
    }
    q := if u3 then Line(l3.value) else NoInformation;
  }

  /** One column, and whether it is longer than the placeholder. */
  method TakeColumn(line: string, dbLine: string, perms: Perms, k: nat, useful: bool)
    returns (next: Option<string>, useful': bool)
    requires k < FIELDS && line != ""
    ensures next == AddColumn(line, dbLine, perms, k)
    ensures next.Some? ==> useful' == (useful || |next.value| > |line| + 2)
  {
    hide Column, Permits;
    useful' := useful;
    var ele := Some("0");
    if Permits(perms, k) {
      ele := None;
      if |line| < MAX_LINE {
        ele := GetColumn(dbLine, k + 1, MAX_LINE - |line|);
      }
    }
    if ele.None? || |line| + |ele.value| + 2 >= MAX_LINE {
      return None, useful;
    }
    next := Some(line[..|line| - 1] + "," + ele.value + "\n");
    if |next.value| > |line| + |"0"| + 1 {
      useful' := true;
    }
  }

  // ----- reading it back

  datatype Info = Info(addr: Option<string>, port: Option<string>, kernel: Option<string>, domain: Option<string>)
  {
    function Field(k: nat): Option<string> {
      match k case 0 => addr case 1 => port case 2 => kernel case _ => domain
    }
  }

  /** A permitted field; when its column is missing, whatever the variable held before. */
  function ReadField(line: string, perms: Perms, k: nat): Answer<Option<string>>
    requires k < FIELDS
  {
    if !Permits(perms, k) then Known(None)
    else if Column(line, k + 2, MAX_LINE).None? then Undefined
    else Known(Column(line, k + 2, MAX_LINE))
  }

  /** get_place_information on the line found. */
  function InfoOf(line: string): Answer<Info> {
    match Column(line, 1, MAX_LINE)
    case None => Undefined
    case Some(text) =>
      match ReadPerms(text)
      case Error => Error
      case Undefined => Undefined
      case Known(perms) =>
        var a, p := ReadField(line, perms, 0), ReadField(line, perms, 1);
        var k, d := ReadField(line, perms, 2), ReadField(line, perms, 3);
        if a.Known? && p.Known? && k.Known? && d.Known?
        then Known(Info(a.value, p.value, k.value, d.value)) else Undefined
  }

  /** get_place_information: a missing column is not noticed. */
  method PlaceInformation(file: string, id: string) returns (r: Answer<Info>)
    ensures r == match LineFor(file, id, 0) case None => Error case Some(line) => InfoOf(line)
    ensures exists found ::
              && IsLineFor(Lines(file), id, 0, found)
              && r == match found case None => Error case Some(line) => InfoOf(line)
  {
    hide LineFor, Column, ReadPerms, Permits, IsLineFor, Lines;
    var line := ReadLine(file, id, 0);
    if line.None? {
      return Error;
    }
    var text := GetColumn(line.value, 1, MAX_LINE);
    if text.None? {
      return Undefined;
    }
    var perms := ReadPerms(text.value);
    if !perms.Known? {
      return if perms.Error? then Error else Undefined;
    }
    var addr: Option<string>, port: Option<string> := None, None;
    var kernel: Option<string>, domain: Option<string> := None, None;
    var unset := false;
    if Permits(perms.value, 0) {
      addr := GetColumn(line.value, 2, MAX_LINE);
      unset := unset || addr.None?;
    }
    if Permits(perms.value, 1) {
      port := GetColumn(line.value, 3, MAX_LINE);
      unset := unset || port.None?;
    }
    if Permits(perms.value, 2) {
      kernel := GetColumn(line.value, 4, MAX_LINE);
      unset := unset || kernel.None?;
    }
    if Permits(perms.value, 3) {
      domain := GetColumn(line.value, 5, MAX_LINE);
      unset := unset || domain.None?;
    }
    r := if unset then Undefined else Known(Info(addr, port, kernel, domain));
  }

  /** When a value that was never set is used: the line has no column of permissions, they are no
      number, or a permitted column is missing. */
  lemma {:induction false} UndefinedWhen(line: string)
    requires |line| < MAX_LINE
    ensures var toks := Tokens(line, ',');
            InfoOf(line) == Undefined
            <==> || |toks| < 2
                 || ReadPerms(toks[1]) == Undefined
                 || (ReadPerms(toks[1]).Known? && exists k | 0 <= k < FIELDS ::
                      Permits(ReadPerms(toks[1]).value, k) && |toks| <= k + 2)
  {
    hide Tokens, ReadPerms, Permits;
    assert Cut(line, MAX_LINE) == line;
    var toks := Tokens(line, ',');
    if |toks| >= 2 && ReadPerms(toks[1]).Known? {
      var perms := ReadPerms(toks[1]).value;
      forall k | 0 <= k < FIELDS ensures ReadField(line, perms, k) == Undefined
          <==> Permits(perms, k) && |toks| <= k + 2 {
      }
    }
  }

  /** Which field is which: permission 1 is for the address in the third column, 2 for the port, 4 for
      the kernel version and 8 for the domain. */
  lemma {:induction false} InfoMeans(line: string, perms: Perms)
    requires |line| < 1024 && |Tokens(line, ',')| >= 6 && ReadPerms(Tokens(line, ',')[1]) == Known(perms)
    ensures var toks := Tokens(line, ',');
            InfoOf(line) == Known(Info(if perms % 2 == 1 then Some(toks[2]) else None,
                                       if perms / 2 % 2 == 1 then Some(toks[3]) else None,
                                       if perms / 4 % 2 == 1 then Some(toks[4]) else None,
                                       if perms / 8 % 2 == 1 then Some(toks[5]) else None))
  {
    hide Tokens, ReadPerms;
    assert Cut(line, MAX_LINE) == line;
  }

  /** What is read as permissions: a numeral, whatever follows it, modulo 2^32. */
  lemma {:induction false} PermsMean(space: string, sign: string, digits: string, rest: string)
    requires Blank(space) && sign in {"", "-", "+"} && AllDigits(digits)
    requires rest != "" ==> !('0' <= rest[0] <= '9')
    ensures var s := space + (sign + digits + rest);
            && (digits != "" && Number(digits) < 0x1_0000_0000_0000_0000 ==>
                  ReadPerms(s) == Known(Signed(sign, digits) % 0x1_0000_0000))
            && (digits != "" && Number(digits) >= 0x1_0000_0000_0000_0000 ==> ReadPerms(s) == Error)
            && (digits == "" && sign != "" ==> ReadPerms(s) == Undefined)
            && (digits == "" && sign == "" && rest != "" && rest[0] !in {'-', '+'} && !Blank(rest[..1]) ==>
                  ReadPerms(s) == Undefined)
            && (sign + digits + rest == "" ==> ReadPerms(s) == Error)
  {
    hide Number;
    var t := sign + digits + rest;
    assert sign != "" || digits != "" ==> !Blank(t[..1]) by {
      if sign != "" {
        assert t[..1][0] == sign[0];
      } else if digits != "" {
        assert IsDigit(digits[0]) && t[..1][0] == digits[0];
      }
    }
    if t == "" || !Blank(t[..1]) {
      SkipSpaceBlank(space, t);
      if sign == "" { assert t == digits + rest; } else { assert t[1..] == digits + rest; }
      DigitRunThen(digits, rest);
      assert digits != "" ==> IsDigit(digits[0]);
    }
  }

  lemma {:induction false} DigitRunThen(digits: string, rest: string)
    requires AllDigits(digits) && (rest != "" ==> !IsDigit(rest[0]))
    ensures DigitRun(digits + rest) == digits
  {
    if digits == "" {
      assert digits + rest == rest;
    } else {
      assert IsDigit(digits[0]) && (digits + rest)[1..] == digits[1..] + rest;
      DigitRunThen(digits[1..], rest);
    }
  }

  lemma {:induction false} UndefinedAt()
    ensures InfoOf("p,1\n") == Undefined
  {
    hide Tokens, ReadPerms;
    var toks := ["p", "1\n"];
    assert toks[1..] == ["1\n"] && Join(toks, ',') == "p,1\n";
    TokensOfJoin(toks, ',');
    OnePermitted();
    UndefinedWhen("p,1\n");
    assert Permits(1, 0);
  }

  lemma {:induction false} OnePermitted()
    ensures ReadPerms("1\n") == Known(1)
  {
    var s := "1\n";
    assert SkipSpace(s) == s && s[1..] == "\n";
    assert DigitRun(s) == "1" + DigitRun("\n") == "1";
    assert "1"[..0] == "" && Number("1") == 1;
  }

  // ----- what an APB learns

  /** A database line as its columns, of which there are any number and any may be empty; only the end
      of the line may hold the newline. */
  predicate Row(cols: seq<string>, line: string) {
    && cols != [] && line == Join(cols, ',') && (forall c <- cols :: ',' !in c)
    && (forall k | 0 <= k < |cols| - 1 :: '\n' !in cols[k])
    && (cols[|cols| - 1] != "" ==> '\n' !in cols[|cols| - 1][..|cols[|cols| - 1]| - 1])
  }

  /** The columns that are not empty. */
  function NonEmpty(cols: seq<string>): seq<string> {
    if cols == [] then [] else (if cols[0] == "" then [] else [cols[0]]) + NonEmpty(cols[1..])
  }

  /** Empty columns vanish: the tokens of a line are its columns that are not empty, so they are its
      columns if and only if none is empty. */
  lemma {:induction false} EmptyColumnsVanish(cols: seq<string>, d: char)
    requires forall c <- cols :: d !in c
    ensures Tokens(Join(cols, d), d) == NonEmpty(cols)
    ensures Tokens(Join(cols, d), d) == cols <==> forall c <- cols :: c != ""
  {
    hide Tokens;
    NonEmptyAll(cols);
    if |cols| <= 1 {
      if cols != [] && cols[0] != "" { TokensNext(cols[0], d, ""); }
      NoTokens(d);
    } else {
      var rest := Join(cols[1..], d);
      EmptyColumnsVanish(cols[1..], d);
      if cols[0] == "" {
        assert Join(cols, d) == [d] + rest;
        TokensSkip(rest, d);
      } else {
        TokensNext(cols[0], d, rest);
      }
    }
  }

  lemma {:induction false} NonEmptyAll(cols: seq<string>)
    ensures |NonEmpty(cols)| <= |cols|
    ensures NonEmpty(cols) == cols <==> forall c <- cols :: c != ""
    ensures |NonEmpty(cols)| == |cols| ==> NonEmpty(cols) == cols
  {
    if cols != [] {
      NonEmptyAll(cols[1..]);
      assert cols == [cols[0]] + cols[1..];
      assert cols[0] in cols && forall c :: c in cols <==> c == cols[0] || c in cols[1..];
      if NonEmpty(cols) == cols { assert NonEmpty(cols)[1..] == cols[1..]; }
    }
  }

  /** Where the `k`-th column that is not empty is; past the end when there is none. */
  function Nth(cols: seq<string>, k: nat): (i: nat)
    ensures i <= |cols| && (i < |cols| ==> cols[i] != "" && k <= i)
  {
    if cols == [] then 0
    else if cols[0] == "" then 1 + Nth(cols[1..], k)
    else if k == 0 then 0
    else 1 + Nth(cols[1..], k - 1)
  }

  /** What is found when column `k` is asked for. */
  function Seen(cols: seq<string>, k: nat): Option<string> {
    var i := Nth(cols, k);
    if i < |cols| then Some(cols[i]) else None
  }

  lemma {:induction false} SeenIsNonEmpty(cols: seq<string>, k: nat)
    ensures Seen(cols, k) == if k < |NonEmpty(cols)| then Some(NonEmpty(cols)[k]) else None
  {
    if cols != [] {
      if cols[0] == "" { SeenIsNonEmpty(cols[1..], k); } else if k > 0 { SeenIsNonEmpty(cols[1..], k - 1); }
    }
  }

  /** The column asked for is the one found exactly when no column up to it is empty. */
  lemma {:induction false} NamedWhen(cols: seq<string>, k: nat)
    requires k < |cols|
    ensures Nth(cols, k) == k <==> forall j | 0 <= j <= k :: cols[j] != ""
  {
    if cols[0] != "" && k > 0 {
      NamedWhen(cols[1..], k - 1);
      assert forall j | 1 <= j <= k :: cols[j] == cols[1..][j - 1];
    }
  }

  /** After the last column there is none. */
  lemma {:induction false} NthLast(cols: seq<string>, k: nat, m: nat)
    requires cols != [] && Nth(cols, k) == |cols| - 1 && k < m
    ensures Nth(cols, m) == |cols|
  {
    if cols[0] == "" {
      NthLast(cols[1..], k, m);
    } else if k > 0 {
      NthLast(cols[1..], k - 1, m - 1);
    } else {
      assert cols[1..] == [];
    }
  }

  /** The columns as an APB with these permissions sees them. */
  function Shown(perms: Perms, cols: seq<string>): (r: seq<string>)
    ensures |r| == FIELDS
    ensures forall k | 0 <= k < FIELDS :: r[k] == ShownAt(perms, cols, k)
  {
    seq(FIELDS, k requires 0 <= k < FIELDS => ShownAt(perms, cols, k))
  }

  function ShownAt(perms: Perms, cols: seq<string>, k: nat): string
    requires k < FIELDS
  {
    if !Permits(perms, k) then "0" else match Seen(cols, k + 1) case None => "" case Some(c) => c
  }

  /** The length of the line before column `k` is added. */
  function LengthBefore(id: string, perms: Perms, shown: seq<string>, k: nat): nat
    requires k <= |shown|
  {
    if k == 0 then |Start(id, perms)| else LengthBefore(id, perms, shown, k - 1) + |shown[k - 1]| + 1
  }

  lemma {:induction false} LengthGrows(id: string, perms: Perms, shown: seq<string>, j: nat, k: nat)
    requires j <= k <= |shown|
    ensures LengthBefore(id, perms, shown, j) <= LengthBefore(id, perms, shown, k)
    decreases k
  {
    if j < k { LengthGrows(id, perms, shown, j, k - 1); }
  }

  /** Where column `k` starts. */
  function Offset(cols: seq<string>, k: nat): nat
    requires k <= |cols|
  {
    if k == 0 then 0 else |cols[0]| + 1 + Offset(cols[1..], k - 1)
  }

  /** What is found of a row in a buffer of `max` characters when column `k` is asked for: a column
      whole, cut short, or nothing. */
  function Clip(cols: seq<string>, k: nat, max: nat): Option<string> {
    var i := Nth(cols, k);
    if i == |cols| then None
    else
      var start := Offset(cols, i);
      if max <= start + 1 then None
      else if start + |cols[i]| < max then Some(cols[i])
      else Some(cols[i][..max - 1 - start])
  }

  /** The column search on any row, for any buffer. */
  lemma {:induction false} ColumnClipped(cols: seq<string>, k: nat, max: nat)
    requires forall c <- cols :: ',' !in c
    ensures Column(Join(cols, ','), k, max) == Clip(cols, k, max)
  {
    hide Tokens, Join, Offset;
    if max > 0 {
      var line := Join(cols, ',');
      var n := if |line| < max then |line| else max - 1;
      assert Cut(line, max) == line[..n];
      TokenOfPart(cols, k, n);
      var i := Nth(cols, k);
      if i < |cols| {
        OffsetInJoin(cols, i);
        assert cols[i][..|cols[i]|] == cols[i];
      }
    }
  }

  lemma {:induction false} OffsetInJoin(cols: seq<string>, k: nat)
    requires k < |cols|
    ensures Offset(cols, k) + |cols[k]| == |Join(cols[..k + 1], ',')| <= |Join(cols, ',')|
  {
    if k == 0 {
      assert cols[..1] == [cols[0]];
    } else {
      OffsetInJoin(cols[1..], k - 1);
      assert cols[..k + 1][1..] == cols[1..][..k];
    }
  }

  /** The part of the column found for `k` that is within the first `n` characters of a row. */
  function PartAt(cols: seq<string>, k: nat, n: nat): Option<string> {
    var i := Nth(cols, k);
    if i == |cols| || n <= Offset(cols, i) then None
    else Some(if Offset(cols, i) + |cols[i]| <= n then cols[i] else cols[i][..n - Offset(cols, i)])
  }

  lemma {:induction false} PartNext(cols: seq<string>, k: nat, n: nat)
    requires cols != [] && n > |cols[0]|
    ensures cols[0] == "" ==> PartAt(cols, k, n) == PartAt(cols[1..], k, n - 1)
    ensures cols[0] != "" ==>
              PartAt(cols, k, n) == if k == 0 then Some(cols[0]) else PartAt(cols[1..], k - 1, n - |cols[0]| - 1)
  {
  }

  lemma {:induction false} PartFirst(cols: seq<string>, k: nat, n: nat)
    requires cols != [] && n <= |cols[0]|
    ensures PartAt(cols, k, n) == if k == 0 && n > 0 then Some(cols[0][..n]) else None
  {
    if k == 0 && n == |cols[0]| { assert cols[0][..n] == cols[0]; }
  }

  /** The tokens of the first `n` characters of a row. */
  lemma {:induction false} TokenOfPart(cols: seq<string>, k: nat, n: nat)
    requires (forall c <- cols :: ',' !in c) && n <= |Join(cols, ',')|
    ensures TokenAt(Tokens(Join(cols, ',')[..n], ','), k) == PartAt(cols, k, n)
    decreases |cols|
  {
    hide Tokens, PartAt;
    var line := Join(cols, ',');
    if cols == [] {
      assert line[..n] == "";
      NoTokens(',');
      NoPart(k, n);
    } else if n <= |cols[0]| {
      var c := cols[0];
      PartFirst(cols, k, n);
      assert c in cols && line[..n] == c[..n] && ',' !in c[..n];
      if n == 0 { NoTokens(','); } else { TokensNext(c[..n], ',', ""); }
    } else {
      var c, rest, m := cols[0], Join(cols[1..], ','), n - |cols[0]| - 1;
      PartNext(cols, k, n);
      assert line == c + [','] + rest && line[..n] == c + [','] + rest[..m];
      if c == "" {
        assert line[..n] == [','] + rest[..m];
        TokensSkip(rest[..m], ',');
        TokenOfPart(cols[1..], k, m);
      } else {
        TokensNext(c, ',', rest[..m]);
        if k > 0 { TokenOfPart(cols[1..], k - 1, m); }
      }
    }
  }

  lemma {:induction false} NoPart(k: nat, n: nat)
    ensures PartAt([], k, n) == None
  {}

  /** Column `k` as the query reads it behind a line of `len` characters; None when it is missing or
      does not fit. */
  function ReadOne(len: nat, perms: Perms, cols: seq<string>, k: nat): Option<string>
    requires k < FIELDS
  {
    var c := if !Permits(perms, k) then Some("0")
             else if len < MAX_LINE then Clip(cols, k + 1, MAX_LINE - len) else None;
    if c.None? || len + |c.value| + 2 >= MAX_LINE then None else c
  }

  /** The columns from `k` on. */
  function Reads(len: nat, perms: Perms, cols: seq<string>, k: nat): (r: Option<seq<string>>)
    requires k <= FIELDS
    ensures r.Some? ==> |r.value| == FIELDS - k
    decreases FIELDS - k
  {
    if k == FIELDS then Some([])
    else
      match ReadOne(len, perms, cols, k)
      case None => None
      case Some(c) =>
        var rest := Reads(len + |c| + 1, perms, cols, k + 1);
        if rest.None? then None else Some([c] + rest.value)
  }

  predicate Telling(cols: seq<string>) {
    exists i | 0 <= i < |cols| :: |cols[i]| > 1
  }

  lemma {:induction false} ColumnsRead(parts: seq<string>, dbLine: string, perms: Perms, cols: seq<string>, k: nat,
                                       useful: bool)
    requires Row(cols, dbLine) && k <= FIELDS && parts != []
    ensures var line := Join(parts, ',') + "\n";
            Columns(line, dbLine, perms, k, useful)
            == match Reads(|line|, perms, cols, k)
               case None => Failed
               case Some(rs) => if useful || Telling(rs) then Line(Join(parts + rs, ',') + "\n") else NoInformation
    decreases FIELDS - k
  {
    hide ReadOne, AddColumn, Join, Telling;
    var line := Join(parts, ',') + "\n";
    if k == FIELDS {
      assert parts + [] == parts;
      NothingTold();
    } else {
      ReadOneAdded(cols, dbLine, perms, line, k);
      var c := ReadOne(|line|, perms, cols, k);
      if c.Some? {
        assert line[..|line| - 1] == Join(parts, ',');
        JoinSnoc(parts, c.value, ',');
        ColumnsRead(parts + [c.value], dbLine, perms, cols, k + 1, useful || |c.value| > 1);
        var rest := Reads(|line| + |c.value| + 1, perms, cols, k + 1);
        if rest.Some? {
          assert parts + [c.value] + rest.value == parts + ([c.value] + rest.value);
          TellingNext(c.value, rest.value);
        }
      }
    }
  }

  lemma {:induction false} ReadsShort(parts: seq<string>, perms: Perms, cols: seq<string>, k: nat)
    requires k < FIELDS && parts != []
    ensures var rs := Reads(|Join(parts, ',')| + 1, perms, cols, k);
            rs.Some? ==> |Join(parts + rs.value, ',')| + 2 < MAX_LINE
    decreases FIELDS - k
  {
    hide Join, ReadOne;
    var len := |Join(parts, ',')| + 1;
    ReadOneFits(len, perms, cols, k);
    var rs := Reads(len, perms, cols, k);
    if rs.Some? {
      var c := rs.value[0];
      JoinSnoc(parts, c, ',');
      assert parts + rs.value == parts + [c] + rs.value[1..];
      assert parts + [c] + [] == parts + [c];
      if k + 1 < FIELDS { ReadsShort(parts + [c], perms, cols, k + 1); }
    }
  }

  lemma {:induction false} ReadOneFits(len: nat, perms: Perms, cols: seq<string>, k: nat)
    requires k < FIELDS
    ensures var c := ReadOne(len, perms, cols, k); c.Some? ==> len + |c.value| + 2 < MAX_LINE
  {}

  lemma {:induction false} NothingTold()
    ensures !Telling([])
  {}

  lemma {:induction false} TellingNext(c: string, rest: seq<string>)
    ensures Telling([c] + rest) <==> |c| > 1 || Telling(rest)
  {
    var all := [c] + rest;
    assert forall i | 0 <= i < |rest| :: rest[i] == all[i + 1];
    if Telling(rest) {
      var i :| 0 <= i < |rest| && |rest[i]| > 1;
      assert |all[i + 1]| > 1;
    }
    if |c| > 1 { assert |all[0]| > 1; }
  }

  lemma {:induction false} ReadOneAdded(cols: seq<string>, dbLine: string, perms: Perms, line: string, k: nat)
    requires Row(cols, dbLine) && k < FIELDS && line != ""
    ensures AddColumn(line, dbLine, perms, k)
            == match ReadOne(|line|, perms, cols, k)
               case None => None
               case Some(c) => Some(line[..|line| - 1] + "," + c + "\n")
  {
    hide Permits, Column, Clip, Join;
    if |line| < MAX_LINE { ColumnClipped(cols, k + 1, MAX_LINE - |line|); }
  }

  /** The query on any row: refused when a column is missing or does not fit, without information
      when no column read is longer than one character, and otherwise the columns as they were
      read. */
  lemma {:induction false} FillInReads(id: string, perms: Perms, cols: seq<string>, dbLine: string)
    requires Row(cols, dbLine)
    ensures FillIn(id, perms, dbLine)
            == match Reads(|Start(id, perms)|, perms, cols, 0)
               case None => Failed
               case Some(rs) => if Telling(rs) then Line(Join([id, Digits(perms)] + rs, ',') + "\n") else NoInformation
    ensures var rs := Reads(|Start(id, perms)|, perms, cols, 0);
            rs.Some? ==> |Join([id, Digits(perms)] + rs.value, ',')| + 2 < MAX_LINE
  {
    hide Columns, Digits, Reads, Telling;
    var parts := [id, Digits(perms)];
    assert Join(parts, ',') + "\n" == Start(id, perms) by { assert parts[1..] == [Digits(perms)]; }
    ColumnsRead(parts, dbLine, perms, cols, 0, false);
    ReadsShort(parts, perms, cols, 0);
  }

  /** A row is found under its first column that is not empty. */
  lemma {:induction false} RowFoundUnder(cols: seq<string>, line: string)
    requires Row(cols, line)
    ensures TokenAt(Tokens(line, ','), 0) == Seen(cols, 0)
  {
    hide Tokens;
    EmptyColumnsVanish(cols, ',');
    SeenIsNonEmpty(cols, 0);
  }

  // ----- columns read whole

  /** The column found for `k`, if permitted, is there and ends before the buffer that is left when it
      is read. */
  predicate WholeAt(id: string, perms: Perms, cols: seq<string>, k: nat)
    requires k < FIELDS
  {
    Permits(perms, k) ==>
      var i := Nth(cols, k + 1);
      i < |cols| && |Join(cols[..i + 1], ',')| + LengthBefore(id, perms, Shown(perms, cols), k) < MAX_LINE
  }

  predicate Whole(id: string, perms: Perms, cols: seq<string>)
  {
    forall k | 0 <= k < FIELDS :: WholeAt(id, perms, cols, k)
  }

  /** The line with all visible columns is short enough to be written. */
  predicate Short(id: string, perms: Perms, cols: seq<string>)
  {
    LengthBefore(id, perms, Shown(perms, cols), FIELDS) + 1 < MAX_LINE
  }

  /** A column is read as it is in the database exactly when it ends inside the buffer. */
  lemma {:induction false} ReadOneWhole(id: string, perms: Perms, cols: seq<string>, k: nat)
    requires (forall c <- cols :: ',' !in c) && k < FIELDS
    ensures var c := Shown(perms, cols)[k];
            var len := LengthBefore(id, perms, Shown(perms, cols), k);
            var r := ReadOne(len, perms, cols, k);
            && (r == Some(c) <==> WholeAt(id, perms, cols, k) && len + |c| + 2 < MAX_LINE)
            && (r.Some? && WholeAt(id, perms, cols, k) ==> r == Some(c))
  {
    hide Permits, Join, LengthBefore, Offset;
    var i := Nth(cols, k + 1);
    if i < |cols| { OffsetInJoin(cols, i); }
  }

  predicate WholeFrom(id: string, perms: Perms, cols: seq<string>, k: nat)
  {
    forall j | k <= j < FIELDS :: WholeAt(id, perms, cols, j)
  }

  /** The columns from `k` on are read as they are exactly when they are read whole and fit. */
  lemma {:induction false} ReadsFrom(id: string, perms: Perms, cols: seq<string>, k: nat)
    requires (forall c <- cols :: ',' !in c) && k <= FIELDS
    ensures var shown := Shown(perms, cols);
            var r := Reads(LengthBefore(id, perms, shown, k), perms, cols, k);
            && (r == Some(shown[k..]) <==> WholeFrom(id, perms, cols, k) && (k < FIELDS ==> Short(id, perms, cols)))
            && (WholeFrom(id, perms, cols, k) && r.Some? ==> r == Some(shown[k..]))
    decreases FIELDS - k
  {
    hide Start, WholeAt, ReadOne, Shown, Plain;
    var shown := Shown(perms, cols);
    if k == FIELDS {
      assert shown[k..] == [];
    } else {
      LengthGrows(id, perms, shown, k + 1, FIELDS);
      ReadOneWhole(id, perms, cols, k);
      ReadsFrom(id, perms, cols, k + 1);
      var len := LengthBefore(id, perms, shown, k);
      assert LengthBefore(id, perms, shown, k + 1) == len + |shown[k]| + 1;
      assert WholeFrom(id, perms, cols, k) <==> WholeAt(id, perms, cols, k) && WholeFrom(id, perms, cols, k + 1);
      ReadsNext(len, perms, cols, k, shown[k..]);
      assert shown[k..][0] == shown[k] && shown[k..][1..] == shown[k + 1..];
    }
  }

  lemma {:induction false} ReadsNext(len: nat, perms: Perms, cols: seq<string>, k: nat, rs: seq<string>)
    requires k < FIELDS && |rs| == FIELDS - k
    ensures Reads(len, perms, cols, k) == Some(rs)
       <==> ReadOne(len, perms, cols, k) == Some(rs[0]) && Reads(len + |rs[0]| + 1, perms, cols, k + 1) == Some(rs[1..])
    ensures Reads(len, perms, cols, k).Some? ==>
              var c := ReadOne(len, perms, cols, k); c.Some? && Reads(len + |c.value| + 1, perms, cols, k + 1).Some?
  {
    hide ReadOne;
    assert rs == [rs[0]] + rs[1..];
    var r := Reads(len, perms, cols, k);
    if r.Some? {
      var c := ReadOne(len, perms, cols, k).value;
      var rest := Reads(len + |c| + 1, perms, cols, k + 1).value;
      assert r.value == [c] + rest && r.value[0] == c && r.value[1..] == rest;
    }
  }

  /** A column as it was read: its placeholder, or as much of it as there was room for. */
  predicate ReadOf(perms: Perms, cols: seq<string>, k: nat, c: string)
    requires k < FIELDS
  {
    if Permits(perms, k) then c != "" && Seen(cols, k + 1).Some? && c <= Seen(cols, k + 1).value else c == "0"
  }

  lemma {:induction false} ReadOneShape(len: nat, perms: Perms, cols: seq<string>, k: nat)
    requires (forall c <- cols :: ',' !in c) && k < FIELDS
    ensures var r := ReadOne(len, perms, cols, k); r.Some? ==> ReadOf(perms, cols, k, r.value)
  {
    hide Permits, Offset;
  }

  function ReadAt(rs: seq<string>, k: nat, j: nat): string
    requires k <= j < k + |rs|
  {
    rs[j - k]
  }

  lemma {:induction false} ReadsShape(len: nat, perms: Perms, cols: seq<string>, k: nat)
    requires (forall c <- cols :: ',' !in c) && k <= FIELDS
    ensures var r := Reads(len, perms, cols, k);
            r.Some? ==> forall j {:trigger ReadAt(r.value, k, j)} | k <= j < FIELDS ::
                  ReadOf(perms, cols, j, ReadAt(r.value, k, j))
    decreases FIELDS - k
  {
    hide ReadOf, ReadOne;
    var r := Reads(len, perms, cols, k);
    if r.Some? && k < FIELDS {
      var c := r.value[0];
      ReadOneShape(len, perms, cols, k);
      ReadsShape(len + |c| + 1, perms, cols, k + 1);
      var rest := Reads(len + |c| + 1, perms, cols, k + 1).value;
      assert r.value == [c] + rest;
      assert forall j | k < j < FIELDS :: ReadAt(r.value, k, j) == ReadAt(rest, k + 1, j);
    }
  }

  /** What is read of a row, whole or not. */
  lemma {:induction false} ReadsOfRow(id: string, perms: Perms, cols: seq<string>)
    requires forall c <- cols :: ',' !in c
    ensures var r := Reads(|Start(id, perms)|, perms, cols, 0);
            && (r == Some(Shown(perms, cols)) <==> Whole(id, perms, cols) && Short(id, perms, cols))
            && (Whole(id, perms, cols) && !Short(id, perms, cols) ==> r.None?)
            && (r.Some? ==> forall k | 0 <= k < FIELDS :: ReadOf(perms, cols, k, r.value[k]))
  {
    hide Permits, Start, Join, Reads, ReadOf, WholeAt;
    var shown := Shown(perms, cols);
    assert shown[0..] == shown && WholeFrom(id, perms, cols, 0) == Whole(id, perms, cols);
    ReadsFrom(id, perms, cols, 0);
    ReadsShape(|Start(id, perms)|, perms, cols, 0);
    var r := Reads(|Start(id, perms)|, perms, cols, 0);
    assert r.Some? ==> forall k | 0 <= k < FIELDS :: r.value[k] == ReadAt(r.value, 0, k);
  }

  /** Non-interference: two database rows in which the same is found for the permitted columns, all
      read whole, give an APB the same line or the same refusal.  And that is exact: when the first row is answered,
      the second gets the same answer if and only if its permitted columns are read whole too. */
  lemma {:induction false} NonInterference(id: string, perms: Perms, cols1: seq<string>, line1: string,
                                           cols2: seq<string>, line2: string)
    requires Row(cols1, line1) && Row(cols2, line2) && Whole(id, perms, cols1)
    requires forall k | 0 <= k < FIELDS && Permits(perms, k) :: Seen(cols1, k + 1) == Seen(cols2, k + 1)
    ensures Whole(id, perms, cols2) ==> FillIn(id, perms, line1) == FillIn(id, perms, line2)
    ensures FillIn(id, perms, line1) != Failed ==>
              (FillIn(id, perms, line1) == FillIn(id, perms, line2) <==> Whole(id, perms, cols2))
  {
    hide Permits, Start, Join, Reads, Whole, Short, Digits, FillIn, Telling, Seen;
    var shown := Shown(perms, cols1);
    assert shown == Shown(perms, cols2);
    SameShort(id, perms, cols1, cols2);
    ReadsOfRow(id, perms, cols1);
    ReadsOfRow(id, perms, cols2);
    FillInReads(id, perms, cols1, line1);
    FillInReads(id, perms, cols2, line2);
    var r := Reads(|Start(id, perms)|, perms, cols2, 0);
    if FillIn(id, perms, line1) != Failed && r.Some? && r.value != shown {
      ToldApart(id, perms, cols2, shown, r.value);
    }
  }

  lemma {:induction false} SameShort(id: string, perms: Perms, cols1: seq<string>, cols2: seq<string>)
    requires Shown(perms, cols1) == Shown(perms, cols2)
    ensures Short(id, perms, cols1) == Short(id, perms, cols2)
  {
  }

  /** Reading less than what is shown changes the answer. */
  lemma {:induction false} ToldApart(id: string, perms: Perms, cols: seq<string>, shown: seq<string>, rs: seq<string>)
    requires (forall c <- cols :: ',' !in c) && shown == Shown(perms, cols)
    requires |rs| == FIELDS && rs != shown && forall k | 0 <= k < FIELDS :: ReadOf(perms, cols, k, rs[k])
    ensures Telling(shown)
    ensures Join([id, Digits(perms)] + rs, ',') + "\n" != Join([id, Digits(perms)] + shown, ',') + "\n"
  {
    hide Permits, Join, Tokens, Digits;
    forall k | 0 <= k < FIELDS ensures rs[k] != "" && rs[k] <= shown[k] && Plain(shown[k], ',') && Plain(rs[k], ',') {
      assert ReadOf(perms, cols, k, rs[k]) && shown[k] == ShownAt(perms, cols, k);
      assert Seen(cols, k + 1).Some? ==> Seen(cols, k + 1).value in cols;
    }
    var k :| 0 <= k < FIELDS && rs[k] != shown[k];
    assert |shown[k]| > 1;
    TokensOfJoin(rs, ',');
    TokensOfJoin(shown, ',');
    JoinTwo([id, Digits(perms)], rs);
    JoinTwo([id, Digits(perms)], shown);
    var front := Join([id, Digits(perms)], ',') + ",";
    var a, b := front + Join(rs, ',') + "\n", front + Join(shown, ',') + "\n";
    assert a[|front|..|a| - 1] == Join(rs, ',') && b[|front|..|b| - 1] == Join(shown, ',');
  }

  lemma {:induction false} JoinTwo(a: seq<string>, b: seq<string>)
    requires a != [] && b != []
    ensures Join(a + b, ',') == Join(a, ',') + "," + Join(b, ',')
  {
    assert (a + b)[1..] == a[1..] + b;
    if |a| == 1 {
      assert a[1..] + b == b;
    } else {
      JoinTwo(a[1..], b);
    }
  }

  /** For any two lines, well formed or not: an APB learns nothing but how the permitted columns
      read in a buffer of each size the line still leaves. */
  lemma {:induction false} OnlyPermittedRead(perms: Perms, line1: string, line2: string, line: string, k: nat,
                                             useful: bool)
    requires k <= FIELDS && line != ""
    requires forall col, max | 0 < col <= FIELDS && Permits(perms, col - 1) && 0 < max < MAX_LINE ::
               Column(line1, col, max) == Column(line2, col, max)
    ensures Columns(line, line1, perms, k, useful) == Columns(line, line2, perms, k, useful)
    decreases FIELDS - k
  {
    hide Column, Permits;
    if k < FIELDS {
      var next := AddColumn(line, line1, perms, k);
      assert next == AddColumn(line, line2, perms, k);
      if next.Some? {
        OnlyPermittedRead(perms, line1, line2, next.value, k + 1, useful || |next.value| > |line| + 2);
      }
    }
  }

  /** The buffer matters: a column that is not permitted, but so long that a permitted one after it
      is cut short, changes what the APB is told. */
  lemma {:induction false} LongColumnInterferes(long: string)
    requires |long| == 1013 && Plain(long, ',') && '\n' !in long
    ensures var cols1, cols2 := ["p", "a", "bb", "c", "d\n"], ["p", long, "bb", "c", "d\n"];
            && Row(cols1, Join(cols1, ',')) && Row(cols2, Join(cols2, ',')) && |Join(cols2, ',')| < MAX_LINE
            && (forall k | 0 <= k < FIELDS && Permits(2, k) :: cols1[k + 1] == cols2[k + 1])
            && FillIn("p", 2, Join(cols1, ',')).Line? && FillIn("p", 2, Join(cols2, ',')) == NoInformation
  {
    hide Tokens, Join, FillIn;
    var cols1, cols2 := ["p", "a", "bb", "c", "d\n"], ["p", long, "bb", "c", "d\n"];
    JoinFive("p", "a", "bb", "c", "d\n");
    JoinFive("p", long, "bb", "c", "d\n");
    assert Column(Join(cols1, ','), 2, MAX_LINE - 6) == Some("bb") by { TokensOfJoin(cols1, ','); }
    CutColumn(long);
    SecondOnly(Join(cols1, ','), "bb");
    SecondOnly(Join(cols2, ','), "b");
  }

  lemma {:induction false} CutColumn(long: string)
    requires |long| == 1013 && Plain(long, ',')
    ensures Column(Join(["p", long, "bb", "c", "d\n"], ','), 2, MAX_LINE - 6) == Some("b")
  {
    hide Tokens, Join;
    var parts, line := ["p", long, "b"], Join(["p", long, "bb", "c", "d\n"], ',');
    JoinFive("p", long, "bb", "c", "d\n");
    JoinThree("p", long, "b");
    assert line == Join(parts, ',') + "b,c,d\n";
    assert Cut(line, MAX_LINE - 6) == Join(parts, ',');
    TokensOfJoin(parts, ',');
  }

  lemma {:induction false} JoinThree(a: string, b: string, c: string)
    ensures Join([a, b, c], ',') == a + "," + (b + "," + c)
  {
    assert [a, b, c][1..] == [b, c] && [b, c][1..] == [c];
    assert Join([b, c], ',') == b + "," + c;
  }

  lemma {:induction false} JoinFive(a: string, b: string, c: string, d: string, e: string)
    ensures Join([a, b, c, d, e], ',') == a + "," + (b + "," + (c + "," + (d + "," + e)))
  {
    assert [a, b, c, d, e][1..] == [b, c, d, e] && [b, c, d, e][1..] == [c, d, e];
    assert [c, d, e][1..] == [d, e] && [d, e][1..] == [e];
    assert Join([d, e], ',') == d + "," + e;
    assert Join([c, d, e], ',') == c + "," + (d + "," + e);
    assert Join([b, c, d, e], ',') == b + "," + (c + "," + (d + "," + e));
  }

  lemma {:induction false} ColumnAdded(front: string, dbLine: string, perms: Perms, k: nat, c: string)
    requires k < FIELDS && |front| + |c| < 100
    requires if Permits(perms, k) then Column(dbLine, k + 1, MAX_LINE - (|front| + 1)) == Some(c) else c == "0"
    ensures AddColumn(front + "\n", dbLine, perms, k) == Some(front + "," + c + "\n")
  {
    hide Column, Permits;
    assert (front + "\n")[..|front|] == front;
  }

  /** The line for place "p" when only the second column may be seen. */
  lemma {:induction false} SecondOnly(dbLine: string, c: string)
    requires Column(dbLine, 2, MAX_LINE - 6) == Some(c) && |c| < 10
    ensures var q := FillIn("p", 2, dbLine); if |c| > 1 then q.Line? else q == NoInformation
  {
    hide Column, AddColumn;
    var p0 := "p,2";
    var p1 := p0 + "," + "0";
    var p2 := p1 + "," + c;
    var p3 := p2 + "," + "0";
    assert Start("p", 2) == p0 + "\n";
    ColumnAdded(p0, dbLine, 2, 0, "0");
    ColumnAdded(p1, dbLine, 2, 1, c);
    ColumnAdded(p2, dbLine, 2, 2, "0");
    ColumnAdded(p3, dbLine, 2, 3, "0");
    var useful := |c| > 1;
    assert Columns(p3 + "," + "0" + "\n", dbLine, 2, 4, useful) == if useful then Line(p3 + "," + "0" + "\n")
             else NoInformation;
    assert Columns(p2 + "\n", dbLine, 2, 2, useful) == Columns(p3 + "," + "0" + "\n", dbLine, 2, 4, useful);
    assert Columns(p0 + "\n", dbLine, 2, 0, false) == Columns(p2 + "\n", dbLine, 2, 2, useful);
  }

  /** An empty column hands on the next: with an empty address, an APB that may see the address only
      is told the port. */
  lemma {:induction false} ForbiddenPortTold(port: string)
    requires Plain(port, ',') && '\n' !in port && 1 < |port| < 1000
    ensures var cols := ["p", "", port, "c", "d\n"];
            && Row(cols, Join(cols, ',')) && !Permits(1, 1)
            && FillIn("p", 1, Join(cols, ',')) == Line("p,1," + port + ",0,0,0\n")
  {
    hide FillIn, Join, LengthBefore, Reads, Digits, Telling, Nth, Seen, Shown;
    var cols := ["p", "", port, "c", "d\n"];
    PortSeen(port);
    ReadsOfRow("p", 1, cols);
    FillInReads("p", 1, cols, Join(cols, ','));
    PortLine(port);
  }

  lemma {:induction false} PortSeen(port: string)
    requires 1 < |port| < 1000
    ensures var cols := ["p", "", port, "c", "d\n"];
            && Shown(1, cols) == [port, "0", "0", "0"] && Telling(Shown(1, cols))
            && Whole("p", 1, cols) && Short("p", 1, cols)
  {
    hide Join, LengthBefore;
    var cols := ["p", "", port, "c", "d\n"];
    assert cols[1..] == ["", port, "c", "d\n"] && cols[1..][1..] == [port, "c", "d\n"];
    assert Nth(cols[1..][1..], 0) == 0 && Nth(cols[1..], 0) == 1 && Nth(cols, 1) == 2;
    OnlyFirst(1);
    Lengths("p", cols);
    assert cols[..3] == ["p", "", port];
    JoinThree("p", "", port);
    assert |Shown(1, cols)[0]| > 1;
  }

  lemma {:induction false} PortLine(port: string)
    ensures Join(["p", Digits(1)] + [port, "0", "0", "0"], ',') + "\n" == "p,1," + port + ",0,0,0\n"
  {
    hide Join;
    assert ["p", Digits(1)] + [port, "0", "0", "0"] == ["p", "1", port, "0", "0", "0"];
    JoinSix("p", "1", port, "0", "0", "0");
  }

  lemma {:induction false} JoinSix(a: string, b: string, c: string, d: string, e: string, f: string)
    ensures Join([a, b, c, d, e, f], ',') == a + "," + (b + "," + (c + "," + (d + "," + (e + "," + f))))
  {
    assert [a, b, c, d, e, f][1..] == [b, c, d, e, f];
    JoinFive(b, c, d, e, f);
  }

  // ----- the round trip

  /** A newline at the end, once. */
  function Ended(s: string): string {
    if s != "" && s[|s| - 1] == '\n' then s else s + "\n"
  }

  lemma {:induction false} NoNewlineInJoin(parts: seq<string>)
    requires forall p <- parts :: '\n' !in p
    ensures '\n' !in Join(parts, ',')
  {
    if |parts| > 1 { NoNewlineInJoin(parts[1..]); }
  }

  lemma {:induction false} FindFirst(a: string, d: char, b: string)
    requires d !in a
    ensures Find(a + [d] + b, d) == |a|
  {
    FindEnd(a, d, b);
  }

  /** What the first line of the written text is: the columns, the last one ended once. */
  lemma {:induction false} FirstLine(parts: seq<string>, last: string)
    requires parts != [] && (forall p <- parts :: '\n' !in p) && last != "" && '\n' !in last[..|last| - 1]
    requires |Join(parts + [last], ',')| + 1 < MAX_LINE
    ensures Fgets(Join(parts + [last], ',') + "\n").0 == Join(parts + [Ended(last)], ',')
  {
    hide Find;
    JoinSnoc(parts, last, ',');
    JoinSnoc(parts, Ended(last), ',');
    NoNewlineInJoin(parts);
    var stem := if last[|last| - 1] == '\n' then last[..|last| - 1] else last;
    var head := Join(parts, ',') + "," + stem;
    var text := Join(parts + [last], ',') + "\n";
    assert last == if last[|last| - 1] == '\n' then stem + "\n" else stem;
    assert '\n' !in stem by {
      assert forall i | 0 <= i < |last| - 1 :: last[i] == last[..|last| - 1][i];
    }
    assert '\n' !in head;
    var rest := if last[|last| - 1] == '\n' then "\n" else "";
    assert text == head + ['\n'] + rest;
    FindFirst(head, '\n', rest);
    assert text[..|head| + 1] == head + "\n" == Join(parts + [Ended(last)], ',');
  }

  lemma {:induction false} DigitsPlain(n: nat)
    ensures Plain(Digits(n), ',') && '\n' !in Digits(n)
  {
    var s := Digits(n);
    assert forall i | 0 <= i < |s| :: IsDigit(s[i]);
  }

  /** The columns of the line an APB finds: it ends with the column that holds the newline, `j`. */
  function Written(id: string, perms: Perms, rs: seq<string>, j: nat): seq<string>
    requires j < |rs|
  {
    [id, Digits(perms)] + rs[..j] + [Ended(rs[j])]
  }

  /** A column that was read holds a newline only at its end, and then it is the end of the row, after
      which no column is found. */
  lemma {:induction false} NewlineInRead(perms: Perms, cols: seq<string>, dbLine: string, k: nat, c: string)
    requires Row(cols, dbLine) && k < FIELDS && ReadOf(perms, cols, k, c)
    ensures Plain(c, ',') && '\n' !in c[..|c| - 1]
    ensures '\n' in c ==> c[|c| - 1] == '\n' && forall m | k + 1 < m <= FIELDS :: Seen(cols, m).None?
  {
    hide Permits;
    if Permits(perms, k) {
      var i, last := Nth(cols, k + 1), |cols| - 1;
      var col := cols[i];
      assert col in cols && c == col[..|c|];
      if i == last {
        assert c[..|c| - 1] <= col[..|col| - 1];
        forall m | k + 1 < m <= FIELDS ensures Seen(cols, m).None? { NthLast(cols, k + 1, m); }
      }
      assert forall x | 0 <= x < |c| - 1 :: c[x] == c[..|c| - 1][x];
    }
  }

  /** Where the line that was written ends. */
  lemma {:induction false} EndOfLine(perms: Perms, cols: seq<string>, dbLine: string, rs: seq<string>) returns (j: nat)
    requires Row(cols, dbLine) && |rs| == FIELDS && forall k | 0 <= k < FIELDS :: ReadOf(perms, cols, k, rs[k])
    ensures j < FIELDS && (forall k | 0 <= k < j :: '\n' !in rs[k]) && (j < FIELDS - 1 ==> Ended(rs[j]) == rs[j])
    ensures forall k | j < k < FIELDS :: !Permits(perms, k)
    ensures forall k | 0 <= k < FIELDS :: Plain(rs[k], ',') && '\n' !in rs[k][..|rs[k]| - 1]
  {
    hide Row, Plain, Seen;
    forall k | 0 <= k < FIELDS
      ensures Plain(rs[k], ',') && '\n' !in rs[k][..|rs[k]| - 1]
      ensures '\n' in rs[k] ==>
                rs[k] != "" && rs[k][|rs[k]| - 1] == '\n' && forall m | k + 1 < m <= FIELDS :: Seen(cols, m).None?
    {
      assert ReadOf(perms, cols, k, rs[k]);
      NewlineInRead(perms, cols, dbLine, k, rs[k]);
    }
    j := 0;
    while j < FIELDS - 1 && '\n' !in rs[j]
      invariant 0 <= j < FIELDS && forall k | 0 <= k < j :: '\n' !in rs[k]
    {
      j := j + 1;
    }
    forall k | j < k < FIELDS ensures !Permits(perms, k) { assert ReadOf(perms, cols, k, rs[k]); }
  }

  lemma {:induction false} WrittenFirst(id: string, perms: Perms, cols: seq<string>, dbLine: string, rs: seq<string>,
                                        text: string)
    returns (j: nat)
    requires Row(cols, dbLine) && Plain(id, ',') && '\n' !in id
    requires |rs| == FIELDS && forall k | 0 <= k < FIELDS :: ReadOf(perms, cols, k, rs[k])
    requires text == Join([id, Digits(perms)] + rs, ',') + "\n" && |text| < MAX_LINE - 1
    ensures j < FIELDS && (forall k | j < k < FIELDS :: !Permits(perms, k))
              && (j < FIELDS - 1 ==> Ended(rs[j]) == rs[j])
    ensures text != "" && Tokens(Fgets(text).0, ',') == Written(id, perms, rs, j)
  {
    hide Digits, Permits, Fgets, Join, Tokens, ReadOf, Row;
    j := EndOfLine(perms, cols, dbLine, rs);
    DigitsPlain(perms);
    var parts, last := [id, Digits(perms)] + rs[..j], rs[j];
    assert forall p <- parts :: '\n' !in p;
    if j == FIELDS - 1 {
      assert [id, Digits(perms)] + rs == parts + [last];
      FirstLine(parts, last);
    } else {
      var more := rs[j + 1..];
      assert [id, Digits(perms)] + rs == (parts + [last]) + more;
      JoinTwo(parts + [last], more);
      assert text == Join(parts + [last], ',') + ("," + Join(more, ',') + "\n");
      CutLine(parts, last, "," + Join(more, ',') + "\n");
    }
    assert Written(id, perms, rs, j) == parts + [Ended(last)];
    assert forall p <- parts + [Ended(last)] :: Plain(p, ',');
    TokensOfJoin(parts + [Ended(last)], ',');
  }

  /** A line stops at the first newline, whatever follows. */
  lemma {:induction false} CutLine(parts: seq<string>, last: string, more: string)
    requires parts != [] && (forall p <- parts :: '\n' !in p)
    requires last != "" && last[|last| - 1] == '\n' && '\n' !in last[..|last| - 1]
    requires |Join(parts + [last], ',')| < MAX_LINE
    ensures Fgets(Join(parts + [last], ',') + more).0 == Join(parts + [last], ',')
  {
    hide Find;
    JoinSnoc(parts, last, ',');
    NoNewlineInJoin(parts);
    var head := Join(parts, ',') + "," + last[..|last| - 1];
    var text := Join(parts + [last], ',') + more;
    assert last == last[..|last| - 1] + "\n";
    assert '\n' !in head && text == head + ['\n'] + more;
    FindFirst(head, '\n', more);
    assert text[..|head| + 1] == head + "\n" == Join(parts + [last], ',');
  }

  /** The complete lines `before` are for other places. */
  predicate OtherPlaces(before: string, id: string)
    decreases |before|
  {
    before == "" ||
    (&& '\n' in before && Find(before, '\n') + 1 < MAX_LINE
     && !HasKey(before[..Find(before, '\n') + 1], id, 0) && OtherPlaces(before[Find(before, '\n') + 1..], id))
  }

  lemma {:induction false} LineAfter(before: string, id: string, text: string)
    requires OtherPlaces(before, id)
    ensures LineFor(before + text, id, 0) == LineFor(text, id, 0)
    decreases |before|
  {
    hide HasKey;
    if before == "" {
      assert before + text == text;
    } else {
      var n := Find(before, '\n');
      FindIn(before, '\n', text);
      assert (before + text)[..n + 1] == before[..n + 1];
      assert (before + text)[n + 1..] == before[n + 1..] + text;
      assert Fgets(before + text) == (before[..n + 1], before[n + 1..] + text);
      LineAfter(before[n + 1..], id, text);
    }
  }

  lemma {:induction false} FindIn(s: string, d: char, rest: string)
    requires d in s
    ensures Find(s, d) < |s| && Find(s + rest, d) == Find(s, d)
  {
    if s[0] != d {
      assert (s + rest)[1..] == s[1..] + rest;
      assert d in s[1..];
      FindIn(s[1..], d, rest);
    }
  }

  /** Reading back the line written for a place, for any row: each permitted field is the column as
      the query read it, the others are unset; the domain, the last column, is read with a newline
      at its end.  What was read is what is found in the row if and only if it was read whole. */
  lemma {:induction false} PlaceRoundTrip(id: string, perms: Perms, cols: seq<string>, dbLine: string, text: string,
                                          before: string)
    requires Row(cols, dbLine) && Plain(id, ',') && '\n' !in id && OtherPlaces(before, id)
    requires FillIn(id, perms, dbLine) == Line(text)
    ensures var line, rs := LineFor(before + text, id, 0), Reads(|Start(id, perms)|, perms, cols, 0);
            && line.Some? && InfoOf(line.value).Known? && rs.Some?
            && (forall k | 0 <= k < FIELDS ::
                  InfoOf(line.value).value.Field(k)
                  == if !Permits(perms, k) then None
                     else if k < FIELDS - 1 then Some(rs.value[k]) else Some(Ended(rs.value[k])))
            && (rs.value == Shown(perms, cols) <==> Whole(id, perms, cols))
  {
    hide Digits, Permits, Fgets, Join, Tokens, FillIn, Plain, Find, Reads, ReadPerms, Telling, ReadOf, Whole, Short;
    FillInReads(id, perms, cols, dbLine);
    ReadsOfRow(id, perms, cols);
    var rs := Reads(|Start(id, perms)|, perms, cols, 0).value;
    var j := WrittenFirst(id, perms, cols, dbLine, rs, text);
    LineAfter(before, id, text);
    var line, w := Fgets(text).0, Written(id, perms, rs, j);
    assert w[0] == id && LineFor(text, id, 0) == Some(line);
    DigitsRead(perms);
    assert Cut(line, MAX_LINE) == line;
    assert w[1] == Digits(perms) && |w| == j + 3;
    assert forall k | 0 <= k <= j :: w[k + 2] == if k < FIELDS - 1 then rs[k] else Ended(rs[k]);
  }

  lemma {:induction false} DigitsRead(perms: Perms)
    ensures ReadPerms(Digits(perms)) == Known(perms)
  {
    hide Digits;
    var s := Digits(perms);
    assert IsDigit(s[0]) && SkipSpace(s) == s;
    DigitRunAll(s);
    NumberOfDigits(perms);
  }

  lemma {:induction false} DigitRunAll(s: string)
    requires AllDigits(s)
    ensures DigitRun(s) == s
  {
    if s != "" {
      assert IsDigit(s[0]);
      DigitRunAll(s[1..]);
    }
  }

  /** For any row, a line is written exactly when every column is read and fits and some column read
      is longer than one character; with columns read whole, exactly when the visible columns fit
      the limit and one of them is longer than one character, and it is refused exactly when they
      do not fit. */
  lemma {:induction false} WrittenWhen(id: string, perms: Perms, cols: seq<string>, dbLine: string)
    requires Row(cols, dbLine)
    ensures var rs := Reads(|Start(id, perms)|, perms, cols, 0);
            FillIn(id, perms, dbLine).Line? <==> rs.Some? && Telling(rs.value)
    ensures Whole(id, perms, cols) ==>
              && (FillIn(id, perms, dbLine).Line? <==> Short(id, perms, cols) && Telling(Shown(perms, cols)))
              && (FillIn(id, perms, dbLine) == Failed <==> !Short(id, perms, cols))
  {
    hide FillIn, Reads, Telling, Whole, Short, Digits, Join;
    FillInReads(id, perms, cols, dbLine);
    ReadsOfRow(id, perms, cols);
  }

  /** What is told of a row without empty columns that is short enough: permission 1 gives the address,
      2 the port, 4 the kernel version and 8 the domain, and "0" stands for what is not permitted. */
  lemma {:induction false} ToldLine(id: string, perms: Perms, cols: seq<string>, dbLine: string)
    requires Row(cols, dbLine) && |cols| == 5 && (forall c <- cols :: c != "")
    requires Whole(id, perms, cols) && Short(id, perms, cols)
    ensures var told := [if perms % 2 == 1 then cols[1] else "0", if perms / 2 % 2 == 1 then cols[2] else "0",
                         if perms / 4 % 2 == 1 then cols[3] else "0", if perms / 8 % 2 == 1 then cols[4] else "0"];
            FillIn(id, perms, dbLine)
            == if exists i | 0 <= i < 4 :: |told[i]| > 1 then Line(Join([id, Digits(perms)] + told, ',') + "\n")
               else NoInformation
  {
    hide FillIn, Join, Reads, Digits, Whole, Short, Shown;
    FillInReads(id, perms, cols, dbLine);
    ReadsOfRow(id, perms, cols);
    ShownAll(perms, cols);
  }

  lemma {:induction false} ShownAll(perms: Perms, cols: seq<string>)
    requires |cols| == 5 && forall c <- cols :: c != ""
    ensures Shown(perms, cols)
         == [if perms % 2 == 1 then cols[1] else "0", if perms / 2 % 2 == 1 then cols[2] else "0",
             if perms / 4 % 2 == 1 then cols[3] else "0", if perms / 8 % 2 == 1 then cols[4] else "0"]
  {
    hide Nth;
    assert forall j | 0 <= j < 5 :: cols[j] in cols;
    forall k | 0 <= k < 5 ensures Nth(cols, k) == k { NamedWhen(cols, k); }
    var shown := Shown(perms, cols);
    assert shown[0] == ShownAt(perms, cols, 0) && shown[1] == ShownAt(perms, cols, 1);
    assert shown[2] == ShownAt(perms, cols, 2) && shown[3] == ShownAt(perms, cols, 3);
  }

  /** A row with an address of 600 characters is handled in full ... */
  lemma {:induction false} LongRow(addr: string)
    requires |addr| == 600 && Plain(addr, ',') && '\n' !in addr
    ensures var cols := ["p", addr, "b", "c", "d\n"];
            Row(cols, Join(cols, ',')) && Whole("p", 1, cols) && FillIn("p", 1, Join(cols, ',')).Line?
  {
    hide FillIn, Join, LengthBefore;
    var cols := ["p", addr, "b", "c", "d\n"];
    FirstWhole("p", cols);
    WrittenWhen("p", 1, cols, Join(cols, ','));
    OnlyFirst(1);
    assert |Shown(1, cols)[0]| > 1;
  }

  /** ... and one of 1012 is read whole and refused, because the placeholders no longer fit. */
  lemma {:induction false} LongAddress(addr: string)
    requires |addr| == 1012 && Plain(addr, ',') && '\n' !in addr
    ensures var cols := ["p", addr, "b", "c", "d\n"];
            && Row(cols, Join(cols, ',')) && |Join(cols, ',')| < MAX_LINE && Whole("p", 1, cols)
            && FillIn("p", 1, Join(cols, ',')) == Failed
  {
    hide FillIn, Join, LengthBefore;
    var cols := ["p", addr, "b", "c", "d\n"];
    JoinFive("p", addr, "b", "c", "d\n");
    FirstWhole("p", cols);
    WrittenWhen("p", 1, cols, Join(cols, ','));
  }

  lemma {:induction false} FirstWhole(id: string, cols: seq<string>)
    requires |cols| >= 2 && cols[0] != "" && cols[1] != "" && |cols[0]| + |cols[1]| + |id| + 4 < MAX_LINE
    ensures Nth(cols, 1) == 1 && Whole(id, 1, cols) && (Short(id, 1, cols) <==> |id| + |cols[1]| + 11 < MAX_LINE)
  {
    hide Join, LengthBefore;
    OnlyFirst(1);
    NamedWhen(cols, 1);
    Lengths(id, cols);
    assert cols[..2] == [cols[0], cols[1]];
    JoinPair(cols[0], cols[1]);
  }

  lemma {:induction false} JoinPair(a: string, b: string)
    ensures Join([a, b], ',') == a + "," + b
  {
    assert [a, b][1..] == [b];
  }

  lemma {:induction false} OnlyFirst(perms: Perms)
    requires perms == 1
    ensures forall k | 0 <= k < FIELDS :: Permits(perms, k) <==> k == 0
  {
  }

  lemma {:induction false} Lengths(id: string, cols: seq<string>)
    requires Seen(cols, 1).Some?
    ensures var shown := Shown(1, cols);
            && LengthBefore(id, 1, shown, 0) == |id| + 3
            && LengthBefore(id, 1, shown, FIELDS) == |id| + 3 + |Seen(cols, 1).value| + 7
  {
    hide Seen;
    OnlyFirst(1);
    var shown := Shown(1, cols);
    assert shown[0] == ShownAt(1, cols, 0);
    assert LengthBefore(id, 1, shown, 1) == LengthBefore(id, 1, shown, 0) + |shown[0]| + 1;
    assert LengthBefore(id, 1, shown, 2) == LengthBefore(id, 1, shown, 1) + 2;
    assert LengthBefore(id, 1, shown, 3) == LengthBefore(id, 1, shown, 2) + 2;
  }
}
