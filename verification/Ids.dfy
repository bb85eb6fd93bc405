/** Node and edge ids (lib/graph/graph-core.h) and the two counter files that issue them
    (lib/graph/graph-fs.c).

    An id is a 64-bit number stored as text: printed as sixteen lower-case hexadecimal digits and
    read back with a scan of at most sixteen characters.  A counter file is overwritten in place,
    without truncation, and the result of the write is ignored, so a write may stop after any
    number of bytes. */
module Ids {
  import opened CStrings

  const TWO64: nat := 0x1_0000_0000_0000_0000
  const INVALID_ID: nat := TWO64 - 1
  const ID_LEN: nat := 16

  type Id = n: nat | n < TWO64

  /** How many bytes of a counter update reached the file. */
  type Written = k: nat | k <= ID_LEN

  // ----- hexadecimal digits

  predicate IsHex(c: char) {
    '0' <= c <= '9' || 'a' <= c <= 'f' || 'A' <= c <= 'F'
  }

  predicate IsLowerHex(c: char) {
    '0' <= c <= '9' || 'a' <= c <= 'f'
  }

  function DigitOf(d: nat): char
    requires d < 16
  {
    if d < 10 then '0' + d as char else 'a' + (d - 10) as char
  }

  /** The value of a digit; 0 for any other character. */
  function DigitValue(c: char): (d: nat)
    ensures d < 16
  {
    if '0' <= c <= '9' then c as int - '0' as int
    else if 'a' <= c <= 'f' then c as int - 'a' as int + 10
    else if 'A' <= c <= 'F' then c as int - 'A' as int + 10
    else 0
  }

  /** The low-order digits of `n`, zero padded to `width`: what "%0<width>x" prints for a number
      that fits. */
  function HexDigits(n: nat, width: nat): (s: string)
    ensures |s| == width
    ensures forall i | 0 <= i < |s| :: IsLowerHex(s[i])
  {
    if width == 0 then "" else HexDigits(n / 16, width - 1) + [DigitOf(n % 16)]
  }

  function HexValue(s: string): nat
  {
    if s == "" then 0 else 16 * HexValue(s[..|s| - 1]) + DigitValue(s[|s| - 1])
  }

  function Pow16(k: nat): (p: nat)
    ensures p >= 1
  {
    if k == 0 then 1 else 16 * Pow16(k - 1)
  }

  lemma {:induction false} Pow16Is64Bits()
    ensures Pow16(8) == 0x1_0000_0000
    ensures Pow16(16) == TWO64
  {
    assert Pow16(4) == 0x1_0000;
    assert Pow16(8) == 0x1_0000_0000;
    assert Pow16(12) == 0x1_0000_0000_0000;
  }

  lemma {:induction false} HexValueBound(s: string)
    ensures HexValue(s) < Pow16(|s|)
  {
    if s != "" { HexValueBound(s[..|s| - 1]); }
  }

  lemma {:induction false} Pow16Monotone(a: nat, b: nat)
    requires a <= b
    ensures Pow16(a) <= Pow16(b)
    decreases b
  {
    if a < b { Pow16Monotone(a, b - 1); }
  }

  /** Printing is inverted by reading digits ... */
  lemma {:induction false} ValueOfDigits(n: nat, width: nat)
    requires n < Pow16(width)
    ensures HexValue(HexDigits(n, width)) == n
  {
    if width > 0 {
      ValueOfDigits(n / 16, width - 1);
      var s := HexDigits(n, width);
      assert s[..|s| - 1] == HexDigits(n / 16, width - 1);
    }
  }

  lemma {:induction false} LastDigit(v: nat, c: char)
    requires IsLowerHex(c)
    ensures (16 * v + DigitValue(c)) / 16 == v && DigitOf((16 * v + DigitValue(c)) % 16) == c
  {}

  /** ... and reading lower-case digits is inverted by printing. */
  lemma {:induction false} DigitsOfValue(s: string)
    requires forall i | 0 <= i < |s| :: IsLowerHex(s[i])
    ensures HexDigits(HexValue(s), |s|) == s
  {
    if s != "" {
      var front, c := s[..|s| - 1], s[|s| - 1];
      DigitsOfValue(front);
      assert s == front + [c];
      LastDigit(HexValue(front), c);
    }
  }

  // ----- scanning

  /** The longest prefix of hexadecimal digits. */
  function HexRun(s: string): (d: string)
    ensures d <= s
    ensures forall i | 0 <= i < |d| :: IsHex(d[i])
  {
    if s != "" && IsHex(s[0]) then [s[0]] + HexRun(s[1..]) else ""
  }

  lemma {:induction false} HexRunAll(s: string)
    requires forall i | 0 <= i < |s| :: IsHex(s[i])
    ensures HexRun(s) == s
  {
    if s != "" {
      HexRunAll(s[1..]);
      assert s == [s[0]] + s[1..];
    }
  }

  /** A field of a scan directive for an unsigned hexadecimal number, after white space was
      skipped and the field cut to the directive's width: an optional sign, an optional "0x",
      digits.  Without digits it is a matching failure. */
  function FieldDigits(field: string): string {
    HexRun(AfterPrefix(AfterSign(field)))
  }

  function AfterSign(field: string): string {
    if field != "" && (field[0] == '-' || field[0] == '+') then field[1..] else field
  }

  function AfterPrefix(body: string): string {
    if |body| >= 2 && body[0] == '0' && (body[1] == 'x' || body[1] == 'X') then body[2..] else body
  }

  function ScanField(s: string, width: nat): string {
    var t := SkipSpace(s);
    if |t| > width then t[..width] else t
  }

  /** Arithmetic modulo 2^64. */
  function Wrap(v: int): (n: Id)
    ensures 0 <= v < TWO64 ==> n == v
  {
    v % TWO64
  }

  /** The matched value, or failure. */
  function ScanHex(s: string, width: nat): (bool, Id) {
    var field := ScanField(s, width);
    var digits := FieldDigits(field);
    if digits == "" then (false, 0)
    else
      var v: int := HexValue(digits);
      (true, Wrap(if field != "" && field[0] == '-' then -v else v))
  }

  lemma {:induction false} HexRunThen(digits: string, rest: string)
    requires (forall i | 0 <= i < |digits| :: IsHex(digits[i])) && (rest != "" ==> !IsHex(rest[0]))
    ensures HexRun(digits + rest) == digits
  {
    if digits == "" {
      assert digits + rest == rest;
    } else {
      assert (digits + rest)[1..] == digits[1..] + rest;
      HexRunThen(digits[1..], rest);
    }
  }

  /** What is scanned as a number: white space, a sign, "0x" or nothing, and digits within the width,
      whatever follows them; a negative one wraps. */
  lemma {:induction false} ScanMeans(space: string, sign: string, prefix: string, digits: string, rest: string,
                                     width: nat)
    requires Blank(space) && sign in {"", "-", "+"} && prefix in {"", "0x", "0X"}
    requires digits != "" && forall i | 0 <= i < |digits| :: IsHex(digits[i])
    requires |sign + prefix + digits| <= width && (rest != "" ==> !IsHex(rest[0]) && rest[0] !in {'x', 'X'})
    ensures ScanHex(space + (sign + prefix + digits + rest), width)
         == (true, (if sign == "-" then 0 - HexValue(digits) else HexValue(digits)) % TWO64)
  {
    hide HexValue, FieldDigits;
    var t := sign + prefix + digits + rest;
    assert !Blank(t[..1]) by { StartsDark(sign, prefix, digits, rest); }
    SkipSpaceBlank(space, t);
    var more := if |t| > width then rest[..width - |sign + prefix + digits|] else rest;
    var field := ScanField(space + t, width);
    assert field == sign + prefix + digits + more;
    FieldIs(sign, prefix, digits, more);
  }

  lemma {:induction false} StartsDark(sign: string, prefix: string, digits: string, rest: string)
    requires sign in {"", "-", "+"} && prefix in {"", "0x", "0X"} && digits != "" && IsHex(digits[0])
    ensures !Blank((sign + prefix + digits + rest)[..1])
  {
    var t := sign + prefix + digits + rest;
    assert t[..1][0] == t[0] == (if sign != "" then sign[0] else if prefix != "" then prefix[0] else digits[0]);
  }

  lemma {:induction false} FieldIs(sign: string, prefix: string, digits: string, rest: string)
    requires sign in {"", "-", "+"} && prefix in {"", "0x", "0X"}
    requires digits != "" && forall i | 0 <= i < |digits| :: IsHex(digits[i])
    requires rest != "" ==> !IsHex(rest[0]) && rest[0] !in {'x', 'X'}
    ensures var field := sign + prefix + digits + rest;
            FieldDigits(field) == digits && (field[0] == '-' <==> sign == "-")
  {
    hide AfterSign, AfterPrefix, HexRun;
    AfterSignIs(sign, prefix + (digits + rest));
    AfterPrefixIs(prefix, digits, rest);
    HexRunThen(digits, rest);
    assert sign + prefix + digits + rest == sign + (prefix + (digits + rest));
  }

  lemma {:induction false} AfterSignIs(sign: string, t: string)
    requires sign in {"", "-", "+"} && t != "" && IsHex(t[0])
    ensures AfterSign(sign + t) == t && ((sign + t)[0] == '-' <==> sign == "-")
  {
    if sign == "" { assert sign + t == t; } else { assert (sign + t)[1..] == t; }
  }

  lemma {:induction false} AfterPrefixIs(prefix: string, digits: string, rest: string)
    requires prefix in {"", "0x", "0X"} && digits != "" && forall i | 0 <= i < |digits| :: IsHex(digits[i])
    requires rest != "" ==> rest[0] !in {'x', 'X'}
    ensures var t := prefix + (digits + rest); t != "" && IsHex(t[0]) && AfterPrefix(t) == digits + rest
  {
    var t := digits + rest;
    assert IsHex(digits[0]);
    if prefix == "" {
      assert prefix + t == t;
      assert |t| >= 2 ==> t[1] == if |digits| >= 2 then digits[1] else rest[0];
      assert |digits| >= 2 ==> IsHex(digits[1]);
    } else {
      assert (prefix + t)[2..] == t && (prefix + t)[0] == '0' && (prefix + t)[1] == prefix[1];
    }
  }

  function StrOfId(id: Id): string {
    HexDigits(id, ID_LEN)
  }

  function IdOfStr(s: string): Id {
    var r := ScanHex(s, ID_LEN);
    if r.0 then r.1 else INVALID_ID
  }

  lemma {:induction false} ScanPlain(s: string, max: nat)
    requires 0 < |s| <= max && forall i | 0 <= i < |s| :: IsLowerHex(s[i])
    ensures ScanField(s, max) == s && s[0] != '-' && FieldDigits(s) == s
  {
    HexRunAll(s);
    var first := s[0];
    assert IsLowerHex(first) && !IsSpace(first) && first != '-' && first != '+';
    assert SkipSpace(s) == s;
    if |s| >= 2 {
      var second := s[1];
      assert IsLowerHex(second) && second != 'x' && second != 'X';
    }
  }

  /** Digits printed with any width up to sixteen scan back to the number. */
  lemma {:induction false} ScanDigits(n: Id, width: nat, max: nat)
    requires 0 < width <= max && n < Pow16(width)
    ensures ScanHex(HexDigits(n, width), max) == (true, n)
  {
    ScanPlain(HexDigits(n, width), max);
    ValueOfDigits(n, width);
  }

  /** Every 64-bit value, the invalid id included, survives print and scan. */
  lemma {:induction false} IdRoundTrip(id: Id)
    ensures |StrOfId(id)| == ID_LEN && IdOfStr(StrOfId(id)) == id
  {
    Pow16Is64Bits();
    ScanDigits(id, ID_LEN, ID_LEN);
  }

  // ----- the counter files

  /** A file after `k` bytes of `text` were written over `before` from the start, without
      truncation. */
  function Overwrite<T>(before: seq<T>, text: seq<T>, k: nat): seq<T>
    requires k <= |text|
  {
    text[..k] + (if k < |before| then before[k..] else [])
  }

  /** Whether the first `k` digits of the successor of `n` differ from those of `n`. */
  predicate Reaches(n: nat, width: nat, k: nat)
    requires k <= width
  {
    HexDigits(n + 1, width)[..k] != HexDigits(n, width)[..k]
  }

  lemma {:induction false} ReachesUnfold(n: nat, width: nat, k: nat)
    requires k < width
    ensures Reaches(n, width, k) == (n % 16 == 15 && Reaches(n / 16, width - 1, k))
    ensures HexDigits(n, width) == HexDigits(n / 16, width - 1) + [DigitOf(n % 16)]
    ensures Overwrite(HexDigits(n, width), HexDigits(n + 1, width), k)
            == Overwrite(HexDigits(n / 16, width - 1), HexDigits((n + 1) / 16, width - 1), k) + [DigitOf(n % 16)]
  {
    var was, next := HexDigits(n / 16, width - 1), HexDigits((n + 1) / 16, width - 1);
    assert HexDigits(n, width) == was + [DigitOf(n % 16)];
    assert HexDigits(n + 1, width) == next + [DigitOf((n + 1) % 16)];
    assert HexDigits(n, width)[..k] == was[..k];
    assert HexDigits(n + 1, width)[..k] == next[..k];
    assert (n + 1) / 16 == if n % 16 == 15 then n / 16 + 1 else n / 16;
  }

  lemma {:induction false} ValueOfAppend(s: string, c: char)
    ensures HexValue(s + [c]) == 16 * HexValue(s) + DigitValue(c)
  {
    assert (s + [c])[..|s|] == s;
  }

  lemma {:induction false} FullWrite(n: nat, width: nat)
    requires n + 1 < Pow16(width)
    ensures Reaches(n, width, width)
    ensures Overwrite(HexDigits(n, width), HexDigits(n + 1, width), width) == HexDigits(n + 1, width)
    ensures HexValue(HexDigits(n + 1, width)) == n + 1
  {
    var was, next := HexDigits(n, width), HexDigits(n + 1, width);
    ValueOfDigits(n + 1, width);
    ValueOfDigits(n, width);
    assert next[..width] == next && was[..width] == was;
  }

  lemma {:induction false} SameQuotient(n: nat)
    requires n % 16 != 15
    ensures (n + 1) / 16 == n / 16
  {
  }

  lemma {:induction false} OverwriteSame(s: string, k: nat)
    requires k <= |s|
    ensures Overwrite(s, s, k) == s
  {
  }

  lemma {:induction false} CarryFits(n: nat, p: nat)
    requires n + 1 < 16 * p && n % 16 == 15
    ensures n / 16 + 1 < p && (n + 1) / 16 == n / 16 + 1 && n + 1 == 16 * (n / 16 + 1)
  {
  }

  /** A torn write of the successor never moves a counter backwards: it either leaves the old
      digits or shows a number at least as large as the successor. */
  lemma {:induction false} TornWrite(n: nat, width: nat, k: nat)
    requires n + 1 < Pow16(width) && k <= width
    ensures var t := Overwrite(HexDigits(n, width), HexDigits(n + 1, width), k);
            if Reaches(n, width, k) then HexValue(t) >= n + 1 else t == HexDigits(n, width)
    decreases width
  {
    hide HexValue, HexDigits, Reaches, Overwrite;
    if k == width {
      FullWrite(n, width);
    } else {
      ReachesUnfold(n, width, k);
      var was := HexDigits(n / 16, width - 1);
      if n % 16 == 15 {
        CarryFits(n, Pow16(width - 1));
        TornWrite(n / 16, width - 1, k);
        ValueOfAppend(Overwrite(was, HexDigits(n / 16 + 1, width - 1), k), DigitOf(15));
      } else {
        SameQuotient(n);
        OverwriteSame(was, k);
      }
    }
  }

  /** `file` holds the count `n`: it has all `width` digits of `n`, or, while the initial "0" has
      not been fully overwritten, fewer digits that are all zero. */
  predicate Holds(file: string, n: nat, width: nat) {
    0 < |file| <= width && n < Pow16(width) && file == HexDigits(n, |file|) && (|file| < width ==> n == 0)
  }

  lemma {:induction false} ZeroDigits(width: nat)
    ensures forall i | 0 <= i < width :: HexDigits(0, width)[i] == '0'
  {
    if width > 0 { ZeroDigits(width - 1); }
  }

  /** Until all digits have been written once, the first counter update leaves only zeros. */
  lemma {:induction false} TornShort(len: nat, width: nat, k: nat)
    requires 0 < len < width && k < width
    ensures !Reaches(0, width, k)
    ensures var t := Overwrite(HexDigits(0, len), HexDigits(1, width), k); t == HexDigits(0, |t|) && |t| < width
  {
    var next := HexDigits(1, width);
    var t := Overwrite(HexDigits(0, len), next, k);
    ReachesUnfold(0, width, k);
    assert next[..width - 1] == HexDigits(0, width - 1);
    ZeroDigits(width - 1); ZeroDigits(len); ZeroDigits(|t|);
    assert forall i | 0 <= i < k :: next[i] == next[..width - 1][i];
    forall i | 0 <= i < |t| ensures t[i] == HexDigits(0, |t|)[i] {
      assert i < k ==> t[i] == next[i];
      assert i >= k ==> t[i] == HexDigits(0, len)[i];
    }
  }

  lemma {:induction false} TornFull(n: nat, width: nat, k: nat) returns (n': nat)
    requires 0 < width && n + 1 < Pow16(width) && k <= width
    ensures var t := Overwrite(HexDigits(n, width), HexDigits(n + 1, width), k);
            |t| == width && t == HexDigits(n', width) && n' < Pow16(width)
    ensures if Reaches(n, width, k) then n' >= n + 1 else n' == n
  {
    TornWrite(n, width, k);
    if Reaches(n, width, k) {
      var t := Overwrite(HexDigits(n, width), HexDigits(n + 1, width), k);
      HexValueBound(t);
      DigitsOfValue(t);
      n' := HexValue(t);
    } else {
      n' := n;
    }
  }

  /** The count a file holds after `k` bytes of the successor were written over it. */
  lemma {:induction false} TornCounter(file: string, n: nat, width: nat, k: nat) returns (n': nat)
    requires Holds(file, n, width) && n + 1 < Pow16(width) && k <= width
    ensures Holds(Overwrite(file, HexDigits(n + 1, width), k), n', width)
    ensures if Reaches(n, width, k) then n' >= n + 1 else n' == n
    ensures k == width ==> n' == n + 1 && Reaches(n, width, k)
  {
    if k == width {
      FullWrite(n, width);
      assert Overwrite(file, HexDigits(n + 1, width), k) == HexDigits(n + 1, width);
      n' := n + 1;
    } else if |file| < width {
      TornShort(|file|, width, k);
      n' := 0;
    } else {
      n' := TornFull(n, width, k);
    }
  }

  /** The count in a counter file, as the next request reads it. */
  predicate IsCounter(file: string, n: Id) {
    Holds(file, n, ID_LEN)
  }

  predicate Advances(n: Id, k: Written) {
    n < INVALID_ID && Reaches(n, ID_LEN, k)
  }

  lemma {:induction false} ScanCounter(file: string, n: Id)
    requires IsCounter(file, n)
    ensures IdOfStr(file) == n
  {
    ScanDigits(n, |file|, ID_LEN);
  }

  /** The issued id and the counter file afterwards, when `k` bytes of the update were written. */
  function TakeId(file: string, k: Written): (Id, string)
  {
    var id := IdOfStr(file);
    if id == INVALID_ID then (INVALID_ID, file) else (id, Overwrite(file, StrOfId(id + 1), k))
  }

  /** One request: it issues the count, and the count moves up exactly when the write reaches the
      digit that changes; an exhausted counter stays where it is. */
  lemma {:induction false} TakeIdSpec(file: string, n: Id, k: Written)
    requires IsCounter(file, n)
    ensures var (id, file') := TakeId(file, k);
            && id == n
            && IsCounter(file', IdOfStr(file'))
            && (n == INVALID_ID ==> file' == file)
            && (if Advances(n, k) then IdOfStr(file') > n else IdOfStr(file') == n)
            && (n < INVALID_ID && k == ID_LEN ==> Advances(n, k) && IdOfStr(file') == n + 1)
  {
    hide HexDigits, ScanHex, Reaches;
    ScanCounter(file, n);
    if n < INVALID_ID {
      var n' := NextCount(file, n, k);
      ScanCounter(TakeId(file, k).1, n');
    }
  }

  lemma {:induction false} NextCount(file: string, n: Id, k: Written) returns (n': Id)
    requires IsCounter(file, n) && n < INVALID_ID
    ensures IsCounter(Overwrite(file, StrOfId(n + 1), k), n')
    ensures if Advances(n, k) then n' > n else n' == n
    ensures k == ID_LEN ==> Advances(n, k) && n' == n + 1
  {
    Pow16Is64Bits();
    n' := TornCounter(file, n, ID_LEN, k);
  }

  // ----- whole runs of one counter

  /** The ids issued by successive requests, the i-th of which writes `writes[i]` bytes. */
  function Issued(file: string, writes: seq<Written>): (ids: seq<Id>)
    ensures |ids| == |writes|
    decreases |writes|
  {
    if writes == [] then []
    else
      var (id, file') := TakeId(file, writes[0]);
      [id] + Issued(file', writes[1..])
  }

  lemma {:induction false} IssuedAdjacent(file: string, n: Id, writes: seq<Written>, i: nat)
    requires IsCounter(file, n) && i + 1 < |writes|
    ensures var ids := Issued(file, writes);
            if Advances(ids[i], writes[i]) then ids[i + 1] > ids[i] else ids[i + 1] == ids[i]
    decreases i
  {
    hide HexDigits, ScanHex, Reaches;
    var (id, file') := TakeId(file, writes[0]);
    TakeIdSpec(file, n, writes[0]);
    var rest := writes[1..];
    if i == 0 {
      TakeIdSpec(file', IdOfStr(file'), rest[0]);
    } else {
      IssuedAdjacent(file', IdOfStr(file'), rest, i - 1);
    }
  }

  lemma {:induction false} StepsBetween(ids: seq<Id>, moves: seq<bool>, i: nat, j: nat)
    requires |ids| == |moves| && i <= j < |ids|
    requires forall m | i <= m < j :: if moves[m] then ids[m + 1] > ids[m] else ids[m + 1] == ids[m]
    ensures ids[i] <= ids[j]
    ensures ids[i] == ids[j] <==> forall m | i <= m < j :: !moves[m]
    decreases j
  {
    if i < j { StepsBetween(ids, moves, i, j - 1); }
  }

  /** For each request, whether its counter update reached the digit that changes. */
  function Moves(ids: seq<Id>, writes: seq<Written>): seq<bool>
    requires |ids| == |writes|
  {
    seq(|ids|, m requires 0 <= m < |ids| => Advances(ids[m], writes[m]))
  }

  /** In any run of requests, with any torn or lost counter updates: ids never decrease, the
      invalid id is final, and an id is issued again by a later request exactly when no update
      between the two requests reached the digit that changes. */
  lemma {:induction false} IssuedTwice(file: string, n: Id, writes: seq<Written>, i: nat, j: nat)
    requires IsCounter(file, n) && i < j < |writes|
    ensures var ids := Issued(file, writes);
            && ids[i] <= ids[j]
            && (ids[i] == ids[j] <==> forall m | i <= m < j :: !Moves(ids, writes)[m])
            && (ids[i] == INVALID_ID ==> ids[j] == INVALID_ID)
  {
    var ids := Issued(file, writes);
    forall m | i <= m < j
      ensures if Moves(ids, writes)[m] then ids[m + 1] > ids[m] else ids[m + 1] == ids[m]
    {
      IssuedAdjacent(file, n, writes, m);
    }
    StepsBetween(ids, Moves(ids, writes), i, j);
  }

  /** When every update is written in full, the run counts up from the stored count by one until
      the ids are exhausted, and from then on every request fails. */
  lemma {:induction false} FullWritesCount(file: string, n: Id, writes: seq<Written>, i: nat)
    requires IsCounter(file, n) && (forall k | 0 <= k < |writes| :: writes[k] == ID_LEN) && i < |writes|
    ensures Issued(file, writes)[i] == if n + i < INVALID_ID then n + i else INVALID_ID
    decreases i
  {
    hide HexDigits, ScanHex, Reaches;
    TakeIdSpec(file, n, writes[0]);
    if i > 0 {
      var file' := TakeId(file, writes[0]).1;
      if n == INVALID_ID { assert file' == file; }
      FullWritesCount(file', IdOfStr(file'), writes[1..], i - 1);
    }
  }
}
