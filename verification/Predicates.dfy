/** Predicates over the features of a measurement (lib/measurement_spec/meas_spec-api.c).  The
    number conversions of the C library are parameters. */
module Predicates {
  import opened Options
  import opened CStrings

  datatype Quantifier = AnyValue | AllValues

  datatype Convert = Convert(signed: string -> Option<int>, unsigned: string -> Option<int>)

  // ----- strings

  /** Two strings, folded when case does not count. */
  predicate StartsWith(s: string, p: string, fold: bool) {
    |p| <= |s| && Equal(s[..|p|], p, fold)
  }

  predicate EndsWith(s: string, p: string, fold: bool) {
    |p| <= |s| && Equal(s[|s| - |p|..], p, fold)
  }

  predicate Equal(s: string, t: string, fold: bool) {
    if fold then LowerCase(s) == LowerCase(t) else s == t
  }

  // ----- one value

  datatype Operator =
    | Text(rel: TextRelation, fold: bool)
    | Numeric(cmp: Comparison, wide: bool)
    | Unknown

  datatype TextRelation = Same | Starts | Ends
  datatype Comparison = Less | AtMost | Equals | AtLeast | Greater

  /** Operator names are compared without case. */
  function OperatorOf(name: string): Operator {
    var n := LowerCase(name);
    if n == "equal" then Text(Same, false)
    else if n == "startswith" then Text(Starts, false)
    else if n == "endswith" then Text(Ends, false)
    else if n == "case-equal" then Text(Same, true)
    else if n == "case-startswith" then Text(Starts, true)
    else if n == "case-endswith" then Text(Ends, true)
    else if n == "<" then Numeric(Less, false)
    else if n == "<=" then Numeric(AtMost, false)
    else if n == "=" then Numeric(Equals, false)
    else if n == ">=" then Numeric(AtLeast, false)
    else if n == ">" then Numeric(Greater, false)
    else if n == "u<" then Numeric(Less, true)
    else if n == "u<=" then Numeric(AtMost, true)
    else if n == "u=" then Numeric(Equals, true)
    else if n == "u>=" then Numeric(AtLeast, true)
    else if n == "u>" then Numeric(Greater, true)
    else Unknown
  }

  predicate Holds(cmp: Comparison, x: int, y: int) {
    match cmp
    case Less => x < y
    case AtMost => x <= y
    case Equals => x == y
    case AtLeast => x >= y
    case Greater => x > y
  }

  /** What looking at a value gives; `Undefined` when memory before the value is read. */
  datatype Outcome = Rc(rc: int) | Undefined

  /** -1 when a number does not convert, otherwise whether the value stands in the relation.  For a
      suffix the comparison starts as far before the end of the value as the suffix is long. */
  function Check(op: Operator, attr: string, value: string, c: Convert): (r: Outcome)
    requires !op.Unknown?
    ensures r == Undefined <==> op.Text? && op.rel == Ends && |value| > |attr|
    ensures r.Rc? ==> -1 <= r.rc <= 1
  {
    match op
    case Text(rel, fold) =>
      if rel == Ends && |value| > |attr| then Undefined
      else
        var holds := match rel case Same => Equal(attr, value, fold)
                               case Starts => StartsWith(attr, value, fold)
                               case Ends => EndsWith(attr, value, fold);
        Rc(if holds then 1 else 0)
    case Numeric(cmp, wide) =>
      var x := if wide then c.unsigned(attr) else c.signed(attr);
      var y := if wide then c.unsigned(value) else c.signed(value);
      Rc(if x.None? || y.None? then -1 else if Holds(cmp, x.value, y.value) then 1 else 0)
  }

  // ----- what the operators mean

  /** A name written in any case is the operator of that name. */
  lemma {:induction false} NameIs(name: string, lit: string)
    requires forall i | 0 <= i < |lit| :: !('A' <= lit[i] <= 'Z')
    ensures LowerCase(name) == lit <==> AlikeStrings(name, lit)
  {
    LowerCaseLower(lit);
    LowerCaseIsAlike(name, lit);
  }

  /** Equality, prefix and suffix, exact or but for case. */
  lemma {:induction false} TextMeans(name: string, attr: string, value: string, c: Convert)
    ensures AlikeStrings(name, "equal") ==> Says(name, attr, value, c, attr == value)
    ensures AlikeStrings(name, "startswith") ==> Says(name, attr, value, c, value <= attr)
    ensures AlikeStrings(name, "case-equal") ==> Says(name, attr, value, c, AlikeStrings(attr, value))
    ensures AlikeStrings(name, "case-startswith") ==>
              Says(name, attr, value, c, |value| <= |attr| && AlikeStrings(attr[..|value|], value))
    ensures AlikeStrings(name, "endswith") && |value| <= |attr| ==>
              Says(name, attr, value, c, attr[|attr| - |value|..] == value)
    ensures AlikeStrings(name, "case-endswith") && |value| <= |attr| ==>
              Says(name, attr, value, c, AlikeStrings(attr[|attr| - |value|..], value))
    ensures AlikeStrings(name, "endswith") || AlikeStrings(name, "case-endswith") ==>
              (|value| > |attr| <==> Check(OperatorOf(name), attr, value, c) == Undefined)
  {
    hide LowerCase, AlikeStrings;
    NameIs(name, "equal");
    NameIs(name, "startswith");
    NameIs(name, "endswith");
    NameIs(name, "case-equal");
    NameIs(name, "case-startswith");
    NameIs(name, "case-endswith");
    LowerCaseIsAlike(attr, value);
    if |value| <= |attr| {
      LowerCaseIsAlike(attr[..|value|], value);
      LowerCaseIsAlike(attr[|attr| - |value|..], value);
    }
  }

  /** The operator is known and gives 1 or 0 as the condition holds or not. */
  predicate Says(name: string, attr: string, value: string, c: Convert, holds: bool) {
    !OperatorOf(name).Unknown? && Check(OperatorOf(name), attr, value, c) == Rc(if holds then 1 else 0)
  }

  /** Comparison of signed numbers ... */
  lemma {:induction false} SignedMeans(name: string, attr: string, value: string, c: Convert)
    requires c.signed(attr).Some? && c.signed(value).Some?
    ensures var x, y := c.signed(attr).value, c.signed(value).value;
            && (AlikeStrings(name, "<") ==> Says(name, attr, value, c, x < y))
            && (AlikeStrings(name, "<=") ==> Says(name, attr, value, c, x <= y))
            && (AlikeStrings(name, "=") ==> Says(name, attr, value, c, x == y))
            && (AlikeStrings(name, ">=") ==> Says(name, attr, value, c, x >= y))
            && (AlikeStrings(name, ">") ==> Says(name, attr, value, c, x > y))
  {
    hide LowerCase, AlikeStrings;
    NameIs(name, "<");
    NameIs(name, "<=");
    NameIs(name, "=");
    NameIs(name, ">=");
    NameIs(name, ">");
  }

  /** ... and of unsigned ones. */
  lemma {:induction false} UnsignedMeans(name: string, attr: string, value: string, c: Convert)
    requires c.unsigned(attr).Some? && c.unsigned(value).Some?
    ensures var x, y := c.unsigned(attr).value, c.unsigned(value).value;
            && (AlikeStrings(name, "u<") ==> Says(name, attr, value, c, x < y))
            && (AlikeStrings(name, "u<=") ==> Says(name, attr, value, c, x <= y))
            && (AlikeStrings(name, "u=") ==> Says(name, attr, value, c, x == y))
            && (AlikeStrings(name, "u>=") ==> Says(name, attr, value, c, x >= y))
            && (AlikeStrings(name, "u>") ==> Says(name, attr, value, c, x > y))
  {
    hide LowerCase, AlikeStrings;
    NameIs(name, "u<");
    NameIs(name, "u<=");
    NameIs(name, "u=");
    NameIs(name, "u>=");
    NameIs(name, "u>");
  }

  /** A number that does not convert is an error. */
  lemma {:induction false} NumberFails(name: string, attr: string, value: string, c: Convert)
    requires OperatorOf(name).Numeric?
    ensures var wide := name != "" && name[0] in {'u', 'U'};
            Check(OperatorOf(name), attr, value, c) == Rc(-1) <==>
            if wide then c.unsigned(attr).None? || c.unsigned(value).None?
            else c.signed(attr).None? || c.signed(value).None?
  {
    assert name != "" ==> (LowerCase(name)[0] == 'u' <==> name[0] in {'u', 'U'});
  }

  /** No other name is an operator. */
  lemma {:induction false} KnownOperators(name: string)
    ensures OperatorOf(name).Unknown? <==>
            && !AlikeStrings(name, "equal") && !AlikeStrings(name, "startswith")
            && !AlikeStrings(name, "endswith") && !AlikeStrings(name, "case-equal")
            && !AlikeStrings(name, "case-startswith") && !AlikeStrings(name, "case-endswith")
            && !AlikeStrings(name, "<") && !AlikeStrings(name, "<=")
            && !AlikeStrings(name, "=") && !AlikeStrings(name, ">=")
            && !AlikeStrings(name, ">") && !AlikeStrings(name, "u<")
            && !AlikeStrings(name, "u<=") && !AlikeStrings(name, "u=")
            && !AlikeStrings(name, "u>=") && !AlikeStrings(name, "u>")
  {
    hide AlikeStrings, LowerCase;
    NameIs(name, "equal");
    NameIs(name, "startswith");
    NameIs(name, "endswith");
    NameIs(name, "case-equal");
    NameIs(name, "case-startswith");
    NameIs(name, "case-endswith");
    NameIs(name, "<");
    NameIs(name, "<=");
    NameIs(name, "=");
    NameIs(name, ">=");
    NameIs(name, ">");
    NameIs(name, "u<");
    NameIs(name, "u<=");
    NameIs(name, "u=");
    NameIs(name, "u>=");
    NameIs(name, "u>");
  }

  // ----- the loop

  /** A result after which the loop does not go on: an error, or one that settles the quantifier. */
  predicate Settles(q: Quantifier, r: Outcome) {
    r.Undefined? || r.rc < 0 || (q == AnyValue && r.rc > 0) || (q == AllValues && r.rc == 0)
  }

  /** What each value gives, in order. */
  function Results(op: Operator, attrs: seq<string>, value: string, c: Convert): (rs: seq<Outcome>)
    requires !op.Unknown?
    ensures |rs| == |attrs| && forall i | 0 <= i < |rs| :: rs[i] == Check(op, attrs[i], value, c)
  {
    seq(|attrs|, i requires 0 <= i < |attrs| => Check(op, attrs[i], value, c))
  }

  /** The first result that settles, or the last one. */
  function Decide(q: Quantifier, rs: seq<Outcome>): Outcome
    requires rs != []
  {
    if Settles(q, rs[0]) || |rs| == 1 then rs[0] else Decide(q, rs[1..])
  }

  /** measurement_data_check_predicate once the feature's values are known; `found` is what looking
      them up returned. */
  method CheckPredicate(q: Quantifier, name: string, attrs: seq<string>, value: string, c: Convert, found: int)
    returns (r: Outcome)
    ensures found < 0 || attrs == [] || OperatorOf(name).Unknown? ==> r == Rc(found)
    ensures found >= 0 && attrs != [] && !OperatorOf(name).Unknown? ==>
              r == Decide(q, Results(OperatorOf(name), attrs, value, c))
  {
    r := Rc(found);
    if found < 0 {
      return;
    }
    var op, i := OperatorOf(name), 0;
    hide OperatorOf;
    ghost var rs := if op.Unknown? then [] else Results(op, attrs, value, c);
    while i < |attrs|
      invariant 0 <= i <= |attrs|
      invariant i == 0 || op.Unknown? ==> r == Rc(found)
      invariant i < |attrs| && !op.Unknown? ==> Decide(q, rs) == Decide(q, rs[i..])
      invariant 0 < i == |attrs| && !op.Unknown? ==> r == Decide(q, rs)
    {
      if !op.Unknown? {
        r := Check(op, attrs[i], value, c);
        assert rs[i..][0] == r && rs[i..][1..] == rs[i + 1..];
      }
      if Settles(q, r) {
        break;
      }
      i := i + 1;
    }
  }

  /** With a known operator and a value to look at, "all" holds exactly when every value satisfies
      the predicate. */
  lemma {:induction false} AllMeans(rs: seq<Outcome>)
    requires rs != []
    ensures Positive(Decide(AllValues, rs)) <==> forall i | 0 <= i < |rs| :: Positive(rs[i])
  {
    if !Settles(AllValues, rs[0]) && |rs| > 1 {
      AllMeans(rs[1..]);
      assert rs == [rs[0]] + rs[1..];
    }
  }

  predicate Positive(r: Outcome) {
    r.Rc? && r.rc > 0
  }

  /** The first `i` results do not settle the question. */
  predicate Open(q: Quantifier, rs: seq<Outcome>, i: nat)
    requires i <= |rs|
  {
    forall j | 0 <= j < i :: !Settles(q, rs[j])
  }

  /** The loop's answer is the first result that settles: one is reported exactly when it comes
      before any other that would. */
  lemma {:induction false} FirstSettles(q: Quantifier, rs: seq<Outcome>, r: Outcome)
    requires rs != [] && Settles(q, r)
    ensures Decide(q, rs) == r <==> exists i | 0 <= i < |rs| :: rs[i] == r && Open(q, rs, i)
  {
    if Settles(q, rs[0]) {
      assert Open(q, rs, 0);
    } else if |rs| > 1 {
      FirstSettles(q, rs[1..], r);
      if Decide(q, rs) == r {
        var i :| 0 <= i < |rs[1..]| && rs[1..][i] == r && Open(q, rs[1..], i);
        assert rs == [rs[0]] + rs[1..] && Open(q, rs, i + 1) && rs[i + 1] == r;
      }
      forall i | 0 <= i < |rs| && rs[i] == r && Open(q, rs, i)
        ensures 0 < i && rs[1..][i - 1] == r && Open(q, rs[1..], i - 1)
      {
      }
    }
  }

  /** What the answer means for a feature's values: "all" is a conjunction; "any" finds a value that
      satisfies the predicate with no conversion error before it; an error is reported exactly when
      a value that does not convert comes before anything that settles the question. */
  lemma {:induction false} DecideMeans(op: Operator, attrs: seq<string>, value: string, c: Convert)
    requires !op.Unknown? && attrs != []
    ensures var rs := Results(op, attrs, value, c);
            && (Decide(AllValues, rs) == Rc(1) <==> forall i | 0 <= i < |rs| :: rs[i] == Rc(1))
            && (Decide(AnyValue, rs) == Rc(1)
                <==> exists i | 0 <= i < |rs| :: rs[i] == Rc(1) && forall j | 0 <= j < i :: rs[j] == Rc(0))
            && (forall q :: Decide(q, rs) == Rc(-1) <==> exists i | 0 <= i < |rs| :: rs[i] == Rc(-1) && Open(q, rs, i))
            && (forall q :: Decide(q, rs) in {Undefined, Rc(-1), Rc(0), Rc(1)})
  {
    hide Check, Decide, Settles, Open;
    var rs := Results(op, attrs, value, c);
    AllMeans(rs);
    assert Settles(AnyValue, Rc(1)) && Settles(AnyValue, Rc(-1)) && Settles(AllValues, Rc(-1)) by { ErrorSettles(); }
    assert forall i | 0 <= i < |rs| :: Positive(rs[i]) <==> rs[i] == Rc(1);
    FirstSettles(AnyValue, rs, Rc(1));
    forall i | 0 <= i < |rs| ensures Open(AnyValue, rs, i) <==> forall j | 0 <= j < i :: rs[j] == Rc(0) {
      OpenAny(rs, i);
    }
    forall q
      ensures Decide(q, rs) == Rc(-1) <==> exists i | 0 <= i < |rs| :: rs[i] == Rc(-1) && Open(q, rs, i)
      ensures Decide(q, rs) in rs
    {
      FirstSettles(q, rs, Rc(-1));
      DecideIsOne(q, rs);
    }
  }

  /** Memory before a value is read exactly when a suffix is asked for that is longer than one of the
      values, and no earlier value settles the question. */
  lemma {:induction false} UndefinedWhen(q: Quantifier, op: Operator, attrs: seq<string>, value: string, c: Convert)
    requires !op.Unknown? && attrs != []
    ensures var rs := Results(op, attrs, value, c);
            Decide(q, rs) == Undefined
            <==> op.Text? && op.rel == Ends && exists i | 0 <= i < |attrs| :: |attrs[i]| < |value| && Open(q, rs, i)
  {
    var rs := Results(op, attrs, value, c);
    FirstSettles(q, rs, Undefined);
    if Decide(q, rs) == Undefined {
      var i :| 0 <= i < |rs| && rs[i] == Undefined && Open(q, rs, i);
      assert |attrs[i]| < |value|;
    }
    if op.Text? && op.rel == Ends && exists i | 0 <= i < |attrs| :: |attrs[i]| < |value| && Open(q, rs, i) {
      var i :| 0 <= i < |attrs| && |attrs[i]| < |value| && Open(q, rs, i);
      assert rs[i] == Undefined;
    }
  }

  lemma {:induction false} UndefinedAt(q: Quantifier, fold: bool, c: Convert)
    ensures Decide(q, Results(Text(Ends, fold), ["a"], "bb", c)) == Undefined
  {
    assert Results(Text(Ends, fold), ["a"], "bb", c)[0] == Undefined;
  }

  lemma {:induction false} ErrorSettles()
    ensures Settles(AnyValue, Rc(1)) && forall q :: Settles(q, Rc(-1))
  {}

  lemma {:induction false} OpenAny(rs: seq<Outcome>, i: nat)
    requires i <= |rs| && forall k | 0 <= k < |rs| :: rs[k].Rc? ==> -1 <= rs[k].rc <= 1
    ensures Open(AnyValue, rs, i) <==> forall j | 0 <= j < i :: rs[j] == Rc(0)
  {
    assert forall j | 0 <= j < i :: !Settles(AnyValue, rs[j]) <==> rs[j] == Rc(0);
  }

  lemma {:induction false} DecideIsOne(q: Quantifier, rs: seq<Outcome>)
    requires rs != []
    ensures Decide(q, rs) in rs
  {
    if !Settles(q, rs[0]) && |rs| > 1 {
      DecideIsOne(q, rs[1..]);
    }
  }

  function Negated(cmp: Comparison): Comparison
    requires cmp != Equals
  {
    match cmp
    case Less => AtLeast
    case AtMost => Greater
    case AtLeast => Less
    case Greater => AtMost
  }

  /** "All are below" is "none is at least": the two loops fail together and otherwise disagree. */
  lemma {:induction false} Dual(cmp: Comparison, wide: bool, attrs: seq<string>, value: string, c: Convert)
    requires cmp != Equals && attrs != []
    ensures var all := Decide(AllValues, Results(Numeric(cmp, wide), attrs, value, c));
            var any := Decide(AnyValue, Results(Numeric(Negated(cmp), wide), attrs, value, c));
            && all.Rc? && any.Rc?
            && if all.rc < 0 || any.rc < 0 then all.rc == any.rc == -1 else all.rc + any.rc == 1
  {
    if |attrs| > 1 {
      Dual(cmp, wide, attrs[1..], value, c);
      var rs := Results(Numeric(cmp, wide), attrs, value, c);
      var ns := Results(Numeric(Negated(cmp), wide), attrs, value, c);
      assert rs[1..] == Results(Numeric(cmp, wide), attrs[1..], value, c);
      assert ns[1..] == Results(Numeric(Negated(cmp), wide), attrs[1..], value, c);
    }
  }
}
