/** Matching phrases against bounds (lib/common/copland.c) and the attester's part of a
    negotiation (src/am/am.c): it stores the offered options that a selected condition bounds, and
    later starts an APB for a phrase that a stored option matches. */
module Attester {
  import opened Options
  import opened CStrings
  import opened Copland

  /** Whether a string matches an extended regular expression; a malformed expression matches
      nothing. */
  type Regex = (string, string) -> bool

  // ----- bounds

  predicate ValueBounded(rx: Regex, a: Data, b: Data) {
    match a
    case StrData(s) => b.StrData? && rx(s, b.s)
    case PlaceData(id) => b == a
    case IntData(n) => b == a
  }

  /** What the argument loop accepts.  A type mismatch ends the loop without an error. */
  predicate ArgsBounded(rx: Regex, xs: seq<Arg>, bs: seq<Arg>)
    requires |xs| == |bs|
  {
    xs == [] ||
    (&& xs[0].name == bs[0].name
     && (xs[0].data.Kind() == bs[0].data.Kind() ==>
           ValueBounded(rx, xs[0].data, bs[0].data) && ArgsBounded(rx, xs[1..], bs[1..])))
  }

  predicate Bounded(rx: Regex, p: Phrase, b: Phrase) {
    p.text == b.text && |p.args| == |b.args| && ArgsBounded(rx, p.args, b.args)
  }

  /** eval_bounds_of_args; the result stands for an error code of zero. */
  method EvalBounds(rx: Regex, p: Phrase, b: Phrase) returns (ok: bool)
    ensures ok == Bounded(rx, p, b)
  {
    if p.text != b.text || |p.args| != |b.args| {
      return false;
    }
    assert p.args[0..] == p.args && b.args[0..] == b.args;
    for i := 0 to |p.args|
      invariant ArgsBounded(rx, p.args[i..], b.args[i..]) == ArgsBounded(rx, p.args, b.args)
    {
      var x, y := p.args[i], b.args[i];
      assert p.args[i..][1..] == p.args[i + 1..] && b.args[i..][1..] == b.args[i + 1..];
      if x.name != y.name {
        return false;
      }
      if x.data.Kind() != y.data.Kind() {
        return true;
      }
      if !ValueBounded(rx, x.data, y.data) {
        return false;
      }
    }
    ok := true;
  }

  /** The first position at which the types differ. */
  function Mismatch(xs: seq<Arg>, bs: seq<Arg>): (m: nat)
    requires |xs| == |bs|
    ensures m <= |xs|
    ensures m < |xs| ==> xs[m].data.Kind() != bs[m].data.Kind()
    ensures forall i | 0 <= i < m :: xs[i].data.Kind() == bs[i].data.Kind()
  {
    if xs == [] || xs[0].data.Kind() != bs[0].data.Kind() then 0 else 1 + Mismatch(xs[1..], bs[1..])
  }

  /** Exactly what a match guarantees: names agree up to and including the first type mismatch, and
      values are bounded before it.  Nothing is known about later arguments. */
  lemma {:induction false} ArgsBoundedMeans(rx: Regex, xs: seq<Arg>, bs: seq<Arg>)
    requires |xs| == |bs|
    ensures var m := Mismatch(xs, bs);
            ArgsBounded(rx, xs, bs) <==>
              && (forall i | 0 <= i < m :: xs[i].name == bs[i].name && ValueBounded(rx, xs[i].data, bs[i].data))
              && (m < |xs| ==> xs[m].name == bs[m].name)
  {
    hide ValueBounded;
    if xs != [] && xs[0].data.Kind() == bs[0].data.Kind() {
      ArgsBoundedMeans(rx, xs[1..], bs[1..]);
      var m := Mismatch(xs, bs);
      forall i | 0 <= i < m - 1 ensures xs[1..][i] == xs[i + 1] && bs[1..][i] == bs[i + 1] { }
      if forall i | 0 <= i < m :: xs[i].name == bs[i].name && ValueBounded(rx, xs[i].data, bs[i].data) {
        assert forall i | 0 <= i < m - 1 :: xs[1..][i].name == bs[1..][i].name
                                            && ValueBounded(rx, xs[1..][i].data, bs[1..][i].data);
      }
      if ArgsBounded(rx, xs, bs) {
        forall i | 0 <= i < m ensures xs[i].name == bs[i].name && ValueBounded(rx, xs[i].data, bs[i].data) {
          if i > 0 {
            assert xs[1..][i - 1].name == bs[1..][i - 1].name
                   && ValueBounded(rx, xs[1..][i - 1].data, bs[1..][i - 1].data);
          }
        }
      }
    }
  }

  predicate SameTypes(p: Phrase, b: Phrase) {
    |p.args| == |b.args| && forall i | 0 <= i < |p.args| :: p.args[i].data.Kind() == b.args[i].data.Kind()
  }

  /** The match as documented: names, types and values agree argument by argument. */
  predicate Documented(rx: Regex, p: Phrase, b: Phrase) {
    && p.text == b.text && |p.args| == |b.args|
    && forall i | 0 <= i < |p.args| ::
         && p.args[i].name == b.args[i].name && p.args[i].data.Kind() == b.args[i].data.Kind()
         && ValueBounded(rx, p.args[i].data, b.args[i].data)
  }

  /** The code matches as documented exactly where the types agree position by position: then names
      are equal, places and integers are equal, and strings match the bound's expression. */
  lemma {:induction false} BoundedAsDocumented(rx: Regex, p: Phrase, b: Phrase)
    ensures Documented(rx, p, b) <==> Bounded(rx, p, b) && SameTypes(p, b)
  {
    hide ValueBounded;
    if |p.args| == |b.args| { ArgsBoundedMeans(rx, p.args, b.args); }
  }

  /** An argument of the wrong type is taken for a match, whatever its value. */
  lemma {:induction false} WrongTypeMatches(rx: Regex, name: string, n: int, s: string)
    ensures var p, b := Phrase("t", [Arg(name, IntData(n))]), Phrase("t", [Arg(name, StrData(s))]);
            Bounded(rx, p, b) && !Documented(rx, p, b)
  {
    var p, b := Phrase("t", [Arg(name, IntData(n))]), Phrase("t", [Arg(name, StrData(s))]);
    assert p.args[0].data.Kind() != b.args[0].data.Kind();
  }

  predicate NoStrings(p: Phrase) {
    forall i | 0 <= i < |p.args| :: !p.args[i].data.StrData?
  }

  /** Where types agree and there are no strings, a match is equality, in either direction. */
  lemma {:induction false} MatchIsEquality(rx: Regex, p: Phrase, b: Phrase)
    requires SameTypes(p, b) && NoStrings(p)
    ensures Bounded(rx, p, b) <==> p == b
    ensures Bounded(rx, b, p) <==> p == b
  {
    BoundedAsDocumented(rx, p, b);
    BoundedAsDocumented(rx, b, p);
    if Documented(rx, p, b) || Documented(rx, b, p) {
      forall i | 0 <= i < |p.args| ensures p.args[i] == b.args[i] {
        assert !p.args[i].data.StrData? && p.args[i].data.Kind() == b.args[i].data.Kind();
      }
      assert p.args == b.args;
    }
  }

  /** Everything but the strings agrees. */
  predicate SameButStrings(p: Phrase, b: Phrase) {
    && p.text == b.text && SameTypes(p, b)
    && forall i | 0 <= i < |p.args| ::
         p.args[i].name == b.args[i].name && (p.args[i].data.StrData? || p.args[i].data == b.args[i].data)
  }

  /** Every string matches the bound's expression. */
  predicate StringsBounded(rx: Regex, p: Phrase, b: Phrase) {
    |p.args| == |b.args| && forall i | 0 <= i < |p.args| && p.args[i].data.StrData? ::
      b.args[i].data.StrData? && rx(p.args[i].data.s, b.args[i].data.s)
  }

  lemma {:induction false} BoundedBySplit(rx: Regex, p: Phrase, b: Phrase)
    requires SameTypes(p, b)
    ensures Bounded(rx, p, b) <==> SameButStrings(p, b) && StringsBounded(rx, p, b)
  {
    hide ArgsBounded;
    BoundedAsDocumented(rx, p, b);
    assert forall i | 0 <= i < |p.args| :: p.args[i].data.Kind() == b.args[i].data.Kind();
  }

  /** Two phrases that bound the same option agree in everything but their strings, so that one bounds
      the other exactly when its strings match. */
  lemma {:induction false} BoundedByStrings(rx: Regex, o: Phrase, c: Phrase, p: Phrase)
    requires SameTypes(o, c) && SameTypes(o, p) && Bounded(rx, o, c) && Bounded(rx, o, p)
    ensures SameButStrings(p, c) && (Bounded(rx, p, c) <==> StringsBounded(rx, p, c))
  {
    hide ArgsBounded;
    BoundedBySplit(rx, o, c);
    BoundedBySplit(rx, o, p);
    forall i | 0 <= i < |p.args|
      ensures p.args[i].data.Kind() == c.args[i].data.Kind() && p.args[i].name == c.args[i].name
      ensures p.args[i].data.StrData? || p.args[i].data == c.args[i].data
    {
      assert o.args[i].name == c.args[i].name && o.args[i].name == p.args[i].name;
      assert o.args[i].data.Kind() == c.args[i].data.Kind() && o.args[i].data.Kind() == p.args[i].data.Kind();
    }
    BoundedBySplit(rx, p, c);
  }

  // ----- filtering

  predicate BoundedBySome(rx: Regex, p: Phrase, bounders: seq<Phrase>) {
    exists j | 0 <= j < |bounders| :: Bounded(rx, p, bounders[j])
  }

  /** The phrases that some bounder bounds, in their order. */
  function Filter(rx: Regex, ps: seq<Phrase>, bounders: seq<Phrase>): (r: seq<Phrase>)
    ensures forall p :: p in r <==> p in ps && BoundedBySome(rx, p, bounders)
  {
    if ps == [] then []
    else
      var n := |ps| - 1;
      var front := Filter(rx, ps[..n], bounders);
      assert ps == ps[..n] + [ps[n]];
      if BoundedBySome(rx, ps[n], bounders) then front + [ps[n]] else front
  }

  /** Each phrase is kept or dropped by itself: what is kept stands in the order of the offer, and as
      often. */
  lemma {:induction false} FilterConcat(rx: Regex, ps: seq<Phrase>, qs: seq<Phrase>, bounders: seq<Phrase>)
    ensures Filter(rx, ps + qs, bounders) == Filter(rx, ps, bounders) + Filter(rx, qs, bounders)
    decreases |qs|
  {
    hide BoundedBySome;
    if qs == [] {
      assert ps + qs == ps;
    } else {
      var n := |qs| - 1;
      assert (ps + qs)[..|ps| + n] == ps + qs[..n];
      FilterConcat(rx, ps, qs[..n], bounders);
    }
  }

  lemma {:induction false} FilterOne(rx: Regex, p: Phrase, bounders: seq<Phrase>)
    ensures Filter(rx, [p], bounders) == if exists b | b in bounders :: Bounded(rx, p, b) then [p] else []
  {
    hide Bounded;
    assert [p][..0] == [];
    if exists b | b in bounders :: Bounded(rx, p, b) {
      var b :| b in bounders && Bounded(rx, p, b);
      var j :| 0 <= j < |bounders| && bounders[j] == b;
    }
  }

  /** copy_bounded_phrases */
  method CopyBounded(rx: Regex, ps: seq<Phrase>, bounders: seq<Phrase>) returns (r: Option<seq<Phrase>>)
    ensures r == if ps != [] && bounders == [] then None else Some(Filter(rx, ps, bounders))
  {
    if |ps| == 0 {
      return Some([]);
    }
    if |bounders| == 0 {
      return None;
    }
    var copied: seq<Phrase> := [];
    assert ps[..0] == [];
    for i := 0 to |ps|
      invariant copied == Filter(rx, ps[..i], bounders)
    {
      assert ps[..i + 1][..i] == ps[..i];
      var j, found := 0, false;
      while j < |bounders| && !found
        invariant 0 <= j <= |bounders|
        invariant found ==> BoundedBySome(rx, ps[i], bounders)
        invariant !found ==> forall k | 0 <= k < j :: !Bounded(rx, ps[i], bounders[k])
        decreases |bounders| - j, !found
      {
        found := EvalBounds(rx, ps[i], bounders[j]);
        if !found {
          j := j + 1;
        }
      }
      if found {
        copied := copied + [ps[i]];
      }
    }
    assert ps[..|ps|] == ps;
    r := Some(copied);
  }

  // ----- the attester

  datatype Apb = Apb(name: string, templates: seq<Template>)

  predicate Supports(apb: Apb, p: Phrase) {
    exists t | t in apb.templates :: t.text == p.text && |t.params| == |p.args|
  }

  /** find_apb_copl_phrase_by_template: the first APB with a template of the phrase's text and
      arity. */
  method FindApb(apbs: seq<Apb>, p: Phrase) returns (r: Option<Apb>)
    ensures r.Some? ==> exists i | 0 <= i < |apbs| ::
              && r.value == apbs[i] && Supports(apbs[i], p)
              && forall k | 0 <= k < i :: !Supports(apbs[k], p)
    ensures r.None? ==> forall k | 0 <= k < |apbs| :: !Supports(apbs[k], p)
  {
    for i := 0 to |apbs|
      invariant forall k | 0 <= k < i :: !Supports(apbs[k], p)
    {
      var ts := apbs[i].templates;
      for j := 0 to |ts|
        invariant forall k | 0 <= k < j :: !(ts[k].text == p.text && |ts[k].params| == |p.args|)
      {
        if ts[j].text == p.text && |ts[j].params| == |p.args| {
          assert ts[j] in apbs[i].templates;
          return Some(apbs[i]);
        }
      }
    }
    r := None;
  }

  /** A run of an APB with its argument string. */
  datatype Run = Run(apb: Apb, phrase: Phrase, args: Option<string>)

  /** A negotiation as the attester sees it. */
  class Scenario {
    var options: seq<Phrase>
    var partnerFingerprint: string
    const apbs: seq<Apb>
    const rx: Regex
    // the last offer that was accepted, and the conditions selected for it
    ghost var offered: seq<Phrase>
    ghost var selected: seq<Phrase>

    constructor (apbs: seq<Apb>, rx: Regex, fingerprint: string)
      ensures Valid() && options == [] && this.apbs == apbs && this.rx == rx
    {
      options, partnerFingerprint := [], fingerprint;
      this.apbs, this.rx := apbs, rx;
      offered, selected := [], [];
    }

    /** The stored options are exactly the bounded ones among the last offer, in order. */
    ghost predicate Valid()
      reads this
    {
      options == Filter(rx, offered, selected)
    }

    /** attester_select_options; what the selector returns is arbitrary.  When it fails, no option
        stays stored. */
    method SelectOptions(offer: seq<Phrase>, rtn: int, conditions: seq<Phrase>) returns (ok: bool)
      requires Valid()
      modifies this
      ensures Valid() && partnerFingerprint == old(partnerFingerprint)
      ensures ok <==> rtn > 0 && (offer == [] || conditions != [])
      ensures ok ==> offered == offer && selected == conditions
      ensures !ok ==> options == []
    {
      options, offered, selected := [], [], [];
      if rtn <= 0 {
        return false;
      }
      var final := CopyBounded(rx, offer, conditions);
      if final.None? {
        return false;
      }
      options, offered, selected := final.value, offer, conditions;
      ok := true;
    }

    /** attester_spawn_protocol.  The stored options are matched against the request, not the other
        way round, so a string of the request is the expression.  `cert` is the fingerprint of the
        partner's certificate when there is one, None inside when it cannot be read. */
    method Spawn(phrase: Phrase, cert: Option<Option<string>>) returns (r: Option<Run>)
      requires Valid()
      ensures Valid()
      ensures r.Some? ==>
                && r.value.phrase == phrase
                && (exists o | o in options :: Bounded(rx, o, phrase))
                && r.value.apb in apbs && Supports(r.value.apb, phrase)
                && (exists t | t in r.value.apb.templates :: t.text == phrase.text && |t.params| == |phrase.args|)
                && r.value.args == (if phrase.args == [] then None else Some(ArgsText(phrase.args)))
                && (cert.Some? ==> cert.value == Some(partnerFingerprint))
      ensures r.None? ==>
                || (forall o | o in options :: !Bounded(rx, o, phrase))
                || (forall a, t | a in apbs && t in a.templates :: t.text != phrase.text || |t.params| != |phrase.args|)
                || (cert.Some? && cert.value != Some(partnerFingerprint))
    {
      var i, found := 0, false;
      while i < |options| && !found
        invariant 0 <= i <= |options|
        invariant found ==> i < |options| && Bounded(rx, options[i], phrase)
        invariant !found ==> forall k | 0 <= k < i :: !Bounded(rx, options[k], phrase)
        decreases |options| - i, !found
      {
        found := EvalBounds(rx, options[i], phrase);
        if !found {
          i := i + 1;
        }
      }
      if !found {
        return None;
      }
      assert options[i] in options;
      if cert.Some? && cert.value != Some(partnerFingerprint) {
        return None;
      }
      var apb := FindApb(apbs, phrase);
      if apb.None? {
        return None;
      }
      var args := ArgsToString(phrase.args);
      r := Some(Run(apb.value, phrase, args));
    }
  }

  // ----- whole negotiations

  datatype Action =
    | Select(offer: seq<Phrase>, rtn: int, conditions: seq<Phrase>)
    | Execute(phrase: Phrase, cert: Option<Option<string>>)

  /** Why an APB may run: a phrase was offered and bounded by a selected condition, it matches the
      phrase that is run, and the APB has a template for that phrase. */
  ghost predicate Justified(rx: Regex, apbs: seq<Apb>, run: Run, offered: seq<Phrase>, selected: seq<Phrase>) {
    && run.apb in apbs && Supports(run.apb, run.phrase)
    && exists o | o in offered :: BoundedBySome(rx, o, selected) && Bounded(rx, o, run.phrase)
  }

  /** What ties the phrase that is run to a selected condition: up to the first position where a type
      differs from the option's, names are equal, types are equal, and so are places and integers.
      Strings are tied to the option only, and only as expressions that it matches. */
  ghost predicate Follows(rx: Regex, p: Phrase, offered: seq<Phrase>, selected: seq<Phrase>) {
    exists o, c | o in offered && c in selected :: Bounded(rx, o, c) && Bounded(rx, o, p) && Tied(p, c, o)
  }

  predicate Tied(p: Phrase, c: Phrase, o: Phrase) {
    && p.text == c.text == o.text && |p.args| == |c.args| == |o.args|
    && forall i | 0 <= i < |p.args| && i < Mismatch(o.args, c.args) && i < Mismatch(o.args, p.args) ::
         p.args[i].name == c.args[i].name && SameValue(p.args[i].data, c.args[i].data)
  }

  predicate SameValue(a: Data, b: Data) {
    a.Kind() == b.Kind() && (a.StrData? || a == b)
  }

  lemma {:induction false} JustifiedFollows(rx: Regex, apbs: seq<Apb>, run: Run, offered: seq<Phrase>,
                                            selected: seq<Phrase>)
    requires Justified(rx, apbs, run, offered, selected)
    ensures Follows(rx, run.phrase, offered, selected)
  {
    hide Supports, Mismatch, ArgsBounded;
    var o :| o in offered && BoundedBySome(rx, o, selected) && Bounded(rx, o, run.phrase);
    var j :| 0 <= j < |selected| && Bounded(rx, o, selected[j]);
    ArgsBoundedMeans(rx, o.args, selected[j].args);
    ArgsBoundedMeans(rx, o.args, run.phrase.args);
    assert selected[j] in selected && Tied(run.phrase, selected[j], o);
  }

  /** Phrases of the same text and arity have the same types. */
  ghost predicate TypesAgree(offered: seq<Phrase>, others: seq<Phrase>) {
    forall o, c | o in offered && c in others && o.text == c.text && |o.args| == |c.args| :: SameTypes(o, c)
  }

  /** Only the strings decide whether a phrase is bounded by a selected condition: it agrees with one
      in everything else, and it is bounded if and only if its strings match those of one such. */
  ghost predicate StringsDecide(rx: Regex, p: Phrase, selected: seq<Phrase>) {
    && (exists c | c in selected :: SameButStrings(p, c))
    && (BoundedBySome(rx, p, selected)
       <==> exists c | c in selected :: SameButStrings(p, c) && StringsBounded(rx, p, c))
  }

  /** Exactly when what runs is bounded by a selected condition, where types agree. */
  lemma {:induction false} RunBoundedWhen(rx: Regex, apbs: seq<Apb>, run: Run, offered: seq<Phrase>,
                                          selected: seq<Phrase>)
    requires Justified(rx, apbs, run, offered, selected) && TypesAgree(offered, selected + [run.phrase])
    ensures StringsDecide(rx, run.phrase, selected)
  {
    hide Supports, ArgsBounded, SameButStrings, StringsBounded, SameTypes;
    var p := run.phrase;
    var o :| o in offered && BoundedBySome(rx, o, selected) && Bounded(rx, o, p);
    var j :| 0 <= j < |selected| && Bounded(rx, o, selected[j]);
    var all := selected + [p];
    assert p in all && selected[j] in all && SameTypes(o, p) && SameTypes(o, selected[j]);
    BoundedByStrings(rx, o, selected[j], p);
    assert selected[j] in selected;
    forall k | 0 <= k < |selected|
      ensures Bounded(rx, p, selected[k]) <==> SameButStrings(p, selected[k]) && StringsBounded(rx, p, selected[k])
    {
      var c := selected[k];
      assert c in all;
      ButStringsShape(p, c);
      if c.text == p.text && |c.args| == |p.args| {
        assert SameTypes(o, c);
        TypesShared(o, p, c);
        BoundedBySplit(rx, p, c);
      }
    }
    if BoundedBySome(rx, p, selected) {
      var k :| 0 <= k < |selected| && Bounded(rx, p, selected[k]);
      assert selected[k] in selected;
    }
  }

  lemma {:induction false} TypesShared(o: Phrase, p: Phrase, c: Phrase)
    requires SameTypes(o, p) && SameTypes(o, c)
    ensures SameTypes(p, c)
  {
    assert forall i | 0 <= i < |p.args| :: o.args[i].data.Kind() == c.args[i].data.Kind();
  }

  lemma {:induction false} ButStringsShape(p: Phrase, c: Phrase)
    ensures SameButStrings(p, c) ==> p.text == c.text && |p.args| == |c.args|
  {}

  /** With types that agree and no strings, an APB runs only for a phrase that was itself offered and
      selected. */
  lemma {:induction false} RunIsSelected(rx: Regex, apbs: seq<Apb>, run: Run, offered: seq<Phrase>,
                                         selected: seq<Phrase>)
    requires Justified(rx, apbs, run, offered, selected) && NoStrings(run.phrase)
    requires TypesAgree(offered, selected + [run.phrase])
    ensures run.phrase in offered && run.phrase in selected
  {
    hide Supports, ArgsBounded;
    var o :| o in offered && BoundedBySome(rx, o, selected) && Bounded(rx, o, run.phrase);
    var j :| 0 <= j < |selected| && Bounded(rx, o, selected[j]);
    assert run.phrase in selected + [run.phrase] && selected[j] in selected + [run.phrase];
    assert SameTypes(o, run.phrase) && SameTypes(o, selected[j]);
    MatchIsEquality(rx, run.phrase, o);
    MatchIsEquality(rx, o, selected[j]);
  }

  /** A string argument escapes: an option and a condition with the string `s` let a request with the
      expression `t` run, although neither the option nor any selected condition bounds it. */
  method UnboundedRequestRuns(rx: Regex, s: string, t: string)
    returns (run: Option<Run>, option: Phrase, request: Phrase)
    requires rx(s, s) && rx(s, t) && !rx(t, s)
    ensures run.Some? && run.value.phrase == request
    ensures !Bounded(rx, request, option) && !BoundedBySome(rx, request, [option])
  {
    option, request := Phrase("p", [Arg("x", StrData(s))]), Phrase("p", [Arg("x", StrData(t))]);
    var apb := Apb("a", [Template("p", [Param("x", String)])]);
    var scen := new Scenario([apb], rx, "");
    OneString(rx, s, s);
    OneString(rx, s, t);
    OneString(rx, t, s);
    var ok := scen.SelectOptions([option], 1, [option]);
    assert BoundedBySome(rx, option, [option]) by { assert [option][0] == option; }
    assert option in [option] && option in scen.options;
    assert Supports(apb, request) by { assert apb.templates[0] in apb.templates; }
    assert apb in scen.apbs;
    run := scen.Spawn(request, None);
  }

  lemma {:induction false} OneString(rx: Regex, s: string, t: string)
    ensures Bounded(rx, Phrase("p", [Arg("x", StrData(s))]), Phrase("p", [Arg("x", StrData(t))])) <==> rx(s, t)
  {
    var p, b := Phrase("p", [Arg("x", StrData(s))]), Phrase("p", [Arg("x", StrData(t))]);
    assert p.args[1..] == [] && b.args[1..] == [];
    assert ArgsBounded(rx, p.args[1..], b.args[1..]);
    assert p.args[0].data.Kind() == b.args[0].data.Kind()
             && ValueBounded(rx, p.args[0].data, b.args[0].data) == rx(s, t);
  }

  /** The last selection before step `n`, or None when it failed or there was none. */
  function LastSelect(actions: seq<Action>, n: nat): Option<Action>
    requires n <= |actions|
  {
    if n == 0 then None
    else
      var a := actions[n - 1];
      if a.Select? then (if a.rtn > 0 && (a.offer == [] || a.conditions != []) then Some(a) else None)
      else LastSelect(actions, n - 1)
  }

  /** What is known of a run: it is justified by the last selection, its phrase follows one of the
      conditions selected then, and where types agree only its strings decide whether one bounds it. */
  ghost predicate RightRun(rx: Regex, apbs: seq<Apb>, run: Run, last: Option<Action>) {
    && last.Some? && last.value.Select?
    && var (offer, conditions) := (last.value.offer, last.value.conditions);
    && Justified(rx, apbs, run, offer, conditions) && Follows(rx, run.phrase, offer, conditions)
    && (TypesAgree(offer, conditions + [run.phrase]) ==> StringsDecide(rx, run.phrase, conditions))
  }

  lemma {:induction false} JustifiedIsRight(rx: Regex, apbs: seq<Apb>, run: Run, last: Action)
    requires last.Select? && Justified(rx, apbs, run, last.offer, last.conditions)
    ensures RightRun(rx, apbs, run, Some(last))
  {
    hide Justified, Follows, TypesAgree, StringsDecide;
    JustifiedFollows(rx, apbs, run, last.offer, last.conditions);
    if TypesAgree(last.offer, last.conditions + [run.phrase]) {
      RunBoundedWhen(rx, apbs, run, last.offer, last.conditions);
    }
  }

  /** In any sequence of selections and execution requests, every APB that runs is right by the last
      selection before the request, and none runs after a selection that failed. */
  method Negotiate(s: Scenario, actions: seq<Action>) returns (runs: seq<Option<Run>>)
    requires s.Valid() && s.options == []
    modifies s
    ensures |runs| == |actions|
    ensures forall n | 0 <= n < |actions| && runs[n].Some? ::
              && actions[n].Execute? && runs[n].value.phrase == actions[n].phrase
              && RightRun(s.rx, s.apbs, runs[n].value, LastSelect(actions, n))
  {
    hide Bounded, BoundedBySome, Supports, RightRun;
    runs := [];
    for i := 0 to |actions|
      invariant s.Valid() && |runs| == i
      invariant match LastSelect(actions, i) {
                  case None => s.options == []
                  case Some(a) => a.Select? && s.offered == a.offer && s.selected == a.conditions
                }
      invariant forall n | 0 <= n < i && runs[n].Some? ::
                  && actions[n].Execute? && runs[n].value.phrase == actions[n].phrase
                  && RightRun(s.rx, s.apbs, runs[n].value, LastSelect(actions, n))
    {
      match actions[i] {
        case Select(offer, rtn, conditions) =>
          var ok := s.SelectOptions(offer, rtn, conditions);
          runs := runs + [None];
        case Execute(phrase, cert) =>
          var r := s.Spawn(phrase, cert);
          if r.Some? { JustifiedIsRight(s.rx, s.apbs, r.value, LastSelect(actions, i).value); }
          runs := runs + [r];
      }
    }
  }
}
