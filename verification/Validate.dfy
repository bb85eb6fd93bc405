/** Comparing a received contract with the one it was derived from (lib/util/validate.c).  Each
    child of the base document is compared with the first child of the contract whose name and
    attributes match; there is no backtracking. */
module Validate {
  import opened Options
  import opened CStrings

  datatype Attr = Attr(name: string, value: string)

  datatype Xml =
    | Element(name: string, attrs: seq<Attr>, children: seq<Xml>)
    | Text(content: Option<string>)
    | Other

  /** What may differ: nodes by name, attributes by name, attributes by node and attribute name. */
  datatype Rules = Rules(nodes: seq<string>, props: seq<string>, conds: seq<(string, string)>, superset: bool)

  // ----- comparing strings

  /** strcasecmp */
  predicate Same(a: string, b: string) {
    LowerCase(a) == LowerCase(b)
  }

  function First32(s: string): string {
    if |s| > 32 then s[..32] else s
  }

  /** strncasecmp with 32 characters */
  predicate Same32(a: string, b: string) {
    Same(First32(a), First32(b))
  }

  predicate InList(name: string, list: seq<string>) {
    exists i | 0 <= i < |list| :: Same(name, list[i])
  }

  predicate InConds(node: string, prop: string, list: seq<(string, string)>) {
    exists i | 0 <= i < |list| :: Same(node, list[i].0) && Same(prop, list[i].1)
  }

  lemma {:induction false} SameInList(a: string, b: string, list: seq<string>)
    requires Same(a, b)
    ensures InList(a, list) == InList(b, list)
  {
  }

  // ----- attributes

  /** The value of the first attribute with exactly this name. */
  function GetProp(attrs: seq<Attr>, name: string): Option<string> {
    if attrs == [] then None
    else if attrs[0].name == name then Some(attrs[0].value)
    else GetProp(attrs[1..], name)
  }

  predicate PropIgnored(r: Rules, node: string, prop: string) {
    InList(prop, r.props) || InConds(node, prop, r.conds)
  }

  predicate PropKept(b: Xml, c: Xml, name: string)
    requires b.Element? && c.Element?
  {
    var bv, cv := GetProp(b.attrs, name), GetProp(c.attrs, name);
    bv.Some? && cv.Some? && Same32(bv.value, cv.value)
  }

  /** Same name, and every attribute of `b` that is not ignored has the same value in `c`. */
  predicate PropsMatch(r: Rules, b: Xml, c: Xml) {
    && b.Element? && c.Element?
    && Same(b.name, c.name)
    && (r.superset || |b.attrs| == |c.attrs|)
    && forall i | 0 <= i < |b.attrs| :: PropIgnored(r, b.name, b.attrs[i].name) || PropKept(b, c, b.attrs[i].name)
  }

  method ValidateProps(r: Rules, b: Xml, c: Xml) returns (ok: bool)
    requires b.Element? && c.Element?
    ensures ok == PropsMatch(r, b, c)
    ensures ok <==> Corresponds(r, b, c)
  {
    hide Corresponds;
    MatchCorresponds(r, b, c);
    if !Same(b.name, c.name) {
      return false;
    }
    if !r.superset && |b.attrs| != |c.attrs| {
      return false;
    }
    for i := 0 to |b.attrs|
      invariant forall j | 0 <= j < i :: PropIgnored(r, b.name, b.attrs[j].name) || PropKept(b, c, b.attrs[j].name)
    {
      var name := b.attrs[i].name;
      if PropIgnored(r, b.name, name) {
        continue;
      }
      var ctmp := GetProp(c.attrs, name);
      if ctmp.None? {
        return false;
      }
      var btmp := GetProp(b.attrs, name);
      if btmp.None? || !Same32(btmp.value, ctmp.value) {
        return false;
      }
    }
    ok := true;
  }

  // ----- nodes

  /** The first element of `cs` from `i` on that matches `x`; |cs| when there is none. */
  function FirstMatch(r: Rules, x: Xml, cs: seq<Xml>, i: nat): (j: nat)
    requires i <= |cs|
    ensures i <= j <= |cs|
    ensures j < |cs| ==> PropsMatch(r, x, cs[j])
    ensures forall k | i <= k < j :: !PropsMatch(r, x, cs[k])
    decreases |cs| - i
  {
    if i == |cs| || PropsMatch(r, x, cs[i]) then i else FirstMatch(r, x, cs, i + 1)
  }

  function FirstText(cs: seq<Xml>, i: nat): (j: nat)
    requires i <= |cs|
    ensures i <= j <= |cs|
    ensures j < |cs| ==> cs[j].Text?
    ensures forall k | i <= k < j :: !cs[k].Text?
    decreases |cs| - i
  {
    if i == |cs| || cs[i].Text? then i else FirstText(cs, i + 1)
  }

  predicate NodeIgnored(r: Rules, x: Xml) {
    x.Other? || (x.Element? && InList(x.name, r.nodes))
  }

  /** A text node is compared with the first text node among the children. */
  predicate TextKept(x: Xml, cs: seq<Xml>)
    requires x.Text?
  {
    var j := FirstText(cs, 0);
    j < |cs| && (x.content.Some? ==> cs[j].content.Some? && Same(x.content.value, cs[j].content.value))
  }

  /** What validate_node accepts. */
  predicate Accepts(r: Rules, b: Xml, c: Xml)
    decreases b, 0
  {
    && PropsMatch(r, b, c)
    && (r.superset || |b.children| == |c.children|)
    && forall i | 0 <= i < |b.children| :: ChildAccepted(r, b.children[i], c.children)
  }

  predicate ChildAccepted(r: Rules, x: Xml, cs: seq<Xml>)
    decreases x, 1
  {
    NodeIgnored(r, x) ||
    if x.Text? then TextKept(x, cs)
    else var j := FirstMatch(r, x, cs, 0); j < |cs| && Accepts(r, x, cs[j])
  }

  /** validate_node */
  method ValidateNode(r: Rules, b: Xml, c: Xml) returns (ok: bool)
    requires b.Element? && c.Element?
    ensures ok == Accepts(r, b, c)
    ensures ok <==> Embeds(r, b, c) && Decisive(r, b, c)
    decreases b
  {
    hide Embeds, Decisive, Corresponds;
    AcceptsExactly(r, b, c);
    var props := ValidateProps(r, b, c);
    if !props || (!r.superset && |b.children| != |c.children|) {
      return false;
    }
    for i := 0 to |b.children|
      invariant forall k | 0 <= k < i :: ChildAccepted(r, b.children[k], c.children)
    {
      var x := b.children[i];
      if NodeIgnored(r, x) {
        continue;
      }
      if x.Element? {
        var j := 0;
        while j < |c.children|
          invariant 0 <= j <= |c.children|
          invariant FirstMatch(r, x, c.children, j) == FirstMatch(r, x, c.children, 0)
        {
          if c.children[j].Element? {
            var found := ValidateProps(r, x, c.children[j]);
            if found {
              break;
            }
          }
          j := j + 1;
        }
        if j == |c.children| {
          return false;
        }
        var below := ValidateNode(r, x, c.children[j]);
        if !below {
          return false;
        }
      } else {
        var j := 0;
        while j < |c.children| && !c.children[j].Text?
          invariant 0 <= j <= |c.children|
          invariant FirstText(c.children, j) == FirstText(c.children, 0)
        {
          j := j + 1;
        }
        if j == |c.children| {
          return false;
        }
        if x.content.Some? {
          var ctmp := c.children[j].content;
          if ctmp.None? || !Same(x.content.value, ctmp.value) {
            return false;
          }
        }
      }
    }
    ok := true;
  }

  /** The rules of validate_document: three nodes that move and one that is never compared, and
      the type of the contract, which may change. */
  function DocumentRules(superset: bool): Rules {
    Rules(["AttestationCredential", "signature", "nonce", "bit"], [], [("contract", "type")], superset)
  }

  /** validate_document: a missing root is a failure. */
  method ValidateDocument(base: Option<Xml>, con: Option<Xml>, superset: bool) returns (ok: bool)
    requires base.Some? ==> base.value.Element?
    requires con.Some? ==> con.value.Element?
    ensures ok <==> base.Some? && con.Some? && Accepts(DocumentRules(superset), base.value, con.value)
    ensures ok <==> && base.Some? && con.Some? && Embeds(DocumentRules(superset), base.value, con.value)
                    && Decisive(DocumentRules(superset), base.value, con.value)
  {
    if base.None? || con.None? {
      return false;
    }
    ok := ValidateNode(DocumentRules(superset), base.value, con.value);
  }

  // ----- what acceptance means

  /** Two values are alike in their first 32 characters: the characters there are the same but for
      case, and if one value is shorter than that, so is the other, by as much. */
  ghost predicate AlikeUpTo32(a: string, b: string) {
    && (|a| < 32 || |b| < 32 ==> |a| == |b|)
    && forall x | 0 <= x < 32 && x < |a| && x < |b| :: Alike(a[x], b[x])
  }

  lemma {:induction false} Same32IsAlike(a: string, b: string)
    ensures Same32(a, b) <==> AlikeUpTo32(a, b)
  {
    var p, q := First32(a), First32(b);
    LowerCaseIsAlike(p, q);
    assert forall x | 0 <= x < |p| :: p[x] == a[x];
    assert forall x | 0 <= x < |q| :: q[x] == b[x];
  }

  /** The attribute that a name stands for: the first with that name. */
  predicate Stands(attrs: seq<Attr>, i: nat) {
    i < |attrs| && forall k | 0 <= k < i :: attrs[k].name != attrs[i].name
  }

  lemma {:induction false} GetPropStands(attrs: seq<Attr>, i: nat)
    requires Stands(attrs, i)
    ensures GetProp(attrs, attrs[i].name) == Some(attrs[i].value)
  {
    if i > 0 {
      assert attrs[1..][i - 1] == attrs[i] && attrs[0].name != attrs[i].name;
      GetPropStands(attrs[1..], i - 1);
    }
  }

  lemma {:induction false} StandingIs(attrs: seq<Attr>, name: string) returns (j: nat)
    requires GetProp(attrs, name).Some?
    ensures Stands(attrs, j) && attrs[j].name == name && GetProp(attrs, name) == Some(attrs[j].value)
  {
    if attrs[0].name == name {
      j := 0;
    } else {
      j := StandingIs(attrs[1..], name);
      j := j + 1;
      assert forall k | 1 <= k < j :: attrs[k] == attrs[1..][k - 1];
    }
  }

  /** Some rule exempts the attribute. */
  ghost predicate Exempt(r: Rules, node: string, prop: string) {
    || (exists i | 0 <= i < |r.props| :: AlikeStrings(prop, r.props[i]))
    || (exists i | 0 <= i < |r.conds| :: AlikeStrings(node, r.conds[i].0) && AlikeStrings(prop, r.conds[i].1))
  }

  lemma {:induction false} IgnoredIsExempt(r: Rules, node: string, prop: string)
    ensures PropIgnored(r, node, prop) <==> Exempt(r, node, prop)
  {
    hide Same, AlikeStrings;
    forall i | 0 <= i < |r.props| ensures Same(prop, r.props[i]) <==> AlikeStrings(prop, r.props[i]) {
      SameIsAlike(prop, r.props[i]);
    }
    forall i | 0 <= i < |r.conds|
      ensures Same(node, r.conds[i].0) && Same(prop, r.conds[i].1) <==>
              AlikeStrings(node, r.conds[i].0) && AlikeStrings(prop, r.conds[i].1)
    {
      SameIsAlike(node, r.conds[i].0);
      SameIsAlike(prop, r.conds[i].1);
    }
  }

  lemma {:induction false} SameIsAlike(a: string, b: string)
    ensures Same(a, b) <==> AlikeStrings(a, b)
  {
    LowerCaseIsAlike(a, b);
  }

  /** The contract has an attribute of the same name with an alike value. */
  ghost predicate Answered(b: Attr, cs: seq<Attr>) {
    exists j: nat :: Stands(cs, j) && cs[j].name == b.name && AlikeUpTo32(b.value, cs[j].value)
  }

  /** Two elements correspond: their names are alike, they have equally many attributes unless more
      are allowed, and every attribute of the first that is not exempt is answered by the second. */
  ghost predicate Corresponds(r: Rules, b: Xml, c: Xml) {
    && b.Element? && c.Element? && AlikeStrings(b.name, c.name)
    && (r.superset || |b.attrs| == |c.attrs|)
    && forall i: nat | Stands(b.attrs, i) :: Exempt(r, b.name, b.attrs[i].name) || Answered(b.attrs[i], c.attrs)
  }

  lemma {:induction false} KeptIsAnswered(b: Xml, c: Xml, i: nat)
    requires b.Element? && c.Element? && Stands(b.attrs, i)
    ensures PropKept(b, c, b.attrs[i].name) <==> Answered(b.attrs[i], c.attrs)
  {
    var name := b.attrs[i].name;
    GetPropStands(b.attrs, i);
    if GetProp(c.attrs, name).Some? {
      var j := StandingIs(c.attrs, name);
      Same32IsAlike(b.attrs[i].value, c.attrs[j].value);
    }
    if Answered(b.attrs[i], c.attrs) {
      var j: nat :|
        Stands(c.attrs, j) && c.attrs[j].name == name && AlikeUpTo32(b.attrs[i].value, c.attrs[j].value);
      GetPropStands(c.attrs, j);
      Same32IsAlike(b.attrs[i].value, c.attrs[j].value);
    }
  }

  /** What the comparison of two elements accepts. */
  lemma {:induction false} MatchCorresponds(r: Rules, b: Xml, c: Xml)
    ensures PropsMatch(r, b, c) <==> Corresponds(r, b, c)
  {
    hide PropIgnored, Exempt, PropKept, Answered, Same, AlikeStrings;
    if b.Element? && c.Element? {
      SameIsAlike(b.name, c.name);
      forall i | 0 <= i < |b.attrs|
        ensures PropIgnored(r, b.name, b.attrs[i].name) <==> Exempt(r, b.name, b.attrs[i].name)
      {
        IgnoredIsExempt(r, b.name, b.attrs[i].name);
      }
      forall i: nat | Stands(b.attrs, i)
        ensures PropKept(b, c, b.attrs[i].name) <==> Answered(b.attrs[i], c.attrs)
      {
        KeptIsAnswered(b, c, i);
      }
      if Corresponds(r, b, c) {
        forall i | 0 <= i < |b.attrs|
          ensures PropIgnored(r, b.name, b.attrs[i].name) || PropKept(b, c, b.attrs[i].name)
        {
          GetPropSome(b.attrs, i);
          var j := StandingIs(b.attrs, b.attrs[i].name);
          assert Exempt(r, b.name, b.attrs[j].name) || Answered(b.attrs[j], c.attrs);
        }
      }
    }
  }

  /** A child that is neither text nor an element to compare. */
  ghost predicate Skipped(r: Rules, x: Xml) {
    x.Other? || (x.Element? && exists i | 0 <= i < |r.nodes| :: AlikeStrings(x.name, r.nodes[i]))
  }

  /** The first text of the contract says the same, or there was nothing to say. */
  ghost predicate TextFound(x: Xml, cs: seq<Xml>)
    requires x.Text?
  {
    exists j | 0 <= j < |cs| ::
      && cs[j].Text? && (forall k | 0 <= k < j :: !cs[k].Text?)
      && (x.content.Some? ==> cs[j].content.Some? && AlikeStrings(x.content.value, cs[j].content.value))
  }

  lemma {:induction false} IgnoredIsSkipped(r: Rules, x: Xml)
    ensures NodeIgnored(r, x) <==> Skipped(r, x)
  {
    hide Same, AlikeStrings;
    if x.Element? {
      forall i | 0 <= i < |r.nodes| ensures Same(x.name, r.nodes[i]) <==> AlikeStrings(x.name, r.nodes[i]) {
        SameIsAlike(x.name, r.nodes[i]);
      }
    }
  }

  lemma {:induction false} KeptIsFound(x: Xml, cs: seq<Xml>)
    requires x.Text?
    ensures TextKept(x, cs) <==> TextFound(x, cs)
  {
    var j := FirstText(cs, 0);
    if j < |cs| && x.content.Some? && cs[j].content.Some? {
      SameIsAlike(x.content.value, cs[j].content.value);
    }
  }

  lemma {:induction false} Meanings(r: Rules)
    ensures forall b, c {:trigger PropsMatch(r, b, c)} {:trigger Corresponds(r, b, c)} ::
              PropsMatch(r, b, c) <==> Corresponds(r, b, c)
    ensures forall x {:trigger NodeIgnored(r, x)} {:trigger Skipped(r, x)} :: NodeIgnored(r, x) <==> Skipped(r, x)
    ensures forall x: Xml, cs {:trigger TextKept(x, cs)} {:trigger TextFound(x, cs)} | x.Text? ::
              TextKept(x, cs) <==> TextFound(x, cs)
  {
    forall b, c ensures PropsMatch(r, b, c) <==> Corresponds(r, b, c) { MatchCorresponds(r, b, c); }
    forall x ensures NodeIgnored(r, x) <==> Skipped(r, x) { IgnoredIsSkipped(r, x); }
    forall x: Xml, cs | x.Text? ensures TextKept(x, cs) <==> TextFound(x, cs) { KeptIsFound(x, cs); }
  }

  /** The part of `b` that is not ignored is found in `c`, each element of `b` inside some element
      of `c`. */
  ghost predicate Embeds(r: Rules, b: Xml, c: Xml)
    decreases b, 0
  {
    && Corresponds(r, b, c)
    && (r.superset || |b.children| == |c.children|)
    && forall i | 0 <= i < |b.children| :: ChildEmbeds(r, b.children[i], c.children)
  }

  ghost predicate ChildEmbeds(r: Rules, x: Xml, cs: seq<Xml>)
    decreases x, 1
  {
    Skipped(r, x) ||
    if x.Text? then TextFound(x, cs) else exists j :: 0 <= j < |cs| && Embeds(r, x, cs[j])
  }

  /** What the rules of a document exempt. */
  lemma {:induction false} DocumentExempts(superset: bool, node: string, prop: string)
    ensures Exempt(DocumentRules(superset), node, prop) <==>
            AlikeStrings(node, "contract") && AlikeStrings(prop, "type")
  {
    assert DocumentRules(superset).conds[0] == ("contract", "type");
  }

  lemma {:induction false} DocumentSkips(superset: bool, x: Xml)
    ensures Skipped(DocumentRules(superset), x) <==>
            || x.Other?
            || (&& x.Element?
                && (|| AlikeStrings(x.name, "AttestationCredential") || AlikeStrings(x.name, "signature")
                    || AlikeStrings(x.name, "nonce") || AlikeStrings(x.name, "bit")))
  {
    hide AlikeStrings;
    var nodes := DocumentRules(superset).nodes;
    assert |nodes| == 4 && nodes[0] == "AttestationCredential" && nodes[1] == "signature";
    assert nodes[2] == "nonce" && nodes[3] == "bit";
  }

  /** In an accepted contract, every attribute of the base element that is not exempt is there under
      its name with an alike value; two values that are not alike are enough for a rejection. */
  lemma {:induction false} AttributesKept(r: Rules, b: Xml, c: Xml, i: nat, j: nat)
    requires b.Element? && c.Element? && Stands(b.attrs, i) && !Exempt(r, b.name, b.attrs[i].name)
    requires Stands(c.attrs, j) && c.attrs[j].name == b.attrs[i].name
    ensures Accepts(r, b, c) ==> AlikeUpTo32(b.attrs[i].value, c.attrs[j].value)
  {
    MatchCorresponds(r, b, c);
  }

  lemma {:induction false} AttributesFound(r: Rules, b: Xml, c: Xml, i: nat)
    requires b.Element? && c.Element? && Stands(b.attrs, i) && !Exempt(r, b.name, b.attrs[i].name)
    requires forall j | 0 <= j < |c.attrs| :: c.attrs[j].name != b.attrs[i].name
    ensures !Accepts(r, b, c)
  {
    MatchCorresponds(r, b, c);
  }

  /** An element without children is accepted by nothing more than its name and attributes. */
  lemma {:induction false} LeafAccepted(r: Rules, b: Xml, c: Xml)
    requires b.Element? && c.Element? && b.children == []
    ensures Accepts(r, b, c) <==> Corresponds(r, b, c) && (r.superset || c.children == [])
  {
    MatchCorresponds(r, b, c);
  }

  /** Acceptance is sound. */
  lemma {:induction false} AcceptedEmbeds(r: Rules, b: Xml, c: Xml)
    requires Accepts(r, b, c)
    ensures Embeds(r, b, c)
    decreases b
  {
    hide Corresponds, NodeIgnored, Skipped, TextKept, TextFound;
    Meanings(r);
    forall i | 0 <= i < |b.children| ensures ChildEmbeds(r, b.children[i], c.children) {
      var x := b.children[i];
      assert ChildAccepted(r, x, c.children);
      if !NodeIgnored(r, x) && !x.Text? {
        var j := FirstMatch(r, x, c.children, 0);
        AcceptedEmbeds(r, x, c.children[j]);
      }
    }
  }

  lemma {:induction false} PropsCompose(r: Rules, a: Xml, b: Xml, c: Xml)
    requires PropsMatch(r, a, b) && PropsMatch(r, b, c)
    ensures PropsMatch(r, a, c)
  {
    forall i | 0 <= i < |a.attrs|
      ensures PropIgnored(r, a.name, a.attrs[i].name) || PropKept(a, c, a.attrs[i].name)
    {
      var name := a.attrs[i].name;
      if !PropIgnored(r, a.name, name) {
        assert PropKept(a, b, name);
        var k := GetPropAt(b.attrs, name);
        assert PropIgnored(r, b.name, b.attrs[k].name) || PropKept(b, c, b.attrs[k].name);
      }
    }
  }

  lemma {:induction false} GetPropAt(attrs: seq<Attr>, name: string) returns (k: nat)
    requires GetProp(attrs, name).Some?
    ensures k < |attrs| && attrs[k].name == name
  {
    if attrs[0].name == name {
      k := 0;
    } else {
      k := GetPropAt(attrs[1..], name);
      k := k + 1;
    }
  }

  /** Embeddings compose, so a chain of accepted contracts still contains the first one. */
  lemma {:induction false} EmbedsCompose(r: Rules, a: Xml, b: Xml, c: Xml)
    requires Embeds(r, a, b) && Embeds(r, b, c)
    ensures Embeds(r, a, c)
    decreases a
  {
    hide Corresponds, Skipped, TextFound;
    Meanings(r);
    PropsCompose(r, a, b, c);
    forall i | 0 <= i < |a.children| ensures ChildEmbeds(r, a.children[i], c.children) {
      var x := a.children[i];
      assert ChildEmbeds(r, x, b.children);
      if !NodeIgnored(r, x) {
        if x.Text? {
          var t := b.children[FirstText(b.children, 0)];
          assert ChildEmbeds(r, t, c.children);
        } else {
          var j :| 0 <= j < |b.children| && Embeds(r, x, b.children[j]);
          var y := b.children[j];
          SameInList(x.name, y.name, r.nodes);
          assert ChildEmbeds(r, y, c.children);
          var k :| 0 <= k < |c.children| && Embeds(r, y, c.children[k]);
          EmbedsCompose(r, x, y, c.children[k]);
        }
      }
    }
  }

  lemma {:induction false} AcceptancesCompose(r: Rules, a: Xml, b: Xml, c: Xml)
    requires Accepts(r, a, b) && Accepts(r, b, c)
    ensures Embeds(r, a, c)
  {
    AcceptedEmbeds(r, a, b);
    AcceptedEmbeds(r, b, c);
    EmbedsCompose(r, a, b, c);
  }

  // ----- additions at the end

  /** `c'` is `c` with further children appended in any number of its child lists. */
  ghost predicate Extended(c: Xml, c': Xml)
    decreases c
  {
    if c.Element? then
      && c'.Element? && c'.name == c.name && c'.attrs == c.attrs && |c.children| <= |c'.children|
      && forall i | 0 <= i < |c.children| :: Extended(c.children[i], c'.children[i])
    else c' == c
  }

  lemma {:induction false} FirstMatchExtended(r: Rules, x: Xml, cs: seq<Xml>, cs': seq<Xml>, i: nat)
    requires |cs| <= |cs'| && i <= |cs| && forall k | 0 <= k < |cs| :: Extended(cs[k], cs'[k])
    ensures FirstMatch(r, x, cs, i) < |cs| ==> FirstMatch(r, x, cs', i) == FirstMatch(r, x, cs, i)
  {
    var j := FirstMatch(r, x, cs, i);
    if j < |cs| {
      assert forall k | 0 <= k < |cs| :: PropsMatch(r, x, cs'[k]) == PropsMatch(r, x, cs[k]);
    }
  }

  lemma {:induction false} FirstTextExtended(cs: seq<Xml>, cs': seq<Xml>)
    requires |cs| <= |cs'| && forall k | 0 <= k < |cs| :: Extended(cs[k], cs'[k])
    ensures var j := FirstText(cs, 0); j < |cs| ==> FirstText(cs', 0) == j && cs'[j] == cs[j]
  {
    assert forall k | 0 <= k < |cs| :: cs'[k].Text? == cs[k].Text?;
  }

  /** In superset mode, appending to any child lists of the contract keeps it accepted. */
  lemma {:induction false} AcceptsExtended(r: Rules, b: Xml, c: Xml, c': Xml)
    requires r.superset && Accepts(r, b, c) && Extended(c, c')
    ensures Accepts(r, b, c')
    decreases b
  {
    forall i | 0 <= i < |b.children| ensures ChildAccepted(r, b.children[i], c'.children) {
      var x := b.children[i];
      assert ChildAccepted(r, x, c.children);
      if !NodeIgnored(r, x) {
        if x.Text? {
          FirstTextExtended(c.children, c'.children);
        } else {
          FirstMatchExtended(r, x, c.children, c'.children, 0);
          var j := FirstMatch(r, x, c.children, 0);
          AcceptsExtended(r, x, c.children[j], c'.children[j]);
        }
      }
    }
  }

  // ----- when the first match is the right one

  /** At every level, an element that embeds in some child of the contract embeds in the first child
      with its name and attributes. */
  ghost predicate Decisive(r: Rules, b: Xml, c: Xml)
    decreases b, 0
  {
    b.Element? && c.Element? ==> forall i | 0 <= i < |b.children| :: ChildDecisive(r, b.children[i], c.children)
  }

  ghost predicate ChildDecisive(r: Rules, x: Xml, cs: seq<Xml>)
    decreases x, 1
  {
    x.Element? && !NodeIgnored(r, x) && (exists k :: 0 <= k < |cs| && Embeds(r, x, cs[k])) ==>
      var j := FirstMatch(r, x, cs, 0);
      j < |cs| && Embeds(r, x, cs[j]) && Decisive(r, x, cs[j])
  }

  /** Acceptance is exactly a decisive embedding: an embedded document is rejected if and only if
      some first match is not the one that embeds. */
  lemma {:induction false} AcceptsExactly(r: Rules, b: Xml, c: Xml)
    ensures Accepts(r, b, c) <==> Embeds(r, b, c) && Decisive(r, b, c)
    decreases b
  {
    hide Corresponds, NodeIgnored, Skipped, TextKept, TextFound;
    Meanings(r);
    if b.Element? && c.Element? {
      forall i | 0 <= i < |b.children|
        ensures ChildAccepted(r, b.children[i], c.children)
           <==> ChildEmbeds(r, b.children[i], c.children) && ChildDecisive(r, b.children[i], c.children)
      {
        var x := b.children[i];
        if x.Element? && !NodeIgnored(r, x) {
          var j := FirstMatch(r, x, c.children, 0);
          if j < |c.children| { AcceptsExactly(r, x, c.children[j]); }
        }
      }
    }
  }

  /** At every level, each element of `b` that is compared has at most one partner in `c`. */
  ghost predicate Unambiguous(r: Rules, b: Xml, c: Xml)
    decreases b
  {
    b.Element? && c.Element? ==>
      forall i, j | 0 <= i < |b.children| && 0 <= j < |c.children| && !NodeIgnored(r, b.children[i])
                    && PropsMatch(r, b.children[i], c.children[j]) ::
        && Unambiguous(r, b.children[i], c.children[j])
        && forall k | 0 <= k < |c.children| && PropsMatch(r, b.children[i], c.children[k]) :: k == j
  }

  /** One partner each is enough for every embedding to be decisive. */
  lemma {:induction false} UnambiguousDecisive(r: Rules, b: Xml, c: Xml)
    requires Unambiguous(r, b, c)
    ensures Decisive(r, b, c)
    ensures Accepts(r, b, c) <==> Embeds(r, b, c)
    decreases b
  {
    hide Corresponds, Skipped, TextKept, TextFound;
    Meanings(r);
    if b.Element? && c.Element? {
      forall i | 0 <= i < |b.children| ensures ChildDecisive(r, b.children[i], c.children) {
        var x := b.children[i];
        if x.Element? && !NodeIgnored(r, x) {
          forall k | 0 <= k < |c.children| && Embeds(r, x, c.children[k])
            ensures FirstMatch(r, x, c.children, 0) == k && Decisive(r, x, c.children[k])
          {
            UnambiguousDecisive(r, x, c.children[k]);
          }
        }
      }
    }
    AcceptsExactly(r, b, c);
  }

  // ----- a document against itself

  /** Every text child says what the first one says, and every element child that is compared is
      well formed in the same way or, when an earlier sibling has its name and attributes, embeds
      decisively in the first such sibling. */
  ghost predicate SelfSimilar(r: Rules, d: Xml)
    decreases d
  {
    d.Element? && forall i | 0 <= i < |d.children| && !NodeIgnored(r, d.children[i]) ::
      if d.children[i].Text? then TextKept(d.children[i], d.children)
      else
        var j := FirstMatch(r, d.children[i], d.children, 0);
        if j == i then SelfSimilar(r, d.children[i])
        else j < |d.children| && Embeds(r, d.children[i], d.children[j]) && Decisive(r, d.children[i], d.children[j])
  }

  lemma {:induction false} PropsMatchSelf(r: Rules, d: Xml)
    requires d.Element?
    ensures PropsMatch(r, d, d)
  {
    forall i | 0 <= i < |d.attrs| ensures PropKept(d, d, d.attrs[i].name) {
      GetPropSome(d.attrs, i);
    }
  }

  lemma {:induction false} GetPropSome(attrs: seq<Attr>, i: nat)
    requires i < |attrs|
    ensures GetProp(attrs, attrs[i].name).Some?
  {
    if i > 0 { GetPropSome(attrs[1..], i - 1); }
  }

  /** Exactly which documents are accepted against themselves. */
  lemma {:induction false} AcceptsItself(r: Rules, d: Xml)
    ensures Accepts(r, d, d) <==> SelfSimilar(r, d)
    decreases d
  {
    if d.Element? {
      PropsMatchSelf(r, d);
      forall i | 0 <= i < |d.children| && d.children[i].Element? && !NodeIgnored(r, d.children[i])
        ensures ChildAccepted(r, d.children[i], d.children) <==>
                var j := FirstMatch(r, d.children[i], d.children, 0);
                if j == i then SelfSimilar(r, d.children[i])
                else j < |d.children| && Embeds(r, d.children[i], d.children[j])
                      && Decisive(r, d.children[i], d.children[j])
      {
        var x := d.children[i];
        PropsMatchSelf(r, x);
        var j := FirstMatch(r, x, d.children, 0);
        if j == i { AcceptsItself(r, x); } else { AcceptsExactly(r, x, d.children[j]); }
      }
    }
  }

  /** Two text children that differ are enough for a rejection, although nothing is ambiguous: each
      is compared with the first. */
  lemma {:induction false} TextRejectsItself(superset: bool, x: string, y: string)
    requires !Same(y, x)
    ensures var d := Element("a", [], [Text(Some(x)), Text(Some(y))]);
            && Unambiguous(DocumentRules(superset), d, d)
            && !Accepts(DocumentRules(superset), d, d) && !Embeds(DocumentRules(superset), d, d)
  {
    var d := Element("a", [], [Text(Some(x)), Text(Some(y))]);
    assert FirstText(d.children, 0) == 0;
    assert !TextKept(d.children[1], d.children);
    assert !ChildAccepted(DocumentRules(superset), d.children[1], d.children);
    assert !ChildEmbeds(DocumentRules(superset), d.children[1], d.children);
  }

  /** Every document without text contains itself. */
  ghost predicate Textless(d: Xml)
    decreases d
  {
    d.Element? ==> forall i | 0 <= i < |d.children| :: !d.children[i].Text? && Textless(d.children[i])
  }

  lemma {:induction false} TextlessEmbeds(r: Rules, d: Xml)
    requires d.Element? && Textless(d)
    ensures Embeds(r, d, d)
    decreases d
  {
    PropsMatchSelf(r, d);
    MatchCorresponds(r, d, d);
    hide Corresponds;
    forall i | 0 <= i < |d.children| ensures ChildEmbeds(r, d.children[i], d.children) {
      if d.children[i].Element? { TextlessEmbeds(r, d.children[i]); }
    }
  }

  /** An embedding that is not decisive: a document that contains itself is rejected, because the
      second of two children with the same name and attributes is compared with the first. */
  lemma {:induction false} FirstMatchRejectsItself()
    ensures var leaf := (n: string) => Element(n, [], []);
            var d := Element("a", [], [Element("x", [], [leaf("p")]), Element("x", [], [leaf("q")])]);
            Embeds(DocumentRules(true), d, d) && !Accepts(DocumentRules(true), d, d)
  {
    var r := DocumentRules(true);
    var p, q := Element("p", [], []), Element("q", [], []);
    var xp, xq := Element("x", [], [p]), Element("x", [], [q]);
    var d := Element("a", [], [xp, xq]);
    assert Textless(xp) && Textless(xq);
    TextlessEmbeds(r, d);
    ShortNameCompared(true, q);
    ShortNameCompared(true, xq);
    assert !Same("q", "p") by { assert LowerCase("q")[0] == 'q' && LowerCase("p")[0] == 'p'; }
    assert FirstMatch(r, xq, d.children, 0) == 0;
    assert FirstMatch(r, q, xp.children, 0) == 1;
    assert !ChildAccepted(r, xq.children[0], xp.children);
    assert !ChildAccepted(r, d.children[1], d.children);
  }

  lemma {:induction false} ShortNameCompared(superset: bool, x: Xml)
    requires x.Element? && |x.name| == 1
    ensures !NodeIgnored(DocumentRules(superset), x)
  {
    IgnoredIsSkipped(DocumentRules(superset), x);
  }
}
