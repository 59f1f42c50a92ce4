/** What written port and address expressions match, from the text on. */
module ExprMeaning {
  import opened Text
  import opened Ipv4
  import opened Exprs

  // ---- lists in their text form ----

  /** A sign, and the comma-separated parts with or without brackets. */
  function ListText(negated: bool, bracketed: bool, parts: seq<string>): string {
    var body := Join(parts, ',');
    (if negated then "!" else "") + (if bracketed then "[" + body + "]" else body)
  }

  lemma ListTextReads(negated: bool, bracketed: bool, parts: seq<string>)
    requires parts != [] && forall i :: 0 <= i < |parts| ==> GoodPart(parts[i])
    ensures ReadHead(ListText(negated, bracketed, parts)) == List(negated, Join(parts, ','))
    ensures Split(Join(parts, ','), ',', false) == parts
  {
    hide Join, ReadHead, Split;
    var body := Join(parts, ',');
    assert GoodPart(parts[0]);
    JoinShape(parts);
    SplitOfJoin(parts);
    if bracketed { BracketsRead(negated, body); } else { PlainRead(negated, body); }
  }

  lemma PlainRead(negated: bool, body: string)
    requires body != "" && Tight(body) && body[0] != '!' && body[0] != '[' && body[0] != 'a'
    ensures ReadHead((if negated then "!" else "") + body) == List(negated, body)
  {
    hide ReadHead;
    HeadOfBody(negated, body);
  }

  lemma BracketsRead(negated: bool, body: string)
    ensures ReadHead((if negated then "!" else "") + ("[" + body + "]")) == List(negated, body)
  {
    hide Trim;
    var t := "[" + body + "]";
    assert t[0] == '[' && t[|t| - 1] == ']' && t[1..|t| - 1] == body;
    TrimTight(t);
    var s := "!" + t;
    assert s[0] == '!' && s[1..] == t && s[|s| - 1] == ']';
    TrimTight(s);
    assert "" + t == t;
  }

  // ---- ports ----

  /** The written forms of a port range. */
  datatype PortForm = One(p: U16) | Between(lo: U16, hi: U16) | UpTo(hi: U16) | From(lo: U16)

  function PortText(f: PortForm): string {
    match f
    case One(p) => Decimal(p)
    case Between(lo, hi) => Decimal(lo) + ":" + Decimal(hi)
    case UpTo(hi) => ":" + Decimal(hi)
    case From(lo) => Decimal(lo) + ":"
  }

  predicate PortIn(f: PortForm, port: U16) {
    match f
    case One(p) => port == p
    case Between(lo, hi) => lo <= port <= hi
    case UpTo(hi) => port <= hi
    case From(lo) => lo <= port
  }

  predicate Crossed(f: PortForm) { f.Between? && f.lo > f.hi }

  lemma PortTextShape(f: PortForm)
    ensures GoodPart(PortText(f))
  {
    hide Decimal;
    match f
    case One(p) =>
    case Between(lo, hi) => assert PortText(f)[|PortText(f)| - 1] == Decimal(hi)[|Decimal(hi)| - 1];
    case UpTo(hi) => assert PortText(f)[|PortText(f)| - 1] == Decimal(hi)[|Decimal(hi)| - 1];
    case From(lo) =>
  }

  /** A range reads as the ports it names, open ends included, and not at all when its bounds are crossed. */
  lemma PortFormReads(f: PortForm, port: U16)
    ensures ParseRange(PortText(f)).None? <==> Crossed(f)
    ensures !Crossed(f) ==> var r := ParseRange(PortText(f)).value; r.lo <= port <= r.hi <==> PortIn(f, port)
  {
    hide Decimal, PortNumber, Trim, IndexOf;
    PortTextShape(f);
    var t := PortText(f);
    TrimTight(t);
    match f
    case One(p) => PortNumberRoundTrip(p);
    case Between(lo, hi) =>
      ColonBetween(Decimal(lo), Decimal(hi));
      PortNumberRoundTrip(lo);
      PortNumberRoundTrip(hi);
    case UpTo(hi) =>
      ColonBetween("", Decimal(hi));
      assert "" + ":" + Decimal(hi) == t;
      PortNumberRoundTrip(hi);
    case From(lo) =>
      ColonBetween(Decimal(lo), "");
      assert Decimal(lo) + ":" + "" == t;
      PortNumberRoundTrip(lo);
  }

  function PortTexts(forms: seq<PortForm>): (parts: seq<string>)
    ensures |parts| == |forms| && forall i :: 0 <= i < |parts| ==> parts[i] == PortText(forms[i])
  {
    seq(|forms|, i requires 0 <= i < |forms| => PortText(forms[i]))
  }

  lemma {:induction false} PortListReads(forms: seq<PortForm>, port: U16)
    ensures ParseRanges(PortTexts(forms)).None? <==> exists f :: f in forms && Crossed(f)
    ensures ParseRanges(PortTexts(forms)).Some? ==>
              (InPorts(ParseRanges(PortTexts(forms)).value, port) <==> exists f :: f in forms && PortIn(f, port))
  {
    hide ParseRange, PortText, PortIn, Crossed;
    if forms != [] {
      var first, rest := forms[0], forms[1..];
      PortFormReads(first, port);
      PortListReads(rest, port);
      assert PortTexts(forms)[1..] == PortTexts(rest);
      assert forall f :: f in forms <==> f == first || f in rest;
      if ParseRanges(PortTexts(forms)).Some? {
        var r, rs := ParseRange(PortText(first)).value, ParseRanges(PortTexts(rest)).value;
        assert forall x :: x in [r] + rs <==> x == r || x in rs;
      }
    }
  }

  /** A written port list matches exactly the ports that its parts name, or with a sign all others; crossed bounds are refused. */
  lemma WrittenPortsMatch(negated: bool, bracketed: bool, forms: seq<PortForm>, port: U16)
    requires forms != []
    ensures var read := ParsePortExpr(ListText(negated, bracketed, PortTexts(forms)));
            if exists f :: f in forms && Crossed(f) then read.Rejected?
            else read.Parsed? && (PortMatches(read.value, port) <==> (exists f :: f in forms && PortIn(f, port)) != negated)
  {
    hide ParseRanges, ReadHead, Split, Join, ListText, PortText, PortIn, Crossed, InPorts;
    forall i | 0 <= i < |forms| ensures GoodPart(PortTexts(forms)[i]) { PortTextShape(forms[i]); }
    ListTextReads(negated, bracketed, PortTexts(forms));
    PortListReads(forms, port);
  }

  // ---- addresses ----

  /** The written forms of an address: a network, host bits or not, a single host, a variable. */
  datatype AddressForm = Network(x: U32, prefix: U8) | Host(x: U32) | Named(variable: string)

  predicate Writable(f: AddressForm) {
    match f
    case Network(_, prefix) => prefix <= 32
    case Host(_) => true
    case Named(v) => Variable(v)
  }

  function AddressFormText(f: AddressForm): string {
    match f
    case Network(x, prefix) => Ipv4ToString(x) + "/" + Decimal(prefix)
    case Host(x) => Ipv4ToString(x)
    case Named(v) => v
  }

  /** Variables name no address. */
  predicate AddressIn(f: AddressForm, ip: U32)
    requires Writable(f)
  {
    match f
    case Network(x, prefix) => Bits(ip)[..prefix] == Bits(x)[..prefix]
    case Host(x) => ip == x
    case Named(_) => false
  }

  lemma SlashBetween(a: string, b: string)
    requires '/' !in a && '/' !in b && a != "" && b != ""
    ensures Split(a + "/" + b, '/', true) == [a, b]
  {
    hide Fields;
    var parts := [a, b];
    assert parts[1..] == [b];
    assert Join(parts, '/') == a + "/" + b;
    FieldsOfJoin(parts, '/');
  }

  lemma NoSlash(a: string)
    requires '/' !in a && a != ""
    ensures Split(a, '/', true) == [a]
  {
    hide Fields;
    assert Join([a], '/') == a;
    FieldsOfJoin([a], '/');
  }

  lemma AddressTextShape(f: AddressForm)
    requires Writable(f)
    ensures GoodPart(AddressFormText(f))
    ensures f.Named? <==> AddressFormText(f)[..1] == "$"
    ensures AddressFormText(f) != "" && Trim(AddressFormText(f)) == AddressFormText(f)
  {
    hide Ipv4ToString, Decimal, Trim;
    var t := AddressFormText(f);
    match f
    case Named(v) => assert v[..1] == [v[0]]; TrimTight(v);
    case Host(x) => Ipv4Shape(x); TrimTight(t); AddressTextIsPart(t); assert t[..1] == [t[0]];
    case Network(x, prefix) =>
      Ipv4Shape(x);
      assert t[|t| - 1] == Decimal(prefix)[|Decimal(prefix)| - 1];
      TrimTight(t);
      AddressTextIsPart(t);
      assert t[..1] == [t[0]];
  }

  /** A written network reads with its host bits cleared, a written host as itself. */
  lemma AddressFormReads(f: AddressForm)
    requires Writable(f) && !f.Named?
    ensures ParseCidr(AddressFormText(f)) ==
            if f.Host? then Some(CidrRange(f.x, 32))
            else (MaskTwice(f.x, f.prefix); Some(CidrRange(Masked(f.x, f.prefix), f.prefix)))
  {
    hide Ipv4ToString, Decimal, Trim, ParseIpv4, Masked, Split;
    AddressTextShape(f);
    Ipv4Shape(f.x);
    Ipv4RoundTrip(f.x);
    if f.Host? {
      NoSlash(Ipv4ToString(f.x));
    } else {
      SlashBetween(Ipv4ToString(f.x), Decimal(f.prefix));
      DecimalRoundTrip(f.prefix);
    }
  }

  lemma AddressFormContains(f: AddressForm, ip: U32)
    requires Writable(f) && !f.Named?
    ensures ParseCidr(AddressFormText(f)).Some? && (Contains(ParseCidr(AddressFormText(f)).value, ip) <==> AddressIn(f, ip))
  {
    hide ParseCidr, AddressFormText, Masked;
    AddressFormReads(f);
    if f.Host? {
      FullRangeIsEquality(f.x, ip);
    } else {
      MaskTwice(f.x, f.prefix);
      ContainsIsPrefixMatch(CidrRange(f.x, f.prefix), ip);
    }
  }

  function AddressTexts(forms: seq<AddressForm>): (parts: seq<string>)
    ensures |parts| == |forms| && forall i :: 0 <= i < |parts| ==> parts[i] == AddressFormText(forms[i])
  {
    seq(|forms|, i requires 0 <= i < |forms| => AddressFormText(forms[i]))
  }

  lemma {:induction false} AddressListReads(forms: seq<AddressForm>, ip: U32)
    requires forall f :: f in forms ==> Writable(f)
    ensures ParseParts(AddressTexts(forms)).Some?
    ensures InNetworks(ParseParts(AddressTexts(forms)).value.0, ip) <==> exists f :: f in forms && AddressIn(f, ip)
  {
    hide ParseCidr, AddressFormText, AddressIn, Contains, Trim, Writable;
    if forms != [] {
      var first, rest := forms[0], forms[1..];
      AddressListReads(rest, ip);
      AddressTextShape(first);
      FirstCharacter(AddressFormText(first));
      assert AddressTexts(forms)[1..] == AddressTexts(rest);
      assert forall f :: f in forms <==> f == first || f in rest;
      var lists := ParseParts(AddressTexts(rest)).value;
      if first.Named? {
        NamedIsNowhere(first, ip);
      } else {
        AddressFormContains(first, ip);
        var r := ParseCidr(AddressFormText(first)).value;
        assert forall x :: x in [r] + lists.0 <==> x == r || x in lists.0;
      }
    }
  }

  lemma FirstCharacter(t: string)
    requires t != ""
    ensures t[..1] == "$" <==> t[0] == '$'
  {
    assert t[..1] == [t[0]];
  }

  lemma NamedIsNowhere(f: AddressForm, ip: U32)
    requires Writable(f) && f.Named?
    ensures !AddressIn(f, ip)
  {}

  /** A written address list matches exactly the addresses that its networks and hosts name, or with a sign all others. */
  lemma WrittenAddressesMatch(negated: bool, bracketed: bool, forms: seq<AddressForm>, ip: U32)
    requires forms != [] && forall f :: f in forms ==> Writable(f)
    ensures var read := ParseAddressExpr(ListText(negated, bracketed, AddressTexts(forms)));
            read.Parsed? && (AddressMatches(read.value, ip) <==> (exists f :: f in forms && AddressIn(f, ip)) != negated)
  {
    hide ParseParts, ReadHead, Split, Join, ListText, AddressFormText, AddressIn, InNetworks, Writable;
    forall i | 0 <= i < |forms| ensures GoodPart(AddressTexts(forms)[i]) {
      assert Writable(forms[i]);
      AddressTextShape(forms[i]);
    }
    ListTextReads(negated, bracketed, AddressTexts(forms));
    AddressListReads(forms, ip);
  }

  /** The keyword matches everything, and under a sign nothing. */
  lemma WrittenAnyMatches(negated: bool, port: U16, ip: U32)
    ensures var token := if negated then "!any" else "any";
            && ParsePortExpr(token).Parsed? && PortMatches(ParsePortExpr(token).value, port) == !negated
            && ParseAddressExpr(token).Parsed? && AddressMatches(ParseAddressExpr(token).value, ip) == !negated
  {
    hide Trim, InPorts, InNetworks;
    TrimTight("any");
    TrimTight("!any");
    assert "!any"[1..] == "any";
  }

  // ---- single hosts and ports ----

  function OneAddress(x: U32): AddressExpr { AddressExpr(false, false, [CidrRange(x, 32)], []) }

  function OnePort(p: U16): PortExpr { PortExpr(false, false, [PortRange(p, p)]) }

  lemma OneAddressMatches(x: U32, y: U32)
    ensures AddressMatches(OneAddress(x), y) <==> x == y
  {
    hide Contains;
    FullRangeIsEquality(x, y);
    assert OneAddress(x).ranges[0] == CidrRange(x, 32);
  }

  lemma OnePortMatches(p: U16, q: U16)
    ensures PortMatches(OnePort(p), q) <==> p == q
  {
    assert OnePort(p).ranges[0] == PortRange(p, p);
  }
}
