/**
 * The address recognisers of `src/lib/client-ip.ts` against the grammars they stand for: dotted
 * decimal without leading zeros, and the three text forms of section 2.2 of RFC 4291.
 */
module IpText {
  import opened Text
  import opened Numerals
  import Hex

  // ---------------------------------------------------------------- decimal octets

  /** The three tests the loop of `isValidIpv4` makes on one part. */
  predicate IsOctet(part: string) {
    part != "" && AllDecimal(part) && DecimalValue(part) <= 255 && !(|part| > 1 && part[0] == '0')
  }

  lemma OctetIffNumeral(part: string)
    ensures IsOctet(part) <==> exists n: nat :: n <= 255 && part == Decimal(n)
  {
    if IsOctet(part) { DecimalOfValue(part); }
    if n: nat :| n <= 255 && part == Decimal(n) {
      DecimalRoundTrip(n);
      assert |Decimal(0)| == 1;
    }
  }

  // ---------------------------------------------------------------- IPv4

  predicate Ipv4(ip: string) {
    var parts := Split(ip, '.');
    |parts| == 4 && forall i :: 0 <= i < 4 ==> IsOctet(parts[i])
  }

  /** `isValidIpv4` */
  method IsValidIpv4(ip: string) returns (valid: bool)
    ensures valid <==> Ipv4(ip)
  {
    if ip == "" {
      SplitNone(ip, '.');
      return false;
    }
    var parts := Split(ip, '.');
    if |parts| != 4 { return false; }
    for i := 0 to |parts|
      invariant forall j :: 0 <= j < i ==> IsOctet(parts[j])
    {
      var part := parts[i];
      if part == "" || !AllDecimal(part) { return false; }
      if DecimalValue(part) > 255 { return false; }
      if |part| > 1 && part[0] == '0' { return false; }
    }
    return true;
  }

  type Octet = n: nat | n <= 255

  /** The text of an IPv4 address. */
  function PrintIpv4(a: Octet, b: Octet, c: Octet, d: Octet): string {
    Join([Decimal(a), Decimal(b), Decimal(c), Decimal(d)], '.')
  }

  lemma PrintedIpv4IsAccepted(a: Octet, b: Octet, c: Octet, d: Octet)
    ensures Ipv4(PrintIpv4(a, b, c, d))
    ensures Split(PrintIpv4(a, b, c, d), '.') == [Decimal(a), Decimal(b), Decimal(c), Decimal(d)]
  {
    var parts := [Decimal(a), Decimal(b), Decimal(c), Decimal(d)];
    NumeralHasNo(a, '.');
    NumeralHasNo(b, '.');
    NumeralHasNo(c, '.');
    NumeralHasNo(d, '.');
    SplitJoin(parts, '.');
    OctetIffNumeral(Decimal(a));
    OctetIffNumeral(Decimal(b));
    OctetIffNumeral(Decimal(c));
    OctetIffNumeral(Decimal(d));
  }

  /** Accepted exactly when it prints four octets, and then they are unique. */
  lemma Ipv4Grammar(ip: string)
    ensures Ipv4(ip) <==> exists a: Octet, b: Octet, c: Octet, d: Octet :: ip == PrintIpv4(a, b, c, d)
  {
    if Ipv4(ip) {
      var p := Split(ip, '.');
      OctetIffNumeral(p[0]);
      OctetIffNumeral(p[1]);
      OctetIffNumeral(p[2]);
      OctetIffNumeral(p[3]);
      var a: Octet :| p[0] == Decimal(a);
      var b: Octet :| p[1] == Decimal(b);
      var c: Octet :| p[2] == Decimal(c);
      var d: Octet :| p[3] == Decimal(d);
      assert p == [Decimal(a), Decimal(b), Decimal(c), Decimal(d)];
      JoinSplit(ip, '.');
      assert ip == PrintIpv4(a, b, c, d);
    }
    if a: Octet, b: Octet, c: Octet, d: Octet :| ip == PrintIpv4(a, b, c, d) {
      PrintedIpv4IsAccepted(a, b, c, d);
    }
  }

  lemma Ipv4Unique(a: Octet, b: Octet, c: Octet, d: Octet, a': Octet, b': Octet, c': Octet, d': Octet)
    requires PrintIpv4(a, b, c, d) == PrintIpv4(a', b', c', d')
    ensures a == a' && b == b' && c == c' && d == d'
  {
    PrintedIpv4IsAccepted(a, b, c, d);
    PrintedIpv4IsAccepted(a', b', c', d');
    DecimalRoundTrip(a);
    DecimalRoundTrip(a');
    DecimalRoundTrip(b);
    DecimalRoundTrip(b');
    DecimalRoundTrip(c);
    DecimalRoundTrip(c');
    DecimalRoundTrip(d);
    DecimalRoundTrip(d');
    var p, q := [Decimal(a), Decimal(b), Decimal(c), Decimal(d)], [Decimal(a'), Decimal(b'), Decimal(c'), Decimal(d')];
    assert p[0] == q[0] && p[1] == q[1] && p[2] == q[2] && p[3] == q[3];
  }

  /** Characters of an IPv4 text: digits and dots, and at least one dot. */
  lemma Ipv4Characters(ip: string)
    requires Ipv4(ip)
    ensures ':' !in ip && '.' in ip && ip != "" && Trimmed(ip) && ip[0] != '['
  {
    var parts := Split(ip, '.');
    JoinSplit(ip, '.');
    assert forall i | 0 <= i < 4 :: IsOctet(parts[i]);
    JoinCharacters(parts, '.');
    if '.' !in ip { SplitNone(ip, '.'); }
  }

  predicate DecimalOrDot(s: string) { forall i :: 0 <= i < |s| ==> IsDecimal(s[i]) || s[i] == '.' }

  lemma {:induction false} JoinCharacters(parts: seq<string>, c: char)
    requires c == '.' && forall i :: 0 <= i < |parts| ==> AllDecimal(parts[i])
    ensures DecimalOrDot(Join(parts, c))
  {
    if |parts| > 1 { JoinCharacters(parts[1..], c); }
  }

  // ---------------------------------------------------------------- IPv6 as the code reads it

  /** `/^[0-9a-fA-F]{1,4}$/` */
  predicate IsGroup(part: string) { 1 <= |part| <= 4 && Hex.AllDigits(part) }

  predicate AllGroups(parts: seq<string>) { forall i :: 0 <= i < |parts| ==> IsGroup(parts[i]) }

  predicate ColonPair(s: string, j: int) { 0 <= j && j + 1 < |s| && s[j] == ':' && s[j + 1] == ':' }

  /** Position of the first `::`, or the length. */
  function DoubleColon(s: string): (i: nat)
    ensures i <= |s|
    ensures i < |s| ==> ColonPair(s, i)
    ensures forall j :: j < i ==> !ColonPair(s, j)
  {
    if |s| < 2 then |s|
    else if ColonPair(s, 0) then 0
    else
      var rest := DoubleColon(s[1..]);
      assert forall j :: j > 0 ==> (ColonPair(s, j) <==> ColonPair(s[1..], j - 1));
      rest + 1
  }

  predicate HasDoubleColon(s: string) { DoubleColon(s) < |s| }

  /** `split("::").length > 2` */
  predicate TwoDoubleColons(s: string) {
    HasDoubleColon(s) && HasDoubleColon(s[DoubleColon(s) + 2..])
  }

  /** `s ? s.split(":") : []` */
  function Parts(s: string): seq<string> { if s == "" then [] else Split(s, ':') }

  /** The parts of a text without a `::`, or those before and after its first `::`. */
  datatype Form = Full(parts: seq<string>) | Short(head: seq<string>, tail: seq<string>)

  function ReadForm(s: string): Form {
    if HasDoubleColon(s) then Short(Parts(s[..DoubleColon(s)]), Parts(s[DoubleColon(s) + 2..]))
    else Full(Split(s, ':'))
  }

  /** Hexadecimal groups only, leaving `room` of the eight groups for what follows. */
  predicate FormOk(form: Form, room: nat) {
    match form
    case Full(parts) => AllGroups(parts) && |parts| + room == 8
    case Short(head, tail) => AllGroups(head) && AllGroups(tail) && |head| + |tail| + room <= 7
  }

  predicate Ipv6Trimmed(s: string) {
    && s != ""
    && !TwoDoubleColons(s)
    && if '.' in s then
         var lastColon := LastIndexOf(s, ':');
         lastColon < |s| && Ipv4(s[lastColon + 1..]) && FormOk(ReadForm(s[..lastColon] + ":0:0"), 0)
       else FormOk(ReadForm(s), 0)
  }

  predicate Ipv6(ip: string) { Ipv6Trimmed(Trim(ip)) }

  /** The loop over the parts. */
  method CheckParts(parts: seq<string>) returns (valid: bool)
    ensures valid <==> AllGroups(parts)
  {
    for i := 0 to |parts|
      invariant forall j :: 0 <= j < i ==> IsGroup(parts[j])
    {
      if !IsGroup(parts[i]) { return false; }
    }
    return true;
  }

  lemma AllGroupsConcat(head: seq<string>, tail: seq<string>)
    ensures AllGroups(head + tail) <==> AllGroups(head) && AllGroups(tail)
  {
    assert forall i :: 0 <= i < |head| ==> (head + tail)[i] == head[i];
    assert forall i :: 0 <= i < |tail| ==> (head + tail)[|head| + i] == tail[i];
  }

  /** The part of `isValidIpv6` after the dotted quad has been replaced. */
  method CheckForm(checkIp: string) returns (valid: bool)
    ensures valid <==> FormOk(ReadForm(checkIp), 0)
  {
    if HasDoubleColon(checkIp) {
      var at := DoubleColon(checkIp);
      var headParts, tailParts := Parts(checkIp[..at]), Parts(checkIp[at + 2..]);
      if |headParts| + |tailParts| > 7 { return false; }
      AllGroupsConcat(headParts, tailParts);
      valid := CheckParts(headParts + tailParts);
    } else {
      var parts := Split(checkIp, ':');
      if |parts| != 8 { return false; }
      valid := CheckParts(parts);
    }
  }

  /** `isValidIpv6` */
  method IsValidIpv6(ip: string) returns (valid: bool)
    ensures valid <==> Ipv6(ip)
  {
    var trimmed := Trim(ip);
    if trimmed == "" { return false; }
    if TwoDoubleColons(trimmed) { return false; }
    var checkIp := trimmed;
    if '.' in checkIp {
      var lastColon := LastIndexOf(checkIp, ':');
      if lastColon == |checkIp| { return false; }
      var quadOk := IsValidIpv4(checkIp[lastColon + 1..]);
      if !quadOk { return false; }
      checkIp := checkIp[..lastColon] + ":0:0";
    }
    valid := CheckForm(checkIp);
  }

  // ---------------------------------------------------------------- the grammar

  /**
   * The three text forms: eight groups; `::` once, standing for one or more zero groups; and either
   * of them with the last two groups written as a dotted quad.
   */
  datatype Address = Address(form: Form, quad: Option<string>)

  predicate WellFormed(a: Address) {
    match a.quad
    case None => FormOk(a.form, 0)
    case Some(quad) => Ipv4(quad) && FormOk(a.form, 2)
  }

  /** One to four hexadecimal digits of either case. */
  predicate HexGroup(p: string) {
    1 <= |p| <= 4 && forall i :: 0 <= i < |p| ==> '0' <= p[i] <= '9' || 'a' <= p[i] <= 'f' || 'A' <= p[i] <= 'F'
  }

  predicate HexGroups(parts: seq<string>) { forall i :: 0 <= i < |parts| ==> HexGroup(parts[i]) }

  lemma GroupsAreHex(parts: seq<string>)
    ensures AllGroups(parts) <==> HexGroups(parts)
  {
    forall p: string ensures IsGroup(p) <==> HexGroup(p) {
      assert forall i :: 0 <= i < |p| ==>
          (Hex.IsDigit(p[i]) <==> '0' <= p[i] <= '9' || 'a' <= p[i] <= 'f' || 'A' <= p[i] <= 'F');
    }
  }

  /** The forms in numbers: eight groups in all, a quad counting for two, or fewer and a double colon. */
  lemma WellFormedMeans(a: Address)
    ensures var quad := if a.quad.Some? then 2 else 0;
            WellFormed(a) <==>
            && (a.quad.Some? ==> Ipv4(a.quad.value))
            && match a.form
               case Full(parts) => HexGroups(parts) && |parts| + quad == 8
               case Short(head, tail) => HexGroups(head) && HexGroups(tail) && |head| + |tail| + quad < 8
  {
    match a.form
    case Full(parts) => GroupsAreHex(parts);
    case Short(head, tail) => GroupsAreHex(head); GroupsAreHex(tail);
  }

  function PrintForm(form: Form): string {
    match form
    case Full(parts) => Join(parts, ':')
    case Short(head, tail) => Join(head, ':') + "::" + Join(tail, ':')
  }

  function Extend(form: Form, more: seq<string>): Form {
    match form
    case Full(parts) => Full(parts + more)
    case Short(head, tail) => Short(head, tail + more)
  }

  function Append(form: Form, last: string): Form { Extend(form, [last]) }

  /** All the parts of an address text, the quad being the last. */
  function AllParts(a: Address): Form {
    match a.quad
    case None => a.form
    case Some(quad) => Append(a.form, quad)
  }

  function Print(a: Address): string { PrintForm(AllParts(a)) }

  // ---------------------------------------------------------------- reading undoes printing

  predicate IsPart(p: string) { p != "" && ':' !in p }

  predicate AllPart(parts: seq<string>) { forall i :: 0 <= i < |parts| ==> IsPart(parts[i]) }

  predicate PartsOk(form: Form) {
    match form
    case Full(parts) => AllPart(parts) && parts != []
    case Short(head, tail) => AllPart(head) && AllPart(tail)
  }

  /** No colon at either end and no two in a row. */
  ghost predicate Plain(s: string) {
    s != "" && s[0] != ':' && s[|s| - 1] != ':' && forall j :: !ColonPair(s, j)
  }

  lemma PlainPart(p: string)
    requires IsPart(p)
    ensures Plain(p)
  {}

  lemma PlainConcat(p: string, rest: string)
    requires Plain(p) && Plain(rest)
    ensures Plain(p + [':'] + rest)
  {
    var s := p + [':'] + rest;
    forall j ensures !ColonPair(s, j) {
      assert !ColonPair(p, j) && !ColonPair(rest, j - |p| - 1);
    }
  }

  lemma {:induction false} PlainJoin(parts: seq<string>)
    requires AllPart(parts) && parts != []
    ensures Plain(Join(parts, ':'))
  {
    PlainPart(parts[0]);
    if |parts| > 1 {
      PlainJoin(parts[1..]);
      PlainConcat(parts[0], Join(parts[1..], ':'));
    }
  }

  lemma PartsOfJoin(parts: seq<string>)
    requires AllPart(parts)
    ensures Parts(Join(parts, ':')) == parts
  {
    if parts != [] {
      PlainJoin(parts);
      SplitJoin(parts, ':');
    }
  }

  lemma DoubleColonIs(s: string, i: nat)
    requires ColonPair(s, i) && forall j :: j < i ==> !ColonPair(s, j)
    ensures DoubleColon(s) == i
  {}

  /** The `::` after a plain text is the first one. */
  lemma DoubleColonAfter(h: string, t: string)
    requires h == "" || Plain(h)
    ensures DoubleColon(h + "::" + t) == |h|
    ensures (h + "::" + t)[..|h|] == h && (h + "::" + t)[|h| + 2..] == t
  {
    var s := h + "::" + t;
    assert s[|h|] == ':' && s[|h| + 1] == ':';
    forall j | j < |h| ensures !ColonPair(s, j) {
      assert !ColonPair(h, j);
    }
    DoubleColonIs(s, |h|);
  }

  lemma ReadShort(head: seq<string>, tail: seq<string>)
    requires AllPart(head) && AllPart(tail)
    ensures ReadForm(PrintForm(Short(head, tail))) == Short(head, tail)
    ensures !TwoDoubleColons(PrintForm(Short(head, tail)))
  {
    var h, t := Join(head, ':'), Join(tail, ':');
    if head != [] { PlainJoin(head); }
    if tail != [] { PlainJoin(tail); }
    DoubleColonAfter(h, t);
    PartsOfJoin(head);
    PartsOfJoin(tail);
  }

  lemma ReadFull(parts: seq<string>)
    requires AllPart(parts) && parts != []
    ensures ReadForm(PrintForm(Full(parts))) == Full(parts)
    ensures !TwoDoubleColons(PrintForm(Full(parts)))
  {
    PlainJoin(parts);
    SplitJoin(parts, ':');
  }

  /** The parts can be read back from the text, and the text has no second `::`. */
  lemma ReadPrint(form: Form)
    requires PartsOk(form)
    ensures ReadForm(PrintForm(form)) == form && !TwoDoubleColons(PrintForm(form)) && PrintForm(form) != ""
  {
    match form
    case Full(parts) => ReadFull(parts); PlainJoin(parts);
    case Short(head, tail) => ReadShort(head, tail);
  }

  lemma CutAtDoubleColon(s: string)
    requires HasDoubleColon(s)
    ensures s == s[..DoubleColon(s)] + "::" + s[DoubleColon(s) + 2..]
  {}

  lemma JoinParts(s: string)
    ensures Join(Parts(s), ':') == s
  {
    JoinSplit(s, ':');
  }

  /** Any text is the print of what is read from it. */
  lemma PrintRead(s: string)
    ensures PrintForm(ReadForm(s)) == s
  {
    if HasDoubleColon(s) {
      CutAtDoubleColon(s);
      JoinParts(s[..DoubleColon(s)]);
      JoinParts(s[DoubleColon(s) + 2..]);
    } else {
      JoinSplit(s, ':');
    }
  }

  // ---------------------------------------------------------------- the last part

  lemma GroupIsPart(p: string)
    requires IsGroup(p)
    ensures IsPart(p) && '.' !in p
  {}

  lemma GroupsAreParts(form: Form, room: nat)
    requires FormOk(form, room) && room < 8
    ensures PartsOk(form)
  {}

  lemma AppendedPart(form: Form, room: nat, last: string)
    requires FormOk(form, room) && IsPart(last)
    ensures PartsOk(Append(form, last))
  {}

  lemma AppendedGroup(form: Form, room: nat, last: string)
    requires IsGroup(last)
    ensures FormOk(Append(form, last), room) <==> FormOk(form, room + 1)
  {
    match form
    case Full(parts) => AllGroupsConcat(parts, [last]);
    case Short(head, tail) => AllGroupsConcat(tail, [last]);
  }

  /** The form with the dotted quad written as two zero groups. */
  function Zeroed(form: Form): Form { Append(Append(form, "0"), "0") }

  lemma ZeroedOk(form: Form)
    ensures FormOk(Zeroed(form), 0) <==> FormOk(form, 2)
  {
    AppendedGroup(Append(form, "0"), 0, "0");
    AppendedGroup(form, 1, "0");
  }

  /** What is printed before the last part: it ends with a colon unless it is empty. */
  function Before(form: Form): string { PrintForm(Append(form, "")) }

  lemma JoinLast(parts: seq<string>, last: string)
    ensures Join(parts + [last], ':') == Join(parts + [""], ':') + last
    ensures parts != [] ==> Join(parts + [""], ':') == Join(parts, ':') + ":"
  {
    if parts == [] {
      assert parts + [last] == [last] && parts + [""] == [""];
    } else {
      JoinConcat(parts, ':', [last]);
      JoinConcat(parts, ':', [""]);
    }
  }

  lemma PrintAppend(form: Form, last: string)
    ensures PrintForm(Append(form, last)) == Before(form) + last
  {
    match form
    case Full(parts) => JoinLast(parts, last);
    case Short(head, tail) =>
      JoinLast(tail, last);
      Regroup(Join(head, ':') + "::", Join(tail + [""], ':'), last);
  }

  lemma BeforeAppend(form: Form, last: string)
    ensures Before(Append(form, last)) == PrintForm(Append(form, last)) + ":"
  {
    match form
    case Full(parts) => JoinLast(parts + [last], "");
    case Short(head, tail) =>
      JoinLast(tail + [last], "");
      Regroup(Join(head, ':') + "::", Join(tail + [last], ':'), ":");
  }

  lemma PrintZeroed(form: Form)
    ensures PrintForm(Zeroed(form)) == Before(form) + "0:0"
  {
    PrintAppend(Append(form, "0"), "0");
    BeforeAppend(form, "0");
    PrintAppend(form, "0");
    ZerosAfter(Before(form));
  }

  lemma ZerosAfter(b: string)
    ensures b + "0" + ":" + "0" == b + "0:0"
  {}

  lemma BeforeEnds(form: Form)
    requires form.Short? || form.parts != []
    ensures Before(form) != "" && Before(form)[|Before(form)| - 1] == ':'
  {
    match form
    case Full(parts) => JoinLast(parts, "");
    case Short(head, tail) => if tail != [] { JoinLast(tail, ""); }
  }

  // ---------------------------------------------------------------- well-formed texts are accepted

  lemma PlainTextAccepted(form: Form)
    requires FormOk(form, 0)
    ensures Ipv6Trimmed(PrintForm(form)) && '.' !in PrintForm(form)
  {
    GroupsAreParts(form, 0);
    ReadPrint(form);
    NoDot(form, 0);
  }

  lemma {:induction false} JoinHasDot(parts: seq<string>)
    ensures '.' in Join(parts, ':') <==> exists i :: 0 <= i < |parts| && '.' in parts[i]
  {
    if |parts| > 1 {
      JoinHasDot(parts[1..]);
      assert parts == [parts[0]] + parts[1..];
    }
  }

  lemma NoDot(form: Form, room: nat)
    requires FormOk(form, room)
    ensures '.' !in PrintForm(form)
  {
    forall p | IsGroup(p) ensures '.' !in p { GroupIsPart(p); }
    match form
    case Full(parts) => JoinHasDot(parts);
    case Short(head, tail) => JoinHasDot(head); JoinHasDot(tail);
  }

  /** The last colon of `p + q`, when `p` ends with one and `q` has none. */
  lemma LastColonBefore(p: string, q: string)
    requires p != "" && p[|p| - 1] == ':' && ':' !in q
    ensures LastIndexOf(p + q, ':') == |p| - 1
    ensures (p + q)[..|p|] == p && (p + q)[|p|..] == q && (p + q)[..|p| - 1] == p[..|p| - 1]
  {}

  lemma QuadPart(quad: string)
    requires Ipv4(quad)
    ensures IsPart(quad) && '.' in quad
  {
    Ipv4Characters(quad);
  }

  lemma FrontPlusZeros(p: string)
    requires p != "" && p[|p| - 1] == ':'
    ensures p[..|p| - 1] + ":0:0" == p + "0:0"
  {}

  /** Writing the quad as two zero groups replaces it by `0:0` and touches nothing else. */
  lemma QuadReplaced(form: Form, quad: string)
    requires FormOk(form, 2) && IsPart(quad)
    ensures var s, i := PrintForm(Append(form, quad)), LastIndexOf(PrintForm(Append(form, quad)), ':');
            i < |s| && s[i + 1..] == quad && s[..i] + ":0:0" == PrintForm(Zeroed(form))
  {
    var b := Before(form);
    PrintAppend(form, quad);
    BeforeEnds(form);
    LastColonBefore(b, quad);
    FrontPlusZeros(b);
    PrintZeroed(form);
  }

  lemma DotInLast(b: string, quad: string)
    requires '.' in quad
    ensures '.' in b + quad
  {}

  lemma QuadTextAccepted(form: Form, quad: string)
    requires FormOk(form, 2) && Ipv4(quad)
    ensures Ipv6Trimmed(PrintForm(Append(form, quad))) && '.' in PrintForm(Append(form, quad))
  {
    QuadPart(quad);
    AppendedPart(form, 2, quad);
    ReadPrint(Append(form, quad));
    QuadReplaced(form, quad);
    ZeroedOk(form);
    GroupsAreParts(Zeroed(form), 0);
    ReadPrint(Zeroed(form));
    PrintAppend(form, quad);
    DotInLast(Before(form), quad);
  }

  // ---------------------------------------------------------------- accepted texts are well-formed

  /** The parts before the last one, of a text that ends with a colon. */
  function LeadParts(p: string): seq<string> { if p == "" then [] else Split(p[..|p| - 1], ':') }

  function ReadLead(p: string): Form {
    if HasDoubleColon(p) then Short(Parts(p[..DoubleColon(p)]), LeadParts(p[DoubleColon(p) + 2..]))
    else Full(LeadParts(p))
  }

  predicate EndsWithColon(p: string) { p != "" ==> p[|p| - 1] == ':' }

  lemma SplitAfterLead(p: string, q: string)
    requires EndsWithColon(p)
    ensures Split(p + q, ':') == LeadParts(p) + Split(q, ':')
  {
    if p == "" {
      assert p + q == q;
    } else {
      assert p == p[..|p| - 1] + [':'];
      SplitConcat(p[..|p| - 1], ':', q);
    }
  }

  /** Adds no `::` to a text it follows. */
  ghost predicate PlainStart(q: string) {
    q != "" && q[0] != ':' && forall j :: !ColonPair(q, j)
  }

  lemma FirstDoubleColonInLead(p: string, q: string)
    requires PlainStart(q)
    ensures HasDoubleColon(p + q) <==> HasDoubleColon(p)
    ensures HasDoubleColon(p) ==> DoubleColon(p + q) == DoubleColon(p)
  {
    var s := p + q;
    assert forall j :: 0 <= j < |p| ==> s[j] == p[j];
    assert forall j :: 0 <= j < |q| ==> s[|p| + j] == q[j];
    forall j ensures ColonPair(s, j) <==> ColonPair(p, j) {
      assert !ColonPair(q, j - |p|);
      assert j + 1 == |p| && 0 <= j ==> s[j + 1] == q[0];
    }
  }

  lemma CutInLead(p: string, q: string, i: nat)
    requires i + 2 <= |p|
    ensures (p + q)[..i] == p[..i] && (p + q)[i + 2..] == p[i + 2..] + q
  {}

  lemma ReadAfterDoubleColon(p: string, q: string)
    requires EndsWithColon(p) && HasDoubleColon(p) && PlainStart(q)
    ensures var i := DoubleColon(p);
            ReadForm(p + q) == Short(Parts(p[..i]), LeadParts(p[i + 2..]) + Split(q, ':'))
  {
    var i := DoubleColon(p);
    FirstDoubleColonInLead(p, q);
    CutInLead(p, q, i);
    SplitAfterLead(p[i + 2..], q);
  }

  lemma ReadAfterNoDoubleColon(p: string, q: string)
    requires EndsWithColon(p) && !HasDoubleColon(p) && PlainStart(q)
    ensures ReadForm(p + q) == Full(LeadParts(p) + Split(q, ':'))
  {
    FirstDoubleColonInLead(p, q);
    SplitAfterLead(p, q);
  }

  /** Reading a text with more parts after a lead ending with a colon. */
  lemma ReadAfterLead(p: string, q: string)
    requires EndsWithColon(p) && PlainStart(q)
    ensures ReadForm(p + q) == Extend(ReadLead(p), Split(q, ':'))
  {
    if HasDoubleColon(p) {
      ReadAfterDoubleColon(p, q);
    } else {
      ReadAfterNoDoubleColon(p, q);
    }
  }

  lemma ZeroSplit()
    ensures Split("0:0", ':') == ["0"] + ["0"]
    ensures PlainStart("0:0")
  {
    assert "0:0" == "0" + [':'] + "0";
    SplitOne("0", ':', "0");
    SplitNone("0", ':');
  }

  lemma ReadZeros(p: string)
    requires EndsWithColon(p)
    ensures ReadForm(p + "0:0") == Zeroed(ReadLead(p))
  {
    ZeroSplit();
    ReadAfterLead(p, "0:0");
    match ReadLead(p)
    case Full(parts) => Regroup(parts, ["0"], ["0"]);
    case Short(head, tail) => Regroup(tail, ["0"], ["0"]);
  }

  lemma ReadQuad(p: string, q: string)
    requires EndsWithColon(p) && IsPart(q)
    ensures ReadForm(p + q) == Append(ReadLead(p), q)
  {
    PlainPart(q);
    SplitNone(q, ':');
    ReadAfterLead(p, q);
  }

  lemma CutAfterColon(s: string, i: nat)
    requires i < |s| && s[i] == ':'
    ensures var p := s[..i + 1]; s == p + s[i + 1..] && p[|p| - 1] == ':' && p[..|p| - 1] == s[..i]
  {}

  lemma AcceptedQuadText(s: string) returns (a: Address)
    requires Ipv6Trimmed(s) && '.' in s
    ensures WellFormed(a) && Print(a) == s
  {
    var lastColon := LastIndexOf(s, ':');
    var p, q := s[..lastColon + 1], s[lastColon + 1..];
    var form := ReadLead(p);
    a := Address(form, Some(q));
    CutAfterColon(s, lastColon);
    assert FormOk(form, 2) by {
      FrontPlusZeros(p);
      ReadZeros(p);
      ZeroedOk(form);
    }
    assert Print(a) == s by {
      QuadPart(q);
      ReadQuad(p, q);
      PrintRead(s);
    }
  }

  // ---------------------------------------------------------------- the recogniser is the grammar

  ghost predicate IsAddressText(s: string) { exists a :: WellFormed(a) && Print(a) == s }

  lemma WellFormedAccepted(a: Address)
    requires WellFormed(a)
    ensures Ipv6Trimmed(Print(a)) && ('.' in Print(a) <==> a.quad.Some?)
  {
    match a.quad
    case None => PlainTextAccepted(a.form);
    case Some(quad) => QuadTextAccepted(a.form, quad);
  }

  /** Up to surrounding white space, exactly the three text forms are accepted. */
  lemma Ipv6Grammar(ip: string)
    ensures Ipv6(ip) <==> IsAddressText(Trim(ip))
  {
    var s := Trim(ip);
    if Ipv6(ip) {
      if '.' in s {
        var a := AcceptedQuadText(s);
      } else {
        PrintRead(s);
        assert WellFormed(Address(ReadForm(s), None)) && Print(Address(ReadForm(s), None)) == s;
      }
    }
    if a :| WellFormed(a) && Print(a) == s {
      WellFormedAccepted(a);
    }
  }

  lemma AllPartsRead(a: Address)
    requires WellFormed(a)
    ensures ReadForm(Print(a)) == AllParts(a)
  {
    match a.quad
    case None => GroupsAreParts(a.form, 0); ReadPrint(a.form);
    case Some(quad) => QuadPart(quad); AppendedPart(a.form, 2, quad); ReadPrint(Append(a.form, quad));
  }

  lemma LastOf(parts: seq<string>, last: string)
    ensures var all := parts + [last]; all[..|all| - 1] == parts && all[|all| - 1] == last
  {}

  lemma AppendInjective(f: Form, x: string, g: Form, y: string)
    requires Append(f, x) == Append(g, y)
    ensures f == g && x == y
  {
    match f
    case Full(parts) => LastOf(parts, x); LastOf(g.parts, y);
    case Short(head, tail) => LastOf(tail, x); LastOf(g.tail, y);
  }

  /** The grammar is unambiguous. */
  lemma AddressUnique(a: Address, b: Address)
    requires WellFormed(a) && WellFormed(b) && Print(a) == Print(b)
    ensures a == b
  {
    WellFormedAccepted(a);
    WellFormedAccepted(b);
    AllPartsRead(a);
    AllPartsRead(b);
    if a.quad.Some? { AppendInjective(a.form, a.quad.value, b.form, b.quad.value); }
  }

  // ---------------------------------------------------------------- the address a text stands for

  function HexValue(s: string): nat
    requires Hex.AllDigits(s)
  {
    if s == "" then 0 else 16 * HexValue(s[..|s| - 1]) + Hex.NibbleNumber(Hex.Value(Hex.LowerChar(s[|s| - 1])))
  }

  lemma {:induction false} HexValueBound(s: string)
    requires Hex.AllDigits(s) && |s| <= 4
    ensures HexValue(s) < match |s| case 0 => 1 case 1 => 16 case 2 => 256 case 3 => 4096 case _ => 65536
  {
    if s != "" { HexValueBound(s[..|s| - 1]); }
  }

  /** One of the eight groups. */
  type Group = n: nat | n <= 0xFFFF

  function GroupValue(part: string): Group
    requires IsGroup(part)
  {
    HexValueBound(part);
    HexValue(part)
  }

  function Values(groups: seq<string>): (v: seq<Group>)
    requires AllGroups(groups)
    ensures |v| == |groups|
  {
    seq(|groups|, i requires 0 <= i < |groups| => GroupValue(groups[i]))
  }

  function QuadValues(quad: string): (v: seq<Group>)
    requires Ipv4(quad)
    ensures |v| == 2
  {
    var p := Split(quad, '.');
    assert IsOctet(p[0]) && IsOctet(p[1]) && IsOctet(p[2]) && IsOctet(p[3]);
    [256 * DecimalValue(p[0]) + DecimalValue(p[1]), 256 * DecimalValue(p[2]) + DecimalValue(p[3])]
  }

  /** The eight groups; `::` fills up with zeros. */
  function Expand(a: Address): (groups: seq<Group>)
    requires WellFormed(a)
    ensures |groups| == 8
  {
    var quad := if a.quad.Some? then QuadValues(a.quad.value) else [];
    match a.form
    case Full(parts) => Values(parts) + quad
    case Short(head, tail) =>
      var given := |head| + |tail| + |quad|;
      Values(head) + seq(8 - given, _ => 0) + Values(tail) + quad
  }

  /** A group is read in base sixteen, its digits in order. */
  lemma PlaceValue(s: string, c: char)
    requires Hex.AllDigits(s) && Hex.IsDigit(c)
    ensures HexValue("") == 0 && HexValue(s + [c]) == 16 * HexValue(s) + Hex.NibbleNumber(Hex.Value(Hex.LowerChar(c)))
  {
    assert (s + [c])[..|s|] == s;
  }

  lemma QuadFrom(quad: string, p: seq<string>, a: Octet, b: Octet, c: Octet, d: Octet)
    requires Ipv4(quad) && Split(quad, '.') == p && |p| == 4
    requires AllDecimal(p[0]) && AllDecimal(p[1]) && AllDecimal(p[2]) && AllDecimal(p[3])
    requires DecimalValue(p[0]) == a && DecimalValue(p[1]) == b && DecimalValue(p[2]) == c && DecimalValue(p[3]) == d
    ensures QuadValues(quad) == [256 * a + b, 256 * c + d]
  {}

  /** A dotted quad stands for two groups of two octets each. */
  lemma QuadIs(a: Octet, b: Octet, c: Octet, d: Octet)
    ensures Ipv4(PrintIpv4(a, b, c, d)) && QuadValues(PrintIpv4(a, b, c, d)) == [256 * a + b, 256 * c + d]
  {
    PrintedIpv4IsAccepted(a, b, c, d);
    DecimalRoundTrip(a);
    DecimalRoundTrip(b);
    DecimalRoundTrip(c);
    DecimalRoundTrip(d);
    QuadFrom(PrintIpv4(a, b, c, d), [Decimal(a), Decimal(b), Decimal(c), Decimal(d)], a, b, c, d);
  }

  /** Where the groups of a text come to stand: zeros fill the place of the double colon. */
  lemma ExpandedAt(a: Address, i: nat)
    requires WellFormed(a) && i < 8
    ensures var groups, quad := Expand(a), if a.quad.Some? then 2 else 0;
            groups[i] ==
            if i >= 8 - quad then QuadValues(a.quad.value)[i - 6]
            else match a.form
                 case Full(parts) => GroupValue(parts[i])
                 case Short(head, tail) =>
                   if i < |head| then GroupValue(head[i])
                   else if i < 8 - quad - |tail| then 0
                   else GroupValue(tail[i - (8 - quad - |tail|)])
  {}

  /** Every accepted text stands for exactly one address of eight 16-bit groups. */
  lemma ExactlyOneAddress(ip: string)
    requires Ipv6(ip)
    ensures exists groups: seq<Group> ::
              && |groups| == 8
              && (exists a :: WellFormed(a) && Print(a) == Trim(ip) && Expand(a) == groups)
              && (forall b | WellFormed(b) && Print(b) == Trim(ip) :: Expand(b) == groups)
  {
    Ipv6Grammar(ip);
    var a :| WellFormed(a) && Print(a) == Trim(ip);
    forall b | WellFormed(b) && Print(b) == Trim(ip) ensures Expand(b) == Expand(a) {
      AddressUnique(a, b);
    }
  }
}
