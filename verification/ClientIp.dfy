/**
 * `src/lib/client-ip.ts`: stripping ports, and the choice of the client's address from the request
 * headers.  The client controls the left part of `X-Forwarded-For`; the trusted proxies append on the
 * right.
 */
module ClientIp {
  import opened Text
  import opened Numerals
  import opened IpText
  import Hex

  // ---------------------------------------------------------------- ports

  predicate Bracketed(t: string) { t != "" && t[0] == '[' && ']' in t }

  /** An IPv4 address, one colon, and a decimal port. */
  predicate HasPort(t: string) {
    var i := IndexOf(t, ':');
    i < |t| && i == LastIndexOf(t, ':') && t[i + 1..] != "" && AllDecimal(t[i + 1..]) && Ipv4(t[..i])
  }

  /** `stripPort` */
  function StripPort(ip: string): string {
    var t := Trim(ip);
    if Bracketed(t) then t[1..IndexOf(t, ']')]
    else if HasPort(t) then t[..IndexOf(t, ':')]
    else t
  }

  /** `isValidIp`, which strips a port itself. */
  predicate ValidIp(ip: string) {
    ip != "" && (Ipv4(StripPort(ip)) || Ipv6(StripPort(ip)))
  }

  /** The text of an address and nothing else. */
  predicate Bare(ip: string) { Ipv4(ip) || (Ipv6(ip) && Trim(ip) == ip) }

  lemma StripOfIpv4(ip: string)
    requires Ipv4(ip)
    ensures StripPort(ip) == ip
  {
    Ipv4Characters(ip);
    TrimOfTrimmed(ip);
  }

  lemma StripPlain(ip: string)
    requires !Bracketed(Trim(ip))
    ensures StripPort(StripPort(ip)) == StripPort(ip)
  {
    var t := Trim(ip);
    if HasPort(t) {
      StripOfIpv4(t[..IndexOf(t, ':')]);
    } else {
      TrimIdempotent(ip);
    }
  }

  lemma {:induction false} TrimStartShortens(s: string)
    ensures |TrimStart(s)| <= |s| && (|TrimStart(s)| == |s| ==> TrimStart(s) == s)
  {
    if s != "" && IsSpace(s[0]) { TrimStartShortens(s[1..]); }
  }

  lemma {:induction false} TrimEndShortens(s: string)
    ensures |TrimEnd(s)| <= |s| && (|TrimEnd(s)| == |s| ==> TrimEnd(s) == s)
  {
    if s != "" && IsSpace(s[|s| - 1]) { TrimEndShortens(s[..|s| - 1]); }
  }

  lemma InsideBrackets(t: string)
    requires Bracketed(t)
    ensures 1 <= IndexOf(t, ']') && ']' !in t[1..IndexOf(t, ']')]
  {}

  /**
   * Stripping twice is stripping once, except for a bracketed text whose inside is surrounded by
   * white space or is itself an IPv4 address with a port.
   */
  lemma StripPortIdempotentIff(ip: string)
    ensures StripPort(StripPort(ip)) == StripPort(ip) <==>
            !(Bracketed(Trim(ip)) && (Trim(StripPort(ip)) != StripPort(ip) || HasPort(StripPort(ip))))
  {
    var t := Trim(ip);
    if Bracketed(t) {
      InsideBrackets(t);
      var c := StripPort(ip);
      TrimStartShortens(c);
      TrimEndShortens(TrimStart(c));
      TrimKeepsOut(c, ']');
      if HasPort(Trim(c)) {
        assert |StripPort(c)| < |Trim(c)|;
      }
    } else {
      StripPlain(ip);
    }
  }

  lemma {:induction false} TrimStartKeepsOut(s: string, c: char)
    requires c !in s
    ensures c !in TrimStart(s)
  {
    if s != "" && IsSpace(s[0]) { TrimStartKeepsOut(s[1..], c); }
  }

  lemma {:induction false} TrimEndKeepsOut(s: string, c: char)
    requires c !in s
    ensures c !in TrimEnd(s)
  {
    if s != "" && IsSpace(s[|s| - 1]) { TrimEndKeepsOut(s[..|s| - 1], c); }
  }

  lemma TrimKeepsOut(s: string, c: char)
    requires c !in s
    ensures c !in Trim(s)
  {
    TrimStartKeepsOut(s, c);
    TrimEndKeepsOut(TrimStart(s), c);
  }

  lemma StripShortens(ip: string)
    ensures |StripPort(ip)| < |ip| || StripPort(ip) == Trim(ip) == ip
  {
    TrimStartShortens(ip);
    TrimEndShortens(TrimStart(ip));
  }

  /** An address and a port are not an IPv6 address. */
  lemma PortIsNotIpv6(t: string)
    requires HasPort(t)
    ensures !Ipv6Trimmed(t)
  {
    var i := IndexOf(t, ':');
    Ipv4Characters(t[..i]);
    assert forall k :: 0 <= k < i ==> t[..i][k] == t[k];
    SplitNone(t[i + 1..], '.');
  }

  /** What stripping leaves is never bracketed. */
  lemma StrippedNotBracketed(ip: string)
    ensures !Bracketed(Trim(StripPort(ip)))
  {
    var t := Trim(ip);
    if Bracketed(t) {
      InsideBrackets(t);
      TrimKeepsOut(StripPort(ip), ']');
    } else if HasPort(t) {
      Ipv4Characters(t[..IndexOf(t, ':')]);
      TrimOfTrimmed(t[..IndexOf(t, ':')]);
    } else {
      TrimIdempotent(ip);
    }
  }

  /** The inside of the brackets has white space around it or a port of its own. */
  predicate CarriesMore(ip: string) {
    Bracketed(Trim(ip)) && (Trim(StripPort(ip)) != StripPort(ip) || HasPort(StripPort(ip)))
  }

  /** What is accepted after stripping is an address and nothing else, unless brackets held more. */
  lemma StrippedIsBareIff(ip: string)
    requires ValidIp(StripPort(ip))
    ensures Bare(StripPort(ip)) <==> !CarriesMore(ip)
  {
    var r := StripPort(ip);
    StripPortIdempotentIff(ip);
    StripShortens(r);
    if Bare(r) {
      if Ipv4(r) {
        StripOfIpv4(r);
      } else {
        StrippedNotBracketed(ip);
        if HasPort(r) { PortIsNotIpv6(r); }
      }
    }
  }

  // ---------------------------------------------------------------- the choice

  /** The integers among the depths a caller or the environment can configure; `None` for unset or not a number. */
  function TrustedDepth(explicitDepth: Option<int>, environment: Option<int>): (depth: nat)
    ensures depth >= 1
    ensures explicitDepth.Some? && explicitDepth.value > 0 ==> depth == explicitDepth.value
    ensures explicitDepth.None? || explicitDepth.value <= 0 ==>
              depth == if environment.Some? && environment.value > 0 then environment.value else 1
  {
    if explicitDepth.Some? && explicitDepth.value >= 1 then explicitDepth.value
    else if environment.None? || environment.value < 1 then 1
    else environment.value
  }

  datatype Headers = Headers(
    cfConnectingIp: Option<string>,
    trueClientIp: Option<string>,
    forwardedFor: Option<string>,
    realIp: Option<string>)

  function TrimmedHeader(h: Option<string>): string { if h.Some? then Trim(h.value) else "" }

  function CdnHeader(h: Headers): string {
    if TrimmedHeader(h.cfConnectingIp) != "" then TrimmedHeader(h.cfConnectingIp) else TrimmedHeader(h.trueClientIp)
  }

  predicate FromCdn(h: Headers) {
    CdnHeader(h) != "" && ValidIp(StripPort(CdnHeader(h)))
  }

  /** Strip, drop what is empty, keep what is valid. */
  function Entry(part: string): seq<string> {
    var stripped := StripPort(Trim(part));
    if stripped != "" && ValidIp(stripped) then [stripped] else []
  }

  function ValidEntries(parts: seq<string>): seq<string> { FlatMap(Entry, parts) }

  function Forwarded(header: Option<string>): seq<string> {
    if header.None? || header.value == "" then [] else ValidEntries(Split(header.value, ','))
  }

  /** Counting from the right, or the leftmost when there are too few. */
  function Pick(entries: seq<string>, depth: nat): string
    requires entries != [] && depth >= 1
  {
    entries[if |entries| < depth then 0 else |entries| - depth]
  }

  /** `getClientIp` */
  function GetClientIp(h: Headers, depth: nat, fallback: string): string
    requires depth >= 1
  {
    if FromCdn(h) then StripPort(CdnHeader(h))
    else if Forwarded(h.forwardedFor) != [] then Pick(Forwarded(h.forwardedFor), depth)
    else
      var realIp := TrimmedHeader(h.realIp);
      if realIp != "" && ValidIp(StripPort(realIp)) then StripPort(realIp) else fallback
  }

  // ---------------------------------------------------------------- which header decides

  /** A printed IPv4 address, or one of the text forms of an IPv6 address. */
  ghost predicate AddressText(text: string) {
    (exists a, b, c, d :: text == PrintIpv4(a, b, c, d)) || IsAddressText(text)
  }

  predicate AddressCharacter(c: char) { Hex.IsDigit(c) || c == '.' || c == ':' }

  predicate AllAddressCharacters(s: string) { forall i :: 0 <= i < |s| ==> AddressCharacter(s[i]) }

  lemma {:induction false} JoinedCharacters(parts: seq<string>, c: char)
    requires AddressCharacter(c) && forall i :: 0 <= i < |parts| ==> AllAddressCharacters(parts[i])
    ensures AllAddressCharacters(Join(parts, c))
  {
    if |parts| > 1 { JoinedCharacters(parts[1..], c); }
  }

  lemma Ipv4Written(ip: string)
    requires Ipv4(ip)
    ensures AllAddressCharacters(ip)
  {
    JoinSplit(ip, '.');
    forall i | 0 <= i < 4 ensures AllAddressCharacters(Split(ip, '.')[i]) { assert IsOctet(Split(ip, '.')[i]); }
    JoinedCharacters(Split(ip, '.'), '.');
  }

  lemma Ipv6Written(a: Address)
    requires WellFormed(a)
    ensures AllAddressCharacters(Print(a))
  {
    if a.quad.Some? { Ipv4Written(a.quad.value); }
    match AllParts(a)
    case Full(parts) => JoinedCharacters(parts, ':');
    case Short(head, tail) => JoinedCharacters(head, ':'); JoinedCharacters(tail, ':');
  }

  lemma WrittenIsTrimmed(s: string)
    requires AllAddressCharacters(s)
    ensures Trim(s) == s && ',' !in s && ']' !in s && !Bracketed(s)
  {
    assert Trimmed(s);
    TrimOfTrimmed(s);
  }

  /** An address text is kept by stripping, and it is valid. */
  lemma AddressTextIsValid(text: string)
    requires AddressText(text)
    ensures StripPort(text) == text && ValidIp(text) && Trim(text) == text && text != ""
    ensures ',' !in text && ']' !in text
  {
    if a, b, c, d :| text == PrintIpv4(a, b, c, d) {
      PrintedIpv4IsAccepted(a, b, c, d);
      Ipv4Written(text);
      WrittenIsTrimmed(text);
      StripOfIpv4(text);
    } else {
      var a :| WellFormed(a) && Print(a) == text;
      Ipv6Written(a);
      WrittenIsTrimmed(text);
      WellFormedAccepted(a);
      if HasPort(text) { PortIsNotIpv6(text); }
    }
  }

  /** The header is absent, blank, or holds no valid address. */
  predicate Unusable(header: Option<string>) { header.Some? ==> !ValidIp(StripPort(Trim(header.value))) }

  /** A header that holds an address text, with or without white space around it. */
  ghost predicate HoldsAddress(header: Option<string>, text: string) {
    header.Some? && Trim(header.value) == text && AddressText(text)
  }

  predicate BlankHeader(header: Option<string>) { header.Some? ==> Trim(header.value) == "" }

  /** Cloudflare's header decides, whatever the others hold. */
  lemma CfConnectingIpDecides(h: Headers, text: string, depth: nat, fallback: string)
    requires depth >= 1 && HoldsAddress(h.cfConnectingIp, text)
    ensures GetClientIp(h, depth, fallback) == text
  {
    AddressTextIsValid(text);
  }

  /** Without it, the other CDN header does. */
  lemma TrueClientIpDecides(h: Headers, text: string, depth: nat, fallback: string)
    requires depth >= 1 && BlankHeader(h.cfConnectingIp) && HoldsAddress(h.trueClientIp, text)
    ensures GetClientIp(h, depth, fallback) == text
  {
    AddressTextIsValid(text);
  }

  lemma {:induction false} EntriesOfTexts(addresses: seq<string>)
    requires forall i :: 0 <= i < |addresses| ==> AddressText(addresses[i])
    ensures ValidEntries(addresses) == addresses
  {
    if addresses != [] {
      AddressTextIsValid(addresses[0]);
      EntriesOfTexts(addresses[1..]);
      FlatMapCons(Entry, addresses[0], addresses[1..]);
      assert addresses == [addresses[0]] + addresses[1..];
    }
  }

  lemma ForwardedTexts(addresses: seq<string>)
    requires addresses != [] && forall i :: 0 <= i < |addresses| ==> AddressText(addresses[i])
    ensures Forwarded(Some(Join(addresses, ','))) == addresses
  {
    forall i | 0 <= i < |addresses| ensures ',' !in addresses[i] && addresses[i] != "" {
      AddressTextIsValid(addresses[i]);
    }
    SplitJoin(addresses, ',');
    EntriesOfTexts(addresses);
    if Join(addresses, ',') == "" { SplitNone("", ','); }
  }

  lemma NoCdn(h: Headers)
    requires Unusable(h.cfConnectingIp) && Unusable(h.trueClientIp)
    ensures !FromCdn(h)
  {
    BlankIsUnusable();
  }

  /**
   * Without a usable CDN header, of a forwarded list of addresses the one `depth` places from the right
   * is the answer, or the leftmost when the list is shorter.
   */
  lemma ForwardedForDecides(h: Headers, addresses: seq<string>, depth: nat, fallback: string)
    requires depth >= 1 && Unusable(h.cfConnectingIp) && Unusable(h.trueClientIp)
    requires addresses != [] && forall i :: 0 <= i < |addresses| ==> AddressText(addresses[i])
    requires h.forwardedFor == Some(Join(addresses, ','))
    ensures GetClientIp(h, depth, fallback) == addresses[if |addresses| < depth then 0 else |addresses| - depth]
  {
    ForwardedTexts(addresses);
    NoCdn(h);
  }

  lemma BlankIsUnusable()
    ensures Trim("") == "" && StripPort("") == "" && !ValidIp("")
  {}

  /** No part of the forwarded list is valid. */
  predicate NothingForwarded(header: Option<string>) {
    header.Some? ==> forall i :: 0 <= i < |Split(header.value, ',')| ==> Unusable(Some(Split(header.value, ',')[i]))
  }

  lemma {:induction false} NoEntries(parts: seq<string>)
    requires forall i :: 0 <= i < |parts| ==> Unusable(Some(parts[i]))
    ensures ValidEntries(parts) == []
  {
    if parts != [] {
      assert Unusable(Some(parts[0]));
      NoEntries(parts[1..]);
    }
  }

  lemma NoneForwarded(header: Option<string>)
    requires NothingForwarded(header)
    ensures Forwarded(header) == []
  {
    if header.Some? { NoEntries(Split(header.value, ',')); }
  }

  lemma RealIpOrFallback(h: Headers, depth: nat, fallback: string)
    requires depth >= 1 && !FromCdn(h) && Forwarded(h.forwardedFor) == []
    ensures GetClientIp(h, depth, fallback) ==
            if Unusable(h.realIp) || h.realIp.None? then fallback else StripPort(Trim(h.realIp.value))
  {
    BlankIsUnusable();
  }

  /** Without anything usable before it, `x-real-ip` decides; without anything usable, the fallback. */
  lemma RealIpDecides(h: Headers, depth: nat, fallback: string)
    requires depth >= 1 && Unusable(h.cfConnectingIp) && Unusable(h.trueClientIp) && NothingForwarded(h.forwardedFor)
    ensures forall text :: HoldsAddress(h.realIp, text) ==> GetClientIp(h, depth, fallback) == text
    ensures Unusable(h.realIp) ==> GetClientIp(h, depth, fallback) == fallback
  {
    NoneForwarded(h.forwardedFor);
    NoCdn(h);
    RealIpOrFallback(h, depth, fallback);
    forall text | HoldsAddress(h.realIp, text) ensures GetClientIp(h, depth, fallback) == text {
      AddressTextIsValid(text);
    }
  }

  lemma HostWithPort(host: string, port: string)
    requires Ipv4(host) && port != "" && AllDecimal(port)
    ensures StripPort(host + [':'] + port) == host
  {
    var text := host + [':'] + port;
    Ipv4Characters(host);
    Ipv4Written(host);
    forall i | 0 <= i < |text| ensures AddressCharacter(text[i]) { if i < |host| { assert text[i] == host[i]; } }
    WrittenIsTrimmed(text);
    IndexOfFirst(host, ':', port);
    LastColonIs(host, port);
    assert text[..|host|] == host && text[|host| + 1..] == port;
  }

  /** A decimal port is stripped from a printed IPv4 address. */
  lemma PortIsStripped(a: Octet, b: Octet, c: Octet, d: Octet, port: string)
    requires port != "" && AllDecimal(port)
    ensures StripPort(PrintIpv4(a, b, c, d) + [':'] + port) == PrintIpv4(a, b, c, d)
  {
    PrintedIpv4IsAccepted(a, b, c, d);
    HostWithPort(PrintIpv4(a, b, c, d), port);
  }

  /** Brackets, with or without a port after them, are stripped from what they hold. */
  lemma BracketsAreStripped(inside: string, after: string)
    requires ']' !in inside && (after == "" || (after[0] == ':' && AllDecimal(after[1..])))
    ensures StripPort("[" + inside + "]" + after) == inside
  {
    var text := "[" + inside + "]" + after;
    assert text[0] == '[' && text[|inside| + 1] == ']';
    assert after != "" ==> text[|text| - 1] == after[|after| - 1];
    assert Trimmed(text);
    TrimOfTrimmed(text);
    assert text == ("[" + inside) + [']'] + after;
    IndexOfFirst("[" + inside, ']', after);
    assert text[1..|inside| + 1] == inside;
  }

  // ---------------------------------------------------------------- what the client cannot change

  lemma EntriesAreValid(parts: seq<string>)
    ensures forall i :: 0 <= i < |ValidEntries(parts)| ==> ValidIp(ValidEntries(parts)[i])
  {
    FlatMapAll(Entry, parts, ValidIp);
  }

  function Prepended(client: string, h: Headers): Headers
    requires h.forwardedFor.Some?
  {
    h.(forwardedFor := Some(client + [','] + h.forwardedFor.value))
  }

  lemma EmptyHasNoEntries()
    ensures ValidEntries(Split("", ',')) == []
  {}

  /** What stands to the right of a comma is read as if it stood alone. */
  lemma ForwardedPrepended(client: string, h: Headers)
    requires h.forwardedFor.Some?
    ensures Forwarded(Prepended(client, h).forwardedFor) ==
            ValidEntries(Split(client, ',')) + Forwarded(h.forwardedFor)
  {
    var xff := h.forwardedFor.value;
    SplitConcat(client, ',', xff);
    FlatMapConcat(Entry, Split(client, ','), Split(xff, ','));
    if xff == "" { EmptyHasNoEntries(); }
  }

  lemma PickFromRight(left: seq<string>, right: seq<string>, depth: nat)
    requires 1 <= depth <= |right|
    ensures Pick(left + right, depth) == Pick(right, depth)
  {}

  /**
   * The position that counts: when `depth - 1` valid addresses follow `ip`, as so many inner proxies
   * have appended them, the answer is `ip`, whatever stands before it.
   */
  lemma AnswerIsNthFromRight(client: string, h: Headers, ip: string, inner: seq<string>, depth: nat, fallback: string)
    requires h.forwardedFor.Some? && !FromCdn(h) && Forwarded(h.forwardedFor) == [ip] + inner
    requires depth == |inner| + 1
    ensures GetClientIp(h, depth, fallback) == ip && GetClientIp(Prepended(client, h), depth, fallback) == ip
  {
    ClientIgnored(client, h, depth, fallback);
  }

  lemma OneClientEntry(a: Octet)
    ensures var text := PrintIpv4(a, a, a, a); ValidEntries(Split(text, ',')) == [text]
  {
    var text := PrintIpv4(a, a, a, a);
    PrintedIpv4IsAccepted(a, a, a, a);
    NoCommaIn(text);
    SplitNone(text, ',');
    EntryOfIpv4(text);
    FlatMapOne(Entry, text);
  }

  lemma EntryOfIpv4(ip: string)
    requires Ipv4(ip)
    ensures Entry(ip) == [ip]
  {
    Ipv4Characters(ip);
    TrimOfTrimmed(ip);
    StripOfIpv4(ip);
  }

  lemma NoCommaIn(ip: string)
    requires Ipv4(ip)
    ensures ',' !in ip
  {
    var parts := Split(ip, '.');
    JoinSplit(ip, '.');
    assert forall i | 0 <= i < 4 :: IsOctet(parts[i]);
    JoinCharacters(parts, '.');
  }

  /** With too few trusted entries, the client's own entry is the answer. */
  lemma ClientChooses(a: Octet, h: Headers, depth: nat, fallback: string)
    requires h.forwardedFor.Some? && !FromCdn(h) && |Forwarded(h.forwardedFor)| < depth
    ensures GetClientIp(Prepended(PrintIpv4(a, a, a, a), h), depth, fallback) == PrintIpv4(a, a, a, a)
  {
    OneClientEntry(a);
    ForwardedPrepended(PrintIpv4(a, a, a, a), h);
  }

  lemma ClientIgnored(client: string, h: Headers, depth: nat, fallback: string)
    requires h.forwardedFor.Some? && depth >= 1
    requires FromCdn(h) || |Forwarded(h.forwardedFor)| >= depth
    ensures GetClientIp(Prepended(client, h), depth, fallback) == GetClientIp(h, depth, fallback)
  {
    if !FromCdn(h) {
      ForwardedPrepended(client, h);
      PickFromRight(ValidEntries(Split(client, ',')), Forwarded(h.forwardedFor), depth);
    }
  }

  /**
   * Whatever a client writes before the comma leaves the answer alone, exactly when a CDN header
   * decides or the right part of the header holds at least `depth` valid addresses.
   */
  lemma NonInterferenceIff(h: Headers, depth: nat, fallback: string)
    requires h.forwardedFor.Some? && depth >= 1
    ensures (forall client :: GetClientIp(Prepended(client, h), depth, fallback) == GetClientIp(h, depth, fallback))
            <==> (FromCdn(h) || |Forwarded(h.forwardedFor)| >= depth)
  {
    if FromCdn(h) || |Forwarded(h.forwardedFor)| >= depth {
      forall client ensures GetClientIp(Prepended(client, h), depth, fallback) == GetClientIp(h, depth, fallback) {
        ClientIgnored(client, h, depth, fallback);
      }
    } else {
      ClientChooses(1, h, depth, fallback);
      ClientChooses(2, h, depth, fallback);
      if PrintIpv4(1, 1, 1, 1) == PrintIpv4(2, 2, 2, 2) { Ipv4Unique(1, 1, 1, 1, 2, 2, 2, 2); }
    }
  }

  // ---------------------------------------------------------------- what is returned

  function RawEntry(part: string): seq<string> { if Entry(part) != [] then [Trim(part)] else [] }

  /** The parts of the header that count, before stripping. */
  function RawEntries(header: Option<string>): seq<string> {
    if header.None? || header.value == "" then [] else FlatMap(RawEntry, Split(header.value, ','))
  }

  lemma OneRawEntry(part: string)
    ensures Map(StripPort, RawEntry(part)) == Entry(part)
    ensures forall i :: 0 <= i < |RawEntry(part)| ==> ValidIp(StripPort(RawEntry(part)[i]))
  {}

  lemma MapConcat<T, U>(f: T -> U, p: seq<T>, q: seq<T>)
    ensures Map(f, p + q) == Map(f, p) + Map(f, q)
  {}

  lemma {:induction false} RawEntriesOf(parts: seq<string>)
    ensures Map(StripPort, FlatMap(RawEntry, parts)) == FlatMap(Entry, parts)
  {
    if parts != [] {
      OneRawEntry(parts[0]);
      MapConcat(StripPort, RawEntry(parts[0]), FlatMap(RawEntry, parts[1..]));
      RawEntriesOf(parts[1..]);
    }
  }

  lemma RawEntriesStripped(header: Option<string>)
    ensures Map(StripPort, RawEntries(header)) == Forwarded(header)
    ensures |RawEntries(header)| == |Forwarded(header)|
  {
    if header.Some? && header.value != "" { RawEntriesOf(Split(header.value, ',')); }
  }

  /** The text, as it stands in the headers, that the answer is made from. */
  function Selected(h: Headers, depth: nat): Option<string>
    requires depth >= 1
  {
    RawEntriesStripped(h.forwardedFor);
    if FromCdn(h) then Some(CdnHeader(h))
    else if Forwarded(h.forwardedFor) != [] then Some(Pick(RawEntries(h.forwardedFor), depth))
    else
      var realIp := TrimmedHeader(h.realIp);
      if realIp != "" && ValidIp(StripPort(realIp)) then Some(realIp) else None
  }

  /**
   * The answer is the fallback, or the selected text stripped, which is valid; and it is an address
   * and nothing else exactly when the selected text has no brackets that hold more than one.
   */
  lemma AnswerIsBareIff(h: Headers, depth: nat, fallback: string)
    requires depth >= 1
    ensures var r := GetClientIp(h, depth, fallback);
            match Selected(h, depth)
            case None => r == fallback
            case Some(text) => r == StripPort(text) && ValidIp(r) && (Bare(r) <==> !CarriesMore(text))
  {
    RawEntriesStripped(h.forwardedFor);
    if h.forwardedFor.Some? { EntriesAreValid(Split(h.forwardedFor.value, ',')); }
    if Selected(h, depth).Some? { StrippedIsBareIff(Selected(h, depth).value); }
  }

  function OnlyForwarded(header: string): Headers { Headers(None, None, Some(header), None) }

  /** Brackets do let a port through: the answer is the inside, although it is not an address. */
  lemma BracketsKeepThePort(a: Octet, b: Octet, c: Octet, d: Octet, depth: nat, fallback: string)
    requires depth >= 1
    ensures var inside := PrintIpv4(a, b, c, d) + ":80";
            GetClientIp(OnlyForwarded("[" + inside + "]"), depth, fallback) == inside && !Bare(inside)
  {
    var host := PrintIpv4(a, b, c, d);
    PrintedIpv4IsAccepted(a, b, c, d);
    HostAndPort(host);
    NotBareWithPort(host);
    BracketedEntry(host + ":80");
  }

  /** A bracketed text alone in the header is an entry when its inside is valid. */
  lemma BracketedEntry(inside: string)
    requires ']' !in inside && ',' !in inside && inside != "" && ValidIp(inside)
    ensures Forwarded(Some("[" + inside + "]")) == [inside]
  {
    var text := "[" + inside + "]";
    BracketText(inside);
    SplitNone(text, ',');
    FlatMapOne(Entry, text);
  }

  lemma PortSuffix(host: string)
    requires Ipv4(host)
    ensures HasPort(host + ":80") && Trim(host + ":80") == host + ":80"
  {
    var inside := host + ":80";
    Ipv4Characters(host);
    AfterHost(host);
    assert AllDecimal("80");
    TrimOfTrimmed(inside);
  }

  lemma HostAndPort(host: string)
    requires Ipv4(host)
    ensures ValidIp(host + ":80") && ']' !in host + ":80" && ',' !in host + ":80"
  {
    PortSuffix(host);
    Ipv4Characters(host);
    AfterHost(host);
    Ipv4HasNoBracket(host);
    NoCommaIn(host);
  }

  lemma NotBareWithPort(host: string)
    requires Ipv4(host)
    ensures !Bare(host + ":80")
  {
    PortSuffix(host);
    PortIsNotIpv6(host + ":80");
    assert (host + ":80")[|host|] == ':';
    if Ipv4(host + ":80") { Ipv4Characters(host + ":80"); }
  }

  lemma AfterHost(host: string)
    requires ':' !in host
    ensures var inside := host + ":80";
            && IndexOf(inside, ':') == LastIndexOf(inside, ':') == |host|
            && inside[..|host|] == host && inside[|host| + 1..] == "80"
  {
    assert host + ":80" == host + [':'] + "80";
    IndexOfFirst(host, ':', "80");
    LastColonIs(host, "80");
  }

  lemma LastColonIs(host: string, port: string)
    requires ':' !in host && ':' !in port
    ensures LastIndexOf(host + [':'] + port, ':') == |host|
  {
    LastColonBefore(host + [':'], port);
  }

  lemma Ipv4HasNoBracket(ip: string)
    requires Ipv4(ip)
    ensures ']' !in ip
  {
    var parts := Split(ip, '.');
    JoinSplit(ip, '.');
    assert forall i | 0 <= i < 4 :: IsOctet(parts[i]);
    JoinCharacters(parts, '.');
  }

  lemma BracketText(inside: string)
    requires ']' !in inside && inside != ""
    ensures var text := "[" + inside + "]"; Trim(text) == text && StripPort(text) == inside
  {
    var t := "[" + inside + "]";
    assert !IsSpace('[') && !IsSpace(']');
    TrimOfTrimmed(t);
    assert ("[" + inside) + [']'] + "" == t;
    IndexOfFirst("[" + inside, ']', "");
    assert t[1..|inside| + 1] == inside;
  }
}
