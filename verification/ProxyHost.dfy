/** `proxy_host`: printing and parsing the authorities services are proxied under. */
module ProxyHost {
  import opened Text

  // ---- split_authority ----

  /** A name with its optional port, an IPvFuture literal likewise, any other literal in brackets
      (an IPv6 address or a `ValueError`), or a `ValueError`. */
  datatype Split = Named(host: string, port: Option<nat>) | Future(host: string, port: Option<nat>) | Literal | Invalid {
    predicate HasHost() {
      Named? || Future?
    }
  }

  /** What URL parsing removes wherever it stands. */
  function Visible(s: string): string {
    if s == "" then "" else (if s[0] in {'\t', '\n', '\r'} then "" else [s[0]]) + Visible(s[1..])
  }

  /** The network location: up to the first of `/`, `?` and `#`. */
  function Netloc(s: string): string {
    if s == "" || s[0] in {'/', '?', '#'} then "" else [s[0]] + Netloc(s[1..])
  }

  /** After the last `@`. */
  function HostInfo(s: string): (r: string)
    ensures |r| <= |s| && r == s[|s| - |r|..] && '@' !in r
  {
    if '@' !in s then s else HostInfo(s[1..])
  }

  /** Before the last `@`, or empty. */
  function UserInfo(s: string): string {
    if '@' in s && |HostInfo(s)| < |s| then s[..|s| - |HostInfo(s)| - 1] else ""
  }

  function WithoutTrailingDots(s: string): (r: string)
    ensures r <= s && (r != "" ==> r[|r| - 1] != '.')
  {
    if s != "" && s[|s| - 1] == '.' then WithoutTrailingDots(s[..|s| - 1]) else s
  }

  predicate IsDigits(s: string) {
    s != "" && forall i | 0 <= i < |s| :: '0' <= s[i] <= '9'
  }

  function ParseDecimal(s: string): nat
    requires forall i | 0 <= i < |s| :: '0' <= s[i] <= '9'
  {
    if s == "" then 0 else 10 * ParseDecimal(s[..|s| - 1]) + (s[|s| - 1] as int - '0' as int)
  }

  const MAX_PORT := 65535

  /** `None` is a `ValueError`; no port is a port of `None`. */
  function ParsePort(port: string): Option<Option<nat>> {
    if port == "" then Some(None)
    else if !IsDigits(port) || ParseDecimal(port) > MAX_PORT then None
    else Some(Some(ParseDecimal(port)))
  }

  predicate IsHex(c: char) {
    '0' <= c <= '9' || 'a' <= c <= 'f' || 'A' <= c <= 'F'
  }

  /** A `v`, hexadecimal digits, a dot and something more. */
  predicate IsFuture(s: string) {
    var version := Before(s, '.');
    && |s| > |version| + 1 && |version| > 1 && version[0] == 'v'
    && forall i | 1 <= i < |version| :: IsHex(version[i])
  }

  /** A host in brackets, nothing before them and only a port behind. */
  function SplitBracketed(info: string): Split {
    if info == "" || info[0] != '[' then Invalid
    else
      var inner := Before(info[1..], ']');
      if |inner| + 1 >= |info| then Invalid
      else
        var rest := info[|inner| + 2..];
        if rest != "" && rest[0] != ':' then Invalid
        else if !IsFuture(inner) then Literal
        else
          var port := ParsePort(if rest == "" then "" else rest[1..]);
          if port.None? then Invalid else Future(WithoutTrailingDots(CaseFold(inner)), port.value)
  }

  function SplitAuthority(authority: string): Split {
    var netloc := Netloc(Visible(authority));
    var info := HostInfo(netloc);
    if ('[' in netloc) != (']' in netloc) || UserInfo(netloc) !in {"", ":"} then Invalid
    else if '[' in netloc then SplitBracketed(info)
    else
      var name := Before(info, ':');
      var port := ParsePort(if |name| < |info| then info[|name| + 1..] else "");
      if name == "" || port.None? then Invalid else Named(WithoutTrailingDots(CaseFold(name)), port.value)
  }

  // ---- service_slug_from_host, service_authority, dispatch ----

  predicate EndsWith(s: string, suffix: string) {
    |suffix| <= |s| && s[|s| - |suffix|..] == suffix
  }

  /** The slug, or nothing when there is none or a `ValueError` is raised: callers treat both alike. */
  function ServiceSlugFromHost(host: string, base: string): Option<string> {
    var h := SplitAuthority(host);
    var b := SplitAuthority(base);
    if !h.HasHost() || !b.HasHost() || h.port != b.port then None
    else
      var suffix := "." + b.host;
      if !EndsWith(h.host, suffix) then None
      else
        var slug := h.host[..|h.host| - |suffix|];
        if IsSlug(slug) then Some(slug) else None
  }

  function Decimal(n: nat): (s: string) {
    (if n < 10 then "" else Decimal(n / 10)) + [(n % 10 + '0' as int) as char]
  }

  function PortSuffix(port: Option<nat>): string {
    if port.None? then "" else ":" + Decimal(port.value)
  }

  function ServiceAuthority(slug: string, base: string): Option<string> {
    var b := SplitAuthority(base);
    if !IsSlug(slug) || !b.HasHost() then None else Some(slug + "." + b.host + PortSuffix(b.port))
  }

  /** `_is_proxy_authority` for hosts that are not IPv6 addresses: the requests the portal hands to the proxy. */
  predicate IsProxyAuthority(host: string, base: string) {
    var h := SplitAuthority(host);
    var b := SplitAuthority(base);
    h.HasHost() && b.HasHost() && h.port == b.port && (h.host == b.host || EndsWith(h.host, "." + b.host))
  }

  // ---- decimals ----

  lemma {:induction false} DecimalParses(n: nat)
    ensures IsDigits(Decimal(n)) && ParseDecimal(Decimal(n)) == n
    decreases n
  {
    var front := if n < 10 then "" else Decimal(n / 10);
    var last := (n % 10 + '0' as int) as char;
    if n >= 10 {
      DecimalParses(n / 10);
    }
    assert Decimal(n) == front + [last];
    DigitAppended(front, last);
    assert ParseDecimal(front) == n / 10;
  }

  lemma DigitAppended(front: string, last: char)
    requires (forall i | 0 <= i < |front| :: '0' <= front[i] <= '9') && '0' <= last <= '9'
    ensures IsDigits(front + [last])
    ensures ParseDecimal(front + [last]) == 10 * ParseDecimal(front) + (last as int - '0' as int)
  {
    assert (front + [last])[..|front|] == front;
  }

  // ---- plain names ----

  /** Characters that mean something to the parser. */
  predicate Special(c: char) {
    c == '/' || c == '?' || c == '#' || c == '@' || c == ':' || c == '[' || c == ']' || c == '\t' || c == '\n' || c == '\r'
  }

  predicate Plain(s: string) {
    forall i | 0 <= i < |s| :: !Special(s[i])
  }

  lemma {:induction false} PlainIsVisible(s: string)
    requires forall i | 0 <= i < |s| :: s[i] != '\t' && s[i] != '\n' && s[i] != '\r'
    ensures Visible(s) == s
    decreases |s|
  {
    if s != "" { PlainIsVisible(s[1..]); }
  }

  lemma {:induction false} PlainIsNetloc(s: string)
    requires forall i | 0 <= i < |s| :: s[i] != '/' && s[i] != '?' && s[i] != '#'
    ensures Netloc(s) == s
    decreases |s|
  {
    if s != "" { PlainIsNetloc(s[1..]); }
  }

  lemma {:induction false} VisibleHolds(s: string)
    ensures forall i | 0 <= i < |Visible(s)| :: Visible(s)[i] != '\t' && Visible(s)[i] != '\n' && Visible(s)[i] != '\r'
    decreases |s|
  {
    if s != "" { VisibleHolds(s[1..]); }
  }

  lemma {:induction false} NetlocHolds(s: string)
    ensures Netloc(s) <= s
    ensures forall i | 0 <= i < |Netloc(s)| :: Netloc(s)[i] != '/' && Netloc(s)[i] != '?' && Netloc(s)[i] != '#'
    decreases |s|
  {
    if s != "" && s[0] !in {'/', '?', '#'} {
      NetlocHolds(s[1..]);
      assert s == [s[0]] + s[1..];
    }
  }

  lemma {:induction false} BeforeHolds(s: string, c: char)
    ensures Before(s, c) <= s && c !in Before(s, c)
    ensures |Before(s, c)| < |s| ==> s[|Before(s, c)|] == c
    decreases |s|
  {
    if s != "" && s[0] != c {
      BeforeHolds(s[1..], c);
      assert s == [s[0]] + s[1..];
    }
  }

  lemma {:induction false} BeforeFirst(name: string, rest: string, c: char)
    requires c !in name
    ensures Before(name + [c] + rest, c) == name && Before(name, c) == name
    decreases |name|
  {
    if name != "" {
      assert (name + [c] + rest)[1..] == name[1..] + [c] + rest;
      assert name == [name[0]] + name[1..];
      BeforeFirst(name[1..], rest, c);
    } else {
      assert name + [c] + rest == [c] + rest;
    }
  }

  // ---- folding ----

  /** Folding makes no character special. */
  lemma {:induction false} FoldAddsNothing(s: string)
    ensures forall c | Special(c) && c in CaseFold(s) :: c in s
    decreases |s|
  {
    hide Special;
    if s != "" {
      FoldAddsNothing(s[1..]);
      FoldCharAddsNothing(s[0]);
      assert s == [s[0]] + s[1..];
    }
  }

  lemma FoldCharAddsNothing(c: char)
    ensures forall d | Special(d) && d in FoldChar(c) :: d == c
  {}

  lemma FoldOfPlain(s: string)
    requires Plain(s)
    ensures Plain(CaseFold(s))
  {
    hide CaseFold, Special;
    FoldAddsNothing(s);
    forall i | 0 <= i < |CaseFold(s)| ensures !Special(CaseFold(s)[i]) {
      assert CaseFold(s)[i] in CaseFold(s);
    }
  }

  lemma {:induction false} FoldOfPrefix(s: string, n: nat)
    requires n <= |s| && CaseFold(s) == s
    ensures CaseFold(s[..n]) == s[..n]
  {
    hide CaseFold;
    var front, back := CaseFold(s[..n]), CaseFold(s[n..]);
    FoldConcat(s[..n], s[n..]);
    assert s == s[..n] + s[n..];
    assert s == front + back;
    FoldGrows(s[..n]);
    FoldGrows(s[n..]);
    assert s[..n] == (front + back)[..|front|];
  }

  lemma {:induction false} FoldGrows(s: string)
    ensures |CaseFold(s)| >= |s|
    decreases |s|
  {
    if s != "" { FoldGrows(s[1..]); }
  }

  // ---- what a parsed host looks like ----

  /** The host of a parsed authority: plain, folded, and without a final dot. */
  ghost predicate Canonical(host: string) {
    Plain(host) && CaseFold(host) == host && (host != "" ==> host[|host| - 1] != '.')
  }

  lemma PlainWithin(s: string, part: string, from: nat)
    requires Plain(s) && from + |part| <= |s| && part == s[from..from + |part|]
    ensures Plain(part)
  {
    forall i | 0 <= i < |part| ensures !Special(part[i]) { assert part[i] == s[from + i]; }
  }

  lemma ParsedIsCanonical(authority: string)
    ensures
      var r := SplitAuthority(authority);
      r.Named? ==> Canonical(r.host) && (r.port.Some? ==> r.port.value <= MAX_PORT)
  {
    hide CaseFold, Visible, Netloc, HostInfo, UserInfo, Before, ParseDecimal, WithoutTrailingDots, IsDigits, SplitBracketed;
    BracketedIsNotNamed(HostInfo(Netloc(Visible(authority))));
    var r := SplitAuthority(authority);
    if r.Named? {
      var visible := Visible(authority);
      var netloc := Netloc(visible);
      var info := HostInfo(netloc);
      var name := Before(info, ':');
      VisibleHolds(authority);
      NetlocHolds(visible);
      BeforeHolds(info, ':');
      forall i | 0 <= i < |name| ensures !Special(name[i]) {
        assert name[i] == info[i];
        assert info[i] == netloc[|netloc| - |info| + i];
        assert netloc[|netloc| - |info| + i] == visible[|netloc| - |info| + i];
        assert name[i] in name && info[i] in info && info[i] in netloc;
      }
      FoldOfFold(name);
      FoldOfPlain(name);
      var folded := CaseFold(name);
      FoldOfPrefix(folded, |r.host|);
      assert r.host == folded[..|r.host|];
      PlainWithin(folded, r.host, 0);
    }
  }

  lemma BracketedIsNotNamed(info: string)
    ensures !SplitBracketed(info).Named?
  {}

  /** A folded IPvFuture host keeps no delimiter but `:` and `[`. */
  lemma FutureHasFewDelimiters(authority: string)
    requires SplitAuthority(authority).Future?
    ensures
      var host := SplitAuthority(authority).host;
      && host != "" && CaseFold(host) == host && host[|host| - 1] != '.'
      && forall c | Special(c) && c in host :: c == ':' || c == '['
  {
    hide CaseFold, Visible, Netloc, HostInfo, UserInfo, Before, ParsePort, WithoutTrailingDots, Special;
    var visible := Visible(authority);
    var netloc := Netloc(visible);
    var info := HostInfo(netloc);
    var inner := Before(info[1..], ']');
    var host := SplitAuthority(authority).host;
    VisibleHolds(authority);
    NetlocHolds(visible);
    BeforeHolds(info[1..], ']');
    FutureStarts(inner);
    FoldOfFold(inner);
    FoldOfPrefix(CaseFold(inner), |host|);
    assert host == CaseFold(inner)[..|host|];
    FoldAddsNothing(inner);
    forall c | Special(c) && c in host ensures c == ':' || c == '[' {
      assert c in CaseFold(inner);
      var i :| 0 <= i < |inner| && inner[i] == c;
      assert info[1..][i] == c && info[i + 1] == c;
      assert netloc[|netloc| - |info| + i + 1] == c;
      assert visible[|netloc| - |info| + i + 1] == c;
      SpecialsAre(c);
    }
  }

  lemma SpecialsAre(c: char)
    requires Special(c)
    ensures c in {'/', '?', '#', '@', ':', '[', ']', '\t', '\n', '\r'}
  {}

  /** The version of an IPvFuture literal is left when its dots are dropped. */
  lemma FutureStarts(inner: string)
    requires IsFuture(inner)
    ensures WithoutTrailingDots(CaseFold(inner)) != ""
  {
    hide CaseFold, IsHex;
    BeforeHolds(inner, '.');
    assert inner[0] == 'v';
    FoldStartsWithV(inner);
    DotsKeepHead(CaseFold(inner));
  }

  lemma FoldStartsWithV(s: string)
    requires s != "" && s[0] == 'v'
    ensures CaseFold(s) != "" && CaseFold(s)[0] == 'v'
  {}

  lemma {:induction false} DotsKeepHead(s: string)
    requires s != "" && s[0] != '.'
    ensures WithoutTrailingDots(s) != ""
    decreases |s|
  {
    if s[|s| - 1] == '.' { DotsKeepHead(s[..|s| - 1]); }
  }

  /** None of the characters that delimit anything but the port. */
  predicate Undelimited(s: string) {
    forall i | 0 <= i < |s| :: s[i] == ':' || !Special(s[i])
  }

  lemma UndelimitedIsHostInfo(text: string)
    requires Undelimited(text)
    ensures Netloc(Visible(text)) == text && HostInfo(text) == text && UserInfo(text) == ""
    ensures '[' !in text && ']' !in text
  {
    hide Visible, Netloc, HostInfo, UserInfo;
    assert forall c | c in text :: c == ':' || !Special(c);
    PlainIsVisible(text);
    PlainIsNetloc(text);
    NobodyNamed(text);
  }

  lemma NobodyNamed(text: string)
    requires '@' !in text
    ensures HostInfo(text) == text && UserInfo(text) == ""
  {}

  lemma PrintedIsUndelimited(host: string, port: Option<nat>)
    requires Plain(host)
    ensures Undelimited(host + PortSuffix(port))
  {
    hide Decimal;
    if port.Some? { DecimalParses(port.value); }
  }

  /** A printed authority parses to what was printed. */
  lemma PrintedParses(host: string, port: Option<nat>)
    requires Canonical(host) && host != "" && (port.Some? ==> port.value <= MAX_PORT)
    ensures SplitAuthority(host + PortSuffix(port)) == Named(host, port)
  {
    hide SplitAuthority, PortSuffix, Decimal, Undelimited, IsDigits, Plain;
    PrintedIsUndelimited(host, port);
    UndelimitedIsHostInfo(host + PortSuffix(port));
    NameAndPort(host, port);
    if port.Some? {
      DecimalParses(port.value);
      DigitsNotEmpty(Decimal(port.value));
    }
    AuthorityInParts(host + PortSuffix(port), host, port);
  }

  /** What parsing makes of a text whose parts are known. */
  lemma AuthorityInParts(text: string, host: string, port: Option<nat>)
    requires Netloc(Visible(text)) == text && HostInfo(text) == text && UserInfo(text) == ""
    requires '[' !in text && ']' !in text
    requires Canonical(host) && host != "" && Before(text, ':') == host
    requires port.None? ==> text == host
    requires port.Some? ==>
      && |text| > |host| + 1 && IsDigits(text[|host| + 1..])
      && ParseDecimal(text[|host| + 1..]) == port.value <= MAX_PORT
    ensures SplitAuthority(text) == Named(host, port)
  {
    hide CaseFold, Visible, Netloc, HostInfo, UserInfo, Before, ParseDecimal, IsDigits, Plain, WithoutTrailingDots;
    NoTrailingDots(host);
  }

  lemma NoTrailingDots(host: string)
    requires host != "" ==> host[|host| - 1] != '.'
    ensures WithoutTrailingDots(host) == host
  {}

  /** The name ends at the colon, and the port is what follows it. */
  lemma NameAndPort(host: string, port: Option<nat>)
    requires Plain(host)
    ensures Before(host + PortSuffix(port), ':') == host
    ensures port.Some? ==> (host + PortSuffix(port))[|host| + 1..] == Decimal(port.value)
    ensures port.Some? ==> |host + PortSuffix(port)| > |host|
    ensures port.None? ==> host + PortSuffix(port) == host
  {
    hide Before, Decimal;
    assert forall c | c in host :: !Special(c);
    var text := host + PortSuffix(port);
    if port.Some? {
      var digits := Decimal(port.value);
      BeforeFirst(host, digits, ':');
      assert text == host + [':'] + digits;
      assert text[|host| + 1..] == digits;
    } else {
      BeforeFirst(host, "", ':');
      assert text == host;
    }
  }

  lemma DigitsNotEmpty(digits: string)
    ensures IsDigits(digits) ==> digits != ""
  {}

  // ---- theorems ----

  lemma SlugHostIsCanonical(slug: string, base: string)
    requires IsSlug(slug) && Canonical(base) && base != ""
    ensures Canonical(slug + "." + base)
  {
    hide CaseFold;
    assert forall i | 0 <= i < |slug| :: slug[i] in slug;
    HostIsFolded(slug, base);
    var host := slug + "." + base;
    forall i | 0 <= i < |host| ensures !Special(host[i]) {
      if i < |slug| {
        assert host[i] == slug[i];
      } else if i > |slug| {
        assert host[i] == base[i - |slug| - 1];
      }
    }
  }

  lemma SingleDot()
    ensures CaseFold(".") == "."
  {}

  /** Parsing a printed service authority gives back its slug if and only if the base domain has
      a host once its trailing dots are dropped, and that host, which an IPvFuture literal may
      spell with them, is free of colons and brackets. */
  lemma SlugRoundTripIff(slug: string, base: string)
    requires IsSlug(slug) && SplitAuthority(base).HasHost()
    ensures
      var host := SplitAuthority(base).host;
      ServiceSlugFromHost(ServiceAuthority(slug, base).value, base) == Some(slug) <==> host != "" && Plain(host)
  {
    hide SplitAuthority, CaseFold, Plain, Special;
    var b := SplitAuthority(base);
    var text := ServiceAuthority(slug, base).value;
    ParsedIsCanonical(base);
    if b.Future? { FutureHasFewDelimiters(base); }
    PortFits(base);
    if b.host != "" && Plain(b.host) {
      SlugHostIsCanonical(slug, b.host);
      PrintedParses(slug + "." + b.host, b.port);
      SlugIff(text, base, slug);
    } else if b.host == "" {
      ParsedIsCanonical(text);
      ParsedHasNoFinalDot(text);
      SlugIff(text, base, slug);
    } else {
      DelimitedHostIsLost(slug, b.host, b.port);
      SlugIff(text, base, slug);
    }
  }

  lemma PortFits(authority: string)
    ensures var r := SplitAuthority(authority); r.HasHost() && r.port.Some? ==> r.port.value <= MAX_PORT
  {
    hide CaseFold, Visible, Netloc, HostInfo, UserInfo, Before, ParseDecimal, WithoutTrailingDots, IsDigits, IsFuture;
  }

  lemma ParsedHasNoFinalDot(authority: string)
    ensures var r := SplitAuthority(authority); r.HasHost() && r.host != "" ==> r.host[|r.host| - 1] != '.'
  {
    hide CaseFold, Visible, Netloc, HostInfo, UserInfo, Before, ParsePort, WithoutTrailingDots, IsFuture;
  }

  /** With a bracket or a colon in the base host the printed authority parses to something else. */
  lemma DelimitedHostIsLost(slug: string, host: string, port: Option<nat>)
    requires IsSlug(slug) && !Plain(host) && CaseFold(host) == host
    requires forall c | Special(c) && c in host :: c == ':' || c == '['
    ensures
      var r := SplitAuthority(slug + "." + host + PortSuffix(port));
      r.HasHost() ==> r.host != slug + "." + host
  {
    hide *;
    var text := slug + "." + host + PortSuffix(port);
    PrintedIsNetloc(slug, host, port);
    HostIsFolded(slug, host);
    ColonInPlainHost(host);
    if '[' !in text {
      NameEndsInHost(slug + ".", host, PortSuffix(port));
      ShorterName(text, slug + "." + host);
    } else {
      OneSidedBracket(text);
    }
  }

  lemma ColonInPlainHost(host: string)
    requires !Plain(host) && forall c | Special(c) && c in host :: c == ':' || c == '['
    ensures '[' !in host ==> ':' in host
  {
    hide Special;
    var k :| 0 <= k < |host| && Special(host[k]);
    assert host[k] in host;
  }

  lemma PrintedIsNetloc(slug: string, host: string, port: Option<nat>)
    requires IsSlug(slug) && forall c | Special(c) && c in host :: c == ':' || c == '['
    ensures
      var text := slug + "." + host + PortSuffix(port);
      && Netloc(Visible(text)) == text && HostInfo(text) == text && UserInfo(text) == ""
      && ']' !in text && ('[' in text <==> '[' in host)
  {
    hide Visible, Netloc, HostInfo, UserInfo, Decimal;
    var text := slug + "." + host + PortSuffix(port);
    PrintedHasFewDelimiters(slug, host, port);
    assert forall i | 0 <= i < |text| :: text[i] in text;
    PlainIsVisible(text);
    PlainIsNetloc(text);
    NobodyNamed(text);
    assert forall i | 0 <= i < |host| :: host[i] == text[|slug| + 1 + i];
    if '[' in text { BracketIsInHost(slug, host, port); }
  }

  lemma BracketIsInHost(slug: string, host: string, port: Option<nat>)
    requires IsSlug(slug) && '[' in slug + "." + host + PortSuffix(port)
    ensures '[' in host
  {
    hide Decimal;
    if port.Some? { DecimalParses(port.value); }
  }

  /** The first colon lies in the host, so the name before it is a proper part of slug and host. */
  lemma NameEndsInHost(lead: string, host: string, trail: string)
    requires ':' in host
    ensures
      var name := Before(lead + host + trail, ':');
      |name| < |lead + host| && name == (lead + host)[..|name|]
  {
    hide Before;
    var text := lead + host + trail;
    var name := Before(text, ':');
    BeforeHolds(text, ':');
    var k :| 0 <= k < |host| && host[k] == ':';
    assert text[|lead| + k] == ':';
    assert forall i | 0 <= i < |name| :: name[i] in name && text[i] == name[i];
    assert text[..|name|] == (lead + host)[..|name|];
  }

  lemma ShorterName(text: string, wanted: string)
    requires Netloc(Visible(text)) == text && HostInfo(text) == text && '[' !in text
    requires CaseFold(wanted) == wanted
    requires |Before(text, ':')| < |wanted| && Before(text, ':') == wanted[..|Before(text, ':')|]
    ensures var r := SplitAuthority(text); r.HasHost() ==> r.host != wanted
  {
    hide CaseFold, Visible, Netloc, HostInfo, UserInfo, Before, ParsePort, SplitBracketed, WithoutTrailingDots;
    FoldOfPrefix(wanted, |Before(text, ':')|);
  }

  lemma OneSidedBracket(text: string)
    requires Netloc(Visible(text)) == text && '[' in text && ']' !in text
    ensures !SplitAuthority(text).HasHost()
  {}

  lemma HostIsFolded(slug: string, host: string)
    requires IsSlug(slug) && CaseFold(host) == host
    ensures CaseFold(slug + "." + host) == slug + "." + host
  {
    hide CaseFold;
    assert forall i | 0 <= i < |slug| :: slug[i] in slug;
    LowerCaseFolds(slug);
    FoldConcat(slug + ".", host);
    FoldConcat(slug, ".");
    SingleDot();
  }

  lemma PrintedHasFewDelimiters(slug: string, host: string, port: Option<nat>)
    requires IsSlug(slug) && forall c | Special(c) && c in host :: c == ':' || c == '['
    ensures
      var text := slug + "." + host + PortSuffix(port);
      forall c | Special(c) && c in text :: c == ':' || c == '['
  {
    hide Decimal;
    if port.Some? { DecimalParses(port.value); }
    var text := slug + "." + host + PortSuffix(port);
    forall c | Special(c) && c in text ensures c == ':' || c == '[' {
      assert c in slug || c in "." || c in host || c in PortSuffix(port);
      if port.Some? && c in PortSuffix(port) {
        assert c == ':' || c in Decimal(port.value);
      }
    }
  }

  /** A host yields slug `s` exactly when it parses to `s` in front of the base, on its port. */
  lemma SlugIff(host: string, base: string, slug: string)
    requires SplitAuthority(base).HasHost()
    ensures
      var h := SplitAuthority(host);
      var b := SplitAuthority(base);
      ServiceSlugFromHost(host, base) == Some(slug) <==>
        IsSlug(slug) && h.HasHost() && h.host == slug + "." + b.host && h.port == b.port
  {
    hide SplitAuthority;
    var b := SplitAuthority(base);
    var h := SplitAuthority(host);
    var suffix := "." + b.host;
    if h.HasHost() && h.host == slug + "." + b.host {
      assert h.host[|h.host| - |suffix|..] == suffix && h.host[..|h.host| - |suffix|] == slug;
    }
    if ServiceSlugFromHost(host, base) == Some(slug) {
      assert h.host == h.host[..|h.host| - |suffix|] + h.host[|h.host| - |suffix|..];
      assert slug + suffix == slug + "." + b.host;
    }
  }

  /** No two services share an authority. */
  lemma AuthoritiesAreApart(one: string, two: string, base: string)
    requires SplitAuthority(base).HasHost() && IsSlug(one) && IsSlug(two)
    requires ServiceAuthority(one, base) == ServiceAuthority(two, base)
    ensures one == two
  {
    hide SplitAuthority, PortSuffix;
    var b := SplitAuthority(base);
    var rest := "." + b.host + PortSuffix(b.port);
    var text := ServiceAuthority(one, base).value;
    assert text == one + rest == two + rest;
    assert |one| == |two| && text[..|one|] == one && text[..|two|] == two;
  }

  /** Every host that names a service reaches the proxy. */
  lemma SlugHostsReachTheProxy(host: string, base: string)
    requires ServiceSlugFromHost(host, base).Some?
    ensures IsProxyAuthority(host, base)
  {
    hide SplitAuthority;
  }

  lemma {:induction false} HostInfoAfter(lead: string, rest: string)
    requires '@' !in rest
    ensures HostInfo(lead + "@" + rest) == rest
    decreases |lead|
  {
    var text := lead + "@" + rest;
    assert text[|lead|] == '@';
    if lead == "" {
      assert text[1..] == rest;
    } else {
      assert text[1..] == lead[1..] + "@" + rest;
      HostInfoAfter(lead[1..], rest);
    }
  }

  /** An authority with a user name or a password is refused, whatever host follows. */
  lemma UserInfoIsRefused(user: string, rest: string)
    requires Undelimited(user) && user != "" && user != ":" && Undelimited(rest)
    ensures SplitAuthority(user + "@" + rest) == Invalid
  {
    hide Visible, Netloc, HostInfo, Special, Before, ParsePort, SplitBracketed, WithoutTrailingDots, CaseFold;
    var text := user + "@" + rest;
    forall i | 0 <= i < |text| ensures text[i] == '@' || text[i] == ':' || !Special(text[i]) {
      if i < |user| {
        assert text[i] == user[i];
      } else if i > |user| {
        assert text[i] == rest[i - |user| - 1];
      }
    }
    NoDelimiters(text);
    UndelimitedHasNoAt(rest);
    HostInfoAfter(user, rest);
    assert text[..|user|] == user;
    assert text[|user|] == '@';
  }

  lemma NoDelimiters(text: string)
    requires forall i | 0 <= i < |text| :: text[i] == '@' || text[i] == ':' || !Special(text[i])
    ensures Netloc(Visible(text)) == text
  {
    hide Visible, Netloc;
    PlainIsVisible(text);
    PlainIsNetloc(text);
  }

  lemma UndelimitedHasNoAt(text: string)
    requires Undelimited(text)
    ensures '@' !in text
  {}
}
