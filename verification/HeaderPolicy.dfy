/** `proxy_header_policy`: what of an upstream response reaches the browser. Header names and
    values are the Latin-1 decoding of the bytes on the wire. */
module HeaderPolicy {
  import opened Text

  datatype Header = Header(name: string, value: string)

  /** The names of the portal's own cookies. */
  datatype Settings = Settings(sessionCookie: string, proxyCookie: string)

  const HOP_BY_HOP: set<string> := {
    "connection", "keep-alive", "proxy-authenticate", "proxy-authorization", "te", "trailer",
    "transfer-encoding", "upgrade"}

  const PRIVATE: set<string> := {"server", "proxy-status", "www-authenticate"}

  const RESERVED_PREFIXES: set<string> := {"auth_portal_", "__host-auth_portal", "__secure-auth_portal"}

  // ---- specification ----

  function Name(header: Header): string {
    CaseFold(header.name)
  }

  function TokensOf(items: seq<string>): set<string> {
    set i | 0 <= i < |items| :: CaseFold(Strip(items[i]))
  }

  /** The field names listed by the Connection headers (section 7.6.1 of RFC 9110). */
  function ConnectionTokens(headers: seq<Header>): set<string> {
    if headers == [] then {}
    else
      (if Name(headers[0]) == "connection" then TokensOf(Split(headers[0].value, ',')) else {})
      + ConnectionTokens(headers[1..])
  }

  function BlockedNames(headers: seq<Header>): set<string> {
    HOP_BY_HOP + ConnectionTokens(headers) + PRIVATE
  }

  function Cleaned(pieces: seq<string>): seq<string> {
    if pieces == [] then []
    else (if Strip(pieces[0]) != "" then [Strip(pieces[0])] else []) + Cleaned(pieces[1..])
  }

  /** The non-blank, stripped pieces between semicolons. */
  function Parts(value: string): seq<string> {
    Cleaned(Split(value, ';'))
  }

  function Attribute(part: string): string {
    CaseFold(Strip(Before(part, '=')))
  }

  predicate SetsDomain(part: string) {
    Attribute(part) == "domain"
  }

  predicate Reserved(name: string, settings: Settings) {
    || name in {CaseFold(settings.sessionCookie), CaseFold(settings.proxyCookie)}
    || exists prefix | prefix in RESERVED_PREFIXES :: prefix <= name
  }

  function WithoutDomain(parts: seq<string>): seq<string> {
    if parts == [] then []
    else (if SetsDomain(parts[0]) then [] else [parts[0]]) + WithoutDomain(parts[1..])
  }

  function SafeCookie(value: string, settings: Settings): Option<string> {
    var parts := Parts(value);
    if parts == [] || '=' !in parts[0] then None
    else if Reserved(Attribute(parts[0]), settings) then None
    else Some(Join([parts[0]] + WithoutDomain(parts[1..]), "; "))
  }

  /** What becomes of one header: nothing, or one header. */
  function Passed(header: Header, blocked: set<string>, settings: Settings): Option<Header> {
    if Name(header) in blocked then None
    else if Name(header) != "set-cookie" then Some(header)
    else
      var safe := SafeCookie(header.value, settings);
      if safe.None? || safe.value == "" then None else Some(Header("set-cookie", safe.value))
  }

  function PassedAll(headers: seq<Header>, blocked: set<string>, settings: Settings): seq<Header> {
    if headers == [] then []
    else
      var first := Passed(headers[0], blocked, settings);
      (if first.Some? then [first.value] else []) + PassedAll(headers[1..], blocked, settings)
  }

  function Filtered(headers: seq<Header>, settings: Settings): seq<Header> {
    PassedAll(headers, BlockedNames(headers), settings)
  }

  // ---- the code ----

  lemma NoTokens(headers: seq<Header>)
    ensures ConnectionTokens(headers[|headers|..]) == {} && headers[0..] == headers
  {}

  lemma OneMoreHeader(headers: seq<Header>, i: nat)
    requires i < |headers|
    ensures ConnectionTokens(headers[i..]) ==
      (if Name(headers[i]) == "connection" then TokensOf(Split(headers[i].value, ',')) else {}) + ConnectionTokens(headers[i + 1..])
  {
    hide CaseFold, Strip, Split;
    assert headers[i..][1..] == headers[i + 1..];
  }

  method CollectTokens(headers: seq<Header>) returns (tokens: set<string>)
    ensures tokens == ConnectionTokens(headers)
  {
    hide CaseFold, Strip, Split, ConnectionTokens;
    tokens := {};
    NoTokens(headers);
    for i := 0 to |headers|
      invariant tokens + ConnectionTokens(headers[i..]) == ConnectionTokens(headers)
    {
      OneMoreHeader(headers, i);
      if CaseFold(headers[i].name) == "connection" {
        var items := Split(headers[i].value, ',');
        tokens := tokens + set k | 0 <= k < |items| :: CaseFold(Strip(items[k]));
      }
    }
  }

  method RewriteSetCookie(value: string, settings: Settings) returns (rewritten: Option<string>)
    ensures rewritten == SafeCookie(value, settings)
  {
    hide Attribute, SetsDomain, Reserved, Parts, Join;
    var parts := Parts(value);
    if parts == [] || '=' !in parts[0] {
      return None;
    }
    if Reserved(Attribute(parts[0]), settings) {
      return None;
    }
    var safe := [parts[0]];
    for i := 1 to |parts|
      invariant safe + WithoutDomain(parts[i..]) == [parts[0]] + WithoutDomain(parts[1..])
    {
      assert parts[i..][1..] == parts[i + 1..];
      if !SetsDomain(parts[i]) {
        safe := safe + [parts[i]];
      }
    }
    assert WithoutDomain(parts[|parts|..]) == [];
    assert safe == [parts[0]] + WithoutDomain(parts[1..]);
    return Some(Join(safe, "; "));
  }

  lemma NothingLeftToPass(headers: seq<Header>, blocked: set<string>, settings: Settings)
    ensures PassedAll(headers[|headers|..], blocked, settings) == [] && headers[0..] == headers
  {}

  lemma OneMorePassed(headers: seq<Header>, i: nat, blocked: set<string>, settings: Settings)
    requires i < |headers|
    ensures
      var passed := Passed(headers[i], blocked, settings);
      PassedAll(headers[i..], blocked, settings) ==
        (if passed.Some? then [passed.value] else []) + PassedAll(headers[i + 1..], blocked, settings)
  {
    hide CaseFold, SafeCookie, Passed;
    assert headers[i..][1..] == headers[i + 1..];
  }

  method FilterResponseHeaders(headers: seq<Header>, settings: Settings) returns (result: seq<Header>)
    ensures result == Filtered(headers, settings)
  {
    hide CaseFold, SafeCookie, ConnectionTokens, PassedAll;
    var tokens := CollectTokens(headers);
    var blocked := HOP_BY_HOP + tokens + PRIVATE;
    result := [];
    NothingLeftToPass(headers, blocked, settings);
    for i := 0 to |headers|
      invariant result + PassedAll(headers[i..], blocked, settings) == PassedAll(headers, blocked, settings)
    {
      OneMorePassed(headers, i, blocked, settings);
      var name := CaseFold(headers[i].name);
      if name in blocked {
        continue;
      }
      if name == "set-cookie" {
        var rewritten := RewriteSetCookie(headers[i].value, settings);
        if rewritten.Some? && rewritten.value != "" {
          result := result + [Header("set-cookie", rewritten.value)];
        }
        continue;
      }
      result := result + [headers[i]];
    }
  }

  // ---- cookies ----

  /** A part that survives splitting, stripping and joining. */
  predicate CleanPart(part: string) {
    part != "" && Stripped(part) && ';' !in part
  }

  lemma {:induction false} CleanedAreClean(pieces: seq<string>)
    requires forall i | 0 <= i < |pieces| :: ';' !in pieces[i]
    ensures forall i | 0 <= i < |Cleaned(pieces)| :: CleanPart(Cleaned(pieces)[i])
    decreases |pieces|
  {
    if pieces != [] {
      CleanedAreClean(pieces[1..]);
      StripIsStripped(pieces[0]);
      if ';' in Strip(pieces[0]) { StripWithin(pieces[0], ';'); }
    }
  }

  lemma PartsAreClean(value: string)
    ensures forall i | 0 <= i < |Parts(value)| :: CleanPart(Parts(value)[i])
  {
    SplitPiecesAreFree(value, ';');
    CleanedAreClean(Split(value, ';'));
  }

  lemma StripOfPadded(part: string)
    requires CleanPart(part)
    ensures Strip(part) == part && Strip([' '] + part) == part
  {
    StripFixed(part);
    assert StripLeft([' '] + part) == StripLeft(part);
  }

  lemma PartsOfPiece(piece: string, rest: string)
    requires ';' !in piece && Strip(piece) != ""
    ensures Parts(piece + [';'] + rest) == [Strip(piece)] + Parts(rest)
    ensures Parts(piece) == [Strip(piece)]
  {
    hide Strip;
    SplitAtFirst(piece, rest, ';');
    assert ([piece] + Split(rest, ';'))[1..] == Split(rest, ';');
    assert Cleaned([piece][1..]) == [];
  }

  /** Joining clean parts and taking them apart again gives them back, a leading space or not. */
  lemma {:induction false} PartsOfJoin(parts: seq<string>, pad: string)
    requires parts != [] && (pad == "" || pad == " ")
    requires forall i | 0 <= i < |parts| :: CleanPart(parts[i])
    ensures Parts(pad + Join(parts, "; ")) == parts
    decreases |parts|
  {
    hide Strip, Parts;
    var first := pad + parts[0];
    StripOfPadded(parts[0]);
    assert pad == "" ==> first == parts[0];
    assert first[|pad|..] == parts[0];
    if |parts| == 1 {
      assert pad + Join(parts, "; ") == first;
      PartsOfPiece(first, "");
    } else {
      var rest := " " + Join(parts[1..], "; ");
      assert pad + Join(parts, "; ") == first + [';'] + rest;
      PartsOfPiece(first, rest);
      PartsOfJoin(parts[1..], " ");
    }
  }

  lemma {:induction false} WithoutDomainKeeps(parts: seq<string>)
    ensures
      var safe := WithoutDomain(parts);
      && (forall i | 0 <= i < |safe| :: safe[i] in parts && !SetsDomain(safe[i]))
      && WithoutDomain(safe) == safe
    decreases |parts|
  {
    hide SetsDomain;
    if parts != [] {
      WithoutDomainKeeps(parts[1..]);
      var safe := WithoutDomain(parts);
      var rest := WithoutDomain(parts[1..]);
      if SetsDomain(parts[0]) {
        assert safe == rest;
      } else {
        assert safe == [parts[0]] + rest && safe[1..] == rest;
      }
      assert forall part | part in parts[1..] :: part in parts;
    }
  }

  /** A rewritten cookie keeps its first part, is not reserved and carries no Domain attribute. */
  lemma SafeCookieParts(value: string, settings: Settings)
    requires SafeCookie(value, settings).Some?
    ensures
      var safe := SafeCookie(value, settings).value;
      && Parts(safe) == [Parts(value)[0]] + WithoutDomain(Parts(value)[1..])
      && !Reserved(Attribute(Parts(safe)[0]), settings)
      && forall i | 1 <= i < |Parts(safe)| :: !SetsDomain(Parts(safe)[i])
  {
    hide SetsDomain, Reserved, Attribute, CleanPart, Parts;
    var parts := Parts(value);
    var kept := [parts[0]] + WithoutDomain(parts[1..]);
    PartsAreClean(value);
    WithoutDomainKeeps(parts[1..]);
    forall i | 0 <= i < |kept| ensures CleanPart(kept[i]) {
      if i > 0 {
        assert kept[i] == WithoutDomain(parts[1..])[i - 1];
        var k :| 0 <= k < |parts[1..]| && parts[1..][k] == kept[i];
        assert CleanPart(parts[k + 1]);
      }
    }
    PartsOfJoin(kept, "");
    assert "" + Join(kept, "; ") == Join(kept, "; ");
  }

  /** Rewriting twice is rewriting once. */
  lemma RewritingIsIdempotent(value: string, settings: Settings)
    ensures
      var safe := SafeCookie(value, settings);
      safe.Some? ==> SafeCookie(safe.value, settings) == safe
  {
    hide SetsDomain, Reserved, Attribute, Parts;
    if SafeCookie(value, settings).Some? {
      SafeCookieParts(value, settings);
      var parts := Parts(value);
      WithoutDomainKeeps(parts[1..]);
      assert ([parts[0]] + WithoutDomain(parts[1..]))[1..] == WithoutDomain(parts[1..]);
    }
  }

  // ---- whole responses ----

  lemma SetCookieName()
    ensures CaseFold("set-cookie") == "set-cookie"
  {
    LowerCaseFolds("set-cookie");
  }

  lemma {:induction false} PassedAllHolds(headers: seq<Header>, blocked: set<string>, settings: Settings)
    ensures forall h | h in PassedAll(headers, blocked, settings) ::
      exists i :: 0 <= i < |headers| && Passed(headers[i], blocked, settings) == Some(h)
    decreases |headers|
  {
    if headers != [] {
      PassedAllHolds(headers[1..], blocked, settings);
      var all := PassedAll(headers, blocked, settings);
      forall h | h in all ensures exists i :: 0 <= i < |headers| && Passed(headers[i], blocked, settings) == Some(h) {
        if Passed(headers[0], blocked, settings) != Some(h) {
          assert h in PassedAll(headers[1..], blocked, settings);
          var i :| 0 <= i < |headers[1..]| && Passed(headers[1..][i], blocked, settings) == Some(h);
          assert Passed(headers[i + 1], blocked, settings) == Some(h);
        }
      }
    }
  }

  /** No hop-by-hop field, no field a Connection header lists and no private field survives; no
      surviving cookie is reserved or has a Domain attribute. */
  lemma NothingUnsafeSurvives(headers: seq<Header>, settings: Settings, h: Header)
    requires h in Filtered(headers, settings)
    ensures Name(h) !in HOP_BY_HOP && Name(h) !in ConnectionTokens(headers) && Name(h) !in PRIVATE
    ensures Name(h) == "set-cookie" ==>
      && Parts(h.value) != []
      && !Reserved(Attribute(Parts(h.value)[0]), settings)
      && forall i | 1 <= i < |Parts(h.value)| :: !SetsDomain(Parts(h.value)[i])
  {
    hide ConnectionTokens, PassedAll, SafeCookie, Parts, Reserved, Attribute, SetsDomain, CaseFold;
    var blocked := BlockedNames(headers);
    PassedAllHolds(headers, blocked, settings);
    var i :| 0 <= i < |headers| && Passed(headers[i], blocked, settings) == Some(h);
    SetCookieName();
    if Name(headers[i]) == "set-cookie" {
      SafeCookieParts(headers[i].value, settings);
    }
  }

  lemma {:induction false} NoConnectionNoTokens(headers: seq<Header>)
    requires forall h | h in headers :: Name(h) != "connection"
    ensures ConnectionTokens(headers) == {}
    decreases |headers|
  {
    if headers != [] {
      assert headers[0] in headers;
      forall h | h in headers[1..] ensures Name(h) != "connection" { assert h in headers; }
      NoConnectionNoTokens(headers[1..]);
    }
  }

  lemma {:induction false} AllPass(headers: seq<Header>, blocked: set<string>, settings: Settings)
    requires forall h | h in headers :: Passed(h, blocked, settings) == Some(h)
    ensures PassedAll(headers, blocked, settings) == headers
    decreases |headers|
  {
    if headers != [] {
      assert headers[0] in headers;
      forall h | h in headers[1..] ensures Passed(h, blocked, settings) == Some(h) { assert h in headers; }
      AllPass(headers[1..], blocked, settings);
    }
  }

  /** What survived once passes unchanged when only the fixed names are blocked. */
  lemma SurvivorPasses(headers: seq<Header>, settings: Settings, h: Header)
    requires h in Filtered(headers, settings)
    ensures Name(h) != "connection" && Passed(h, HOP_BY_HOP + PRIVATE, settings) == Some(h)
  {
    hide SafeCookie, ConnectionTokens, Reserved, SetsDomain, Parts, CaseFold;
    var blocked := BlockedNames(headers);
    PassedAllHolds(headers, blocked, settings);
    var i :| 0 <= i < |headers| && Passed(headers[i], blocked, settings) == Some(h);
    SetCookieName();
    RewritingIsIdempotent(headers[i].value, settings);
  }

  /** Filtering what was filtered changes nothing. */
  lemma FilteringIsIdempotent(headers: seq<Header>, settings: Settings)
    ensures Filtered(Filtered(headers, settings), settings) == Filtered(headers, settings)
  {
    hide Passed, PassedAll, CaseFold, ConnectionTokens;
    var out := Filtered(headers, settings);
    forall h | h in out ensures Name(h) != "connection" && Passed(h, HOP_BY_HOP + PRIVATE, settings) == Some(h) {
      SurvivorPasses(headers, settings, h);
    }
    NoConnectionNoTokens(out);
    assert BlockedNames(out) == HOP_BY_HOP + PRIVATE;
    AllPass(out, HOP_BY_HOP + PRIVATE, settings);
  }

  /** `chosen` picks ascending positions of `headers`, and `out` is what they pass as. */
  /** From position `from` on, `out` is what passes of `headers`: `chosen` are its positions, in order. */
  ghost predicate Picks(
    chosen: seq<nat>, headers: seq<Header>, out: seq<Header>, blocked: set<string>, settings: Settings, from: nat)
  {
    && |chosen| == |out|
    && (forall k | 0 <= k < |chosen| ::
          from <= chosen[k] < |headers| && Passed(headers[chosen[k]], blocked, settings) == Some(out[k]))
    && (forall j, k | 0 <= j < k < |chosen| :: chosen[j] < chosen[k])
    && (forall i: nat | from <= i < |headers| && Passed(headers[i], blocked, settings).Some? :: i in chosen)
  }

  function Positions(headers: seq<Header>, blocked: set<string>, settings: Settings, from: nat): (chosen: seq<nat>)
    requires from <= |headers|
    ensures forall k | 0 <= k < |chosen| :: from <= chosen[k] < |headers|
    decreases |headers| - from
  {
    if from == |headers| then []
    else
      (if Passed(headers[from], blocked, settings).Some? then [from] else [])
      + Positions(headers, blocked, settings, from + 1)
  }

  lemma PickOneMore(
    chosen: seq<nat>, headers: seq<Header>, out: seq<Header>, blocked: set<string>, settings: Settings, from: nat)
    requires from < |headers| && Picks(chosen, headers, out, blocked, settings, from + 1)
    ensures
      var passed := Passed(headers[from], blocked, settings);
      if passed.Some? then Picks([from] + chosen, headers, [passed.value] + out, blocked, settings, from)
      else Picks(chosen, headers, out, blocked, settings, from)
  {
    hide Passed;
    var passed := Passed(headers[from], blocked, settings);
    if passed.Some? {
      var more, outs := [from] + chosen, [passed.value] + out;
      forall k | 0 <= k < |more|
        ensures from <= more[k] < |headers| && Passed(headers[more[k]], blocked, settings) == Some(outs[k])
      {
        if k > 0 { assert more[k] == chosen[k - 1] && outs[k] == out[k - 1]; }
      }
      forall j, k | 0 <= j < k < |more| ensures more[j] < more[k] {
        assert more[k] == chosen[k - 1];
        if j > 0 { assert more[j] == chosen[j - 1]; }
      }
      forall i: nat | from <= i < |headers| && Passed(headers[i], blocked, settings).Some? ensures i in more {
        if i > from { assert i in chosen; }
      }
    }
  }

  lemma {:induction false} PositionsPick(headers: seq<Header>, blocked: set<string>, settings: Settings, from: nat)
    requires from <= |headers|
    ensures Picks(Positions(headers, blocked, settings, from), headers, PassedAll(headers[from..], blocked, settings),
                  blocked, settings, from)
    decreases |headers| - from
  {
    if from < |headers| {
      hide Passed, PassedAll, Picks;
      PositionsPick(headers, blocked, settings, from + 1);
      OneMorePassed(headers, from, blocked, settings);
      var chosen := Positions(headers, blocked, settings, from + 1);
      var out := PassedAll(headers[from + 1..], blocked, settings);
      PickOneMore(chosen, headers, out, blocked, settings, from);
      assert [] + chosen == chosen && [] + out == out;
    }
  }

  /** The output is the input in its order, less what is blocked, cookies rewritten in place. */
  lemma FilteringKeepsOrder(headers: seq<Header>, settings: Settings)
    ensures exists chosen ::
      Picks(chosen, headers, Filtered(headers, settings), BlockedNames(headers), settings, 0)
  {
    PositionsPick(headers, BlockedNames(headers), settings, 0);
    assert headers[0..] == headers;
    assert Picks(Positions(headers, BlockedNames(headers), settings, 0), headers, Filtered(headers, settings),
                 BlockedNames(headers), settings, 0);
  }

  /** The first part names a cookie that is not reserved. */
  predicate AcceptableCookie(value: string, settings: Settings) {
    Parts(value) != [] && '=' in Parts(value)[0] && !Reserved(Attribute(Parts(value)[0]), settings)
  }

  /** Every attribute but Domain is kept as often as it was there. */
  lemma {:induction false} WithoutDomainIsExact(parts: seq<string>, part: string)
    ensures multiset(WithoutDomain(parts))[part] == if SetsDomain(part) then 0 else multiset(parts)[part]
    decreases |parts|
  {
    hide SetsDomain;
    if parts != [] {
      WithoutDomainIsExact(parts[1..], part);
      assert parts == [parts[0]] + parts[1..];
      var rest := WithoutDomain(parts[1..]);
      assert WithoutDomain(parts) == (if SetsDomain(parts[0]) then [] else [parts[0]]) + rest;
      assert multiset(parts) == multiset{parts[0]} + multiset(parts[1..]);
    }
  }

  /** A field passes exactly when it is not hop-by-hop, not listed by Connection, not private, and not
      an unacceptable cookie; anything but a cookie passes unchanged. */
  lemma SurvivesIff(headers: seq<Header>, i: nat, settings: Settings)
    requires i < |headers|
    ensures
      var h := headers[i];
      var passed := Passed(h, BlockedNames(headers), settings);
      && (passed.Some? <==>
            && Name(h) !in HOP_BY_HOP && Name(h) !in ConnectionTokens(headers) && Name(h) !in PRIVATE
            && (Name(h) == "set-cookie" ==> AcceptableCookie(h.value, settings)))
      && (passed.Some? && Name(h) != "set-cookie" ==> passed.value == h && h in Filtered(headers, settings))
      && (passed.Some? && Name(h) == "set-cookie" ==> passed.value in Filtered(headers, settings))
  {
    hide ConnectionTokens, PassedAll, Parts, Reserved, Attribute, CaseFold;
    FilteringKeepsOrder(headers, settings);
    var blocked := BlockedNames(headers);
    var out := Filtered(headers, settings);
    CookieIsKept(headers[i].value, settings);
    if Passed(headers[i], blocked, settings).Some? {
      var chosen :| Picks(chosen, headers, out, blocked, settings, 0);
      var k :| 0 <= k < |chosen| && chosen[k] == i;
      assert out[k] in out;
    }
  }

  lemma CookieIsKept(value: string, settings: Settings)
    ensures
      var safe := SafeCookie(value, settings);
      safe.Some? && safe.value != "" <==> AcceptableCookie(value, settings)
  {
    hide Parts, Reserved, Attribute, SetsDomain;
    var parts := Parts(value);
    if parts != [] && '=' in parts[0] {
      JoinKeepsFirst(parts[0], WithoutDomain(parts[1..]));
    }
  }

  lemma JoinKeepsFirst(first: string, rest: seq<string>)
    ensures |Join([first] + rest, "; ")| >= |first|
  {}
}
