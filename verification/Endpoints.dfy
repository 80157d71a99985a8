/** Node addresses: printing an endpoint and parsing a "host:port" node url. */
module Endpoints {
  import opened Wrappers

  type u16 = n: int | 0 <= n < 0x1_0000

  datatype Endpoint = Endpoint(host: string, port: u16)

  // ---------- Decimal ports ----------

  function DigitChar(d: nat): (c: char)
    requires d < 10
    ensures '0' <= c <= '9'
  {
    '0' + d as char
  }

  function Decimal(n: nat): (s: string)
    ensures s != []
    ensures forall i :: 0 <= i < |s| ==> '0' <= s[i] <= '9'
  {
    if n < 10 then [DigitChar(n)] else Decimal(n / 10) + [DigitChar(n % 10)]
  }

  function DigitsValue(s: string): Option<nat>
  {
    if s == [] then Some(0)
    else
      var c := s[|s| - 1];
      match DigitsValue(s[..|s| - 1])
      case Some(n) => if '0' <= c <= '9' then Some(n * 10 + (c - '0') as nat) else None
      case None => None
  }

  /** Rust's `u16` parser: an optional plus sign, then at least one digit, without overflow. */
  function ParsePort(s: string): Option<u16>
  {
    var digits := if |s| > 1 && s[0] == '+' then s[1..] else s;
    if digits == [] then None
    else
      match DigitsValue(digits)
      case Some(n) => if n < 0x1_0000 then Some(n) else None
      case None => None
  }

  lemma {:induction false} DecimalValue(n: nat)
    ensures DigitsValue(Decimal(n)) == Some(n)
    decreases n
  {
    var s := Decimal(n);
    if n < 10 {
      assert s[..0] == [];
    } else {
      DecimalValue(n / 10);
      assert s[..|s| - 1] == Decimal(n / 10);
    }
  }

  predicate AllDigits(s: string)
  {
    forall i :: 0 <= i < |s| ==> '0' <= s[i] <= '9'
  }

  function Power10(k: nat): nat
  {
    if k == 0 then 1 else 10 * Power10(k - 1)
  }

  /** Digits have a value, and nothing else has. */
  lemma {:induction false} DigitsIff(s: string)
    ensures DigitsValue(s).Some? <==> AllDigits(s)
    decreases |s|
  {
    if s != [] {
      DigitsIff(s[..|s| - 1]);
      assert AllDigits(s) <==> AllDigits(s[..|s| - 1]) && '0' <= s[|s| - 1] <= '9';
    }
  }

  lemma DigitsUnfold(s: string, c: char)
    requires AllDigits(s) && '0' <= c <= '9'
    ensures DigitsValue(s).Some? && DigitsValue(s + [c]) == Some(DigitsValue(s).value * 10 + (c - '0') as nat)
  {
    DigitsIff(s);
    assert (s + [c])[..|s|] == s;
  }

  /** The first digit counts ten times what it would count one place further right. */
  lemma {:induction false} DigitsWeigh(c: char, s: string)
    requires '0' <= c <= '9' && AllDigits(s)
    ensures DigitsValue(s).Some?
    ensures DigitsValue([c] + s) == Some((c - '0') as nat * Power10(|s|) + DigitsValue(s).value)
    decreases |s|
  {
    hide DigitsValue;
    DigitsIff(s);
    if s == [] {
      DigitsUnfold([], c);
      NoDigits();
      assert [] + [c] == [c] + s;
    } else {
      var front, d := s[..|s| - 1], s[|s| - 1];
      DigitsWeigh(c, front);
      DigitsUnfold([c] + front, d);
      DigitsUnfold(front, d);
      assert front + [d] == s && [c] + front + [d] == [c] + s;
      TenTimes((c - '0') as nat, Power10(|front|), DigitsValue(front).value, (d - '0') as nat);
    }
  }

  lemma NoDigits()
    ensures DigitsValue([]) == Some(0)
  {
  }

  lemma TenTimes(a: nat, p: nat, v: nat, d: nat)
    ensures (a * p + v) * 10 + d == a * (10 * p) + (v * 10 + d)
  {
  }

  /** A number prints without a leading zero, in as many digits as its size calls for. */
  lemma {:induction false} DecimalIsShortest(n: nat)
    ensures |Decimal(n)| > 1 ==> Decimal(n)[0] != '0'
    ensures n < Power10(|Decimal(n)|)
    ensures n >= 10 ==> Power10(|Decimal(n)| - 1) <= n
    decreases n
  {
    if n >= 10 {
      DecimalIsShortest(n / 10);
      if n / 10 < 10 {
        assert Power10(1) == 10;
      }
    }
  }

  lemma PortRoundTrip(port: u16)
    ensures ParsePort(Decimal(port)) == Some(port)
  {
    DecimalValue(port);
  }

  // ---------- Trimming ----------

  /** The characters with the Unicode White_Space property. */
  predicate IsSpace(c: char)
  {
    || '\U{0009}' <= c <= '\U{000D}' || c == '\U{0020}' || c == '\U{0085}' || c == '\U{00A0}' || c == '\U{1680}'
    || '\U{2000}' <= c <= '\U{200A}' || c == '\U{2028}' || c == '\U{2029}' || c == '\U{202F}' || c == '\U{205F}'
    || c == '\U{3000}'
  }

  function TrimStart(s: string): (r: string)
    ensures |r| <= |s|
    ensures s != [] && IsSpace(s[0]) ==> |r| < |s|
    ensures s == [] || !IsSpace(s[0]) ==> r == s
  {
    if s != [] && IsSpace(s[0]) then TrimStart(s[1..]) else s
  }

  function TrimEnd(s: string): (r: string)
    ensures |r| <= |s|
    ensures s == [] || !IsSpace(s[|s| - 1]) ==> r == s
  {
    if s != [] && IsSpace(s[|s| - 1]) then TrimEnd(s[..|s| - 1]) else s
  }

  function Trim(s: string): string
  {
    TrimEnd(TrimStart(s))
  }

  lemma {:induction false} TrimStartOfPrefix(h: string, t: string)
    requires t != [] && !IsSpace(t[0])
    ensures TrimStart(h + t) == TrimStart(h) + t
    decreases |h|
  {
    if h == [] {
      assert h + t == t;
    } else if IsSpace(h[0]) {
      assert (h + t)[1..] == h[1..] + t;
      TrimStartOfPrefix(h[1..], t);
    }
  }

  // ---------- Printer and parser ----------

  function Display(e: Endpoint): string
  {
    if ':' in e.host then "[" + e.host + "]:" + Decimal(e.port) else e.host + ":" + Decimal(e.port)
  }

  function LastColon(s: string): (r: Option<nat>)
    ensures r.Some? ==> r.value < |s| && s[r.value] == ':'
  {
    if s == [] then None
    else if s[|s| - 1] == ':' then Some(|s| - 1)
    else LastColon(s[..|s| - 1])
  }

  predicate Bracketed(h: string)
  {
    |h| >= 2 && h[0] == '[' && h[|h| - 1] == ']'
  }

  /** One pair of surrounding brackets is dropped. */
  function StripBrackets(h: string): string
  {
    if Bracketed(h) then h[1..|h| - 1] else h
  }

  function ParseTrimmed(s: string): Result<Endpoint>
  {
    match LastColon(s)
    case None => Failure(Client(BadNodeUrl))
    case Some(i) =>
      match ParsePort(s[i + 1..])
      case None => Failure(Client(BadNodeUrl))
      case Some(port) =>
        var host := StripBrackets(s[..i]);
        if host == "" then Failure(Client(BadNodeUrl)) else Success(Endpoint(host, port))
  }

  function Parse(s: string): (r: Result<Endpoint>)
    ensures r.Success? ==> r.value.host != ""
  {
    ParseTrimmed(Trim(s))
  }

  lemma {:induction false} LastColonBefore(h: string, d: string)
    requires ':' !in d
    ensures LastColon(h + ":" + d) == Some(|h|)
    decreases |d|
  {
    var s := h + ":" + d;
    if d != [] {
      assert s[|s| - 1] == d[|d| - 1];
      assert s[..|s| - 1] == h + ":" + d[..|d| - 1];
      LastColonBefore(h, d[..|d| - 1]);
    }
  }

  /** What the parser makes of a host text, a colon and a printed port. */
  lemma ParseOfParts(h: string, port: u16)
    ensures Parse(h + ":" + Decimal(port)) ==
            var host := StripBrackets(TrimStart(h));
            if host == "" then Failure(Client(BadNodeUrl)) else Success(Endpoint(host, port))
  {
    hide Decimal, DigitsValue, ParsePort, StripBrackets;
    var d := Decimal(port);
    assert h + ":" + d == h + (":" + d);
    TrimStartOfPrefix(h, ":" + d);
    var s := TrimStart(h) + ":" + d;
    assert TrimStart(h + ":" + d) == s;
    assert s[|s| - 1] == d[|d| - 1];
    assert Trim(h + ":" + d) == s;
    LastColonBefore(TrimStart(h), d);
    assert s[|TrimStart(h)| + 1..] == d && s[..|TrimStart(h)|] == TrimStart(h);
    PortRoundTrip(port);
  }

  /**
   The hosts that survive printing and parsing: with a colon, or without leading space and without wrapping brackets.
   */
  predicate HostSurvives(host: string)
  {
    host != "" && (':' in host || (!IsSpace(host[0]) && !Bracketed(host)))
  }

  /** Parsing a printed endpoint gives it back, for every port, exactly for these hosts. */
  lemma EndpointRoundTripIff(e: Endpoint)
    ensures Parse(Display(e)) == Success(e) <==> HostSurvives(e.host)
  {
    hide Decimal;
    if ':' in e.host {
      var h := "[" + e.host + "]";
      assert Display(e) == h + ":" + Decimal(e.port);
      ParseOfParts(h, e.port);
      assert TrimStart(h) == h;
      assert StripBrackets(h) == e.host;
    } else {
      ParseOfParts(e.host, e.port);
    }
  }

  /** An endpoint whose printed form parses as a different one: a host wrapped in brackets loses them. */
  lemma BracketedHostIsLost()
    ensures Parse(Display(Endpoint("[a]", 6667))) == Success(Endpoint("a", 6667))
  {
    ParseOfParts("[a]", 6667);
    assert StripBrackets("[a]") == "a";
  }

  // ---------- The node urls that parse ----------

  predicate AllSpace(s: string)
  {
    forall i :: 0 <= i < |s| ==> IsSpace(s[i])
  }

  lemma {:induction false} TrimStartDrops(lead: string, rest: string)
    requires AllSpace(lead) && (rest == [] || !IsSpace(rest[0]))
    ensures TrimStart(lead + rest) == rest
  {
    if lead == [] {
      assert lead + rest == rest;
    } else {
      TrimStartDrops(lead[1..], rest);
      assert (lead + rest)[1..] == lead[1..] + rest;
    }
  }

  lemma {:induction false} TrimEndDrops(rest: string, trail: string)
    requires AllSpace(trail) && (rest == [] || !IsSpace(rest[|rest| - 1]))
    ensures TrimEnd(rest + trail) == rest
    decreases |trail|
  {
    if trail == [] {
      assert rest + trail == rest;
    } else {
      TrimEndDrops(rest, trail[..|trail| - 1]);
      assert (rest + trail)[..|rest + trail| - 1] == rest + trail[..|trail| - 1];
    }
  }

  lemma {:induction false} TrimStartSplits(s: string) returns (lead: string)
    ensures AllSpace(lead) && s == lead + TrimStart(s)
    ensures TrimStart(s) == [] || !IsSpace(TrimStart(s)[0])
  {
    lead := [];
    if s != [] && IsSpace(s[0]) {
      var more := TrimStartSplits(s[1..]);
      lead := [s[0]] + more;
    }
  }

  lemma {:induction false} TrimEndSplits(s: string) returns (trail: string)
    ensures AllSpace(trail) && s == TrimEnd(s) + trail
    decreases |s|
  {
    trail := [];
    if s != [] && IsSpace(s[|s| - 1]) {
      var more := TrimEndSplits(s[..|s| - 1]);
      trail := more + [s[|s| - 1]];
    }
  }

  /** A node url that names `e`: spaces around a host, a colon, perhaps a plus sign, and the digits of the port. */
  ghost predicate NodeUrl(e: Endpoint, s: string, lead: string, host: string, sign: string, digits: string,
        trail: string)
  {
    && s == lead + (host + ":" + (sign + digits)) + trail && AllSpace(lead) && AllSpace(trail)
    && host != "" && !IsSpace(host[0]) && (host == "[" + e.host + "]" || (host == e.host && !Bracketed(host)))
    && e.host != ""
    && (sign == "" || sign == "+")
    && digits != "" && AllDigits(digits) && DigitsValue(digits) == Some(e.port)
  }

  lemma NodeUrlParses(e: Endpoint, s: string, lead: string, host: string, sign: string, digits: string, trail: string)
    requires NodeUrl(e, s, lead, host, sign, digits, trail)
    ensures Parse(s) == Success(e)
  {
    hide DigitsValue, TrimStart, TrimEnd, LastColon;
    var port := sign + digits;
    var body := host + ":" + port;
    assert body[0] == host[0] && port[|port| - 1] == digits[|digits| - 1] && body[|body| - 1] == port[|port| - 1];
    assert s == lead + (body + trail);
    TrimStartDrops(lead, body + trail);
    TrimEndDrops(body, trail);
    LastColonBefore(host, port);
    assert body[|host| + 1..] == port && body[..|host|] == host;
    PortParses(sign, digits);
    assert StripBrackets(host) == e.host;
  }

  lemma PortParses(sign: string, digits: string)
    requires (sign == "" || sign == "+") && digits != "" && AllDigits(digits)
    ensures var n := DigitsValue(digits);
            n.Some? && ParsePort(sign + digits) == if n.value < 0x1_0000 then Some(n.value) else None
  {
    DigitsIff(digits);
    if sign == "" {
      assert sign + digits == digits;
    } else {
      assert (sign + digits)[1..] == digits;
    }
  }

  lemma PortSplits(s: string) returns (sign: string, digits: string)
    requires ParsePort(s).Some?
    ensures s == sign + digits && (sign == "" || sign == "+") && digits != "" && AllDigits(digits)
    ensures DigitsValue(digits) == Some(ParsePort(s).value)
  {
    sign := if |s| > 1 && s[0] == '+' then "+" else "";
    digits := s[|sign|..];
    DigitsIff(digits);
  }

  lemma ParsedIsNodeUrl(s: string)
      returns (lead: string, host: string, sign: string, digits: string, trail: string)
    requires Parse(s).Success?
    ensures NodeUrl(Parse(s).value, s, lead, host, sign, digits, trail)
  {
    hide DigitsValue, TrimStart, TrimEnd, ParsePort, LastColon;
    lead := TrimStartSplits(s);
    trail := TrimEndSplits(TrimStart(s));
    var body := Trim(s);
    var i := LastColon(body).value;
    host := body[..i];
    sign, digits := PortSplits(body[i + 1..]);
    assert body == host + ":" + (sign + digits);
    assert host[0] == TrimStart(s)[0];
  }

  /** Exactly these texts parse to an endpoint; every other text is refused. */
  lemma ParseIff(s: string, e: Endpoint)
    ensures Parse(s) == Success(e) <==>
            exists lead, host, sign, digits, trail :: NodeUrl(e, s, lead, host, sign, digits, trail)
  {
    hide Parse, NodeUrl;
    if Parse(s) == Success(e) {
      var lead, host, sign, digits, trail := ParsedIsNodeUrl(s);
    }
    forall lead, host, sign, digits, trail | NodeUrl(e, s, lead, host, sign, digits, trail)
      ensures Parse(s) == Success(e)
    {
      NodeUrlParses(e, s, lead, host, sign, digits, trail);
    }
  }
}
