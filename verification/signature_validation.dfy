/**
 * The pure part of checking a HubSpot v3 request signature: the local
 * bypass, the header presence check, and the canonical inputs (URL with a
 * fixed set of percent-escapes decoded, host without port, request body)
 * handed to the HMAC check, which is a parameter here.
 */
module SignatureValidation {
  import opened Wrappers
  import opened Strings

  // ---------------------------------------------------------------------------
  // Replacing every occurrence of a literal pattern

  /** A search pattern: never empty. */
  type Pattern = p: string | |p| > 0 witness "%"

  /**
   * `s.replace(new RegExp(p, 'g'), c)` for a pattern without regex
   * metacharacters: occurrences are found left to right and never overlap.
   */
  function ReplaceAll(s: string, p: Pattern, c: char): string
    decreases |s|
  {
    if |s| == 0 then ""
    else if StartsWith(s, p) then [c] + ReplaceAll(s[|p|..], p, c)
    else [s[0]] + ReplaceAll(s[1..], p, c)
  }

  /** How many occurrences `ReplaceAll` replaces: left to right, without overlap. */
  function Occurrences(s: string, p: Pattern): nat
    decreases |s|
  {
    if |s| == 0 then 0
    else if StartsWith(s, p) then 1 + Occurrences(s[|p|..], p)
    else Occurrences(s[1..], p)
  }

  lemma MulSucc(a: int, k: int)
    ensures a * (1 + k) == a + a * k
  {
  }

  /** Each replacement turns `|p|` characters into one. */
  lemma {:induction false} ReplaceAllLength(s: string, p: Pattern, c: char)
    ensures |ReplaceAll(s, p, c)| == |s| - (|p| - 1) * Occurrences(s, p)
    decreases |s|
  {
    if |s| > 0 {
      if StartsWith(s, p) {
        var k := Occurrences(s[|p|..], p);
        ReplaceAllLength(s[|p|..], p, c);
        assert |ReplaceAll(s, p, c)| == 1 + |s[|p|..]| - (|p| - 1) * k;
        MulSucc(|p| - 1, k);
      } else {
        ReplaceAllLength(s[1..], p, c);
      }
    }
  }

  /** An occurrence of `p` starts with `p[0]`, so a string without that character has none. */
  lemma {:induction false} ContainsFirstChar(s: string, p: Pattern)
    requires Contains(s, p)
    ensures p[0] in s
    decreases |s|
  {
    if s[..|p|] != p {
      ContainsFirstChar(s[1..], p);
    } else {
      assert s[0] == p[0];
    }
  }

  /** A string without an occurrence is left as it is. */
  lemma {:induction false} ReplaceAllAbsent(s: string, p: Pattern, c: char)
    requires !Contains(s, p)
    ensures ReplaceAll(s, p, c) == s
    decreases |s|
  {
    if |s| > 0 {
      assert !StartsWith(s, p);
      assert !Contains(s[1..], p);
      ReplaceAllAbsent(s[1..], p, c);
    }
  }

  /**
   * A prefix of the result that avoids the inserted character was already a
   * prefix of the input: replacing never glues new text together.
   */
  lemma {:induction false} ReplaceAllPrefix(s: string, p: Pattern, c: char, q: string)
    requires c !in q
    requires StartsWith(ReplaceAll(s, p, c), q)
    ensures StartsWith(s, q)
    decreases |s|
  {
    if |q| > 0 && |s| > 0 {
      var r := ReplaceAll(s, p, c);
      assert r[0] == q[0];
      if !StartsWith(s, p) {
        assert r == [s[0]] + ReplaceAll(s[1..], p, c);
        assert q[0] == s[0];
        assert StartsWith(ReplaceAll(s[1..], p, c), q[1..]) by {
          assert ReplaceAll(s[1..], p, c)[..|q| - 1] == r[1..|q|];
          assert q[1..] == q[..|q|][1..];
        }
        ReplaceAllPrefix(s[1..], p, c, q[1..]);
        assert s[..|q|] == [s[0]] + s[1..][..|q| - 1];
        assert q == [q[0]] + q[1..];
      }
    }
  }

  /** Replacing cannot create an occurrence of `q` when the inserted character is not in `q`. */
  lemma {:induction false} ReplaceAllKeepsAbsent(s: string, p: Pattern, c: char, q: string)
    requires c !in q
    requires Contains(ReplaceAll(s, p, c), q)
    ensures Contains(s, q)
    decreases |s|
  {
    var r := ReplaceAll(s, p, c);
    if StartsWith(r, q) {
      ReplaceAllPrefix(s, p, c, q);
    } else if |s| > 0 {
      assert Contains(r[1..], q);
      if StartsWith(s, p) {
        assert r[1..] == ReplaceAll(s[|p|..], p, c);
        ReplaceAllKeepsAbsent(s[|p|..], p, c, q);
        ContainsSuffix(s, |p|, q);
      } else {
        assert r[1..] == ReplaceAll(s[1..], p, c);
        ReplaceAllKeepsAbsent(s[1..], p, c, q);
        ContainsSuffix(s, 1, q);
      }
    }
  }

  /** No occurrence of `p` survives when the replacement character is not part of `p`. */
  lemma {:induction false} ReplaceAllRemoves(s: string, p: Pattern, c: char)
    requires c !in p
    ensures !Contains(ReplaceAll(s, p, c), p)
    decreases |s|
  {
    var r := ReplaceAll(s, p, c);
    if |s| > 0 {
      if StartsWith(s, p) {
        ReplaceAllRemoves(s[|p|..], p, c);
        assert r == [c] + ReplaceAll(s[|p|..], p, c);
        assert !StartsWith(r, p) by {
          assert |r| > 0 && r[0] == c != p[0];
        }
        assert r[1..] == ReplaceAll(s[|p|..], p, c);
      } else {
        ReplaceAllRemoves(s[1..], p, c);
        if StartsWith(r, p) {
          ReplaceAllPrefix(s, p, c, p);
        }
        assert r[1..] == ReplaceAll(s[1..], p, c);
      }
    }
  }

  // ---------------------------------------------------------------------------
  // The escape table and the URI decoding

  /** One row of the escape table: the escape and the character it stands for. */
  datatype Escape = Escape(encoded: Pattern, decoded: char)

  /** The escapes decoded before a signature check, in the order they are applied. */
  const DecodeTable: seq<Escape> := [
    Escape("%3A", ':'), Escape("%2F", '/'), Escape("%3F", '?'), Escape("%40", '@'),
    Escape("%21", '!'), Escape("%24", '$'), Escape("%27", '\''), Escape("%28", '('),
    Escape("%29", ')'), Escape("%2A", '*'), Escape("%2C", ','), Escape("%3B", ';')
  ]

  /** No decoded character occurs in any escape, so decoding one escape cannot form another. */
  predicate WellFormedTable(t: seq<Escape>) {
    forall i, j :: 0 <= i < |t| && 0 <= j < |t| ==> t[i].decoded !in t[j].encoded
  }

  /** The characters an escape is spelled with: '%' and upper-case hexadecimal digits. */
  predicate EscapeChar(c: char) {
    c == '%' || '0' <= c <= '9' || 'A' <= c <= 'F'
  }

  /** Every row is '%' and two hexadecimal digits. */
  lemma DecodeTableEncoded()
    ensures forall i :: 0 <= i < |DecodeTable| ==> |DecodeTable[i].encoded| == 3
    ensures forall i :: 0 <= i < |DecodeTable| ==> DecodeTable[i].encoded[0] == '%'
    ensures forall i, k :: 0 <= i < |DecodeTable| && 0 <= k < |DecodeTable[i].encoded| ==>
              EscapeChar(DecodeTable[i].encoded[k])
  {
  }

  /** No row decodes to a character an escape is spelled with. */
  lemma DecodeTableDecoded()
    ensures forall i :: 0 <= i < |DecodeTable| ==> !EscapeChar(DecodeTable[i].decoded)
  {
  }

  lemma DecodeTableWellFormed()
    ensures WellFormedTable(DecodeTable)
    ensures forall i :: 0 <= i < |DecodeTable| ==> |DecodeTable[i].encoded| == 3
    ensures forall i :: 0 <= i < |DecodeTable| ==> DecodeTable[i].encoded[0] == '%'
  {
    DecodeTableEncoded();
    DecodeTableDecoded();
    forall i, j | 0 <= i < |DecodeTable| && 0 <= j < |DecodeTable|
      ensures DecodeTable[i].decoded !in DecodeTable[j].encoded
    {
      var e := DecodeTable[j].encoded;
      assert forall k :: 0 <= k < |e| ==> e[k] != DecodeTable[i].decoded;
    }
  }

  /** Applies the rows of `t` one after the other, each to the whole string. */
  function DecodeWith(s: string, t: seq<Escape>): string
    decreases |t|
  {
    if |t| == 0 then s else DecodeWith(ReplaceAll(s, t[0].encoded, t[0].decoded), t[1..])
  }

  /** The rows of the escape table from row `i` on, applied in order. */
  function DecodeFrom(s: string, i: nat): string
    requires i <= |DecodeTable|
    decreases |DecodeTable| - i
  {
    if i == |DecodeTable| then s
    else DecodeFrom(ReplaceAll(s, DecodeTable[i].encoded, DecodeTable[i].decoded), i + 1)
  }

  /**
   * `decodeHubSpotUri`: the rows of the table applied in order, each to the
   * whole string. None of the twelve escapes survives; a URI holding none of
   * them comes back as it is; every replacement shortens the URI by two.
   */
  function DecodeHubSpotUri(uri: string): (r: string)
    ensures NoEscapes(r, DecodeTable)
    ensures NoEscapes(uri, DecodeTable) ==> r == uri
    ensures |r| == |uri| - 2 * Replacements(uri, DecodeTable)
  {
    DecodeFromTable(uri, 0);
    assert DecodeTable[0..] == DecodeTable;
    DecodeWithTable(uri);
    DecodeFrom(uri, 0)
  }

  lemma {:induction false} DecodeFromTable(s: string, i: nat)
    requires i <= |DecodeTable|
    ensures DecodeFrom(s, i) == DecodeWith(s, DecodeTable[i..])
    decreases |DecodeTable| - i
  {
    if i < |DecodeTable| {
      assert DecodeTable[i..][0] == DecodeTable[i] && DecodeTable[i..][1..] == DecodeTable[i + 1..];
      DecodeFromTable(ReplaceAll(s, DecodeTable[i].encoded, DecodeTable[i].decoded), i + 1);
    }
  }

  /** What applying the whole table does to a URI: the three facts the decoder promises. */
  lemma DecodeWithTable(uri: string)
    ensures NoEscapes(DecodeWith(uri, DecodeTable), DecodeTable)
    ensures NoEscapes(uri, DecodeTable) ==> DecodeWith(uri, DecodeTable) == uri
    ensures |DecodeWith(uri, DecodeTable)| == |uri| - 2 * Replacements(uri, DecodeTable)
  {
    DecodeTableWellFormed();
    DecodeWithRemoves(uri, DecodeTable);
    DecodeWithLength(uri, DecodeTable);
    if NoEscapes(uri, DecodeTable) {
      DecodeWithAbsent(uri, DecodeTable);
    }
  }

  /**
   * The bridge from the decoder to its reference definition: decoding a URI
   * is `DecodeWith` of the whole table, the form the general lemmas about
   * tables are stated in.
   */
  lemma DecodeUsesTable(uri: string)
    ensures DecodeHubSpotUri(uri) == DecodeWith(uri, DecodeTable)
  {
    DecodeFromTable(uri, 0);
    assert DecodeTable[0..] == DecodeTable;
  }

  /** The number of replacements the decoder makes, row by row. */
  function Replacements(s: string, t: seq<Escape>): nat
    decreases |t|
  {
    if |t| == 0 then 0
    else Occurrences(s, t[0].encoded) + Replacements(ReplaceAll(s, t[0].encoded, t[0].decoded), t[1..])
  }

  lemma {:induction false} DecodeWithLength(s: string, t: seq<Escape>)
    requires WellFormedTable(t)
    requires forall i :: 0 <= i < |t| ==> |t[i].encoded| == 3
    ensures |DecodeWith(s, t)| == |s| - 2 * Replacements(s, t)
    decreases |t|
  {
    if |t| > 0 {
      ReplaceAllLength(s, t[0].encoded, t[0].decoded);
      DecodeWithLength(ReplaceAll(s, t[0].encoded, t[0].decoded), t[1..]);
    }
  }

  /** Every replacement shortens the URI by two characters, so it never grows. */
  lemma DecodeShortens(uri: string)
    ensures |DecodeHubSpotUri(uri)| == |uri| - 2 * Replacements(uri, DecodeTable)
    ensures |DecodeHubSpotUri(uri)| <= |uri|
  {
    DecodeTableWellFormed();
    DecodeUsesTable(uri);
    DecodeWithLength(uri, DecodeTable);
  }

  /** No escape of the table occurs in `s`. */
  predicate NoEscapes(s: string, t: seq<Escape>) {
    forall i :: 0 <= i < |t| ==> !Contains(s, t[i].encoded)
  }

  lemma {:induction false} DecodeWithAbsent(s: string, t: seq<Escape>)
    requires WellFormedTable(t) && NoEscapes(s, t)
    ensures DecodeWith(s, t) == s
    decreases |t|
  {
    if |t| > 0 {
      ReplaceAllAbsent(s, t[0].encoded, t[0].decoded);
      DecodeWithAbsent(s, t[1..]);
    }
  }

  /** Decoding never creates an occurrence of a string none of the table's characters occur in. */
  lemma {:induction false} DecodeWithKeepsAbsent(s: string, t: seq<Escape>, q: string)
    requires WellFormedTable(t)
    requires forall i :: 0 <= i < |t| ==> t[i].decoded !in q
    requires !Contains(s, q)
    ensures !Contains(DecodeWith(s, t), q)
    decreases |t|
  {
    if |t| > 0 {
      var s' := ReplaceAll(s, t[0].encoded, t[0].decoded);
      if Contains(s', q) {
        ReplaceAllKeepsAbsent(s, t[0].encoded, t[0].decoded, q);
      }
      DecodeWithKeepsAbsent(s', t[1..], q);
    }
  }

  lemma {:induction false} DecodeWithRemoves(s: string, t: seq<Escape>)
    requires WellFormedTable(t)
    ensures NoEscapes(DecodeWith(s, t), t)
    decreases |t|
  {
    if |t| > 0 {
      var s' := ReplaceAll(s, t[0].encoded, t[0].decoded);
      ReplaceAllRemoves(s, t[0].encoded, t[0].decoded);
      DecodeWithKeepsAbsent(s', t[1..], t[0].encoded);
      DecodeWithRemoves(s', t[1..]);
      forall i | 0 <= i < |t|
        ensures !Contains(DecodeWith(s, t), t[i].encoded)
      {
        if i > 0 {
          assert t[i] == t[1..][i - 1];
        }
      }
    }
  }

  /** After decoding, none of the twelve escapes remains. */
  lemma NoEscapeRemains(uri: string)
    ensures NoEscapes(DecodeHubSpotUri(uri), DecodeTable)
  {
    DecodeTableWellFormed();
    DecodeUsesTable(uri);
    DecodeWithRemoves(uri, DecodeTable);
  }

  /** A URI without any of the escapes, in particular one without `%`, is returned unchanged. */
  lemma UnescapedUnchanged(uri: string)
    ensures NoEscapes(uri, DecodeTable) ==> DecodeHubSpotUri(uri) == uri
    ensures '%' !in uri ==> DecodeHubSpotUri(uri) == uri
  {
    DecodeTableWellFormed();
    if '%' !in uri {
      forall i | 0 <= i < |DecodeTable|
        ensures !Contains(uri, DecodeTable[i].encoded)
      {
        if Contains(uri, DecodeTable[i].encoded) {
          ContainsFirstChar(uri, DecodeTable[i].encoded);
        }
      }
    }
    if NoEscapes(uri, DecodeTable) {
      DecodeUsesTable(uri);
      DecodeWithAbsent(uri, DecodeTable);
    }
  }

  /** Decoding twice is decoding once. */
  lemma DecodeIdempotent(uri: string)
    ensures DecodeHubSpotUri(DecodeHubSpotUri(uri)) == DecodeHubSpotUri(uri)
  {
    NoEscapeRemains(uri);
    UnescapedUnchanged(DecodeHubSpotUri(uri));
  }

  /** A candidate exactly as long as the pattern contains it only by being it. */
  lemma ContainsSameLength(s: string, p: string)
    requires |s| == |p|
    ensures Contains(s, p) <==> s == p
  {
    if |s| > 0 {
      assert !Contains(s[1..], p);
    }
  }

  /** A lower-case escape and an unlisted escape are kept as they are. */
  lemma OtherEscapesKept()
    ensures DecodeHubSpotUri("%3a") == "%3a"
    ensures DecodeHubSpotUri("%20") == "%20"
  {
    DecodeTableWellFormed();
    forall i | 0 <= i < |DecodeTable|
      ensures !Contains("%3a", DecodeTable[i].encoded) && !Contains("%20", DecodeTable[i].encoded)
    {
      ContainsSameLength("%3a", DecodeTable[i].encoded);
      ContainsSameLength("%20", DecodeTable[i].encoded);
    }
    UnescapedUnchanged("%3a");
    UnescapedUnchanged("%20");
  }

  // ---------------------------------------------------------------------------
  // The signature check

  /** The request body as the framework parsed it. */
  datatype Body =
    | Undefined
    | Null
      /** A value and the text `JSON.stringify` makes of it. */
    | Json(text: string)
      /** A value `JSON.stringify` throws on. */
    | Unserializable

  /** The parts of an incoming request the check reads; absent headers are None. */
  datatype Request = Request(
    host: Option<string>,
    signature: Option<string>,
    timestamp: Option<string>,
    forwardedProto: Option<string>,
    url: Option<string>,
    httpMethod: Option<string>,
    body: Body)

  /**
   * What is handed to the HMAC check. The timestamp is the header text; its
   * conversion to a number happens inside the check.
   */
  datatype SignatureInput = SignatureInput(
    signatureVersion: string,
    signature: string,
    timestamp: string,
    httpMethod: string,
    url: string,
    requestBody: string,
    clientSecret: Option<string>)

  /** What the HMAC check does with an input. */
  datatype CheckOutcome = Matches | Mismatch | Throws


  /** Requests to a local host, and every request in development, are accepted unchecked. */
  predicate Bypassed(req: Request, nodeEnv: Option<string>) {
    (req.host.Some? && Contains(req.host.value, "localhost")) || nodeEnv == Some("development")
  }

  /** The scheme of the URL: the forwarded protocol, else http for a local host, else https. */
  function Protocol(req: Request): (r: string)
    ensures Truthy(req.forwardedProto) ==> r == req.forwardedProto.value
    ensures !Truthy(req.forwardedProto) ==> (r == "http" <==> req.host.Some? && Contains(req.host.value, "localhost"))
    ensures !Truthy(req.forwardedProto) ==> r in {"http", "https"}
  {
    if Truthy(req.forwardedProto) then req.forwardedProto.value
    else if req.host.Some? && Contains(req.host.value, "localhost") then "http"
    else "https"
  }

  /**
   * The host without its port: the text before the first `:`. When that is
   * empty (an empty host, or one starting with `:`) the whole host is kept;
   * a missing host renders as "undefined".
   */
  function Hostname(host: Option<string>): (r: string)
    ensures host.None? ==> r == "undefined"
    ensures host.Some? && |host.value| > 0 && host.value[0] != ':' ==>
              StartsWith(host.value, r) && ':' !in r && |r| > 0
              && (|r| < |host.value| ==> host.value[|r|] == ':')
    ensures host.Some? && (|host.value| == 0 || host.value[0] == ':') ==> r == host.value
  {
    match host
    case None => "undefined"
    case Some(h) =>
      var before := BeforeFirst(h, ':');
      if before != "" then before else h
  }

  /** A host of the form name:port loses the port. */
  lemma HostnameDropsPort(name: string, port: string)
    requires name != "" && ':' !in name
    ensures Hostname(Some(name + ":" + port)) == name
  {
    BeforeFirstSplit(name, ':', port);
  }

  /** The URL the signature covers: scheme, host without port, and the decoded path. */
  function FullUrl(req: Request): (r: string)
    ensures StartsWith(r, Protocol(req) + "://")
    ensures EndsWith(r, DecodeHubSpotUri(req.url.GetOr("")))
    ensures |Protocol(req)| + 3 + |DecodeHubSpotUri(req.url.GetOr(""))| <= |r|
            && r[|Protocol(req)| + 3..|r| - |DecodeHubSpotUri(req.url.GetOr(""))|] == Hostname(req.host)
  {
    var scheme, host, path := Protocol(req) + "://", Hostname(req.host), DecodeHubSpotUri(req.url.GetOr(""));
    OuterParts(scheme, host, path);
    scheme + host + path
  }

  lemma OuterParts(a: string, b: string, c: string)
    ensures StartsWith(a + b + c, a) && EndsWith(a + b + c, c)
    ensures (a + b + c)[|a|..|a + b + c| - |c|] == b
  {
    assert (a + b + c)[..|a|] == a;
    assert (a + b + c)[|a + b|..] == c;
  }

  /**
   * The URL signed for a request to `name:port` with an unescaped path is the
   * protocol, `://`, the name without its port, and the path as received.
   */
  lemma SignedUrl(req: Request, name: string, port: string)
    requires req.host == Some(name + ":" + port) && name != "" && ':' !in name
    requires req.url.Some? && '%' !in req.url.value
    ensures FullUrl(req) == Protocol(req) + "://" + name + req.url.value
  {
    HostnameDropsPort(name, port);
    UnescapedUnchanged(req.url.value);
  }

  /** The method named to the check: the request's method, GET when it has none. */
  function MethodOf(req: Request): (r: string)
    ensures r != ""
    ensures Truthy(req.httpMethod) ==> r == req.httpMethod.value
    ensures !Truthy(req.httpMethod) ==> r == "GET"
  {
    if Truthy(req.httpMethod) then req.httpMethod.value else "GET"
  }

  /** The method is GET, ignoring the case of its letters. */
  predicate IsGet(m: string) {
    ToUpperAscii(m) == "GET"
  }

  /**
   * The body text the signature covers: empty for a request without a method,
   * a GET (in any letter case), or an undefined or null body; otherwise the
   * JSON text. None when serialising the body throws.
   */
  function RequestBody(req: Request): (r: Option<string>)
    ensures !Truthy(req.httpMethod) || IsGet(req.httpMethod.value) ==> r == Some("")
    ensures req.body.Undefined? || req.body.Null? ==> r == Some("")
    ensures r.None? <==> Truthy(req.httpMethod) && !IsGet(req.httpMethod.value) && req.body.Unserializable?
    ensures Truthy(req.httpMethod) && !IsGet(req.httpMethod.value) && req.body.Json? ==> r == Some(req.body.text)
  {
    if Truthy(req.httpMethod) && !IsGet(req.httpMethod.value) then
      match req.body
      case Undefined => Some("")
      case Null => Some("")
      case Json(text) => Some(text)
      case Unserializable => None
    else Some("")
  }

  /** The input built for a request whose headers are present; None when building it throws. */
  function BuildInput(req: Request, clientSecret: Option<string>): (r: Option<SignatureInput>)
    requires Truthy(req.signature) && Truthy(req.timestamp)
    ensures r.None? <==> RequestBody(req).None?
    ensures r.Some? ==> r.value.signatureVersion == "v3"
                        && r.value.signature == req.signature.value
                        && r.value.timestamp == req.timestamp.value
                        && r.value.httpMethod == MethodOf(req)
                        && r.value.url == FullUrl(req)
                        && Some(r.value.requestBody) == RequestBody(req)
                        && r.value.clientSecret == clientSecret
  {
    match RequestBody(req)
    case None => None
    case Some(body) =>
      Some(SignatureInput("v3", req.signature.value, req.timestamp.value, MethodOf(req), FullUrl(req), body, clientSecret))
  }

  /**
   * `validateRequestSignature`: accepts a bypassed request outright, rejects
   * one without both headers, and otherwise accepts exactly when the HMAC
   * check `isValid` reports a match; an exception on the way rejects.
   */
  function ValidateRequestSignature(req: Request, nodeEnv: Option<string>, clientSecret: Option<string>,
                                    isValid: SignatureInput -> CheckOutcome): (ok: bool)
    ensures Bypassed(req, nodeEnv) ==> ok
    ensures !Bypassed(req, nodeEnv) && !(Truthy(req.signature) && Truthy(req.timestamp)) ==> !ok
    ensures !Bypassed(req, nodeEnv) && Truthy(req.signature) && Truthy(req.timestamp) ==>
              (ok <==> BuildInput(req, clientSecret).Some? && isValid(BuildInput(req, clientSecret).value) == Matches)
  {
    if Bypassed(req, nodeEnv) then true
    else if !Truthy(req.signature) || !Truthy(req.timestamp) then false
    else
      match BuildInput(req, clientSecret)
      case None => false
      case Some(input) => isValid(input) == Matches
  }

  /** Any request the check accepts without bypass carries both headers and a matching signature. */
  lemma AcceptedMeansMatched(req: Request, nodeEnv: Option<string>, clientSecret: Option<string>,
                             isValid: SignatureInput -> CheckOutcome)
    ensures ValidateRequestSignature(req, nodeEnv, clientSecret, isValid) && !Bypassed(req, nodeEnv) ==>
              && Truthy(req.signature) && Truthy(req.timestamp)
              && exists input :: isValid(input) == Matches && input.signature == req.signature.value
                                 && input.url == FullUrl(req)
  {
    if ValidateRequestSignature(req, nodeEnv, clientSecret, isValid) && !Bypassed(req, nodeEnv) {
      var input := BuildInput(req, clientSecret).value;
      assert isValid(input) == Matches;
    }
  }

  /** A request that is not bypassed is rejected whenever the HMAC check throws or mismatches. */
  lemma FailingCheckRejects(req: Request, nodeEnv: Option<string>, clientSecret: Option<string>,
                            isValid: SignatureInput -> CheckOutcome)
    requires !Bypassed(req, nodeEnv)
    requires forall input :: isValid(input) != Matches
    ensures !ValidateRequestSignature(req, nodeEnv, clientSecret, isValid)
  {
  }

  /**
   * A request to a host containing "localhost", or any request in
   * development, is accepted whatever its headers and whatever the check says.
   */
  lemma BypassSkipsCheck(req: Request, nodeEnv: Option<string>, clientSecret: Option<string>,
                         isValid: SignatureInput -> CheckOutcome)
    requires (req.host.Some? && Contains(req.host.value, "localhost")) || nodeEnv == Some("development")
    ensures ValidateRequestSignature(req, nodeEnv, clientSecret, isValid)
    ensures ValidateRequestSignature(req.(signature := None, timestamp := None), nodeEnv, clientSecret, isValid)
  {
  }

  /** In production, a request to another host without the signature headers is rejected. */
  lemma ProductionNeedsHeaders(req: Request, clientSecret: Option<string>, isValid: SignatureInput -> CheckOutcome)
    requires req.host.None? || !Contains(req.host.value, "localhost")
    ensures !ValidateRequestSignature(req.(signature := None), Some("production"), clientSecret, isValid)
  {
  }

  lemma UrlStartsWithScheme(req: Request)
    ensures StartsWith(FullUrl(req), Protocol(req) + "://")
  {
    StartsWithAppend(Protocol(req) + "://", Hostname(req.host) + DecodeHubSpotUri(req.url.GetOr("")));
  }

  /** Once a request is checked (not bypassed) and has no forwarded protocol, its URL is https. */
  lemma CheckedUrlIsHttps(req: Request, nodeEnv: Option<string>)
    requires !Bypassed(req, nodeEnv) && !Truthy(req.forwardedProto)
    ensures StartsWith(FullUrl(req), "https://")
  {
    assert Protocol(req) == "https";
    HttpsUrl(req);
  }

  /** A request whose scheme is https gets a URL that starts with `https://`. */
  lemma HttpsUrl(req: Request)
    requires Protocol(req) == "https"
    ensures StartsWith(FullUrl(req), "https://")
  {
    UrlStartsWithScheme(req);
    HttpsPrefix(FullUrl(req), Protocol(req));
  }

  /** The prefix step of HttpsUrl, stated on plain strings so the URL's other facts stay out of it. */
  lemma HttpsPrefix(u: string, scheme: string)
    requires scheme == "https" && StartsWith(u, scheme + "://")
    ensures StartsWith(u, "https://")
  {
    assert scheme + "://" == "https://";
  }

  /** The path in the checked URL carries none of the twelve escapes. */
  lemma CheckedPathDecoded(req: Request)
    ensures var path := DecodeHubSpotUri(req.url.GetOr(""));
            FullUrl(req) == Protocol(req) + "://" + Hostname(req.host) + path && NoEscapes(path, DecodeTable)
  {
    NoEscapeRemains(req.url.GetOr(""));
  }

  /** Two requests that differ only in the body get the same verdict when the body is not signed. */
  lemma UnsignedBodyIgnored(req: Request, body: Body, nodeEnv: Option<string>, clientSecret: Option<string>,
                            isValid: SignatureInput -> CheckOutcome)
    requires !Truthy(req.httpMethod) || IsGet(req.httpMethod.value)
    ensures ValidateRequestSignature(req.(body := body), nodeEnv, clientSecret, isValid)
            == ValidateRequestSignature(req, nodeEnv, clientSecret, isValid)
  {
    var req' := req.(body := body);
    if Truthy(req.signature) && Truthy(req.timestamp) {
      assert BuildInput(req', clientSecret) == BuildInput(req, clientSecret) by {
        assert FullUrl(req') == FullUrl(req) by {
          assert req'.host == req.host && req'.url == req.url && req'.forwardedProto == req.forwardedProto;
        }
        assert RequestBody(req') == RequestBody(req) == Some("");
      }
    }
  }

  /** "get", "Get" and "GET" all sign an empty body. */
  lemma GetInAnyCase(req: Request)
    requires req.httpMethod == Some("get") || req.httpMethod == Some("Get") || req.httpMethod == Some("GET")
    ensures RequestBody(req) == Some("")
  {
    assert IsGet(req.httpMethod.value);
  }
}
