/** The request handling of handler.go: the header checks of `myApp`, the
    verdict-to-response mapping, the source-address check and the CIDR filter
    in front of `myApp`. */
module Handler {
  import opened Foreign
  import opened GoStrings
  import opened PolicyEngine

  /** The parts of `*http.Request` the handlers read; header keys are in
      canonical form, as net/http stores them. */
  datatype Request = Request(header: map<string, seq<string>>, remoteAddr: string)

  /** A response as the server sends it; `Aborted` when the handler panicked
      and net/http drops the connection. */
  datatype Reply = Reply(status: int, body: string, header: seq<(string, string)>) | Aborted

  const StatusOK := 200
  const StatusBadRequest := 400
  const StatusUnauthorized := 401

  const NotSecure := "not a secure connection"
  const MissingHost := "missing the X-Forwarded-Host header"
  const MissingCert := "no certificate in the X-Forwarded-Tls-Client-Cert header"
  const BadBase64 := "could not decode PEM data"
  const BadCert := "could not parse certificate"
  const Unauthorized := "unauthorized"
  const SourceRejected := "unauthorized - source IP not in configured CIDR"

  /** Where myApp's checks lead before the policy is consulted. */
  datatype Gate =
    | Reject(status: int, message: string)
    | Crash                                             // an index out of range
    | Ask(host: string, o: string, cn: string, cert: Certificate)

  /** The text before the first `,` of the certificate header. */
  function FirstCert(pem: string): string
  {
    CutBefore(pem, ',')
  }

  /** The header value `v[0]` looked up as `v, ok := r.Header[name]` and
      indexed only when `ok`: None when absent, Panicked when empty. */
  function FirstValue(r: Request, name: string): Outcome<Option<string>>
  {
    if name !in r.header then Done(None)
    else if |r.header[name]| == 0 then Panicked
    else Done(Some(r.header[name][0]))
  }

  /** The header checks of myApp, in their order. */
  function CheckRequest(r: Request, lib: Lib): Gate
  {
    match FirstValue(r, "X-Forwarded-Proto")
    case Panicked => Crash
    case Done(proto) =>
      if proto.None? || proto.value != "https" then Reject(StatusBadRequest, NotSecure)
      else match FirstValue(r, "X-Forwarded-Host")
      case Panicked => Crash
      case Done(host) =>
        if host.None? || host.value == "" then Reject(StatusBadRequest, MissingHost)
        else match FirstValue(r, "X-Forwarded-Tls-Client-Cert")
        case Panicked => Crash
        case Done(pemData) =>
          if pemData.None? || pemData.value == "" then Reject(StatusBadRequest, MissingCert)
          else match lib.base64Decode(FirstCert(pemData.value))
          case None => Reject(StatusBadRequest, BadBase64)
          case Some(der) =>
            match lib.parseCertificate(der)
            case None => Reject(StatusBadRequest, BadCert)
            case Some(cert) =>
              if |cert.issuerOrganization| == 0 then Crash
              else Ask(host.value, cert.issuerOrganization[0], cert.subjectCommonName, cert)
  }

  /** The checks run in the order proto, host, certificate, and every
      rejection is a 400. */
  lemma ChecksInOrder(r: Request, lib: Lib, g: Gate)
    requires g == CheckRequest(r, lib)
    // a missing proto header, or one not saying https, is refused before anything else
    ensures FirstValue(r, "X-Forwarded-Proto") == Done(None)
      || (FirstValue(r, "X-Forwarded-Proto").Done? && FirstValue(r, "X-Forwarded-Proto").value.value != "https")
      ==> g == Reject(StatusBadRequest, NotSecure)
    // then a missing or empty host
    ensures FirstValue(r, "X-Forwarded-Proto") == Done(Some("https"))
      && (FirstValue(r, "X-Forwarded-Host") == Done(None) || FirstValue(r, "X-Forwarded-Host") == Done(Some("")))
      ==> g == Reject(StatusBadRequest, MissingHost)
    // then a missing or empty certificate
    ensures FirstValue(r, "X-Forwarded-Proto") == Done(Some("https"))
      && FirstValue(r, "X-Forwarded-Host").Done? && FirstValue(r, "X-Forwarded-Host").value.Some?
      && FirstValue(r, "X-Forwarded-Host").value.value != ""
      && (FirstValue(r, "X-Forwarded-Tls-Client-Cert") == Done(None) || FirstValue(r, "X-Forwarded-Tls-Client-Cert") == Done(Some("")))
      ==> g == Reject(StatusBadRequest, MissingCert)
    ensures g.Reject? ==> g.status == StatusBadRequest
  {
  }

  /** The policy is asked only when every check passed, about the first host
      value, the issuer's first organization and the subject's common name of
      the certificate decoded from the text before the first comma. */
  lemma AskOnlyWhenChecksPass(r: Request, lib: Lib, g: Gate)
    requires g == CheckRequest(r, lib) && g.Ask?
    ensures FirstValue(r, "X-Forwarded-Proto") == Done(Some("https"))
    ensures FirstValue(r, "X-Forwarded-Host") == Done(Some(g.host)) && g.host != ""
    ensures FirstValue(r, "X-Forwarded-Tls-Client-Cert").Done?
      && FirstValue(r, "X-Forwarded-Tls-Client-Cert").value.Some?
      && FirstValue(r, "X-Forwarded-Tls-Client-Cert").value.value != ""
    ensures var der := lib.base64Decode(FirstCert(FirstValue(r, "X-Forwarded-Tls-Client-Cert").value.value));
      der.Some? && lib.parseCertificate(der.value) == Some(g.cert)
      && |g.cert.issuerOrganization| > 0 && g.o == g.cert.issuerOrganization[0]
      && g.cn == g.cert.subjectCommonName
  {
  }

  /** Only the first certificate of the header matters: appending further
      comma-separated certificates changes nothing. */
  lemma OnlyFirstCertDecoded(r: Request, first: string, more: string, lib: Lib)
    requires ',' !in first
    requires "X-Forwarded-Tls-Client-Cert" in r.header && |r.header["X-Forwarded-Tls-Client-Cert"]| > 0
    requires r.header["X-Forwarded-Tls-Client-Cert"][0] == first + "," + more
    requires first != ""
    ensures CheckRequest(r, lib) == CheckRequest(r.(header := r.header["X-Forwarded-Tls-Client-Cert" := [first]]), lib)
  {
    CutBeforeIgnoresTail(first, ',', more);
    assert first + "," + more == first + [','] + more;
    CutBeforeIsFirstField(first, ',');
  }

  /** The headers added for an authorized request. */
  function SuccessHeaders(cert: Certificate): seq<(string, string)>
  {
    [("X-Client-Verify", "SUCCESS"), ("X-Client-Subject", cert.subjectRdn), ("X-Client-Issuer", cert.issuerRdn),
     ("X-Forwarded-Proto", "https"), ("X-ProxiedEntitiesChain", ""), ("X-ProxiedIssuersChain", "")]
  }

  /** The response myApp sends, given where its checks led and the verdict. */
  function Respond(g: Gate, allowed: bool): Reply
  {
    match g
    case Crash => Aborted
    case Reject(status, message) => Reply(status, message + "\n", [])
    case Ask(_, _, _, cert) =>
      if allowed then Reply(StatusOK, "", SuccessHeaders(cert))
      else Reply(StatusUnauthorized, Unauthorized + "\n", [])
  }

  /** The success header appears exactly for an authorized request, which
      carries no error body; every other completed request is an error. */
  lemma SuccessExactlyWhenAuthorized(g: Gate, allowed: bool)
    ensures Respond(g, allowed).Reply? && ("X-Client-Verify", "SUCCESS") in Respond(g, allowed).header
      <==> g.Ask? && allowed
    ensures g.Ask? && allowed ==> Respond(g, allowed) == Reply(StatusOK, "", SuccessHeaders(g.cert))
    ensures g.Ask? && !allowed ==> Respond(g, allowed).status == StatusUnauthorized
    ensures g.Reject? ==> Respond(g, allowed) == Reply(g.status, g.message + "\n", [])
    ensures Respond(g, allowed).Aborted? <==> g.Crash?
  {
  }

  /** `ipPart` of isInCidrSet: the text before the last colon; when that
      starts with `[`, that text without its first and last characters (the
      brackets of `[addr]:port`, whatever the last character actually is).
      Panicked where the slicing or indexing is out of range. */
  function HostPart(ipPort: string): (h: Outcome<string>)
    ensures h.Panicked? <==>
      ':' !in ipPort || LastIndex(ipPort, ':') == 0 || ipPort[..LastIndex(ipPort, ':')] == "["
    ensures h.Done? ==> |h.value| < |ipPort|
    ensures h.Done? && ipPort[0] != '[' ==>
      ipPort[..|h.value|] == h.value && ipPort[|h.value|] == ':' && ':' !in ipPort[|h.value| + 1..]
    ensures h.Done? && ipPort[0] == '[' ==>
      |ipPort| >= |h.value| + 3 && ipPort[1..|h.value| + 1] == h.value
      && ipPort[|h.value| + 2] == ':' && ':' !in ipPort[|h.value| + 3..]
  {
    var lastColon := LastIndex(ipPort, ':');
    if lastColon < 0 then Panicked
    else
      var ipPart := ipPort[..lastColon];
      if |ipPart| == 0 then Panicked
      else if ipPart[0] == '[' then
        if |ipPart| - 1 < 1 then Panicked else Done(ipPort[1..|ipPart| - 1])
      else Done(ipPart)
  }

  /** Some configured network contains the address (Panicked as HostPart). */
  function InCidrSet(ipPort: string, cidrSet: seq<IPNet>, lib: Lib): Outcome<bool>
  {
    match HostPart(ipPort)
    case Panicked => Panicked
    case Done(host) =>
      var ip := lib.parseIp(host);
      Done(exists i :: 0 <= i < |cidrSet| && lib.netContains(cidrSet[i], ip))
  }

  /** With no configured networks every source address is refused. */
  lemma EmptyCidrSetRejectsAll(ipPort: string, lib: Lib)
    ensures InCidrSet(ipPort, [], lib) != Done(true)
  {
  }

  /** isInCidrSet. */
  method IsInCidrSet(ipPort: string, cidrSet: seq<IPNet>, lib: Lib) returns (r: Outcome<bool>)
    ensures r == InCidrSet(ipPort, cidrSet, lib)
  {
    var lastColon := LastIndex(ipPort, ':');
    if lastColon < 0 {
      return Panicked;
    }
    var ipPart := ipPort[..lastColon];
    if |ipPart| == 0 {
      return Panicked;
    }
    if ipPart[0] == '[' {
      if |ipPart| - 1 < 1 {
        return Panicked;
      }
      ipPart := ipPort[1..|ipPart| - 1];
    }
    assert HostPart(ipPort) == Done(ipPart);
    var ip := lib.parseIp(ipPart);
    for k := 0 to |cidrSet|
      invariant forall j :: 0 <= j < k ==> !lib.netContains(cidrSet[j], ip)
    {
      if lib.netContains(cidrSet[k], ip) {
        return Done(true);
      }
    }
    return Done(false);
  }

  /** What cidrFilter's handler does: forward, refuse, or crash. */
  datatype Filtered = Forward | Refuse(status: int, message: string) | FilterCrash

  function CidrFilter(ipPort: string, cidrSet: seq<IPNet>, lib: Lib): (f: Filtered)
    ensures f.Forward? <==> InCidrSet(ipPort, cidrSet, lib) == Done(true)
    ensures f.Refuse? <==> InCidrSet(ipPort, cidrSet, lib) == Done(false)
    ensures f.Refuse? ==> f == Refuse(StatusUnauthorized, SourceRejected)
  {
    match InCidrSet(ipPort, cidrSet, lib)
    case Panicked => FilterCrash
    case Done(inSet) => if inSet then Forward else Refuse(StatusUnauthorized, SourceRejected)
  }

  /** The `http.ResponseWriter` given to a handler. */
  class ResponseWriter {
    var header: seq<(string, string)>   // the values added to w.Header(), in order
    var status: int                     // 0 until WriteHeader is called
    var body: string
    var aborted: bool                   // the handler panicked

    constructor ()
      ensures Untouched()
    {
      header, status, body, aborted := [], 0, "", false;
    }

    predicate Untouched()
      reads this
    {
      header == [] && status == 0 && body == "" && !aborted
    }

    /** What reaches the client once the handler returns. */
    function Sent(): Reply
      reads this
    {
      if aborted then Aborted else Reply(if status == 0 then StatusOK else status, body, header)
    }

    /** `w.Header().Add(key, value)`. */
    method AddHeader(key: string, value: string)
      modifies this
      ensures header == old(header) + [(key, value)]
      ensures status == old(status) && body == old(body) && aborted == old(aborted)
    {
      header := header + [(key, value)];
    }

    /** `http.Error(w, message, code)`: the status, then the message and a newline. */
    method Error(message: string, code: int)
      requires code != 0
      modifies this
      ensures status == (if old(status) == 0 then code else old(status))
      ensures body == old(body) + message + "\n"
      ensures header == old(header) && aborted == old(aborted)
    {
      if status == 0 {
        status := code;
      }
      body := body + message + "\n";
    }

    /** A panic in the handler: net/http recovers it and drops the connection. */
    method Abort()
      modifies this
      ensures aborted && header == old(header) && status == old(status) && body == old(body)
    {
      aborted := true;
    }
  }

  /** The TLS-offload headers myApp adds for an authorized request. */
  method AddSuccessHeaders(w: ResponseWriter, cert: Certificate)
    modifies w
    ensures w.header == old(w.header) + SuccessHeaders(cert)
    ensures w.status == old(w.status) && w.body == old(w.body) && w.aborted == old(w.aborted)
  {
    w.AddHeader("X-Client-Verify", "SUCCESS");
    w.AddHeader("X-Client-Subject", cert.subjectRdn);
    w.AddHeader("X-Client-Issuer", cert.issuerRdn);
    w.AddHeader("X-Forwarded-Proto", "https");
    w.AddHeader("X-ProxiedEntitiesChain", "");
    w.AddHeader("X-ProxiedIssuersChain", "");
  }

  /** myApp: the header checks, then the policy; it calls isAuthorized with
      an empty serial. */
  method MyApp(w: ResponseWriter, r: Request, current: Policy, lib: Lib)
    requires w.Untouched() && current.cache != null && current.cache.Valid()
    modifies w, current.cache
    ensures current.cache.Valid()
    ensures var g := CheckRequest(r, lib);
      w.Sent() == Respond(g, g.Ask? && Decision(old(current.cache.entries), current.Value(), g.host, g.o, g.cn, "", lib))
    ensures !CheckRequest(r, lib).Ask? ==> current.cache.entries == old(current.cache.entries)
    ensures var g := CheckRequest(r, lib);
      g.Ask? ==> WrittenBack(old(current.cache.entries), current.cache.entries, Key(g.host, g.o, g.cn),
                             Decision(old(current.cache.entries), current.Value(), g.host, g.o, g.cn, "", lib))
  {
    var g := CheckRequest(r, lib);
    match g
    case Crash =>
      w.Abort();
    case Reject(status, message) =>
      w.Error(message, status);
    case Ask(host, o, cn, cert) =>
      var allowed := current.IsAuthorized(host, o, cn, "", lib);
      if allowed {
        AddSuccessHeaders(w, cert);
        return;
      }
      w.Error(Unauthorized, StatusUnauthorized);
  }

  /** The route `/`: cidrFilter wrapped around myApp. */
  method Serve(w: ResponseWriter, r: Request, current: Policy, cidrSet: seq<IPNet>, lib: Lib)
    requires w.Untouched() && current.cache != null && current.cache.Valid()
    modifies w, current.cache
    ensures current.cache.Valid()
    ensures CidrFilter(r.remoteAddr, cidrSet, lib).FilterCrash? ==> w.Sent() == Aborted
    ensures CidrFilter(r.remoteAddr, cidrSet, lib).Refuse? ==> w.Sent() == Reply(StatusUnauthorized, SourceRejected + "\n", [])
    ensures CidrFilter(r.remoteAddr, cidrSet, lib).Forward? ==>
      var g := CheckRequest(r, lib);
      w.Sent() == Respond(g, g.Ask? && Decision(old(current.cache.entries), current.Value(), g.host, g.o, g.cn, "", lib))
    ensures !CidrFilter(r.remoteAddr, cidrSet, lib).Forward? ==> current.cache.entries == old(current.cache.entries)
    ensures var g := CheckRequest(r, lib);
      CidrFilter(r.remoteAddr, cidrSet, lib).Forward? && !g.Ask? ==> current.cache.entries == old(current.cache.entries)
    ensures var g := CheckRequest(r, lib);
      CidrFilter(r.remoteAddr, cidrSet, lib).Forward? && g.Ask? ==>
        WrittenBack(old(current.cache.entries), current.cache.entries, Key(g.host, g.o, g.cn),
                    Decision(old(current.cache.entries), current.Value(), g.host, g.o, g.cn, "", lib))
  {
    var inSet := IsInCidrSet(r.remoteAddr, cidrSet, lib);
    match inSet
    case Panicked =>
      w.Abort();
    case Done(ok) =>
      if ok {
        MyApp(w, r, current, lib);
        return;
      }
      w.Error(SourceRejected, StatusUnauthorized);
  }
}
