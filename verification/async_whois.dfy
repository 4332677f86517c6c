/**
 * The client `check` uses in production (AsyncWhoisClient): `dev` is asked over RDAP,
 * every other known TLD over WHOIS on port 43. The network is an oracle: what a WHOIS
 * server sends back for a line, and what an RDAP server answers for a URL. A connection,
 * write, read or request that throws is the oracle's `None` (or a read that fails).
 */
module AsyncWhois {
  import opened Wrappers
  import opened Text
  import opened Wire
  import opened Domain
  import opened Patterns
  import opened Checker

  // ---------------------------------------------------------------------------
  // The server tables

  /** `WHOIS_SERVERS`. */
  function WhoisServer(tld: string): Option<string> {
    if tld == "cz" then Some("whois.nic.cz")
    else if tld == "com" then Some("whois.verisign-grs.com")
    else if tld == "net" then Some("whois.verisign-grs.com")
    else if tld == "eu" then Some("whois.eu")
    else if tld == "org" then Some("whois.pir.org")
    else if tld == "ai" then Some("whois.nic.ai")
    else if tld == "io" then Some("whois.nic.io")
    else if tld == "info" then Some("whois.afilias.net")
    else if tld == "de" then Some("whois.denic.de")
    else if tld == "at" then Some("whois.nic.at")
    else if tld == "es" then Some("whois.nic.es")
    else if tld == "us" then Some("whois.nic.us")
    else if tld == "sk" then Some("whois.sk-nic.sk")
    else if tld == "ua" then Some("whois.ua")
    else if tld == "lt" then Some("whois.domreg.lt")
    else if tld == "fi" then Some("whois.fi")
    else if tld == "se" then Some("whois.iis.se")
    else if tld == "nl" then Some("whois.domain-registry.nl")
    else if tld == "bg" then Some("whois.register.bg")
    else if tld == "pt" then Some("whois.dns.pt")
    else if tld == "it" then Some("whois.nic.it")
    else None
  }

  /** The keys of `WHOIS_SERVERS`, in declared order. */
  function WhoisTlds(): seq<string> {
    ["cz", "com", "net", "eu", "org", "ai", "io", "info", "de", "at", "es",
     "us", "sk", "ua", "lt", "fi", "se", "nl", "bg", "pt", "it"]
  }

  /** The key list is the table's domain. */
  lemma WhoisTable(tld: string)
    ensures WhoisServer(tld).Some? <==> tld in WhoisTlds()
  {
  }

  /** No key is listed twice. */
  lemma WhoisTldsDistinct()
    ensures Distinct(WhoisTlds())
  {
  }

  const RdapBase: string := "https://pubapi.registry.google/rdap/domain/"

  /** `RDAP_SERVERS`: only `dev`. */
  function RdapServer(tld: string): (base: Option<string>)
    ensures base.Some? <==> tld == "dev"
  {
    if tld == "dev" then Some(RdapBase) else None
  }

  function RdapTlds(): seq<string> {
    ["dev"]
  }

  /** `getSupportedTlds`: the WHOIS keys, then the RDAP keys. */
  function SupportedTlds(): seq<string> {
    WhoisTlds() + RdapTlds()
  }

  /** The 22 supported TLDs are distinct, and are exactly the TLDs one of the two tables knows. */
  lemma SupportedTldsExactly(tld: string)
    ensures |SupportedTlds()| == 22 && Distinct(SupportedTlds())
    ensures tld in SupportedTlds() <==> WhoisServer(tld).Some? || RdapServer(tld).Some?
  {
    WhoisTable(tld);
    WhoisTldsDistinct();
    assert "dev" !in WhoisTlds();
  }

  /** The address `connect` is given: host, colon, port 43. */
  function Address(host: string): (a: string)
    ensures |a| == |host| + 3 && a[..|host|] == host && a[|host|..] == ":43"
  {
    assert DecimalString(WhoisPort) == "43" by {
      assert DecimalString(4) == "4";
    }
    host + ":" + DecimalString(WhoisPort)
  }

  // ---------------------------------------------------------------------------
  // The network

  /** What a WHOIS server sends after reading the query: chunks in order, then the end or an error. */
  datatype Reply = Reply(chunks: seq<string>, endsCleanly: bool)

  datatype HttpReply = HttpReply(status: nat, body: string)

  /**
   * `exchange(address, line)`: the reply to `line` sent to `address`, or `None` when
   * connecting or writing throws. `fetch(url)`: the HTTP response, or `None` when the
   * request throws.
   */
  datatype Network = Network(exchange: (string, string) -> Option<Reply>, fetch: string -> Option<HttpReply>)

  /** One outcome of `read()`: a chunk, the end of the stream (null), or an exception. */
  datatype ReadOutcome = Chunk(data: string) | End | Failed

  /** A connected WHOIS socket that has been sent `sent` and delivers `incoming`. */
  class Socket {
    const sent: string
    const incoming: seq<string>
    const endsCleanly: bool
    var position: nat
    var closed: bool

    predicate Valid()
      reads this
    {
      position <= |incoming|
    }

    constructor (line: string, reply: Reply)
      ensures sent == line && incoming == reply.chunks && endsCleanly == reply.endsCleanly
      ensures position == 0 && !closed && Valid()
    {
      sent := line;
      incoming := reply.chunks;
      endsCleanly := reply.endsCleanly;
      position := 0;
      closed := false;
    }

    /** `read()`: the next chunk; at the end, null or an exception. */
    method Read() returns (o: ReadOutcome)
      requires Valid()
      modifies this
      ensures Valid() && closed == old(closed)
      ensures old(position) < |incoming| ==> o == Chunk(incoming[old(position)]) && position == old(position) + 1
      ensures old(position) == |incoming| ==> o == (if endsCleanly then End else Failed) && position == old(position)
    {
      if position < |incoming| {
        o := Chunk(incoming[position]);
        position := position + 1;
      } else {
        o := if endsCleanly then End else Failed;
      }
    }

    method Close()
      modifies this
      ensures closed && position == old(position)
    {
      closed := true;
    }
  }

  // ---------------------------------------------------------------------------
  // `queryWhois`

  /** What `queryWhois` returns: the joined chunks, or null on an unknown TLD or any exception. */
  function WhoisResult(net: Network, domain: string, tld: string): Option<string> {
    match WhoisServer(tld)
    case None => None
    case Some(host) =>
      match net.exchange(Address(host), QueryLine(domain, tld))
      case None => None
      case Some(reply) => if reply.endsCleanly then Some(Concat(reply.chunks)) else None
  }

  /**
   * The read loop of `queryWhois`: append chunks until `read()` gives null. An exception
   * while reading abandons the response.
   */
  method ReadAll(socket: Socket) returns (r: Option<string>)
    requires socket.Valid() && socket.position == 0
    modifies socket
    ensures r == if socket.endsCleanly then Some(Concat(socket.incoming)) else None
    ensures socket.closed == old(socket.closed)
  {
    var response := "";
    var done := false;
    while !done
      invariant socket.Valid() && socket.closed == old(socket.closed)
      invariant response == Concat(socket.incoming[..socket.position])
      invariant done ==> socket.position == |socket.incoming| && socket.endsCleanly
      decreases |socket.incoming| - socket.position, if done then 0 else 1
    {
      var o := socket.Read();
      match o
      case Chunk(c) =>
        assert socket.incoming[..socket.position] == socket.incoming[..socket.position - 1] + [c];
        ConcatSnoc(socket.incoming[..socket.position - 1], c);
        response := response + c;
      case End =>
        done := true;
      case Failed =>
        return None;
    }
    assert socket.incoming[..socket.position] == socket.incoming;
    return Some(response);
  }

  /**
   * `queryWhois`: connect to the TLD's server, write the query line, read until null, close.
   * The socket is returned beside the result so that what was sent, and that it was
   * closed, can be stated.
   */
  method QueryWhois(net: Network, domain: string, tld: string) returns (r: Option<string>, socket: Socket?)
    ensures r == WhoisResult(net, domain, tld)
    ensures socket != null ==> socket.sent == QueryLine(domain, tld)
    ensures r.Some? ==> socket != null && socket.closed
  {
    socket := null;
    var server := WhoisServer(tld);
    if server.None? {
      return None, socket;
    }
    var line := QueryLine(domain, tld);
    var reply := net.exchange(Address(server.value), line);
    if reply.None? {
      return None, socket;
    }
    socket := new Socket(line, reply.value);
    r := ReadAll(socket);
    if r.Some? {
      socket.Close();
    }
  }

  // ---------------------------------------------------------------------------
  // `queryRdap`

  const StatusPrefix: string := "HTTP_STATUS:"

  /** The text `queryRdap` returns for an HTTP response: a status line, then the body. */
  function RdapFrame(status: nat, body: string): string {
    StatusPrefix + DecimalString(status) + "\n" + body
  }

  /** Reading a frame back: the status line's number and what follows the line. */
  function ParseFrame(frame: string): Option<HttpReply> {
    if |frame| < |StatusPrefix| || frame[..|StatusPrefix|] != StatusPrefix then None
    else
      var rest := frame[|StatusPrefix|..];
      match IndexOf(rest, '\n')
      case None => None
      case Some(n) =>
        var digits := rest[..n];
        if digits != [] && forall k :: 0 <= k < |digits| ==> IsDigit(digits[k]) then
          Some(HttpReply(DecimalValue(digits), rest[n + 1..]))
        else None
  }

  /** The frame keeps the status and the body apart: both can be read back, whatever the status. */
  lemma FrameRoundTrip(status: nat, body: string)
    ensures ParseFrame(RdapFrame(status, body)) == Some(HttpReply(status, body))
  {
    var frame := RdapFrame(status, body);
    var digits := DecimalString(status);
    var rest := frame[|StatusPrefix|..];
    assert frame[..|StatusPrefix|] == StatusPrefix;
    assert rest == digits + "\n" + body;
    assert '\n' !in digits;
    assert rest[|digits|] == '\n';
    var n := IndexOf(rest, '\n').value;
    assert n == |digits|;
    assert rest[..n] == digits;
    assert rest[n + 1..] == body;
    DecimalRoundTrip(status);
  }

  /** What `queryRdap` returns: the frame for any status, or null on an unknown TLD or an exception. */
  function RdapResult(net: Network, domain: string, tld: string): Option<string> {
    match RdapServer(tld)
    case None => None
    case Some(base) =>
      match net.fetch(base + domain)
      case None => None
      case Some(reply) => Some(RdapFrame(reply.status, reply.body))
  }

  // ---------------------------------------------------------------------------
  // `query`

  /** What `query` returns: RDAP for the TLDs with an RDAP server, WHOIS for the rest. */
  function QueryResult(net: Network, domain: string, tld: string): Option<string> {
    if RdapServer(tld).Some? then RdapResult(net, domain, tld) else WhoisResult(net, domain, tld)
  }

  method Query(net: Network, domain: string, tld: string) returns (r: Option<string>)
    ensures r == QueryResult(net, domain, tld)
  {
    if RdapServer(tld).Some? {
      r := RdapResult(net, domain, tld);
    } else {
      var socket;
      r, socket := QueryWhois(net, domain, tld);
    }
  }

  /** `dev` goes to RDAP, so the WHOIS side of the network is never consulted for it. */
  lemma DevUsesRdap(net: Network, domain: string)
    ensures QueryResult(net, domain, "dev") == RdapResult(net, domain, "dev")
    ensures QueryResult(net, domain, "dev") == match net.fetch(RdapBase + domain)
                                               case None => None
                                               case Some(reply) => Some(RdapFrame(reply.status, reply.body))
  {
  }

  /** Every other TLD goes to WHOIS, so the HTTP side of the network is never consulted for it. */
  lemma OthersUseWhois(n1: Network, n2: Network, domain: string, tld: string)
    requires tld != "dev" && n1.exchange == n2.exchange
    ensures QueryResult(n1, domain, tld) == QueryResult(n2, domain, tld) == WhoisResult(n1, domain, tld)
  {
  }

  /** A TLD without a server is null for every network: nothing is connected to. */
  lemma UnknownTldIsNull(net: Network, domain: string, tld: string)
    requires tld !in SupportedTlds()
    ensures QueryResult(net, domain, tld) == None
  {
    SupportedTldsExactly(tld);
  }

  /** The WHOIS answer is the server's chunks joined in order, every chunk whole at its place. */
  lemma WhoisAnswerIsChunks(net: Network, domain: string, tld: string, host: string, reply: Reply, i: nat)
    requires WhoisServer(tld) == Some(host) && net.exchange(Address(host), QueryLine(domain, tld)) == Some(reply)
    requires reply.endsCleanly && i < |reply.chunks|
    ensures WhoisResult(net, domain, tld) == Some(Concat(reply.chunks))
    ensures var start := |Concat(reply.chunks[..i])|;
            start + |reply.chunks[i]| <= |Concat(reply.chunks)| &&
            Concat(reply.chunks)[start..start + |reply.chunks[i]|] == reply.chunks[i]
  {
    ConcatChunkAt(reply.chunks, i);
  }

  // ---------------------------------------------------------------------------
  // The client `check` is given

  function AsyncClient(net: Network): Client {
    Client(SupportedTlds(), (d, t) => QueryResult(net, d, t))
  }

  /** An RDAP 404 for "<name>.dev", whatever labels `name` holds, makes `check` report the domain Available. */
  lemma DevNotFoundIsAvailable(net: Network, name: string, body: string)
    requires net.fetch(RdapBase + (name + ".dev")) == Some(HttpReply(404, body))
    ensures Check(AsyncClient(net), name + ".dev") == DomainCheckResult(name + ".dev", Some("dev"), Available, None)
  {
    var domain := name + ".dev";
    var frame := RdapFrame(404, body);
    assert ExtractTld(domain) == Some("dev") by {
      assert domain == name + "." + "dev";
      ExtractTldOf(name, "dev");
      assert Lower("dev") == "dev";
    }
    assert "dev" in SupportedTlds() by {
      assert SupportedTlds()[21] == "dev";
    }
    assert AsyncClient(net).query(domain, "dev") == Some(frame);
    CheckClassifies(AsyncClient(net), domain, "dev", frame);
    Frame404Matches(body);
    AvailableExactly(domain, "dev", frame);
  }

  /** A 404 frame matches the `dev` available pattern at its first line. */
  lemma Frame404Matches(body: string)
    ensures AvailableMatch("dev", RdapFrame(404, body))
  {
    assert DecimalString(404) == "404" by {
      assert DecimalString(40) == "40" by {
        assert DecimalString(4) == "4";
      }
    }
    var frame := RdapFrame(404, body);
    var p := Pattern(LineStart, false, "", false, ["HTTP_STATUS:404"]);
    assert AvailablePattern("dev") == Some(p);
    assert frame == [] + "HTTP_STATUS:404" + ("\n" + body);
    ExactOccurrence(false, [], "HTTP_STATUS:404", "\n" + body);
    assert LiteralAt(false, frame, 0, p.alternatives[0]);
    assert AlternativeAt(p, frame, 0);
    assert MatchesAt(p, frame, 0);
  }
}
