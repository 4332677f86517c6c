/**
 * The synchronous WHOIS client (WhoisClient), which nothing in the command uses: twelve
 * TLDs, all over WHOIS on port 43, read with `fgets` until `feof`. The network is an oracle:
 * whether `fsockopen` reaches a host, and the bytes the host sends back for a line.
 */
module SyncWhois {
  import opened Wrappers
  import opened Text
  import opened Wire

  /** `WHOIS_SERVERS`. */
  function WhoisServer(tld: string): Option<string> {
    if tld == "cz" then Some("whois.nic.cz")
    else if tld == "com" then Some("whois.verisign-grs.com")
    else if tld == "net" then Some("whois.verisign-grs.com")
    else if tld == "eu" then Some("whois.eu")
    else if tld == "org" then Some("whois.pir.org")
    else if tld == "dev" then Some("whois.nic.google")
    else if tld == "ai" then Some("whois.nic.ai")
    else if tld == "info" then Some("whois.afilias.net")
    else if tld == "de" then Some("whois.denic.de")
    else if tld == "at" then Some("whois.nic.at")
    else if tld == "es" then Some("whois.nic.es")
    else if tld == "us" then Some("whois.nic.us")
    else None
  }

  /** `getSupportedTlds`: the keys of `WHOIS_SERVERS`, in declared order. */
  function SupportedTlds(): seq<string> {
    ["cz", "com", "net", "eu", "org", "dev", "ai", "info", "de", "at", "es", "us"]
  }

  /** The supported list is the table's domain, without repetition. */
  lemma WhoisTable(tld: string)
    ensures WhoisServer(tld).Some? <==> tld in SupportedTlds()
    ensures Distinct(SupportedTlds())
  {
  }

  /** `opens(host)`: `fsockopen(host, 43)` succeeds. `reply(host, line)`: all the host sends after `line`. */
  datatype Network = Network(opens: string -> bool, reply: (string, string) -> string)

  /** The most `fgets($socket, 128)` returns: 127 bytes. */
  const GetsLimit: nat := 127

  /** Where `fgets` stops reading from `from`: after a line feed, after `limit` bytes, or at the end. */
  function LineEnd(data: string, from: nat, limit: nat): (e: nat)
    requires from <= |data|
    ensures from <= e <= |data| && e - from <= limit
    ensures from < |data| && limit > 0 ==> from < e
    ensures forall k :: from <= k < e - 1 ==> data[k] != '\n'
    ensures e < |data| && e - from < limit ==> e > from && data[e - 1] == '\n'
    decreases limit
  {
    if from == |data| || limit == 0 then from
    else if data[from] == '\n' then from + 1
    else LineEnd(data, from + 1, limit - 1)
  }

  /** An open socket that has been sent `sent` and holds the bytes `data` to deliver. */
  class Stream {
    const sent: string
    const data: string
    var position: nat
    var closed: bool

    predicate Valid()
      reads this
    {
      position <= |data|
    }

    constructor (line: string, incoming: string)
      ensures sent == line && data == incoming && position == 0 && !closed && Valid()
    {
      sent := line;
      data := incoming;
      position := 0;
      closed := false;
    }

    /** `feof`: everything has been read. */
    predicate Eof()
      reads this
    {
      position >= |data|
    }

    /** `fgets($socket, 128)`: the next line, cut at 127 bytes. */
    method Gets() returns (line: string)
      requires Valid()
      modifies this
      ensures Valid() && closed == old(closed)
      ensures position == LineEnd(data, old(position), GetsLimit)
      ensures line == data[old(position)..position]
    {
      var e := LineEnd(data, position, GetsLimit);
      line := data[position..e];
      position := e;
    }

    method Close()
      modifies this
      ensures closed && position == old(position)
    {
      closed := true;
    }
  }

  /** What `query` returns: everything the server sent, or null on an unknown TLD or a failed open. */
  function QueryResult(net: Network, domain: string, tld: string): Option<string> {
    match WhoisServer(tld)
    case None => None
    case Some(host) => if net.opens(host) then Some(net.reply(host, QueryLine(domain, tld))) else None
  }

  /**
   * `query`: open, write the query line, append `fgets` lines until `feof`, close. The
   * stream is returned beside the result so that what was sent, and that it was closed,
   * can be stated.
   */
  method Query(net: Network, domain: string, tld: string) returns (r: Option<string>, stream: Stream?)
    ensures r == QueryResult(net, domain, tld)
    ensures stream != null ==> stream.sent == QueryLine(domain, tld)
    ensures r.Some? ==> stream != null && stream.closed
  {
    stream := null;
    var server := WhoisServer(tld);
    if server.None? {
      return None, stream;
    }
    if !net.opens(server.value) {
      return None, stream;
    }
    var line := QueryLine(domain, tld);
    stream := new Stream(line, net.reply(server.value, line));
    var response := "";
    while !stream.Eof()
      invariant stream.Valid() && !stream.closed && stream.sent == line
      invariant response == stream.data[..stream.position]
      decreases |stream.data| - stream.position
    {
      ghost var before := stream.position;
      var chunk := stream.Gets();
      assert stream.data[..stream.position] == stream.data[..before] + chunk;
      response := response + chunk;
    }
    assert stream.position == |stream.data|;
    assert response == stream.data;
    stream.Close();
    return Some(response), stream;
  }

  /** A TLD outside the table is null whatever the network does: nothing is opened. */
  lemma UnknownTldIsNull(net: Network, domain: string, tld: string)
    requires tld !in SupportedTlds()
    ensures QueryResult(net, domain, tld) == None
  {
    WhoisTable(tld);
  }

  /** A host that cannot be reached gives null. */
  lemma FailedOpenIsNull(net: Network, domain: string, tld: string)
    requires WhoisServer(tld).Some? && !net.opens(WhoisServer(tld).value)
    ensures QueryResult(net, domain, tld) == None
  {
  }

  /** Two networks whose hosts answer the query line alike give the same result: only that line is sent. */
  lemma OnlyQueryLineMatters(n1: Network, n2: Network, domain: string, tld: string, host: string)
    requires WhoisServer(tld) == Some(host) && n1.opens(host) == n2.opens(host)
    requires n1.reply(host, QueryLine(domain, tld)) == n2.reply(host, QueryLine(domain, tld))
    ensures QueryResult(n1, domain, tld) == QueryResult(n2, domain, tld)
  {
  }
}
