/**
 * What the two WHOIS clients share: the query line they send for a domain, and the
 * reassembly of a reply that arrives in pieces.
 */
module Wire {
  import opened Wrappers
  import opened Text

  /** The WHOIS port (RFC 3912, section 2). */
  const WhoisPort: nat := 43

  /** The option DENIC's server wants in front of the name. */
  const DenicPrefix: string := "-T dn,ace "

  /** `buildQuery`: `de` gets DENIC's option in front of the name, every other TLD the bare name. */
  function BuildQuery(domain: string, tld: string): (q: string)
    ensures |q| >= |domain| && q[|q| - |domain|..] == domain
    ensures tld != "de" ==> q == domain
    ensures tld == "de" ==> |q| == |DenicPrefix| + |domain| && q[..|DenicPrefix|] == DenicPrefix
  {
    if tld == "de" then DenicPrefix + domain else domain
  }

  /** The line written to the server: the query, terminated by CR LF. */
  function QueryLine(domain: string, tld: string): (line: string)
    ensures |line| >= 2 && line[|line| - 2..] == "\r\n"
  {
    BuildQuery(domain, tld) + "\r\n"
  }

  /** The server's reading of a line: the name asked about, when the line is framed as `tld` expects. */
  function RequestedName(tld: string, line: string): Option<string> {
    if |line| < 2 || line[|line| - 2..] != "\r\n" then None
    else
      var q := line[..|line| - 2];
      if tld != "de" then Some(q)
      else if |q| >= |DenicPrefix| && q[..|DenicPrefix|] == DenicPrefix then Some(q[|DenicPrefix|..])
      else None
  }

  /** A server reading the line back recovers exactly the domain the client asked about. */
  lemma QueryLineRoundTrip(domain: string, tld: string)
    ensures RequestedName(tld, QueryLine(domain, tld)) == Some(domain)
  {
    var line := QueryLine(domain, tld);
    assert line[..|line| - 2] == BuildQuery(domain, tld);
  }

  /** So different domains never produce the same line. */
  lemma QueryLineInjective(d1: string, d2: string, tld: string)
    requires QueryLine(d1, tld) == QueryLine(d2, tld)
    ensures d1 == d2
  {
    QueryLineRoundTrip(d1, tld);
    QueryLineRoundTrip(d2, tld);
  }

  /** The chunks of a reply joined in arrival order. */
  function Concat(chunks: seq<string>): string {
    if chunks == [] then "" else chunks[0] + Concat(chunks[1..])
  }

  lemma {:induction false} ConcatAppend(a: seq<string>, b: seq<string>)
    ensures Concat(a + b) == Concat(a) + Concat(b)
  {
    if a != [] {
      assert (a + b)[1..] == a[1..] + b;
      ConcatAppend(a[1..], b);
    } else {
      assert a + b == b;
    }
  }

  /** Appending one more chunk to the joined reply is joining one more chunk. */
  lemma ConcatSnoc(chunks: seq<string>, c: string)
    ensures Concat(chunks + [c]) == Concat(chunks) + c
  {
    ConcatAppend(chunks, [c]);
    assert Concat([c]) == c + Concat([]);
  }

  /**
   * Every chunk occurs in the joined reply, whole and in order: chunk `i` sits right after
   * the chunks before it.
   */
  lemma ConcatChunkAt(chunks: seq<string>, i: nat)
    requires i < |chunks|
    ensures var start := |Concat(chunks[..i])|;
            start + |chunks[i]| <= |Concat(chunks)| &&
            Concat(chunks)[start..start + |chunks[i]|] == chunks[i]
  {
    assert chunks == chunks[..i] + [chunks[i]] + chunks[i + 1..];
    ConcatAppend(chunks[..i] + [chunks[i]], chunks[i + 1..]);
    ConcatSnoc(chunks[..i], chunks[i]);
  }
}
