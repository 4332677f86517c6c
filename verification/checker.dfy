/**
 * DomainCheckerService: turns one domain into an Available, Registered or Error
 * result. The injected WHOIS client is an oracle value: its supported-TLD list and
 * a query function that yields the raw response or null.
 */
module Checker {
  import opened Wrappers
  import opened Text
  import opened Domain
  import opened Patterns

  /** WhoisClientInterface: `getSupportedTlds()` and `query($domain, $tld)`. */
  datatype Client = Client(supportedTlds: seq<string>, query: (string, string) -> Option<string>)

  const NoTldMessage := "Could not extract TLD"
  const QueryFailedMessage := "WHOIS query failed"

  function UnsupportedMessage(tld: string): string {
    "Unsupported TLD: ." + tld
  }

  /** `extractTld`: null when `explode('.')` gives fewer than two parts, else the last part lower-cased. */
  function ExtractTld(domain: string): (r: Option<string>)
    ensures r.None? <==> '.' !in domain
    ensures r.Some? ==> '.' !in r.value && Lower(r.value) == r.value
  {
    match LastIndexOf(domain, '.')
    case None => None
    case Some(i) => Some(Lower(domain[i + 1..]))
  }

  /** The TLD `check` reports is the key the command groups the domain under. */
  lemma ExtractTldIsKey(domain: string)
    requires '.' in domain
    ensures ExtractTld(domain) == Some(TldKey(domain))
  {
    TldKeyAfterLast(domain);
  }

  /** The TLD of "<name>.<tld>" is `tld` lower-cased, whatever dots `name` holds. */
  lemma {:induction false} ExtractTldOf(name: string, tld: string)
    requires '.' !in tld
    ensures ExtractTld(name + "." + tld) == Some(Lower(tld))
  {
    var s := name + "." + tld;
    assert s[|name|] == '.';
    var i := LastIndexOf(s, '.').value;
    assert s[i + 1..] == tld;
  }

  /** `parseResponse`: the registered pattern is tried first, then the available one; otherwise Registered. */
  function ParseResponse(domain: string, tld: string, response: string): (r: DomainCheckResult)
    ensures r.domain == domain && r.tld == Some(tld) && r.errorMessage.None?
    ensures r.status != Error
  {
    if RegisteredMatch(tld, response) then Verdict(domain, tld, Registered)
    else if AvailableMatch(tld, response) then Verdict(domain, tld, Available)
    else Verdict(domain, tld, Registered)
  }

  /** `check`: every path builds a result; nothing is thrown. */
  function Check(client: Client, domain: string): (r: DomainCheckResult)
    ensures r.domain == domain
    ensures r.tld == ExtractTld(domain)
    ensures r.status == Error <==> r.errorMessage.Some?
    ensures r.errorMessage.Some? ==> r.errorMessage.value != ""
  {
    match ExtractTld(domain)
    case None => DomainCheckResult(domain, None, Error, Some(NoTldMessage))
    case Some(tld) =>
      if tld !in client.supportedTlds then
        DomainCheckResult(domain, Some(tld), Error, Some(UnsupportedMessage(tld)))
      else
        match client.query(domain, tld)
        case None => DomainCheckResult(domain, Some(tld), Error, Some(QueryFailedMessage))
        case Some(response) => ParseResponse(domain, tld, response)
  }

  /** `getSupportedTlds`: the client's list, forwarded. */
  function SupportedTlds(client: Client): seq<string> {
    client.supportedTlds
  }

  /** The forwarded list is exactly what `check` tests: a TLD is reported unsupported iff it is not in it. */
  lemma SupportedTldsDecideSupport(client: Client, domain: string, tld: string)
    requires ExtractTld(domain) == Some(tld)
    ensures Check(client, domain).errorMessage == Some(UnsupportedMessage(tld)) <==> tld !in SupportedTlds(client)
  {
    if tld in client.supportedTlds {
      assert UnsupportedMessage(tld)[0] == 'U';
      assert QueryFailedMessage[0] == 'W';
    }
  }

  // ---------------------------------------------------------------------------
  // The classifier's laws

  /** A response that matches the TLD's registered pattern is Registered, whatever else it matches. */
  lemma RegisteredTakesPrecedence(domain: string, tld: string, response: string)
    requires RegisteredMatch(tld, response)
    ensures ParseResponse(domain, tld, response).status == Registered
  {
  }

  /** Available exactly when the available pattern matches and the registered one does not. */
  lemma AvailableExactly(domain: string, tld: string, response: string)
    ensures ParseResponse(domain, tld, response).status == Available
            <==> AvailableMatch(tld, response) && !RegisteredMatch(tld, response)
  {
  }

  /** No available pattern for the TLD (`sk`, `it`, ...): always Registered. */
  lemma NoAvailablePatternMeansRegistered(domain: string, tld: string, response: string)
    requires tld !in AvailableTlds()
    ensures ParseResponse(domain, tld, response).status == Registered
  {
    AvailableTable(tld);
  }

  /**
   * An `eu` response with a line "Status:", optional whitespace, then "NOT AVAILABLE"
   * or "REGISTERED" in any letter case, is Registered even if another line says AVAILABLE.
   */
  lemma EuStatusLineRegistered(domain: string, before: string, spaces: string, word: string, after: string)
    requires before == [] || before[|before| - 1] == '\n'
    requires forall k :: 0 <= k < |spaces| ==> IsPcreSpace(spaces[k])
    requires Lower(word) == Lower("NOT AVAILABLE") || Lower(word) == Lower("REGISTERED")
    ensures ParseResponse(domain, "eu", before + "Status:" + spaces + word + after).status == Registered
  {
    var p := StatusLine(["NOT AVAILABLE", "REGISTERED"]);
    LeadGapMatch(p, before, spaces, word, if Lower(word) == Lower("NOT AVAILABLE") then 0 else 1, after);
  }

  // ---------------------------------------------------------------------------
  // The paths of `check`

  /** No dot: Error "Could not extract TLD" with a null TLD. */
  lemma CheckWithoutDot(client: Client, domain: string)
    requires '.' !in domain
    ensures Check(client, domain) == DomainCheckResult(domain, None, Error, Some("Could not extract TLD"))
  {
  }

  /** An unsupported TLD: Error "Unsupported TLD: .<tld>", with the TLD kept. */
  lemma CheckUnsupported(client: Client, domain: string, tld: string)
    requires ExtractTld(domain) == Some(tld) && tld !in client.supportedTlds
    ensures Check(client, domain) == DomainCheckResult(domain, Some(tld), Error, Some("Unsupported TLD: ." + tld))
  {
  }

  /** Without a dot or with an unsupported TLD the client's `query` is never consulted. */
  lemma CheckIgnoresQueryWhenUnsupported(c1: Client, c2: Client, domain: string)
    requires c1.supportedTlds == c2.supportedTlds
    requires ExtractTld(domain).None? || ExtractTld(domain).value !in c1.supportedTlds
    ensures Check(c1, domain) == Check(c2, domain)
  {
  }

  /** A null response: Error "WHOIS query failed", with the TLD kept. */
  lemma CheckQueryFailed(client: Client, domain: string, tld: string)
    requires ExtractTld(domain) == Some(tld) && tld in client.supportedTlds
    requires client.query(domain, tld).None?
    ensures Check(client, domain) == DomainCheckResult(domain, Some(tld), Error, Some("WHOIS query failed"))
  {
  }

  /** A response: the classifier's verdict, with no error message. */
  lemma CheckClassifies(client: Client, domain: string, tld: string, response: string)
    requires ExtractTld(domain) == Some(tld) && tld in client.supportedTlds
    requires client.query(domain, tld) == Some(response)
    ensures Check(client, domain) == ParseResponse(domain, tld, response)
  {
  }
}
