/**
 * The scenarios of DomainCheckerServiceTest, stated over a mock client that lists the
 * tests' twelve TLDs and answers every query with one fixed response (or null). Each
 * scenario is stated for every name in front of the TLD, not only the tests' own, and
 * each response is written split around the text its pattern finds.
 */
module CheckerTests {
  import opened Wrappers
  import opened Text
  import opened Domain
  import opened Patterns
  import opened Checker
  import SyncWhois

  function TestTlds(): seq<string> {
    ["cz", "com", "net", "eu", "org", "dev", "ai", "info", "de", "at", "es", "us"]
  }

  function Mock(response: Option<string>): Client {
    Client(TestTlds(), (d, t) => response)
  }

  /** The TLD of "<name>.<tld>" for a lower-case, dot-free test TLD. */
  lemma TestTldOf(name: string, tld: string)
    requires tld in TestTlds() + ["xyz"]
    ensures ExtractTld(name + "." + tld) == Some(tld)
  {
    assert forall k :: 0 <= k < |tld| ==> IsLower(tld[k]) by {
      if tld == "cz" {} else if tld == "com" {} else if tld == "net" {} else if tld == "eu" {}
      else if tld == "org" {} else if tld == "dev" {} else if tld == "ai" {} else if tld == "info" {}
      else if tld == "de" {} else if tld == "at" {} else if tld == "es" {} else if tld == "us" {}
      else {}
    }
    LowerKeepsLower(tld);
    ExtractTldOf(name, tld);
  }

  lemma UnsupportedTldScenario(name: string, response: Option<string>)
    ensures Check(Mock(response), name + ".xyz")
            == DomainCheckResult(name + ".xyz", Some("xyz"), Error, Some("Unsupported TLD: ." + "xyz"))
  {
    assert name + ".xyz" == name + "." + "xyz";
    TestTldOf(name, "xyz");
    assert "xyz" !in Mock(response).supportedTlds;
    CheckUnsupported(Mock(response), name + ".xyz", "xyz");
  }

  lemma QueryFailsScenario(name: string)
    ensures Check(Mock(None), name + ".com")
            == DomainCheckResult(name + ".com", Some("com"), Error, Some("WHOIS query failed"))
  {
    assert name + ".com" == name + "." + "com";
    TestTldOf(name, "com");
    CheckQueryFailed(Mock(None), name + ".com", "com");
  }

  /** With a test TLD, `check` gives the classifier's verdict on the mock's response. */
  lemma ClassifiedScenario(name: string, tld: string, response: string)
    requires tld in TestTlds()
    ensures Check(Mock(Some(response)), name + "." + tld) == ParseResponse(name + "." + tld, tld, response)
  {
    TestTldOf(name, tld);
    CheckClassifies(Mock(Some(response)), name + "." + tld, tld, response);
  }

  /** A response containing a caseless alternative verbatim: Available for a test TLD without a registered pattern. */
  lemma AvailableScenario(name: string, tld: string, alts: seq<string>, m: nat, before: string, after: string)
    requires tld in TestTlds() && tld != "eu"
    requires AvailablePattern(tld) == Some(Caseless(alts)) && m < |alts|
    ensures Check(Mock(Some(before + alts[m] + after)), name + "." + tld)
            == DomainCheckResult(name + "." + tld, Some(tld), Available, None)
  {
    var response := before + alts[m] + after;
    TestTldOf(name, tld);
    CheckClassifies(Mock(Some(response)), name + "." + tld, tld, response);
    ContainsAlternative(alts, m, before, after);
  }

  lemma CzAvailable(name: string)
    ensures Check(Mock(Some("% " + "No entries found" + ".\n%\n% This is the WHOIS service for .cz domain")),
                  name + ".cz").status == Available
  {
    assert name + ".cz" == name + "." + "cz";
    AvailableScenario(name, "cz", ["No entries found"], 0, "% ", ".\n%\n% This is the WHOIS service for .cz domain");
  }

  lemma ComAvailable(name: string)
    ensures Check(Mock(Some("" + "No match for" + " \"TEST-AVAILABLE-DOMAIN.COM\".\n>>> Last update of whois database")),
                  name + ".com").status == Available
  {
    assert name + ".com" == name + "." + "com";
    AvailableScenario(name, "com", ["No match for"], 0, "", " \"TEST-AVAILABLE-DOMAIN.COM\".\n>>> Last update of whois database");
  }

  lemma NetAvailable(name: string)
    ensures Check(Mock(Some("" + "No match for" + " \"TEST-AVAILABLE-DOMAIN.NET\".\n>>> Last update of whois database")),
                  name + ".net").status == Available
  {
    assert name + ".net" == name + "." + "net";
    AvailableScenario(name, "net", ["No match for"], 0, "", " \"TEST-AVAILABLE-DOMAIN.NET\".\n>>> Last update of whois database");
  }

  lemma OrgAvailable(name: string)
    ensures Check(Mock(Some("" + "NOT FOUND" + "\n>>> Last update of WHOIS database")), name + ".org").status == Available
  {
    assert name + ".org" == name + "." + "org";
    AvailableScenario(name, "org", ["NOT FOUND"], 0, "", "\n>>> Last update of WHOIS database");
  }

  lemma AiAvailable(name: string)
    ensures Check(Mock(Some("" + "NOT FOUND" + "\nThe queried object does not exist")), name + ".ai").status == Available
    ensures Check(Mock(Some("" + "No Data Found" + "\nThe domain has not been registered")), name + ".ai").status == Available
  {
    assert name + ".ai" == name + "." + "ai";
    AvailableScenario(name, "ai", ["NOT FOUND", "No Data Found"], 0, "", "\nThe queried object does not exist");
    AvailableScenario(name, "ai", ["NOT FOUND", "No Data Found"], 1, "", "\nThe domain has not been registered");
  }

  lemma InfoAvailable(name: string)
    ensures Check(Mock(Some("" + "NOT FOUND" + "\nThe queried object does not exist")), name + ".info").status == Available
  {
    assert name + ".info" == name + "." + "info";
    AvailableScenario(name, "info", ["NOT FOUND"], 0, "", "\nThe queried object does not exist");
  }

  lemma AtAvailable(name: string)
    ensures Check(Mock(Some("% " + "nothing found" + "")), name + ".at").status == Available
  {
    assert name + ".at" == name + "." + "at";
    AvailableScenario(name, "at", ["nothing found"], 0, "% ", "");
  }

  lemma EsAvailable(name: string)
    ensures Check(Mock(Some("Estado del dominio / Domain Status: " + "LIBRE" + "")), name + ".es").status == Available
    ensures Check(Mock(Some("Estado: " + "NO EXISTE" + "\n")), name + ".es").status == Available
  {
    assert name + ".es" == name + "." + "es";
    AvailableScenario(name, "es", ["LIBRE", "NO EXISTE"], 0, "Estado del dominio / Domain Status: ", "");
    AvailableScenario(name, "es", ["LIBRE", "NO EXISTE"], 1, "Estado: ", "\n");
  }

  lemma UsAvailable(name: string)
    ensures Check(Mock(Some("" + "No Data Found" + "\nThe domain has not been registered")), name + ".us").status == Available
  {
    assert name + ".us" == name + "." + "us";
    AvailableScenario(name, "us", ["No Data Found"], 0, "", "\nThe domain has not been registered");
  }

  /** A "Status:" then optional whitespace then "free" in any case: the `de` available pattern matches. */
  lemma DeStatusFree(before: string, spaces: string, word: string, after: string)
    requires forall k :: 0 <= k < |spaces| ==> IsPcreSpace(spaces[k])
    requires Lower(word) == Lower("free")
    ensures AvailableMatch("de", before + "Status:" + spaces + word + after)
  {
    var p := Pattern(Anywhere, true, "Status:", true, ["free"]);
    assert AvailablePattern("de") == Some(p);
    LeadGapMatch(p, before, spaces, word, 0, after);
  }

  lemma DeAvailable(name: string)
    ensures Check(Mock(Some("Domain: test-available-domain.de\n" + "Status:" + " " + "free" + "")), name + ".de").status == Available
  {
    var before := "Domain: test-available-domain.de\n";
    var response := before + "Status:" + " " + "free" + "";
    assert name + ".de" == name + "." + "de";
    DeStatusFree(before, " ", "free", "");
    ClassifiedScenario(name, "de", response);
  }

  /** Both `eu` registered scenarios: a "Status:" line saying NOT AVAILABLE or REGISTERED. */
  lemma EuRegistered(name: string)
    ensures Check(Mock(Some("% The WHOIS service\n" + "Status:" + " " + "NOT AVAILABLE" + "\n")), name + ".eu").status == Registered
    ensures Check(Mock(Some("% The WHOIS service\n" + "Status:" + " " + "REGISTERED" + "\nRegistrar: Example Registrar\n")),
                  name + ".eu").status == Registered
  {
    assert name + ".eu" == name + "." + "eu";
    TestTldOf(name, "eu");
    var r1 := "% The WHOIS service\n" + "Status:" + " " + "NOT AVAILABLE" + "\n";
    var r2 := "% The WHOIS service\n" + "Status:" + " " + "REGISTERED" + "\nRegistrar: Example Registrar\n";
    CheckClassifies(Mock(Some(r1)), name + ".eu", "eu", r1);
    CheckClassifies(Mock(Some(r2)), name + ".eu", "eu", r2);
    EuStatusLineRegistered(name + ".eu", "% The WHOIS service\n", " ", "NOT AVAILABLE", "\n");
    EuStatusLineRegistered(name + ".eu", "% The WHOIS service\n", " ", "REGISTERED", "\nRegistrar: Example Registrar\n");
  }

  /** The tests' `dev` "available" response contains no 'H'. */
  lemma DevWhoisTextLacksH(response: string)
    requires response == "No match for " + "\"TEST-AVAILABLE-" + "DOMAIN.DEV\".\n" + ">>> Last update " + "of whois database"
    ensures 'H' !in response
  {
  }

  /**
   * The tests' `dev` "available" scenario feeds a WHOIS "No match for" text, but `dev` goes
   * to RDAP and its pattern looks for an "HTTP_STATUS:404" line: that text is classified Registered.
   */
  lemma DevWhoisTextIsRegistered(name: string, response: string)
    requires response == "No match for " + "\"TEST-AVAILABLE-" + "DOMAIN.DEV\".\n" + ">>> Last update " + "of whois database"
    ensures Check(Mock(Some(response)), name + ".dev").status == Registered
  {
    assert name + ".dev" == name + "." + "dev";
    DevWhoisTextLacksH(response);
    DevWithoutHRegistered(name, response);
  }

  /**
   * A response in which, for each alternative m of the TLD's caseless available pattern, the
   * letter at `positions[m]` (written lower-case in `letters[m]`) occurs in neither case:
   * Registered, by the default branch.
   */
  lemma AbsentCharsScenario(name: string, tld: string, response: string, letters: seq<char>, positions: seq<nat>)
    requires tld in TestTlds() && tld != "eu"
    requires AvailablePattern(tld).Some? && AvailablePattern(tld).value.caseless
    requires |letters| == |positions| == |AvailablePattern(tld).value.alternatives|
    requires forall m :: 0 <= m < |letters| ==>
               IsLower(letters[m]) && letters[m] !in response && (letters[m] as int - 32) as char !in response
    requires forall m :: 0 <= m < |positions| ==>
               positions[m] < |AvailablePattern(tld).value.alternatives[m]| &&
               LowerChar(AvailablePattern(tld).value.alternatives[m][positions[m]]) == letters[m]
    ensures Check(Mock(Some(response)), name + "." + tld).status == Registered
  {
    ClassifiedScenario(name, tld, response);
    AbsentLettersNoMatch(AvailablePattern(tld).value, response, letters, positions);
  }

  /** A .cz response holding no 'f' in either case has no available line: Registered. */
  lemma CzWithoutLetterRegistered(name: string, response: string)
    requires 'f' !in response && 'F' !in response
    ensures Check(Mock(Some(response)), name + ".cz").status == Registered
  {
    assert name + ".cz" == name + "." + "cz";
    AbsentCharsScenario(name, "cz", response, ['f'], [11]);
  }

  /** A .com response holding no 'f' in either case has no available line: Registered. */
  lemma ComWithoutLetterRegistered(name: string, response: string)
    requires 'f' !in response && 'F' !in response
    ensures Check(Mock(Some(response)), name + ".com").status == Registered
  {
    assert name + ".com" == name + "." + "com";
    AbsentCharsScenario(name, "com", response, ['f'], [9]);
  }

  /** A .net response holding no 'f' in either case has no available line: Registered. */
  lemma NetWithoutLetterRegistered(name: string, response: string)
    requires 'f' !in response && 'F' !in response
    ensures Check(Mock(Some(response)), name + ".net").status == Registered
  {
    assert name + ".net" == name + "." + "net";
    AbsentCharsScenario(name, "net", response, ['f'], [9]);
  }

  /** A .org response holding no 'f' in either case has no available line: Registered. */
  lemma OrgWithoutLetterRegistered(name: string, response: string)
    requires 'f' !in response && 'F' !in response
    ensures Check(Mock(Some(response)), name + ".org").status == Registered
  {
    assert name + ".org" == name + "." + "org";
    AbsentCharsScenario(name, "org", response, ['f'], [4]);
  }

  /** A .ai response holding no 'f' in either case has no available line: Registered. */
  lemma AiWithoutLetterRegistered(name: string, response: string)
    requires 'f' !in response && 'F' !in response
    ensures Check(Mock(Some(response)), name + ".ai").status == Registered
  {
    assert name + ".ai" == name + "." + "ai";
    AbsentCharsScenario(name, "ai", response, ['f', 'f'], [4, 8]);
  }

  /** A .info response holding no 'u' in either case has no available line: Registered. */
  lemma InfoWithoutLetterRegistered(name: string, response: string)
    requires 'u' !in response && 'U' !in response
    ensures Check(Mock(Some(response)), name + ".info").status == Registered
  {
    assert name + ".info" == name + "." + "info";
    AbsentCharsScenario(name, "info", response, ['u'], [6]);
  }

  /** A .de response holding no 'f' in either case has no available line: Registered. */
  lemma DeWithoutLetterRegistered(name: string, response: string)
    requires 'f' !in response && 'F' !in response
    ensures Check(Mock(Some(response)), name + ".de").status == Registered
  {
    assert name + ".de" == name + "." + "de";
    AbsentCharsScenario(name, "de", response, ['f'], [0]);
  }

  /** A .at response holding no 'f' in either case has no available line: Registered. */
  lemma AtWithoutLetterRegistered(name: string, response: string)
    requires 'f' !in response && 'F' !in response
    ensures Check(Mock(Some(response)), name + ".at").status == Registered
  {
    assert name + ".at" == name + "." + "at";
    AbsentCharsScenario(name, "at", response, ['f'], [8]);
  }

  /** A .es response holding no 'b' and no 'x' in either case has no available line: Registered. */
  lemma EsWithoutLetterRegistered(name: string, response: string)
    requires 'b' !in response && 'B' !in response && 'x' !in response && 'X' !in response
    ensures Check(Mock(Some(response)), name + ".es").status == Registered
  {
    assert name + ".es" == name + "." + "es";
    AbsentCharsScenario(name, "es", response, ['b', 'x'], [2, 4]);
  }

  /** A .us response holding no 'f' in either case has no available line: Registered. */
  lemma UsWithoutLetterRegistered(name: string, response: string)
    requires 'f' !in response && 'F' !in response
    ensures Check(Mock(Some(response)), name + ".us").status == Registered
  {
    assert name + ".us" == name + "." + "us";
    AbsentCharsScenario(name, "us", response, ['f'], [8]);
  }

  /** A `dev` response with no 'H' has no "HTTP_STATUS:404" line: Registered. */
  lemma DevWithoutHRegistered(name: string, response: string)
    requires 'H' !in response
    ensures Check(Mock(Some(response)), name + ".dev").status == Registered
  {
    assert name + ".dev" == name + "." + "dev";
    ClassifiedScenario(name, "dev", response);
    CaseSensitiveNeedsChar(Pattern(LineStart, false, "", false, ["HTTP_STATUS:404"]), response);
  }

  /** An `eu` response with neither an 'n' nor a 'g' in any case has no NOT AVAILABLE or REGISTERED text. */
  lemma EuRegisteredAbsent(response: string)
    requires 'n' !in response && 'N' !in response && 'g' !in response && 'G' !in response
    ensures !RegisteredMatch("eu", response)
  {
    AbsentLetter(response, 'n');
    AbsentLetter(response, 'g');
    var registered := StatusLine(["NOT AVAILABLE", "REGISTERED"]);
    assert HoldsAbsentChar(true, response, registered.alternatives[0]) by {
      assert Absent(true, response, registered.alternatives[0][0]);
    }
    assert HoldsAbsentChar(true, response, registered.alternatives[1]) by {
      assert Absent(true, response, registered.alternatives[1][2]);
    }
    AbsentCharNoMatch(registered, response);
  }

  /** A "Status:" line, optional whitespace, then AVAILABLE: the `eu` available pattern matches. */
  lemma EuAvailableStatusLine(before: string, spaces: string, after: string)
    requires before == [] || before[|before| - 1] == '\n'
    requires forall k :: 0 <= k < |spaces| ==> IsPcreSpace(spaces[k])
    ensures AvailableMatch("eu", before + "Status:" + spaces + "AVAILABLE" + after)
  {
    var available := StatusLine(["AVAILABLE"]);
    assert AvailablePattern("eu") == Some(available);
    LeadGapMatch(available, before, spaces, "AVAILABLE", 0, after);
  }

  /**
   * An `eu` response with a "Status: AVAILABLE" line and neither an 'n' nor a 'g' in any case
   * (so no NOT AVAILABLE or REGISTERED status): Available.
   */
  lemma EuAvailableLine(name: string, before: string, spaces: string, after: string)
    requires before == [] || before[|before| - 1] == '\n'
    requires forall k :: 0 <= k < |spaces| ==> IsPcreSpace(spaces[k])
    requires var response := before + "Status:" + spaces + "AVAILABLE" + after;
             'n' !in response && 'N' !in response && 'g' !in response && 'G' !in response
    ensures Check(Mock(Some(before + "Status:" + spaces + "AVAILABLE" + after)), name + ".eu").status == Available
  {
    var response := before + "Status:" + spaces + "AVAILABLE" + after;
    assert name + ".eu" == name + "." + "eu";
    ClassifiedScenario(name, "eu", response);
    EuRegisteredAbsent(response);
    EuAvailableStatusLine(before, spaces, after);
    AvailableExactly(name + ".eu", "eu", response);
  }

  /** The tests' `eu` available response holds neither an 'n' nor a 'g', in either case. */
  lemma EuAvailableTextLacksN(response: string)
    requires response == "% The WHOIS service\n" + "Status:" + " " + "AVAILABLE" + "\n"
    ensures 'n' !in response && 'N' !in response
  {
  }

  lemma EuAvailableTextLacksG(response: string)
    requires response == "% The WHOIS service\n" + "Status:" + " " + "AVAILABLE" + "\n"
    ensures 'g' !in response && 'G' !in response
  {
  }

  /** The `eu` available scenario. */
  lemma EuAvailable(name: string, response: string)
    requires response == "% The WHOIS service\n" + "Status:" + " " + "AVAILABLE" + "\n"
    ensures Check(Mock(Some(response)), name + ".eu").status == Available
  {
    EuAvailableTextLacksN(response);
    EuAvailableTextLacksG(response);
    EuAvailableLine(name, "% The WHOIS service\n", " ", "\n");
  }

  /** `getSupportedTlds` hands back the mock's list, which is the synchronous client's table in order. */
  lemma SupportedTldsScenario(response: Option<string>)
    ensures SupportedTlds(Mock(response)) == TestTlds() == SyncWhois.SupportedTlds()
  {
  }
}
