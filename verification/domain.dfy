/** The value types every component shares: `DomainStatus` and `DomainCheckResult`. */
module Domain {
  import opened Wrappers
  import opened Text

  /** The three-case backed enum; `StatusValue` gives each case's backing string. */
  datatype DomainStatus = Available | Registered | Error

  function StatusValue(s: DomainStatus): (v: string)
    ensures v != []
  {
    match s
    case Available => "available"
    case Registered => "registered"
    case Error => "error"
  }

  /** The backing strings are pairwise different, so each case is recoverable from its value. */
  lemma StatusValueInjective(a: DomainStatus, b: DomainStatus)
    ensures StatusValue(a) == StatusValue(b) ==> a == b
  {
  }

  /** The immutable result record; `tld` and `errorMessage` are nullable. */
  datatype DomainCheckResult = DomainCheckResult(
    domain: string,
    tld: Option<string>,
    status: DomainStatus,
    errorMessage: Option<string>)

  /** A result built without an error message, which then takes its default, null. */
  function Verdict(domain: string, tld: string, status: DomainStatus): (r: DomainCheckResult)
    ensures r.errorMessage.None? && r.domain == domain && r.tld == Some(tld)
  {
    DomainCheckResult(domain, Some(tld), status, None)
  }

  /**
   * The grouping key, `strtolower(end(explode('.', $domain)))`: the text after the last dot
   * (the whole string when there is none), lower-cased. Built from the back one character at
   * a time; `TldKeyAfterLast` states it in the PHP expression's terms.
   */
  function TldKey(domain: string): string {
    if domain == [] then []
    else
      var c := domain[|domain| - 1];
      if c == '.' then [] else TldKey(domain[..|domain| - 1]) + [LowerChar(c)]
  }

  /** A key holds no dot and is already lower-case. */
  lemma {:induction false} TldKeyShape(domain: string)
    ensures '.' !in TldKey(domain) && Lower(TldKey(domain)) == TldKey(domain)
  {
    if domain != [] && domain[|domain| - 1] != '.' {
      var front := TldKey(domain[..|domain| - 1]);
      var c := domain[|domain| - 1];
      TldKeyShape(domain[..|domain| - 1]);
      LowerAppend(front, [LowerChar(c)]);
    }
  }

  /** The key is the lower-cased last piece of `explode('.')`. */
  lemma {:induction false} TldKeyAfterLast(domain: string)
    ensures TldKey(domain) == Lower(AfterLast(domain, '.'))
  {
    if domain != [] {
      var front := domain[..|domain| - 1];
      var c := domain[|domain| - 1];
      assert domain == front + [c];
      if c != '.' {
        TldKeyAfterLast(front);
        assert LastIndexOf(domain, '.') == LastIndexOf(front, '.');
        match LastIndexOf(front, '.')
        case None =>
        case Some(i) =>
          assert domain[i + 1..] == front[i + 1..] + [c];
        LowerAppend(AfterLast(front, '.'), [c]);
      }
    }
  }
}
