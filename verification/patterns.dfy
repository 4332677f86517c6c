/**
 * The per-TLD response patterns of DomainCheckerService. Every pattern in the two
 * tables has one fixed shape, so it is data of the `Pattern` type below and its
 * meaning is a hand-written predicate rather than a general regular-expression engine:
 *
 *   (^ under the m flag)? lead (\s*)? (alt1 | alt2 | ...)      with the i flag or not
 */
module Patterns {
  import opened Wrappers
  import opened Text

  /** Where a match may begin: anywhere, or only where a line begins (`^` with the `m` flag). */
  datatype Anchor = Anywhere | LineStart

  datatype Pattern = Pattern(
    anchor: Anchor,
    caseless: bool,              // the `i` flag
    lead: string,                // literal text matched first
    gap: bool,                   // `\s*` after `lead`
    alternatives: seq<string>)   // one of these literals must follow

  predicate SameChar(caseless: bool, a: char, b: char) {
    if caseless then LowerChar(a) == LowerChar(b) else a == b
  }

  /** `lit` occurs in `s` at position `i`. */
  predicate LiteralAt(caseless: bool, s: string, i: nat, lit: string) {
    i + |lit| <= |s| && forall k :: 0 <= k < |lit| ==> SameChar(caseless, s[i + k], lit[k])
  }

  /** Under `m`, PCRE's `^` holds at the start of the subject and just after every "\n". */
  predicate AnchoredAt(a: Anchor, s: string, i: nat)
    requires i <= |s|
  {
    a.Anywhere? || i == 0 || s[i - 1] == '\n'
  }

  predicate SpacesBetween(s: string, j: nat, k: nat)
    requires j <= k <= |s|
  {
    forall x :: j <= x < k ==> IsPcreSpace(s[x])
  }

  predicate AlternativeAt(p: Pattern, s: string, k: nat) {
    exists m :: 0 <= m < |p.alternatives| && LiteralAt(p.caseless, s, k, p.alternatives[m])
  }

  /** `p` matches a piece of `s` that begins at position `i`. */
  predicate MatchesAt(p: Pattern, s: string, i: nat) {
    && i <= |s|
    && AnchoredAt(p.anchor, s, i)
    && LiteralAt(p.caseless, s, i, p.lead)
    && var j := i + |p.lead|;
       if p.gap then exists k :: j <= k <= |s| && SpacesBetween(s, j, k) && AlternativeAt(p, s, k)
       else AlternativeAt(p, s, j)
  }

  /** `preg_match($p, $s)` is 1. */
  predicate Matches(p: Pattern, s: string) {
    exists i :: 0 <= i <= |s| && MatchesAt(p, s, i)
  }

  /** A case-insensitive search for any of `alts`, anywhere in the response. */
  function Caseless(alts: seq<string>): Pattern {
    Pattern(Anywhere, true, "", false, alts)
  }

  /** `/^Status:\s*(...)/mi`, the shape of both `eu` patterns. */
  function StatusLine(alts: seq<string>): Pattern {
    Pattern(LineStart, true, "Status:", true, alts)
  }

  /** `AVAILABLE_PATTERNS[$tld] ?? null`, entries in declared order. */
  function AvailablePattern(tld: string): Option<Pattern> {
    if tld == "cz" then Some(Caseless(["No entries found"]))
    else if tld == "com" then Some(Caseless(["No match for"]))
    else if tld == "net" then Some(Caseless(["No match for"]))
    else if tld == "eu" then Some(StatusLine(["AVAILABLE"]))
    else if tld == "org" then Some(Caseless(["NOT FOUND"]))
    else if tld == "dev" then Some(Pattern(LineStart, false, "", false, ["HTTP_STATUS:404"]))
    else if tld == "ai" then Some(Caseless(["NOT FOUND", "No Data Found"]))
    else if tld == "io" then Some(Caseless(["Domain not found"]))
    else if tld == "info" then Some(Caseless(["NOT FOUND"]))
    else if tld == "de" then Some(Pattern(Anywhere, true, "Status:", true, ["free"]))
    else if tld == "at" then Some(Caseless(["nothing found"]))
    else if tld == "es" then Some(Caseless(["LIBRE", "NO EXISTE"]))
    else if tld == "us" then Some(Caseless(["No Data Found"]))
    else None
  }

  /** The keys of `AVAILABLE_PATTERNS`. */
  function AvailableTlds(): seq<string> {
    ["cz", "com", "net", "eu", "org", "dev", "ai", "io", "info", "de", "at", "es", "us"]
  }

  /** `REGISTERED_PATTERNS[$tld] ?? null`: only `eu` has one. */
  function RegisteredPattern(tld: string): Option<Pattern> {
    if tld == "eu" then Some(StatusLine(["NOT AVAILABLE", "REGISTERED"])) else None
  }

  /** The TLD has a registered pattern and the response matches it. */
  predicate RegisteredMatch(tld: string, response: string) {
    match RegisteredPattern(tld)
    case None => false
    case Some(p) => Matches(p, response)
  }

  /** The TLD has an available pattern and the response matches it. */
  predicate AvailableMatch(tld: string, response: string) {
    match AvailablePattern(tld)
    case None => false
    case Some(p) => Matches(p, response)
  }

  /** Exactly the listed keys have an available pattern, and no key is listed twice. */
  lemma AvailableTable(tld: string)
    ensures AvailablePattern(tld).Some? <==> tld in AvailableTlds()
    ensures Distinct(AvailableTlds())
  {
  }

  /** An exact occurrence is also a caseless one. */
  lemma {:induction false} ExactOccurrence(caseless: bool, before: string, lit: string, after: string)
    ensures LiteralAt(caseless, before + lit + after, |before|, lit)
  {
    var s := before + lit + after;
    forall k | 0 <= k < |lit| ensures SameChar(caseless, s[|before| + k], lit[k]) {
      assert s[|before| + k] == lit[k];
    }
  }

  /** A response that contains one of a caseless pattern's alternatives verbatim matches it. */
  lemma {:induction false} ContainsAlternative(alts: seq<string>, m: nat, before: string, after: string)
    requires m < |alts|
    ensures Matches(Caseless(alts), before + alts[m] + after)
  {
    ExactOccurrence(true, before, alts[m], after);
    assert MatchesAt(Caseless(alts), before + alts[m] + after, |before|);
  }

  /**
   * A caseless pattern with a gap matches where its lead occurs verbatim (at a line start when
   * anchored), followed by whitespace and a word equal, up to ASCII case, to one of its alternatives.
   */
  lemma {:induction false} LeadGapMatch(p: Pattern, before: string, spaces: string, word: string, m: nat, after: string)
    requires p.caseless && p.gap && m < |p.alternatives|
    requires p.anchor.LineStart? ==> before == [] || before[|before| - 1] == '\n'
    requires forall k :: 0 <= k < |spaces| ==> IsPcreSpace(spaces[k])
    requires Lower(word) == Lower(p.alternatives[m])
    ensures Matches(p, before + p.lead + spaces + word + after)
  {
    var s := before + p.lead + spaces + word + after;
    var i := |before|;
    var j := i + |p.lead|;
    var k := j + |spaces|;
    ExactOccurrence(true, before, p.lead, spaces + word + after);
    assert s == before + p.lead + (spaces + word + after);
    assert s[j..k] == spaces;
    assert SpacesBetween(s, j, k);
    assert s[k..k + |word|] == word;
    assert LiteralAt(true, s, k, p.alternatives[m]) by {
      forall x | 0 <= x < |word| ensures SameChar(true, s[k + x], p.alternatives[m][x]) {
        assert Lower(word)[x] == Lower(p.alternatives[m])[x];
      }
    }
    assert AlternativeAt(p, s, k);
    assert MatchesAt(p, s, i);
  }

  /** A case-sensitive match needs the first character of its text to occur in the subject. */
  lemma CaseSensitiveNeedsChar(p: Pattern, s: string)
    requires !p.caseless && p.lead == [] && !p.gap
    requires forall m :: 0 <= m < |p.alternatives| ==> p.alternatives[m] != [] && p.alternatives[m][0] !in s
    ensures !Matches(p, s)
  {
  }

  /** No character of `s` is `c`, up to case when `caseless`. */
  predicate Absent(caseless: bool, s: string, c: char) {
    forall x :: 0 <= x < |s| ==> !SameChar(caseless, s[x], c)
  }

  /** A lower-case letter, and so its capital, is absent caselessly when neither occurs. */
  lemma AbsentLetter(s: string, c: char)
    requires IsLower(c) && c !in s && (c as int - 32) as char !in s
    ensures Absent(true, s, c) && Absent(true, s, (c as int - 32) as char)
  {
    forall x | 0 <= x < |s| ensures !SameChar(true, s[x], c) {
      assert s[x] != c && s[x] != (c as int - 32) as char;
    }
  }

  /** If every alternative holds a character that is absent from `s`, the pattern cannot match `s`. */
  predicate HoldsAbsentChar(caseless: bool, s: string, alt: string) {
    exists q :: 0 <= q < |alt| && Absent(caseless, s, alt[q])
  }

  lemma AbsentCharNoMatch(p: Pattern, s: string)
    requires forall m :: 0 <= m < |p.alternatives| ==> HoldsAbsentChar(p.caseless, s, p.alternatives[m])
    ensures !Matches(p, s)
  {
  }

  /**
   * A caseless pattern cannot match a subject from which, for each alternative, one of its
   * letters is absent in both cases: `letters[m]` is the lower-case form of the letter at
   * `positions[m]` of alternative `m`.
   */
  lemma AbsentLettersNoMatch(p: Pattern, s: string, letters: seq<char>, positions: seq<nat>)
    requires p.caseless && |letters| == |positions| == |p.alternatives|
    requires forall m :: 0 <= m < |letters| ==>
               IsLower(letters[m]) && letters[m] !in s && (letters[m] as int - 32) as char !in s
    requires forall m :: 0 <= m < |positions| ==>
               positions[m] < |p.alternatives[m]| && LowerChar(p.alternatives[m][positions[m]]) == letters[m]
    ensures !Matches(p, s)
  {
    forall m | 0 <= m < |p.alternatives| ensures HoldsAbsentChar(p.caseless, s, p.alternatives[m]) {
      AbsentLetter(s, letters[m]);
      assert Absent(p.caseless, s, p.alternatives[m][positions[m]]);
    }
    AbsentCharNoMatch(p, s);
  }
}
