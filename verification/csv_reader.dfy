/**
 * CsvReaderService: the list of domains the command checks, read from a CSV file with a
 * `domain` column. A file is what `file_exists`, `fopen` and `fgetcsv` make of it: missing,
 * not openable, or a sequence of rows of cells.
 */
module CsvReader {
  import opened Wrappers
  import opened Text

  // ---------------------------------------------------------------------------
  // `isValidDomain`: /^[a-zA-Z0-9]([a-zA-Z0-9-]*[a-zA-Z0-9])?(\.[a-zA-Z]{2,})+$/

  /**
   * Where a left-to-right reading of the pattern stands: before the first character, in the
   * label after an alphanumeric or after a hyphen, right after a dot, after one or after two
   * and more letters of a TLD part, or off the pattern for good.
   */
  datatype State = Start | InLabel | AfterHyphen | AfterDot | OneLetter | InTld | Dead

  function Step(q: State, c: char): State {
    match q
    case Start => if IsAlnum(c) then InLabel else Dead
    case InLabel => if IsAlnum(c) then InLabel else if c == '-' then AfterHyphen else if c == '.' then AfterDot else Dead
    case AfterHyphen => if IsAlnum(c) then InLabel else if c == '-' then AfterHyphen else Dead
    case AfterDot => if IsLetter(c) then OneLetter else Dead
    case OneLetter => if IsLetter(c) then InTld else Dead
    case InTld => if IsLetter(c) then InTld else if c == '.' then AfterDot else Dead
    case Dead => Dead
  }

  function Run(q: State, s: string): State
    decreases s
  {
    if s == [] then q else Run(Step(q, s[0]), s[1..])
  }

  /** The pattern is matched when the reading ends inside a TLD part of two or more letters. */
  predicate Accepts(s: string) {
    Run(Start, s) == InTld
  }

  /**
   * `preg_match` with the pattern: `$` without the D modifier also matches just before a
   * final line feed.
   */
  predicate IsValidDomain(s: string) {
    Accepts(s) || (|s| > 0 && s[|s| - 1] == '\n' && Accepts(s[..|s| - 1]))
  }

  // ---------------------------------------------------------------------------
  // The pattern read as a shape

  /** A host label: alphanumerics and hyphens, starting and ending with an alphanumeric. */
  predicate IsLabel(p: string) {
    |p| >= 1 && IsAlnum(p[0]) && IsAlnum(p[|p| - 1]) &&
    forall k :: 0 <= k < |p| ==> IsAlnum(p[k]) || p[k] == '-'
  }

  predicate AllLetters(p: string) {
    forall k :: 0 <= k < |p| ==> IsLetter(p[k])
  }

  /** A TLD part: two or more letters. */
  predicate IsTldPart(p: string) {
    |p| >= 2 && AllLetters(p)
  }

  predicate AllTld(parts: seq<string>) {
    forall k :: 0 <= k < |parts| ==> IsTldPart(parts[k])
  }

  lemma AllTldCons(parts: seq<string>)
    requires parts != []
    ensures AllTld(parts) <==> IsTldPart(parts[0]) && AllTld(parts[1..])
  {
    if IsTldPart(parts[0]) && AllTld(parts[1..]) {
      forall k | 1 <= k < |parts|
        ensures IsTldPart(parts[k])
      {
        assert parts[k] == parts[1..][k - 1];
      }
    }
  }

  lemma AllLettersCons(c: char, p: string)
    ensures AllLetters([c] + p) <==> IsLetter(c) && AllLetters(p)
  {
    if IsLetter(c) && AllLetters(p) {
      forall k | 1 <= k < |[c] + p|
        ensures IsLetter(([c] + p)[k])
      {
        assert ([c] + p)[k] == p[k - 1];
      }
    }
    if AllLetters([c] + p) {
      assert ([c] + p)[0] == c;
      forall k | 0 <= k < |p|
        ensures IsLetter(p[k])
      {
        assert ([c] + p)[k + 1] == p[k];
      }
    }
  }

  /** What the pattern describes: a label, then one or more TLD parts, each after a dot. */
  predicate DomainShape(s: string) {
    var parts := Split(s, '.');
    |parts| >= 2 && IsLabel(parts[0]) && AllTld(parts[1..])
  }

  lemma {:induction false} DeadStays(s: string)
    ensures Run(Dead, s) == Dead
  {
    if s != [] {
      DeadStays(s[1..]);
    }
  }

  /** The state after `n` letters of a TLD part. */
  function TldState(n: nat): State {
    if n == 0 then AfterDot else if n == 1 then OneLetter else InTld
  }

  /** After the first dot, with `n` letters of the current part read. */
  lemma {:induction false} TldZone(n: nat, t: string)
    decreases t
    ensures var parts := Split(t, '.');
            Run(TldState(n), t) == InTld <==>
            (n + |parts[0]| >= 2 && AllLetters(parts[0]) && AllTld(parts[1..]))
  {
    if t != [] {
      var parts, rest := Split(t, '.'), Split(t[1..], '.');
      if t[0] == '.' {
        assert parts[0] == [] && parts[1..] == rest;
        if n >= 2 {
          assert Run(TldState(n), t) == Run(AfterDot, t[1..]);
          TldZone(0, t[1..]);
          AllTldCons(rest);
        } else {
          DeadStays(t[1..]);
        }
      } else if IsLetter(t[0]) {
        assert parts[0] == [t[0]] + rest[0] && parts[1..] == rest[1..];
        assert Run(TldState(n), t) == Run(TldState(n + 1), t[1..]);
        TldZone(n + 1, t[1..]);
        AllLettersCons(t[0], rest[0]);
      } else {
        assert parts[0][0] == t[0];
        DeadStays(t[1..]);
      }
    }
  }

  /** The state after a label prefix `pre`: nothing yet, an alphanumeric last, or a hyphen last. */
  function LabelState(pre: string): State {
    if pre == [] then Start else if pre[|pre| - 1] == '-' then AfterHyphen else InLabel
  }

  predicate LabelPrefix(pre: string) {
    pre == [] || (IsAlnum(pre[0]) && forall k :: 0 <= k < |pre| ==> IsAlnum(pre[k]) || pre[k] == '-')
  }

  /** Before the first dot, with the label prefix `pre` read. */
  lemma {:induction false} LabelZone(pre: string, t: string)
    requires LabelPrefix(pre)
    decreases t
    ensures var parts := Split(t, '.');
            Run(LabelState(pre), t) == InTld <==>
            (|parts| >= 2 && IsLabel(pre + parts[0]) && AllTld(parts[1..]))
  {
    if t != [] {
      var parts, rest := Split(t, '.'), Split(t[1..], '.');
      var c := t[0];
      if c == '.' {
        assert parts[0] == [] && parts[1..] == rest;
        assert pre + parts[0] == pre;
        if LabelState(pre) == InLabel {
          assert Run(LabelState(pre), t) == Run(AfterDot, t[1..]);
          TldZone(0, t[1..]);
          AllTldCons(rest);
        } else {
          DeadStays(t[1..]);
        }
      } else {
        assert parts[0] == [c] + rest[0] && parts[1..] == rest[1..];
        assert pre + parts[0] == (pre + [c]) + rest[0];
        if IsAlnum(c) || (c == '-' && pre != []) {
          assert Run(LabelState(pre), t) == Run(LabelState(pre + [c]), t[1..]);
          LabelZone(pre + [c], t[1..]);
        } else {
          assert (pre + parts[0])[|pre|] == c;
          DeadStays(t[1..]);
        }
      }
    }
  }

  /** The reading and the shape agree on every string: the reading recognises the pattern. */
  lemma AcceptsShape(s: string)
    ensures Accepts(s) <==> DomainShape(s)
  {
    LabelZone([], s);
    assert [] + Split(s, '.')[0] == Split(s, '.')[0];
  }

  lemma {:induction false} RunIgnoresCase(q: State, s: string)
    decreases s
    ensures Run(q, Lower(s)) == Run(q, s)
  {
    if s != [] {
      assert Lower(s)[1..] == Lower(s[1..]);
      RunIgnoresCase(Step(q, s[0]), s[1..]);
    }
  }

  /** The pattern lists both cases of every letter, so lower-casing never changes the verdict. */
  lemma ValidityIgnoresCase(s: string)
    ensures IsValidDomain(Lower(s)) <==> IsValidDomain(s)
  {
    RunIgnoresCase(Start, s);
    if |s| > 0 {
      assert Lower(s)[..|s| - 1] == Lower(s[..|s| - 1]);
      RunIgnoresCase(Start, s[..|s| - 1]);
    }
  }

  /** `$` lets one final line feed through: any domain of the right shape passes with it. */
  lemma FinalNewlinePasses(s: string)
    requires DomainShape(s)
    ensures IsValidDomain(s + "\n")
  {
    AcceptsShape(s);
    assert (s + "\n")[..|s|] == s;
  }

  /** A trimmed cell has no final line feed, so for it validity is exactly the shape. */
  lemma TrimmedValidity(cell: string)
    ensures IsValidDomain(Trim(cell)) <==> DomainShape(Trim(cell))
  {
    TrimShape(cell);
    AcceptsShape(Trim(cell));
  }

  // ---------------------------------------------------------------------------
  // `readDomains`

  /** What the file system holds at a path: nothing, a file `fopen` refuses, or CSV rows. */
  datatype CsvFile = Missing | Unopenable | Readable(rows: seq<seq<string>>)

  const NoDomainColumn: string := "CSV file must have a \"domain\" column header"

  /** The header as it is searched: every cell trimmed and lower-cased. */
  function HeaderCells(row: seq<string>): (cells: seq<string>)
    ensures |cells| == |row|
  {
    seq(|row|, i requires 0 <= i < |row| => Lower(Trim(row[i])))
  }

  /** `array_search(key, cells, true)`: the first position holding `key`. */
  function Find(cells: seq<string>, key: string): (r: Option<nat>)
    ensures r.None? <==> key !in cells
    ensures r.Some? ==> r.value < |cells| && cells[r.value] == key && key !in cells[..r.value]
  {
    if cells == [] then None
    else if cells[0] == key then Some(0)
    else match Find(cells[1..], key)
      case None => None
      case Some(i) =>
        assert cells[..i + 1] == [cells[0]] + cells[1..][..i];
        Some(i + 1)
  }

  /** What one data row contributes: its cell in the column, trimmed, if valid, lower-cased. */
  function Entry(row: seq<string>, column: nat): (e: seq<string>)
    ensures |e| <= 1
  {
    if column < |row| then
      var d := Trim(row[column]);
      if d != [] && IsValidDomain(d) then [Lower(d)] else []
    else []
  }

  /** What the data rows before row `n` contribute, in order; row 0 is the header. */
  function Collected(rows: seq<seq<string>>, column: nat, n: nat): seq<string>
    requires n <= |rows|
  {
    if n <= 1 then [] else Collected(rows, column, n - 1) + Entry(rows[n - 1], column)
  }

  /** One more data row adds what it contributes. */
  lemma CollectedNext(rows: seq<seq<string>>, column: nat, n: nat)
    requires 1 <= n < |rows|
    ensures Collected(rows, column, n + 1) == Collected(rows, column, n) + Entry(rows[n], column)
  {
  }

  /** Reading further rows only appends: what `n` rows gave is a prefix of what `m >= n` rows give. */
  lemma {:induction false} CollectedPrefix(rows: seq<seq<string>>, column: nat, n: nat, m: nat)
    requires n <= m <= |rows|
    ensures Collected(rows, column, n) <= Collected(rows, column, m)
    decreases m
  {
    if n < m {
      CollectedPrefix(rows, column, n, m - 1);
      if m > 1 {
        assert Collected(rows, column, m) == Collected(rows, column, m - 1) + Entry(rows[m - 1], column);
      }
    }
  }

  /** Whether the data row `row` gives the domain `d`. */
  predicate Gives(row: seq<string>, column: nat, d: string) {
    Entry(row, column) == [d]
  }

  /** What `readDomains` returns or throws. A file with no rows at all has no header to refuse. */
  function Domains(path: string, file: CsvFile): Result<seq<string>, string> {
    match file
    case Missing => Failure("File not found: " + path)
    case Unopenable => Failure("Cannot open file: " + path)
    case Readable(rows) =>
      if rows == [] then Success([])
      else match Find(HeaderCells(rows[0]), "domain")
        case None => Failure(NoDomainColumn)
        case Some(column) => Success(Collected(rows, column, |rows|))
  }

  /** An open file handle over `rows`, read one row at a time. */
  class CsvHandle {
    const rows: seq<seq<string>>
    var position: nat
    var closed: bool

    predicate Valid()
      reads this
    {
      position <= |rows|
    }

    constructor (contents: seq<seq<string>>)
      ensures rows == contents && position == 0 && !closed && Valid()
    {
      rows := contents;
      position := 0;
      closed := false;
    }

    /** `fgetcsv`: the next row, or false (here `None`) once all are read. */
    method ReadRow() returns (row: Option<seq<string>>)
      requires Valid()
      modifies this
      ensures Valid() && closed == old(closed)
      ensures old(position) < |rows| ==> row == Some(rows[old(position)]) && position == old(position) + 1
      ensures old(position) == |rows| ==> row.None? && position == old(position)
    {
      if position < |rows| {
        row := Some(rows[position]);
        position := position + 1;
      } else {
        row := None;
      }
    }

    /** `fclose`. */
    method Close()
      modifies this
      ensures closed && position == old(position)
    {
      closed := true;
    }
  }

  /**
   * The body of the loop for a data row: the cell in the domain column, when the row has
   * one, is trimmed and, when non-empty and valid, appended lower-cased.
   */
  method AddDomain(domains: seq<string>, row: seq<string>, column: nat) returns (next: seq<string>)
    ensures next == domains + Entry(row, column)
  {
    next := domains;
    if column < |row| {
      var d := Trim(row[column]);
      if d != [] && IsValidDomain(d) {
        next := next + [Lower(d)];
      }
    }
  }

  /**
   * `readDomains`: the first row is the header, each later row gives at most one domain.
   * The handle is returned beside the result so that its closing, on the error path as on
   * the normal one, can be stated.
   */
  method ReadDomains(path: string, file: CsvFile) returns (r: Result<seq<string>, string>, handle: CsvHandle?)
    ensures r == Domains(path, file)
    ensures handle != null <==> file.Readable?
    ensures handle != null ==> handle.closed
  {
    handle := null;
    if file.Missing? {
      return Failure("File not found: " + path), handle;
    }
    if file.Unopenable? {
      return Failure("Cannot open file: " + path), handle;
    }
    var rows := file.rows;
    handle := new CsvHandle(rows);
    var domains: seq<string> := [];
    var header: Option<seq<string>> := None;
    var column: nat := 0;
    ghost var done: nat := 0;
    var row := handle.ReadRow();
    while row.Some?
      invariant handle.Valid() && !handle.closed && handle.rows == rows
      invariant done <= |rows|
      invariant row.Some? ==> done < |rows| && handle.position == done + 1 && row.value == rows[done]
      invariant row.None? ==> done == |rows| && handle.position == |rows|
      invariant header.None? <==> done == 0
      invariant header.None? ==> domains == []
      invariant header.Some? ==> header.value == HeaderCells(rows[0]) && Find(header.value, "domain") == Some(column)
      invariant header.Some? ==> domains == Collected(rows, column, done)
      decreases |rows| - done
    {
      if header.None? {
        var cells := HeaderCells(row.value);
        var found := Find(cells, "domain");
        if found.None? {
          handle.Close();
          return Failure(NoDomainColumn), handle;
        }
        header := Some(cells);
        column := found.value;
      } else {
        CollectedNext(rows, column, done);
        domains := AddDomain(domains, row.value, column);
        assert domains == Collected(rows, column, done + 1);
      }
      done := done + 1;
      row := handle.ReadRow();
    }
    handle.Close();
    if header.None? {
      return Success([]), handle;
    }
    return Success(domains), handle;
  }

  // ---------------------------------------------------------------------------
  // What the result promises

  /** The call throws exactly when the file is missing, cannot be opened, or its header has no `domain`. */
  lemma FailsExactly(path: string, file: CsvFile)
    ensures Domains(path, file).Failure? <==>
            file.Missing? || file.Unopenable? ||
            (file.Readable? && file.rows != [] && "domain" !in HeaderCells(file.rows[0]))
  {
  }

  lemma {:induction false} CollectedCount(rows: seq<seq<string>>, column: nat, n: nat)
    requires n <= |rows|
    ensures |Collected(rows, column, n)| < n || n <= 1
  {
    if n > 1 {
      CollectedCount(rows, column, n - 1);
    }
  }

  /** Every domain collected comes from some data row. */
  lemma {:induction false} CollectedFrom(rows: seq<seq<string>>, column: nat, n: nat, i: nat)
    requires n <= |rows| && i < |Collected(rows, column, n)|
    ensures exists k :: 1 <= k < n && Gives(rows[k], column, Collected(rows, column, n)[i])
  {
    var e := Collected(rows, column, n - 1);
    if i < |e| {
      CollectedFrom(rows, column, n - 1, i);
    } else {
      assert Gives(rows[n - 1], column, Collected(rows, column, n)[i]);
    }
  }

  /** Every data row that holds a domain gives it to the collection. */
  lemma {:induction false} CollectedHold(rows: seq<seq<string>>, column: nat, n: nat, k: nat, d: string)
    requires n <= |rows| && 1 <= k < n && Gives(rows[k], column, d)
    ensures d in Collected(rows, column, n)
  {
    var before := Collected(rows, column, n - 1);
    assert Collected(rows, column, n) == before + Entry(rows[n - 1], column);
    if k < n - 1 {
      CollectedHold(rows, column, n - 1, k, d);
      assert d in before;
    } else {
      assert Entry(rows[n - 1], column) == [d];
    }
  }

  lemma {:induction false} CollectedShape(rows: seq<seq<string>>, column: nat, n: nat)
    requires n <= |rows|
    ensures forall k :: 0 <= k < |Collected(rows, column, n)| ==>
              var d := Collected(rows, column, n)[k]; DomainShape(d) && IsValidDomain(d) && Lower(d) == d
  {
    if n > 1 {
      var row := rows[n - 1];
      CollectedShape(rows, column, n - 1);
      if column < |row| {
        var d := Trim(row[column]);
        if d != [] && IsValidDomain(d) {
          TrimShape(row[column]);
          TrimmedValidity(row[column]);
          ValidityIgnoresCase(d);
          LowerIdempotent(d);
          assert Lower(d)[|d| - 1] != '\n';
          AcceptsShape(Lower(d));
        }
      }
    }
  }

  /**
   * The domains read are one per data row at most, each valid, of the pattern's shape and
   * lower-case; and a domain is read exactly when some data row holds it in the `domain`
   * column, trimmed, valid, in any case.
   */
  lemma ReadDomainsContract(path: string, rows: seq<seq<string>>, ds: seq<string>)
    requires Domains(path, Readable(rows)) == Success(ds)
    ensures rows == [] ==> ds == []
    ensures |ds| < |rows| || ds == []
    ensures forall k :: 0 <= k < |ds| ==> DomainShape(ds[k]) && IsValidDomain(ds[k]) && Lower(ds[k]) == ds[k]
    ensures rows != [] ==>
              var column := Find(HeaderCells(rows[0]), "domain").value;
              (forall i :: 0 <= i < |ds| ==> exists k :: 1 <= k < |rows| && Gives(rows[k], column, ds[i])) &&
              (forall k, d :: 1 <= k < |rows| && Gives(rows[k], column, d) ==> d in ds)
  {
    if rows != [] {
      var column := Find(HeaderCells(rows[0]), "domain").value;
      assert ds == Collected(rows, column, |rows|);
      CollectedCount(rows, column, |rows|);
      CollectedShape(rows, column, |rows|);
      forall i | 0 <= i < |ds|
        ensures exists k :: 1 <= k < |rows| && Gives(rows[k], column, ds[i])
      {
        CollectedFrom(rows, column, |rows|, i);
      }
      forall k, d | 1 <= k < |rows| && Gives(rows[k], column, d)
        ensures d in ds
      {
        CollectedHold(rows, column, |rows|, k, d);
      }
    }
  }
}
