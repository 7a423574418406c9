/**
 * The candidate-lookup endpoint `GET /api/candidates?search=…`: a line-oriented
 * CSV parser, a search filter over six fields, and a module-level cache of the
 * parsed list that is reused for five minutes.
 *
 * The file contents and whether reading them succeeded, the clock and the
 * `search` query parameter are parameters of `Get`.
 */
module CandidatesRoute {
  import opened Wrappers
  import opened JsStrings
  import JsArrays

  /** How long a parsed list is served from memory, in milliseconds. */
  const CACHE_DURATION: int := 5 * 60 * 1000

  /** A data row must split into at least this many comma-separated columns. */
  const MIN_COLUMNS: nat := 10

  /** The HTTP status of a failed response. */
  const ERROR_STATUS: int := 500

  /** The `error` text of a failed response. */
  const READ_ERROR: string := "Failed to read candidate data"

  /** One row of the candidate file. `acName` keeps the whole Assembly column
      ("29-Runnisaidpur"); `acNumber` is the number in front of its dash. */
  datatype Candidate = Candidate(
    sNo: int,
    district: string,
    acNumber: int,
    acName: string,
    candidateName: string,
    electionPhase: string,
    ballotNumber: int,
    districtHindi: string,
    acNameHindi: string,
    candidateNameHindi: string)

  /** The JSON body of a response: `{success: true, data, total, cached}` with
      status 200, or `{success: false, error, data, total}` with `status`. */
  datatype Response =
    | Success(data: seq<Candidate>, total: int, cached: bool)
    | Failure(error: string, data: seq<Candidate>, total: int, status: int)
  {
    function Status(): int {
      if Success? then 200 else status
    }
  }

  // ---------------------------------------------------------------------
  // parseCSV
  // ---------------------------------------------------------------------

  /** The lines of the file: the whole text trimmed, then split at line feeds. */
  function Lines(content: string): (lines: seq<string>)
    ensures |lines| >= 1
  {
    Split(Trim(content), '\n')
  }

  /** The AC number of an Assembly column such as "29-Runnisaidpur": the value
      of the leading digit run when a `-` immediately follows it (the regular
      expression `^(\d+)-`), and 0 otherwise. */
  function AcNumber(assembly: string): nat {
    var ds := LeadingDigits(assembly, 10);
    if ds != [] && |ds| < |assembly| && assembly[|ds|] == '-' then Value(ds, 10) else 0
  }

  /** `parseInt(column) || 0`: NaN becomes 0. */
  function BallotNumber(column: string): int {
    ParseInt(column).GetOr(0)
  }

  /** The Assembly column starts with `k` decimal digits followed by a dash. */
  predicate HasAcPrefix(assembly: string, k: int) {
    0 < k < |assembly| && AllDigits(assembly[..k], 10) && assembly[k] == '-'
  }

  /** A line that yields a record: not blank once trimmed, and at least ten
      columns when split at commas. */
  predicate IsDataRow(line: string) {
    var t := Trim(line);
    t != [] && |Split(t, ',')| >= MIN_COLUMNS
  }

  /** The record built from the columns of line `sNo`. */
  function RowToCandidate(sNo: int, columns: seq<string>): Candidate
    requires |columns| >= MIN_COLUMNS
  {
    Candidate(
      sNo := sNo,
      district := columns[0],
      acNumber := AcNumber(columns[1]),
      acName := columns[1],
      candidateName := columns[2],
      electionPhase := columns[3],
      ballotNumber := BallotNumber(columns[4]),
      districtHindi := columns[6],
      acNameHindi := columns[7],
      candidateNameHindi := columns[8])
  }

  /** What line `i` contributes to the result: one record or none. */
  function LineRecord(i: int, line: string): seq<Candidate> {
    if IsDataRow(line) then [RowToCandidate(i, Split(Trim(line), ','))] else []
  }

  /** The records of lines 1 to n - 1, in order; line 0 is the header. */
  function Records(lines: seq<string>, n: nat): seq<Candidate>
    requires n <= |lines|
  {
    if n <= 1 then [] else Records(lines, n - 1) + LineRecord(n - 1, lines[n - 1])
  }

  /** The list `parseCSV` returns for the file contents. */
  function ParsedCandidates(content: string): seq<Candidate> {
    var lines := Lines(content);
    Records(lines, |lines|)
  }

  /** `parseCSV(csvContent)`: walks the lines after the header and appends one
      record for every line that is a data row. */
  method ParseCSV(content: string) returns (candidates: seq<Candidate>)
    ensures candidates == ParsedCandidates(content)
  {
    var lines := Split(Trim(content), '\n');
    candidates := [];
    for i := 1 to |lines|
      invariant candidates == Records(lines, i)
    {
      var line := Trim(lines[i]);
      if line != [] {
        var columns := Split(line, ',');
        if |columns| >= MIN_COLUMNS {
          var assembly := columns[1];
          var candidate := Candidate(
            sNo := i,
            district := columns[0],
            acNumber := AcNumber(assembly),
            acName := assembly,
            candidateName := columns[2],
            electionPhase := columns[3],
            ballotNumber := BallotNumber(columns[4]),
            districtHindi := columns[6],
            acNameHindi := columns[7],
            candidateNameHindi := columns[8]);
          assert LineRecord(i, lines[i]) == [candidate] by {
            assert IsDataRow(lines[i]);
          }
          candidates := candidates + [candidate];
        }
      }
    }
  }

  // ---------------------------------------------------------------------
  // Properties of the parse
  // ---------------------------------------------------------------------

  /** The serial numbers of the records for lines below `n` lie in 1 .. n - 1
      and strictly increase, so there are at most n - 1 records. */
  lemma {:induction false} RecordsSerials(lines: seq<string>, n: nat)
    requires 1 <= n <= |lines|
    ensures |Records(lines, n)| <= n - 1
    ensures forall k :: 0 <= k < |Records(lines, n)| ==> 1 <= Records(lines, n)[k].sNo < n
    ensures forall j, k :: 0 <= j < k < |Records(lines, n)| ==>
              Records(lines, n)[j].sNo < Records(lines, n)[k].sNo
    decreases n
  {
    if n > 1 {
      RecordsSerials(lines, n - 1);
    }
  }

  /** `c` is the record that line `c.sNo` of `lines` yields. */
  predicate IsRecordOf(lines: seq<string>, c: Candidate) {
    && 0 <= c.sNo < |lines|
    && IsDataRow(lines[c.sNo])
    && c == RowToCandidate(c.sNo, Split(Trim(lines[c.sNo]), ','))
  }

  /** Every record for lines below `n` is the record of the data row its
      serial number names. */
  lemma {:induction false} RecordsSound(lines: seq<string>, n: nat)
    requires n <= |lines|
    ensures forall k :: 0 <= k < |Records(lines, n)| ==>
              Records(lines, n)[k].sNo < n && IsRecordOf(lines, Records(lines, n)[k])
    decreases n
  {
    if n > 1 {
      var prev := Records(lines, n - 1);
      var last := LineRecord(n - 1, lines[n - 1]);
      RecordsSound(lines, n - 1);
      var r := prev + last;
      assert Records(lines, n) == r;
      forall k | 0 <= k < |r|
        ensures r[k].sNo < n && IsRecordOf(lines, r[k])
      {
        if k < |prev| {
          assert r[k] == prev[k];
        } else {
          assert IsDataRow(lines[n - 1]);
          assert r[k] == last[0];
        }
      }
    }
  }

  /** Every data row below line `n`, other than the header, has a record. */
  lemma {:induction false} RecordsComplete(lines: seq<string>, n: nat)
    requires n <= |lines|
    ensures forall i :: 1 <= i < n && IsDataRow(lines[i]) ==>
              exists k :: 0 <= k < |Records(lines, n)| && Records(lines, n)[k].sNo == i
    decreases n
  {
    if n > 1 {
      var prev := Records(lines, n - 1);
      var last := LineRecord(n - 1, lines[n - 1]);
      RecordsComplete(lines, n - 1);
      var r := prev + last;
      assert Records(lines, n) == r;
      forall i | 1 <= i < n && IsDataRow(lines[i])
        ensures exists k :: 0 <= k < |r| && r[k].sNo == i
      {
        if i < n - 1 {
          var k :| 0 <= k < |prev| && prev[k].sNo == i;
          assert r[k] == prev[k];
        } else {
          assert last == [RowToCandidate(n - 1, Split(Trim(lines[n - 1]), ','))];
          assert r[|prev|] == last[0];
        }
      }
    }
  }

  /** The shape of the parse: the records' serial numbers are line indices of
      data rows, never the header's, strictly increasing, so that there is at
      most one record per line after the header and they come in file order;
      and every data row after the header has a record. */
  lemma ParsedShape(content: string)
    ensures |ParsedCandidates(content)| <= |Lines(content)| - 1
    ensures forall k :: 0 <= k < |ParsedCandidates(content)| ==>
              && 1 <= ParsedCandidates(content)[k].sNo
              && IsRecordOf(Lines(content), ParsedCandidates(content)[k])
    ensures forall j, k :: 0 <= j < k < |ParsedCandidates(content)| ==>
              ParsedCandidates(content)[j].sNo < ParsedCandidates(content)[k].sNo
    ensures forall i :: 1 <= i < |Lines(content)| && IsDataRow(Lines(content)[i]) ==>
              exists k :: 0 <= k < |ParsedCandidates(content)| && ParsedCandidates(content)[k].sNo == i
  {
    var lines := Lines(content);
    RecordsSerials(lines, |lines|);
    RecordsSound(lines, |lines|);
    RecordsComplete(lines, |lines|);
  }

  /** The fields of each record come from the columns of its line: columns 0,
      1, 2, 3, 6, 7 and 8 verbatim, the AC number from column 1 and the ballot
      number from column 4; column 5 and those after 8 are not used. */
  lemma ParsedFields(content: string, k: nat)
    requires k < |ParsedCandidates(content)|
    ensures 1 <= ParsedCandidates(content)[k].sNo < |Lines(content)|
    ensures var c := ParsedCandidates(content)[k];
            var columns := Split(Trim(Lines(content)[c.sNo]), ',');
            && |columns| >= MIN_COLUMNS
            && c.district == columns[0]
            && c.acName == columns[1]
            && c.acNumber == AcNumber(columns[1])
            && c.candidateName == columns[2]
            && c.electionPhase == columns[3]
            && c.ballotNumber == BallotNumber(columns[4])
            && c.districtHindi == columns[6]
            && c.acNameHindi == columns[7]
            && c.candidateNameHindi == columns[8]
  {
    var lines := Lines(content);
    RecordsSerials(lines, |lines|);
    RecordsSound(lines, |lines|);
  }

  /** The AC number is the value of the digits in front of the first dash when
      the column starts with digits and a dash, and 0 when it does not. */
  lemma AcNumberSpec(assembly: string)
    ensures forall k :: HasAcPrefix(assembly, k) ==> AcNumber(assembly) == Value(assembly[..k], 10)
    ensures (forall k :: !HasAcPrefix(assembly, k)) ==> AcNumber(assembly) == 0
  {
    forall k | HasAcPrefix(assembly, k)
      ensures AcNumber(assembly) == Value(assembly[..k], 10)
    {
      assert assembly == assembly[..k] + assembly[k..];
      LeadingDigitsOfNumeral(assembly[..k], assembly[k..], 10);
    }
    var ds := LeadingDigits(assembly, 10);
    if ds != [] && |ds| < |assembly| && assembly[|ds|] == '-' {
      assert HasAcPrefix(assembly, |ds|);
    }
  }

  /** An Assembly column written as number, dash, name yields that number. */
  lemma AcNumberRoundTrip(n: nat, name: string)
    ensures AcNumber(NatToDecimal(n) + ['-'] + name) == n
  {
    var digits := NatToDecimal(n);
    var assembly := digits + ['-'] + name;
    assert assembly[..|digits|] == digits;
    assert HasAcPrefix(assembly, |digits|);
    AcNumberSpec(assembly);
    DecimalRoundTrip(n);
  }

  /** The ballot number of a column holding a printed integer, possibly with
      whitespace before it, is that integer; a column with no digit after the
      whitespace and sign gives 0. */
  lemma BallotNumberSpec(pre: string, n: int, rest: string)
    requires AllWhitespace(pre)
    requires rest == [] || DigitOf(rest[0]) == 36
    ensures BallotNumber(pre + IntToDecimal(n) + rest) == n
  {
    ParseIntRoundTrip(pre, n, rest);
  }

  /** A ballot column whose text, after whitespace and an optional sign, does
      not start with a decimal digit makes `parseInt` return NaN, and the
      record gets ballot number 0. */
  lemma BallotNumberNaN(column: string)
    requires var u := Unsigned(TrimStart(column)); u == [] || !IsDigit(u[0])
    ensures BallotNumber(column) == 0
  {
    ParseIntNoDigits(column);
  }

  // ---------------------------------------------------------------------
  // The search filter
  // ---------------------------------------------------------------------

  /** The search predicate: `search` lower-cased occurs in the lower-cased
      Assembly, candidate or district name, or `search` itself occurs in one
      of the three Hindi fields. */
  predicate Matches(c: Candidate, search: string) {
    var searchLower := ToLower(search);
    || Includes(ToLower(c.acName), searchLower)
    || Includes(ToLower(c.candidateName), searchLower)
    || Includes(ToLower(c.district), searchLower)
    || Includes(c.acNameHindi, search)
    || Includes(c.candidateNameHindi, search)
    || Includes(c.districtHindi, search)
  }

  /** The callback handed to `filter` for a given search text. */
  function SearchFor(search: string): Candidate -> bool {
    c => Matches(c, search)
  }

  /** The list a response carries: the whole list for an empty search, the
      matching records otherwise. */
  function Filter(cs: seq<Candidate>, search: string): (r: seq<Candidate>)
    ensures |r| <= |cs|
    ensures search == [] ==> r == cs
    ensures forall c :: c in r <==> c in cs && (search == [] || Matches(c, search))
    ensures multiset(r) <= multiset(cs)
  {
    if search == [] then cs
    else
      JsArrays.FilterMembers(cs, SearchFor(search));
      JsArrays.Filter(cs, SearchFor(search))
  }

  /** Spelled out with positions: a record matches when the lower-cased search
      text occurs somewhere in a lower-cased English field or the search text
      occurs somewhere in a Hindi field. */
  lemma MatchesIff(c: Candidate, search: string)
    ensures Matches(c, search) <==>
      || Occurs(ToLower(c.acName), ToLower(search))
      || Occurs(ToLower(c.candidateName), ToLower(search))
      || Occurs(ToLower(c.district), ToLower(search))
      || Occurs(c.acNameHindi, search)
      || Occurs(c.candidateNameHindi, search)
      || Occurs(c.districtHindi, search)
  {
    var q := ToLower(search);
    IncludesIff(ToLower(c.acName), q);
    IncludesIff(ToLower(c.candidateName), q);
    IncludesIff(ToLower(c.district), q);
    IncludesIff(c.acNameHindi, search);
    IncludesIff(c.candidateNameHindi, search);
    IncludesIff(c.districtHindi, search);
  }

  /** Skipping the filter for an empty search returns what filtering would:
      every record matches the empty text. */
  lemma EmptySearchKeepsAll(cs: seq<Candidate>)
    ensures JsArrays.Filter(cs, SearchFor([])) == cs
  {
    assert ToLower([]) == [];
    forall i | 0 <= i < |cs| ensures SearchFor([])(cs[i]) {
      IncludesEmpty(ToLower(cs[i].acName));
    }
    JsArrays.FilterAll(cs, SearchFor([]));
  }

  /** The filter keeps order and takes each record on its own: filtering a
      concatenation concatenates the results, and a single record is kept
      exactly when the search is empty or it matches. */
  lemma FilterAppend(a: seq<Candidate>, b: seq<Candidate>, search: string)
    ensures Filter(a + b, search) == Filter(a, search) + Filter(b, search)
    ensures |a| == 1 ==> Filter(a, search) == if search == [] || Matches(a[0], search) then a else []
  {
    if search != [] {
      JsArrays.FilterAppend(a, b, SearchFor(search));
      if |a| == 1 {
        assert a[1..] == [];
      }
    }
  }

  /** The filter is idempotent. */
  lemma FilterIdempotent(cs: seq<Candidate>, search: string)
    ensures Filter(Filter(cs, search), search) == Filter(cs, search)
  {
    if search != [] {
      JsArrays.FilterIdempotent(cs, SearchFor(search));
    }
  }

  // ---------------------------------------------------------------------
  // GET and the module-level cache
  // ---------------------------------------------------------------------

  /** The module-level `candidateCache` (`None` for `null`) and `cacheTimestamp`. */
  class CandidateCache {
    var cache: Option<seq<Candidate>>
    var timestamp: int

    /** The state when the module is loaded. */
    constructor ()
      ensures cache == None && timestamp == 0
    {
      cache := None;
      timestamp := 0;
    }

    /** A request at time `now` is served from memory: there is a cached list
        (an empty one counts) and it is younger than five minutes. */
    predicate IsFresh(now: int)
      reads this
    {
      cache.Some? && now - timestamp < CACHE_DURATION
    }

    /** `GET(request)`. `fileText` is what reading the candidate file returns
        when `readOk` holds; `now` is `Date.now()`. */
    method Get(fileText: string, readOk: bool, now: int, search: string) returns (response: Response)
      modifies this
      ensures response.total == |response.data|
      ensures old(IsFresh(now)) ==>
        && cache == old(cache) && timestamp == old(timestamp)
        && response == Success(Filter(cache.value, search), |Filter(cache.value, search)|, true)
      ensures !old(IsFresh(now)) && readOk ==>
        && cache == Some(ParsedCandidates(fileText)) && timestamp == now
        && response == Success(Filter(cache.value, search), |Filter(cache.value, search)|, false)
      ensures !old(IsFresh(now)) && !readOk ==>
        && cache == old(cache) && timestamp == old(timestamp)
        && response == Failure(READ_ERROR, [], 0, ERROR_STATUS)
    {
      if cache.Some? && now - timestamp < CACHE_DURATION {
        var filtered := Filter(cache.value, search);
        return Success(filtered, |filtered|, true);
      }
      if !readOk {
        return Failure(READ_ERROR, [], 0, ERROR_STATUS);
      }
      var candidates := ParseCSV(fileText);
      cache := Some(candidates);
      timestamp := now;
      var filtered := Filter(candidates, search);
      response := Success(filtered, |filtered|, false);
    }
  }
}
