/**
  The row-processing pass of the CSV column reorderer.

  Input records arrive already parsed, one `Row` per logical CSV record, in
  the column order (Title, ISBN, Author, Year). The pass discards the first
  record as a header, rewrites every later record that has at least four
  fields into the order (Title, Author, Year, ISBN), and reports every later
  record with fewer than four fields on the error stream, naming its 1-based
  position among all records.
 */
module CsvReorder {
  import opened Decimal

  datatype Option<T> = None | Some(value: T)

  /** One parsed CSV record: its fields, in file order. */
  type Row = seq<string>

  /** The header that always opens the output, whatever the input header says. */
  const OutputHeader: Row := ["Title", "Author", "Year", "ISBN"]

  const DiagnosticPrefix: string := "Missing column on line "
  const DiagnosticSuffix: string := ", skipping\n"

  // ---------------------------------------------------------------------------
  // One record

  /** The output row for an input record (Title, ISBN, Author, Year, ...). */
  function Reorder(row: Row): (r: Row)
    requires |row| >= 4
    ensures |r| == 4
  {
    [row[0], row[2], row[3], row[1]]
  }

  /** Puts an output row back into the input column order (Title, ISBN, Author, Year). */
  function InputOrder(r: Row): Row
    requires |r| == 4
  {
    [r[0], r[3], r[1], r[2]]
  }

  /** Reordering keeps each of the first four fields, in its new place, and nothing else. */
  lemma ReorderRoundTrip(row: Row)
    requires |row| >= 4
    ensures InputOrder(Reorder(row)) == row[..4]
    ensures Reorder(row) == Reorder(row[..4])
  {
  }

  /** The line written to the error stream for a short record on line `line`. */
  function Diagnostic(line: nat): (s: string)
    ensures |s| > |DiagnosticPrefix| + |DiagnosticSuffix|
    ensures s[..|DiagnosticPrefix|] == DiagnosticPrefix
    ensures s[|s| - |DiagnosticSuffix|..] == DiagnosticSuffix
  {
    DiagnosticPrefix + NatToString(line) + DiagnosticSuffix
  }

  /** Recovers the line number from a diagnostic line, if it is one. */
  function ParseDiagnostic(s: string): Option<nat> {
    var p, q := |DiagnosticPrefix|, |DiagnosticSuffix|;
    if |s| > p + q && s[..p] == DiagnosticPrefix && s[|s| - q..] == DiagnosticSuffix
       && AllDigits(s[p..|s| - q])
    then Some(ParseNat(s[p..|s| - q]))
    else None
  }

  /** Every diagnostic names its line number unambiguously. */
  lemma DiagnosticRoundTrip(line: nat)
    ensures ParseDiagnostic(Diagnostic(line)) == Some(line)
  {
    var p, q := |DiagnosticPrefix|, |DiagnosticSuffix|;
    var digits := NatToString(line);
    var s := Diagnostic(line);
    assert s[p..|s| - q] == digits;
    ParseNatToString(line);
  }

  // ---------------------------------------------------------------------------
  // The whole pass, as functions of the first n records

  /** Record `i` (0-based) is a data record with all four columns. */
  predicate IsKept(records: seq<Row>, i: nat)
    requires i < |records|
  {
    i != 0 && |records[i]| >= 4
  }

  /** Record `i` (0-based) is a data record with a missing column. */
  predicate IsShort(records: seq<Row>, i: nat)
    requires i < |records|
  {
    i != 0 && |records[i]| < 4
  }

  /** The output sequence after the first `n` records. */
  function OutputOf(records: seq<Row>, n: nat): seq<Row>
    requires n <= |records|
  {
    if n == 0 then [OutputHeader]
    else OutputOf(records, n - 1) + (if IsKept(records, n - 1) then [Reorder(records[n - 1])] else [])
  }

  /** The 0-based positions of the records that produced output rows, among the first `n`. */
  function KeptIndicesOf(records: seq<Row>, n: nat): seq<nat>
    requires n <= |records|
  {
    if n == 0 then []
    else KeptIndicesOf(records, n - 1) + (if IsKept(records, n - 1) then [n - 1] else [])
  }

  /** The 1-based line numbers reported as missing a column, among the first `n` records. */
  function SkippedLinesOf(records: seq<Row>, n: nat): seq<nat>
    requires n <= |records|
  {
    if n == 0 then []
    else SkippedLinesOf(records, n - 1) + (if IsShort(records, n - 1) then [n] else [])
  }

  /** The error-stream lines for the given line numbers, in order. */
  function Diagnostics(lines: seq<nat>): (d: seq<string>)
    ensures |d| == |lines|
  {
    if lines == [] then []
    else Diagnostics(lines[..|lines| - 1]) + [Diagnostic(lines[|lines| - 1])]
  }

  lemma DiagnosticsSnoc(lines: seq<nat>, line: nat)
    ensures Diagnostics(lines + [line]) == Diagnostics(lines) + [Diagnostic(line)]
  {
    assert (lines + [line])[..|lines|] == lines;
  }

  lemma {:induction false} DiagnosticsAt(lines: seq<nat>, k: nat)
    requires k < |lines|
    ensures Diagnostics(lines)[k] == Diagnostic(lines[k])
    decreases |lines|
  {
    if k < |lines| - 1 {
      DiagnosticsAt(lines[..|lines| - 1], k);
    }
  }

  // ---------------------------------------------------------------------------
  // The pass itself

  /**
    Walks the records once with a 1-based line counter, as `process` does,
    returning the rows destined for standard output and the lines written to
    standard error.
   */
  method Process(records: seq<Row>) returns (output: seq<Row>, stderr: seq<string>)
    ensures output == OutputOf(records, |records|)
    ensures stderr == Diagnostics(SkippedLinesOf(records, |records|))
  {
    output := [];
    output := output + [OutputHeader];
    stderr := [];
    var lineNumber: nat := 0;
    for i := 0 to |records|
      invariant lineNumber == i
      invariant output == OutputOf(records, i)
      invariant stderr == Diagnostics(SkippedLinesOf(records, i))
    {
      var row := records[i];
      lineNumber := lineNumber + 1;
      if lineNumber == 1 {
        // the header record is never read
        continue;
      }
      if |row| < 4 {
        // one of the four reads would fail, before anything is appended
        DiagnosticsSnoc(SkippedLinesOf(records, i), lineNumber);
        stderr := stderr + [Diagnostic(lineNumber)];
        assert SkippedLinesOf(records, i + 1) == SkippedLinesOf(records, i) + [lineNumber];
      } else {
        var title, isbn, author, year := row[0], row[1], row[2], row[3];
        output := output + [[title, author, year, isbn]];
        assert SkippedLinesOf(records, i + 1) == SkippedLinesOf(records, i);
      }
    }
    assert lineNumber == |records|;
  }

  // ---------------------------------------------------------------------------
  // Properties of the pass

  predicate StrictlyIncreasing(s: seq<nat>) {
    forall j, k :: 0 <= j < k < |s| ==> s[j] < s[k]
  }

  /** The output always opens with the fixed header. */
  lemma {:induction false} HeaderFirst(records: seq<Row>, n: nat)
    requires n <= |records|
    ensures |OutputOf(records, n)| >= 1 && OutputOf(records, n)[0] == OutputHeader
  {
    if n > 0 {
      HeaderFirst(records, n - 1);
    }
  }

  /**
    Output row j + 1 is the reordering of the j-th kept record, so the output
    follows the kept records one for one and in their order.
   */
  lemma {:induction false} OutputFollowsKept(records: seq<Row>, n: nat)
    requires n <= |records|
    ensures |OutputOf(records, n)| == 1 + |KeptIndicesOf(records, n)|
    ensures forall j :: 0 <= j < |KeptIndicesOf(records, n)| ==>
              KeptIndicesOf(records, n)[j] < n && |records[KeptIndicesOf(records, n)[j]]| >= 4 &&
              OutputOf(records, n)[j + 1] == Reorder(records[KeptIndicesOf(records, n)[j]])
  {
    if n > 0 {
      OutputFollowsKept(records, n - 1);
    }
  }

  /** Every output row has exactly four fields. */
  lemma {:induction false} OutputRowsHaveFourFields(records: seq<Row>, n: nat)
    requires n <= |records|
    ensures forall j :: 0 <= j < |OutputOf(records, n)| ==> |OutputOf(records, n)[j]| == 4
  {
    if n > 0 {
      OutputRowsHaveFourFields(records, n - 1);
    }
  }

  /**
    The kept positions are exactly the data records with at least four fields,
    each listed once, in increasing order.
   */
  lemma {:induction false} KeptIndicesExact(records: seq<Row>, n: nat)
    requires n <= |records|
    ensures StrictlyIncreasing(KeptIndicesOf(records, n))
    ensures forall i :: 1 <= i < n ==> (i in KeptIndicesOf(records, n) <==> |records[i]| >= 4)
    ensures forall j :: 0 <= j < |KeptIndicesOf(records, n)| ==> 1 <= KeptIndicesOf(records, n)[j] < n
  {
    if n > 0 {
      KeptIndicesExact(records, n - 1);
    }
  }

  /**
    The reported line numbers are exactly the 1-based positions of the data
    records with fewer than four fields, each reported once, in increasing
    order; the header (line 1) is never reported.
   */
  lemma {:induction false} SkippedLinesExact(records: seq<Row>, n: nat)
    requires n <= |records|
    ensures StrictlyIncreasing(SkippedLinesOf(records, n))
    ensures forall l :: 2 <= l <= n ==> (l in SkippedLinesOf(records, n) <==> |records[l - 1]| < 4)
    ensures forall j :: 0 <= j < |SkippedLinesOf(records, n)| ==> 2 <= SkippedLinesOf(records, n)[j] <= n
  {
    if n > 0 {
      SkippedLinesExact(records, n - 1);
    }
  }

  /** Each data record is either kept or reported: never both, never neither. */
  lemma KeptOrReported(records: seq<Row>, n: nat, i: nat)
    requires n <= |records| && 1 <= i < n
    ensures (i in KeptIndicesOf(records, n)) != (i + 1 in SkippedLinesOf(records, n))
  {
    KeptIndicesExact(records, n);
    SkippedLinesExact(records, n);
  }

  /**
    Every record is accounted for exactly once: the header, plus one output
    row or one diagnostic for each data record.
   */
  lemma {:induction false} EveryRecordCounted(records: seq<Row>, n: nat)
    requires n <= |records|
    ensures |OutputOf(records, n)| + |SkippedLinesOf(records, n)| == if n == 0 then 1 else n
  {
    if n > 0 {
      EveryRecordCounted(records, n - 1);
    }
  }

  /** The data records among the first `n` that have all four columns. */
  ghost function KeptSet(records: seq<Row>, n: nat): set<nat>
    requires n <= |records|
  {
    set i: nat | 1 <= i < n && |records[i]| >= 4
  }

  /** The output holds one row more than there are data records with all four columns. */
  lemma {:induction false} OutputLength(records: seq<Row>, n: nat)
    requires n <= |records|
    ensures |OutputOf(records, n)| == 1 + |KeptSet(records, n)|
  {
    if n > 0 {
      OutputLength(records, n - 1);
      if IsKept(records, n - 1) {
        assert KeptSet(records, n) == KeptSet(records, n - 1) + {n - 1};
        assert n - 1 !in KeptSet(records, n - 1);
      } else {
        assert KeptSet(records, n) == KeptSet(records, n - 1);
      }
    }
  }

  /** The contents of the first record play no part in either result. */
  lemma {:induction false} HeaderIgnored(records: seq<Row>, other: seq<Row>, n: nat)
    requires 1 <= |records| == |other| && n <= |records|
    requires records[1..] == other[1..]
    ensures OutputOf(records, n) == OutputOf(other, n)
    ensures SkippedLinesOf(records, n) == SkippedLinesOf(other, n)
  {
    if n > 0 {
      HeaderIgnored(records, other, n - 1);
      if n - 1 > 0 {
        assert records[n - 1] == records[1..][n - 2] == other[1..][n - 2] == other[n - 1];
      }
    }
  }

  /** Records after the first `n` do not change what the first `n` produced. */
  lemma {:induction false} PrefixStable(records: seq<Row>, more: seq<Row>, n: nat)
    requires n <= |records|
    ensures OutputOf(records + more, n) == OutputOf(records, n)
    ensures SkippedLinesOf(records + more, n) == SkippedLinesOf(records, n)
  {
    if n > 0 {
      PrefixStable(records, more, n - 1);
      assert (records + more)[n - 1] == records[n - 1];
    }
  }

  /**
    The whole pass on every input: the fixed header, then one reordered row
    per complete data record in input order, and one diagnostic per short
    data record naming its line.
   */
  lemma ProcessCharacterised(records: seq<Row>)
    ensures |OutputOf(records, |records|)| == 1 + |KeptIndicesOf(records, |records|)|
    ensures OutputOf(records, |records|)[0] == OutputHeader
    ensures StrictlyIncreasing(KeptIndicesOf(records, |records|))
    ensures forall j :: 0 <= j < |KeptIndicesOf(records, |records|)| ==>
              var k := KeptIndicesOf(records, |records|)[j];
              1 <= k < |records| && |records[k]| >= 4 && OutputOf(records, |records|)[j + 1] == Reorder(records[k])
    ensures forall i :: 1 <= i < |records| ==> (i in KeptIndicesOf(records, |records|) <==> |records[i]| >= 4)
    ensures StrictlyIncreasing(SkippedLinesOf(records, |records|))
    ensures forall l :: 2 <= l <= |records| ==> (l in SkippedLinesOf(records, |records|) <==> |records[l - 1]| < 4)
    ensures forall j :: 0 <= j < |SkippedLinesOf(records, |records|)| ==> 2 <= SkippedLinesOf(records, |records|)[j] <= |records|
  {
    var n := |records|;
    HeaderFirst(records, n);
    OutputFollowsKept(records, n);
    KeptIndicesExact(records, n);
    SkippedLinesExact(records, n);
  }

  /** The records of the worked example: a header, one complete record, and a short record. */
  const ExampleRecords: seq<Row> := [["Title", "ISBN", "Author", "Year"],
                                     ["Dune", "978-0441013593", "Frank Herbert", "1965"],
                                     ["BadRow", "123"]]

  /** The worked example: the complete record is reordered, the short one on line 3 is reported. */
  lemma WorkedExample()
    ensures OutputOf(ExampleRecords, 3) == [OutputHeader, ["Dune", "Frank Herbert", "1965", "978-0441013593"]]
    ensures Diagnostics(SkippedLinesOf(ExampleRecords, 3)) == [Diagnostic(3)]
  {
    var records := ExampleRecords;
    assert |records[0]| == 4 && |records[1]| == 4 && |records[2]| == 2;
    assert OutputOf(records, 2) == [OutputHeader, Reorder(records[1])];
    assert SkippedLinesOf(records, 3) == [3];
    assert Diagnostics([3]) == Diagnostics([]) + [Diagnostic(3)];
  }

  /** The diagnostic for line 3, spelled out. */
  lemma WorkedExampleMessage()
    ensures Diagnostic(3) == "Missing column on line 3, skipping\n"
  {
    assert NatToString(3) == "3";
  }
}
