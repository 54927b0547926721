# CSV column reorderer — verified model of the row-processing pass

The program reads a CSV file of books whose columns are (Title, ISBN, Author,
Year), and writes a CSV to standard output whose columns are (Title, Author,
Year, ISBN). This project models `process`, the function that does the work,
from the point where the records have been parsed to the point where the
output rows are ready to be written:

- the output starts with the fixed header `Title, Author, Year, ISBN`,
  whatever the input header says;
- a 1-based counter numbers the parsed records; the first record is
  discarded without being read;
- every later record with at least four fields yields one output row
  `[r[0], r[2], r[3], r[1]]`, and fields after the fourth are ignored;
- every later record with fewer than four fields yields no output row and one
  diagnostic line `Missing column on line N, skipping` on standard error,
  where N is the counter. The four field reads come before the append, so a
  short record adds nothing to the output. The model checks `|row| < 4`
  explicitly where the source catches `IndexError`.

Files:

- `csv_reorder.dfy`, module `CsvReorder`: the method `Process`, which runs the
  loop with its counter the way the source does and returns the output rows
  and the standard-error lines. Beside it are the specification functions
  `OutputOf`, `KeptIndicesOf` and `SkippedLinesOf`, which give the results
  after the first n records, and lemmas that describe those results without
  recursion. The lemmas cover the header, the row mapping, order, exactly one
  outcome per record, counts, and the fact that the first record's contents
  never matter.
- `decimal.dfy`, module `Decimal`: how a line number is written as decimal
  digits inside the diagnostic, with its inverse `ParseNat`.

Standard error is modelled as the sequence of lines written to it, in order.

## Model

| member | source | states |
|---|---|---|
| `CsvReorder.Process` | python/csv/basic_file_processing/process_csv.py:18-46 | The loop with its line counter gives exactly `OutputOf` of all the records as output and, in order, one diagnostic per entry of `SkippedLinesOf` of all the records on standard error. After the loop the counter equals the number of records (a loop invariant, asserted after the loop). |
| `CsvReorder.HeaderFirst` | python/csv/basic_file_processing/process_csv.py:25-27 | The output is never empty, and its first row is exactly `["Title","Author","Year","ISBN"]`. |
| `CsvReorder.Reorder` | python/csv/basic_file_processing/process_csv.py:38-43 | The row built from a record with at least four fields has exactly four fields. |
| `CsvReorder.ReorderRoundTrip` | python/csv/basic_file_processing/process_csv.py:38-43 | Putting the output row back into input order gives the record's first four fields. Only those four fields matter (`Reorder(row) == Reorder(row[..4])`). |
| `CsvReorder.OutputFollowsKept` | python/csv/basic_file_processing/process_csv.py:36-43 | The output has one more row than there are kept records. Output row j+1 is `Reorder` of the j-th kept record, and that record has at least four fields. |
| `CsvReorder.OutputRowsHaveFourFields` | python/csv/basic_file_processing/process_csv.py:27-43 | Every output row, the header included, has exactly four fields. |
| `CsvReorder.KeptIndicesExact` | python/csv/basic_file_processing/process_csv.py:31-43 | The kept positions are strictly increasing and all between 1 and n-1. A data record is kept exactly when it has at least four fields. So input order is kept and the header never contributes. |
| `CsvReorder.SkippedLinesExact` | python/csv/basic_file_processing/process_csv.py:30-46 | The reported line numbers are strictly increasing and lie in 2..n. Line l is reported exactly when record l (1-based) has fewer than four fields. |
| `CsvReorder.KeptOrReported` | python/csv/basic_file_processing/process_csv.py:36-46 | Each data record is either kept or reported, never both and never neither. |
| `CsvReorder.EveryRecordCounted` | python/csv/basic_file_processing/process_csv.py:30-46 | Output rows plus diagnostics equal the number of records when there is at least one record: the header row stands for the discarded first record. |
| `CsvReorder.OutputLength` | python/csv/basic_file_processing/process_csv.py:25-43 | The output length is 1 plus the number of data records with at least four fields. |
| `CsvReorder.HeaderIgnored` | python/csv/basic_file_processing/process_csv.py:33-35 | Two inputs that differ only in their first record give the same output and the same diagnostics, whatever the length of that record. |
| `CsvReorder.PrefixStable` | python/csv/basic_file_processing/process_csv.py:31-46 | Records appended after the first n do not change what the first n produced (single pass, left to right). |
| `CsvReorder.ProcessCharacterised` | python/csv/basic_file_processing/process_csv.py:25-46 | The whole result in closed form: header first; kept records in increasing order, each reordered; kept exactly when it has at least four fields; diagnostics in increasing order; line l reported exactly when record l is short; every reported line is at least 2. |
| `CsvReorder.Diagnostic` | python/csv/basic_file_processing/process_csv.py:46 | A diagnostic starts with `Missing column on line `, ends with `, skipping` and a newline, and has the line number in between. |
| `CsvReorder.DiagnosticRoundTrip` | python/csv/basic_file_processing/process_csv.py:46 | The line number can be read back from a diagnostic, so different lines give different messages. |
| `CsvReorder.Diagnostics` | python/csv/basic_file_processing/process_csv.py:44-46 | There is one standard-error line per reported line number. |
| `CsvReorder.DiagnosticsAt` | python/csv/basic_file_processing/process_csv.py:44-46 | The k-th standard-error line is the diagnostic for the k-th reported line number. |
| `CsvReorder.WorkedExample` | python/csv/basic_file_processing/process_csv.py:25-46 | For the records (header; `Dune,978-0441013593,Frank Herbert,1965`; `BadRow,123`), the output is the header plus `Dune,Frank Herbert,1965,978-0441013593`, and line 3 alone is reported. |
| `CsvReorder.WorkedExampleMessage` | python/csv/basic_file_processing/process_csv.py:46 | The diagnostic for line 3 is exactly `Missing column on line 3, skipping` followed by a newline. |
| `Decimal.NatToString` | python/csv/basic_file_processing/process_csv.py:46 | The decimal rendering of a line number is not empty, is made only of digits, and begins with `0` only for zero (no leading zeros). It has one digit exactly when the number is below 10. |
| `Decimal.ParseNatToString` | python/csv/basic_file_processing/process_csv.py:46 | Reading the rendered digits back gives the original number. |
| `Decimal.NatToStringInjective` | python/csv/basic_file_processing/process_csv.py:46 | Distinct line numbers are rendered as distinct strings. |

## Left out

- Opening and closing the input file (`with open(...)`, line 28), and the uncaught error when the file is missing: this is I/O.
- CSV parsing by `csv.reader` (line 29), including its quoting rules and its error on malformed input: a library call. The model takes the records as already parsed. So the line counter counts logical records, as in the source.
- Writing the output with `csv.writer` to standard output (lines 50-52): library quoting plus stream I/O. The model stops at the sequence of output rows.
- Writing to `sys.stderr` (line 46) is modelled as adding a line to the returned sequence, not as stream output.
- The `__main__` block (lines 56-66), with its `sys.argv` handling and usage message: process-level plumbing outside `process`.
