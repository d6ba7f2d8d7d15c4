/**
  `GPCRFastaParser` from src/data/parser.py: turns the records of an aligned
  FASTA file into a table with one row per record, looks rows up by UniRef
  id, strips alignment gaps and summarises the table.

  The FASTA reader is not modelled: its output is given as a sequence of
  `FastaRecord`s, and the pandas DataFrame is a sequence of `Row`s in row
  order.
 */
module FastaParser {
  import opened Results
  import opened PyStr
  import opened UniRefId

  /** The alignment gap character. */
  const Gap: char := '-'

  /** What the FASTA reader yields per record: `record.id`,
      `record.description` and `str(record.seq)`. */
  datatype FastaRecord = FastaRecord(id: string, description: string, sequence: string)

  /** One row of the parsed table: the columns id, uniref_id, full_header,
      sequence, length, gap_count and gap_percentage. The percentage is kept
      as an exact rational. */
  datatype Row = Row(
    id: string,
    unirefId: string,
    fullHeader: string,
    sequence: string,
    length: nat,
    gapCount: nat,
    gapPercentage: real)

  // ---------------------------------------------------------------------
  // Gaps
  // ---------------------------------------------------------------------

  /** `remove_gaps`: the sequence with every `-` dropped. No gap is left,
      every other residue is kept with its multiplicity, and the length drops
      by the number of gaps. */
  function RemoveGaps(sequence: string): (r: string)
    ensures Gap !in r
    ensures |r| == |sequence| - multiset(sequence)[Gap]
    ensures multiset(r) == multiset(sequence)[Gap := 0]
  {
    CountIsMultiplicity(sequence, Gap);
    RemoveMultiset(sequence, Gap);
    Remove(sequence, Gap)
  }

  /** Removing gaps works residue by residue, so the residues that remain
      keep their original order. */
  lemma RemoveGapsConcat(a: string, b: string)
    ensures RemoveGaps(a + b) == RemoveGaps(a) + RemoveGaps(b)
    ensures RemoveGaps([Gap]) == [] && forall c :: c != Gap ==> RemoveGaps([c]) == [c]
  {
    RemoveConcat(a, b, Gap);
  }

  /** `remove_gaps` returns its input exactly when the input has no gap. */
  lemma RemoveGapsUnchanged(sequence: string)
    ensures RemoveGaps(sequence) == sequence <==> Gap !in sequence
  {
    RemoveUnchanged(sequence, Gap);
  }

  /** `remove_gaps` is idempotent. */
  lemma RemoveGapsIdempotent(sequence: string)
    ensures RemoveGaps(RemoveGaps(sequence)) == RemoveGaps(sequence)
  {
    RemoveUnchanged(RemoveGaps(sequence), Gap);
  }

  // ---------------------------------------------------------------------
  // One record, one row
  // ---------------------------------------------------------------------

  /** `p` is `gapCount` as a percentage of `length` (0 for an empty
      sequence). */
  ghost predicate IsPercentage(p: real, gapCount: nat, length: nat) {
    && (length == 0 ==> p == 0.0)
    && (length > 0 ==> p * (length as real) == (gapCount as real) * 100.0)
  }

  /** `(gap_count / length) * 100 if length > 0 else 0`, exactly. */
  function GapPercentage(gapCount: nat, length: nat): (p: real)
    ensures IsPercentage(p, gapCount, length)
    ensures 0.0 <= p
    ensures gapCount <= length ==> p <= 100.0
  {
    if length > 0 then (gapCount as real / length as real) * 100.0 else 0.0
  }

  /** What every row of the table satisfies. */
  ghost predicate ValidRow(row: Row) {
    && row.length == |row.sequence|
    && row.gapCount == multiset(row.sequence)[Gap]
    && row.gapCount <= row.length
    && row.length - row.gapCount == |RemoveGaps(row.sequence)|
    && IsPercentage(row.gapPercentage, row.gapCount, row.length)
    && 0.0 <= row.gapPercentage <= 100.0
  }

  /** The measured columns of a row: length, gap count and gap percentage
      of `sequence`. */
  function MeasureRow(id: string, unirefId: string, header: string, sequence: string): (row: Row)
    ensures row.id == id && row.unirefId == unirefId && row.fullHeader == header && row.sequence == sequence
    ensures ValidRow(row)
  {
    var length := |sequence|;
    var gapCount := Count(sequence, Gap);
    CountIsMultiplicity(sequence, Gap);
    var p := GapPercentage(gapCount, length);
    assert |RemoveGaps(sequence)| == length - gapCount;
    var row := Row(id, unirefId, header, sequence, length, gapCount, p);
    row
  }

  /** The body of the loop in `parse`: one record becomes one row, or the
      id extraction raises. */
  function DeriveRow(rec: FastaRecord): (r: Result<Row>)
    ensures r.Err? <==> ExtractUniRefId(rec.description).Err?
    ensures r.Err? ==> r.error == ExtractUniRefId(rec.description).error
    ensures r.Ok? ==> && r.value.id == rec.id
                      && r.value.unirefId == ExtractUniRefId(rec.description).value
                      && r.value.fullHeader == rec.description
                      && r.value.sequence == rec.sequence
                      && ValidRow(r.value)
  {
    var id := ExtractUniRefId(rec.description);
    if id.Err? then Err(id.error)
    else Ok(MeasureRow(rec.id, id.value, rec.description, rec.sequence))
  }

  // ---------------------------------------------------------------------
  // The table
  // ---------------------------------------------------------------------

  /** `parse`: one row per record, in input order, each derived from its own
      record alone. The first record whose id extraction raises aborts the
      parse with that error. A parse of no records fails too: the summary
      printed after the loop reads the `length` column of a frame that has
      no columns. */
  method Parse(records: seq<FastaRecord>) returns (r: Result<seq<Row>>)
    ensures r.Ok? <==> records != [] && forall k :: 0 <= k < |records| ==> DeriveRow(records[k]).Ok?
    ensures r.Ok? ==> |r.value| == |records|
                      && forall k :: 0 <= k < |records| ==> DeriveRow(records[k]) == Ok(r.value[k])
    ensures r.Err? && records != [] ==>
              exists k :: 0 <= k < |records| && DeriveRow(records[k]) == Err(r.error)
                          && forall j :: 0 <= j < k ==> DeriveRow(records[j]).Ok?
    ensures r.Err? && records == [] ==> r.error == EmptyTable
  {
    var rows: seq<Row> := [];
    var i := 0;
    while i < |records|
      invariant 0 <= i <= |records|
      invariant |rows| == i
      invariant forall k :: 0 <= k < i ==> DeriveRow(records[k]) == Ok(rows[k])
    {
      var row := DeriveRow(records[i]);
      if row.Err? {
        return Err(row.error);
      }
      rows := rows + [row.value];
      i := i + 1;
    }
    if rows == [] {
      return Err(EmptyTable);
    }
    r := Ok(rows);
  }

  /** Every row `Parse` produces satisfies `ValidRow`. */
  lemma ParsedRowsValid(records: seq<FastaRecord>, rows: seq<Row>)
    requires |rows| == |records|
    requires forall k :: 0 <= k < |records| ==> DeriveRow(records[k]) == Ok(rows[k])
    ensures forall k :: 0 <= k < |rows| ==> ValidRow(rows[k])
  {
    forall k | 0 <= k < |rows| ensures ValidRow(rows[k]) {
      assert DeriveRow(records[k]) == Ok(rows[k]);
    }
  }

  // ---------------------------------------------------------------------
  // Lookup
  // ---------------------------------------------------------------------

  /** The position of the first row whose uniref_id is `query`, or `|rows|`. */
  function FirstIndex(rows: seq<Row>, query: string): (k: nat)
    ensures k <= |rows|
    ensures forall j :: 0 <= j < k ==> rows[j].unirefId != query
    ensures k < |rows| ==> rows[k].unirefId == query
  {
    if rows == [] then 0
    else if rows[0].unirefId == query then 0
    else 1 + FirstIndex(rows[1..], query)
  }

  /** `get_sequence_by_id`: the sequence of the first row whose uniref_id is
      `query`; an error when no row has it. */
  function GetSequenceById(rows: seq<Row>, query: string): (r: Result<string>)
    ensures r.Err? <==> forall j :: 0 <= j < |rows| ==> rows[j].unirefId != query
    ensures r.Err? ==> r.error == UniRefIdNotFound(query)
    ensures r.Ok? ==> exists k :: 0 <= k < |rows| && rows[k].unirefId == query && r.value == rows[k].sequence
                                 && forall j :: 0 <= j < k ==> rows[j].unirefId != query
  {
    var k := FirstIndex(rows, query);
    if k == |rows| then Err(UniRefIdNotFound(query)) else Ok(rows[k].sequence)
  }

  /** In a table whose uniref_ids are distinct, looking a row's id up gives
      back that row's sequence. */
  lemma LookupDistinctIds(rows: seq<Row>, k: nat)
    requires k < |rows|
    requires forall a, b :: 0 <= a < b < |rows| ==> rows[a].unirefId != rows[b].unirefId
    ensures GetSequenceById(rows, rows[k].unirefId) == Ok(rows[k].sequence)
  {
    var i := FirstIndex(rows, rows[k].unirefId);
    assert i == k;
  }

  // ---------------------------------------------------------------------
  // Statistics
  // ---------------------------------------------------------------------

  /** The integer and exact parts of `get_statistics`; `avgLength` is the
      mean of the length column. */
  datatype Statistics = Statistics(
    totalSequences: nat,
    avgLength: real,
    minLength: nat,
    maxLength: nat,
    sequencesWithGaps: nat)

  /** `df['length'].min()`: the smallest length in a non-empty table. */
  function MinLength(rows: seq<Row>): (m: nat)
    requires rows != []
    ensures forall k :: 0 <= k < |rows| ==> m <= rows[k].length
    ensures exists k :: 0 <= k < |rows| && rows[k].length == m
  {
    if |rows| == 1 then rows[0].length
    else
      var rest := MinLength(rows[1..]);
      assert forall k :: 1 <= k < |rows| ==> rows[k] == rows[1..][k - 1];
      if rows[0].length <= rest then rows[0].length else rest
  }

  /** `df['length'].max()`: the largest length in a non-empty table. */
  function MaxLength(rows: seq<Row>): (m: nat)
    requires rows != []
    ensures forall k :: 0 <= k < |rows| ==> rows[k].length <= m
    ensures exists k :: 0 <= k < |rows| && rows[k].length == m
  {
    if |rows| == 1 then rows[0].length
    else
      var rest := MaxLength(rows[1..]);
      assert forall k :: 1 <= k < |rows| ==> rows[k] == rows[1..][k - 1];
      if rows[0].length >= rest then rows[0].length else rest
  }

  /** The sum of the length column. */
  function LengthSum(rows: seq<Row>): nat {
    if rows == [] then 0 else LengthSum(rows[..|rows| - 1]) + rows[|rows| - 1].length
  }

  /** The sum lies between `n * min` and `n * max`. */
  lemma {:induction false} LengthSumBounds(rows: seq<Row>, lo: nat, hi: nat)
    requires forall k :: 0 <= k < |rows| ==> lo <= rows[k].length <= hi
    ensures |rows| * lo <= LengthSum(rows) <= |rows| * hi
  {
    if rows != [] {
      var n := |rows| - 1;
      assert forall k :: 0 <= k < n ==> rows[..n][k] == rows[k];
      LengthSumBounds(rows[..n], lo, hi);
      assert |rows| * lo == n * lo + lo && |rows| * hi == n * hi + hi;
    }
  }

  /** `(df['gap_count'] > 0).sum()`. */
  function SequencesWithGaps(rows: seq<Row>): (n: nat)
    ensures n <= |rows|
  {
    if rows == [] then 0
    else SequencesWithGaps(rows[..|rows| - 1]) + (if rows[|rows| - 1].gapCount > 0 then 1 else 0)
  }

  /** The positions of the rows that have at least one gap. */
  ghost function RowsWithGaps(rows: seq<Row>): set<nat> {
    set k: nat | k < |rows| && rows[k].gapCount > 0
  }

  /** `SequencesWithGaps` counts exactly the rows with a gap. */
  lemma {:induction false} SequencesWithGapsCounts(rows: seq<Row>)
    ensures SequencesWithGaps(rows) == |RowsWithGaps(rows)|
  {
    if rows != [] {
      var n := |rows| - 1;
      var init := rows[..n];
      SequencesWithGapsCounts(init);
      assert forall k :: 0 <= k < n ==> init[k] == rows[k];
      if rows[n].gapCount > 0 {
        assert RowsWithGaps(rows) == RowsWithGaps(init) + {n};
      } else {
        assert RowsWithGaps(rows) == RowsWithGaps(init);
      }
    }
  }

  /** No row has a gap exactly when the count is 0, and every row has one
      exactly when the count is the number of rows. */
  lemma {:induction false} SequencesWithGapsExtremes(rows: seq<Row>)
    ensures SequencesWithGaps(rows) == 0 <==> forall k :: 0 <= k < |rows| ==> rows[k].gapCount == 0
    ensures SequencesWithGaps(rows) == |rows| <==> forall k :: 0 <= k < |rows| ==> rows[k].gapCount > 0
  {
    if rows != [] {
      var n := |rows| - 1;
      var init := rows[..n];
      SequencesWithGapsExtremes(init);
      assert forall k :: 0 <= k < n ==> init[k] == rows[k];
    }
  }

  /** `avg` is `sum` shared out over `n` values. */
  ghost predicate IsMean(avg: real, sum: nat, n: nat) {
    avg * (n as real) == sum as real
  }

  /** The exact mean of `n > 0` values summing to `sum`; it lies between any
      bounds of the values. */
  function Mean(sum: nat, n: nat, ghost lo: nat, ghost hi: nat): (avg: real)
    requires n > 0
    ensures IsMean(avg, sum, n)
    ensures n * lo <= sum ==> lo as real <= avg
    ensures sum <= n * hi ==> avg <= hi as real
  {
    assert (n * lo) as real == (n as real) * (lo as real);
    assert (n * hi) as real == (n as real) * (hi as real);
    sum as real / n as real
  }

  /** `get_statistics`. On a table without rows pandas has no column to read
      (KeyError, or NaN for the extremes), and the model reports an error.
      Otherwise: the row count, the extremes of the length column (each met
      by some row), their mean as sum over count, and the number of rows
      with a gap. */
  function GetStatistics(rows: seq<Row>): (r: Result<Statistics>)
    ensures r.Err? <==> rows == []
    ensures r.Err? ==> r.error == EmptyTable
    ensures r.Ok? ==> var s := r.value;
      && s.totalSequences == |rows|
      && (forall k :: 0 <= k < |rows| ==> s.minLength <= rows[k].length <= s.maxLength)
      && (exists k :: 0 <= k < |rows| && rows[k].length == s.minLength)
      && (exists k :: 0 <= k < |rows| && rows[k].length == s.maxLength)
      && IsMean(s.avgLength, LengthSum(rows), |rows|)
      && s.minLength as real <= s.avgLength <= s.maxLength as real
      && s.sequencesWithGaps == |RowsWithGaps(rows)|
      && s.sequencesWithGaps <= s.totalSequences
  {
    if rows == [] then Err(EmptyTable)
    else
      var lo, hi, n := MinLength(rows), MaxLength(rows), |rows|;
      LengthSumBounds(rows, lo, hi);
      var avg := Mean(LengthSum(rows), n, lo, hi);
      SequencesWithGapsCounts(rows);
      Ok(Statistics(n, avg, lo, hi, SequencesWithGaps(rows)))
  }
}
