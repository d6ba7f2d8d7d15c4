# GPCR FASTA parser, modelled in Dafny

This project models `GPCRFastaParser` from `src/data/parser.py`. The parser
reads an aligned FASTA file of GPCR protein sequences. It builds a table with
one row per record and looks rows up by UniRef cluster id. It also strips
alignment gaps and summarises the table.

The FASTA reader's output is an input here: a sequence of records, each with
an id, a description (the header line) and a sequence. The pandas table is a
sequence of rows in row order.

Modules, one file each:

- `Results` (`results.dfy`): the parser's errors and a `Result` type. An
  exception the parser raises becomes an `Err`.
- `PyStr` (`pystr.dfy`): the Python string operations the parser uses.
  These are `str.count` of one character, `str.replace(c, '')` and
  `str.split()`. The module also has the scanner `RunEnd`, which finds the
  end of a maximal run of one character class.
- `UniRefId` (`uniref_id.dfy`): `_extract_uniref_id`. The regular expression
  `UniRef\d+_([A-Z0-9]+)` is given a semantics as explicit match positions
  (`IsMatch`). The match `re.search` reports is the one a backtracking
  matcher tries first (`IsFirstMatch`). That means the leftmost start, then
  the longest digit run, then the longest capture. A scanner (`MatchAt`,
  `Search`) computes that match, and its contracts prove it is the first one.
  Without a match, the id is `header.split()[0].replace('>', '')`.
- `FastaParser` (`fasta_parser.dfy`): covers `remove_gaps` and the per-record
  derivation of length, gap count and gap percentage. It also covers the
  `parse` loop, written as a method with a `while` loop that appends rows,
  plus `get_sequence_by_id` and `get_statistics`.

Behaviour at the edges, as the code has it:

- An empty or all-whitespace header with no match raises, because
  `split()[0]` has no token to return (`NoHeaderToken`). That exception
  leaves `parse`, so the whole parse fails on the first such record.
- `parse` of zero records raises too (`EmptyTable`). The summary printed
  after the loop reads the `length` column of a frame built from an empty
  list, and that frame has no columns.
- For `get_statistics` of a table without rows, the model chooses an error
  (`EmptyTable`). pandas raises only on a frame without columns; see
  "## Left out".

## Model

| member | source | states |
|---|---|---|
| PyStr.RunEnd | src/data/parser.py:78 | The scanner step behind `\d+`, `[A-Z0-9]+` and whitespace splitting: the result ends the maximal run of the class starting at `j`. Every character before it is in the class; the one at it is not, or the string has ended. |
| PyStr.Count | src/data/parser.py:47 | `sequence.count('-')` is at most the length of the string. |
| PyStr.CountIsMultiplicity | src/data/parser.py:47 | `count(c)` equals the multiplicity of `c` in the string's multiset. |
| PyStr.Remove | src/data/parser.py:94 | `replace(c, '')` leaves no `c`, and its length is the original length minus `count(c)`. |
| PyStr.RemoveConcat | src/data/parser.py:94 | Removing distributes over concatenation, so the kept characters stay in their original order. |
| PyStr.RemoveMultiset | src/data/parser.py:94 | Every other character is kept with its multiplicity: the multiset shrinks only by the occurrences of `c`. |
| PyStr.RemoveUnchanged | src/data/parser.py:94 | `replace(c, '')` returns its input exactly when `c` does not occur in it. |
| PyStr.Split | src/data/parser.py:83 | `split()` yields non-empty tokens without whitespace, and yields no token exactly when the string is all whitespace. Only the first token, the one the parser reads, is pinned further (SplitFirstToken). |
| PyStr.SplitFirstToken | src/data/parser.py:83 | `split()[0]` is preceded in the header only by whitespace, and is followed by whitespace or the end. So it is the header's first maximal non-whitespace run. |
| UniRefId.MatchAt | src/data/parser.py:78 | The pattern anchored at one position: a result is a match. Every match at that start has the same `_` position and a capture no longer than the result's. No result means no match starts there. |
| UniRefId.Search | src/data/parser.py:78 | `re.search` from a position: a result is a match that is tried before every match starting later. No result means no match at or after the position. |
| UniRefId.FallbackId | src/data/parser.py:82-83 | The fallback id fails exactly on an all-whitespace header, with `NoHeaderToken`. Otherwise it has no whitespace and no `>`. |
| UniRefId.ExtractUniRefId | src/data/parser.py:67-83 | If `re.search` reports a match, the id is its capture group. With any match the id is non-empty and made of `A-Z0-9` only. With no match the fallback is taken. |
| UniRefId.NoMatchUsesFirstToken | src/data/parser.py:82-83 | With no match, the result is an error exactly for an empty or all-whitespace header. Otherwise it is the first whitespace-separated token with every `>` removed, and has no whitespace and no `>`. |
| UniRefId.FirstMatchExists | src/data/parser.py:78-80 | A header that contains the pattern anywhere has a first match for `re.search` to report. |
| UniRefId.FirstMatchUnique | src/data/parser.py:78-80 | The first match is unique, so "leftmost, then greedy" determines the capture. |
| FastaParser.RemoveGaps | src/data/parser.py:92-94 | `remove_gaps` leaves no `-`. It keeps every residue with its multiplicity. Its length is `len(sequence) - sequence.count('-')`. |
| FastaParser.RemoveGapsConcat | src/data/parser.py:92-94 | Gap removal works residue by residue (it distributes over concatenation), so the non-gap residues keep their order. |
| FastaParser.RemoveGapsUnchanged | src/data/parser.py:92-94 | A gap-free sequence is returned unchanged, and only a gap-free one is. |
| FastaParser.RemoveGapsIdempotent | src/data/parser.py:92-94 | `remove_gaps` is idempotent. |
| FastaParser.GapPercentage | src/data/parser.py:48 | The percentage is 0 for an empty sequence. Otherwise `p * length == gap_count * 100`, exactly and without rounding. It is never negative, and at most 100 when `gap_count <= length`. |
| FastaParser.MeasureRow | src/data/parser.py:44-57 | A row built from a sequence is valid. Its length is the sequence length and its gap count is the multiplicity of `-`, so the count is at most the length. The length minus the gap count is the ungapped length, and the percentage lies in [0, 100] with the ratio above. |
| FastaParser.DeriveRow | src/data/parser.py:38-58 | One record gives one valid row carrying the record's id, header and sequence and the extracted UniRef id. It fails exactly when the id extraction raises, with that error. |
| FastaParser.Parse | src/data/parser.py:34-65 | One row per record, in input order, and row `k` is derived from record `k` alone. The first record whose id extraction raises aborts the parse with its error. Zero records give `EmptyTable`. |
| FastaParser.ParsedRowsValid | src/data/parser.py:44-58 | Every row of a parsed table is valid. |
| FastaParser.FirstIndex | src/data/parser.py:87-90 | The position of the first row with the queried uniref_id. Every earlier row has a different id; the position is the row count when none matches. |
| FastaParser.GetSequenceById | src/data/parser.py:85-90 | Returns the sequence of a row with the queried uniref_id, and every earlier row has a different id. It fails with `UniRefIdNotFound` exactly when no row matches. |
| FastaParser.LookupDistinctIds | src/data/parser.py:85-90 | When the uniref_ids are distinct, looking up a row's id returns that row's sequence. |
| FastaParser.MinLength | src/data/parser.py:106 | `min_length` is at most every row's length and is the length of some row. |
| FastaParser.MaxLength | src/data/parser.py:107 | `max_length` is at least every row's length and is the length of some row. |
| FastaParser.LengthSumBounds | src/data/parser.py:105-107 | The sum of the lengths lies between `n * min` and `n * max`. |
| FastaParser.SequencesWithGaps | src/data/parser.py:109 | `sequences_with_gaps` is at most the row count. |
| FastaParser.SequencesWithGapsCounts | src/data/parser.py:109 | `sequences_with_gaps` is the size of the set of row positions with `gap_count > 0`. |
| FastaParser.SequencesWithGapsExtremes | src/data/parser.py:109 | The count is 0 exactly when no row has a gap, and equals the row count exactly when every row has one. |
| FastaParser.Mean | src/data/parser.py:105 | The exact mean times the count is the sum, and the mean lies between any bounds of the values. |
| FastaParser.GetStatistics | src/data/parser.py:96-111 | Fails exactly on an empty table. Otherwise `total_sequences` is the row count, and `min_length <= length <= max_length` holds for every row, with both bounds met by some row. `avg_length` is sum over count and lies between min and max. `sequences_with_gaps` is the number of rows with a gap, and at most the total. |

## Left out

- Reading the FASTA file (`SeqIO.parse`, src/data/parser.py:38) is a foreign library. Its records are the input sequence of `FastaRecord`s. It derives `record.id` from the header itself, and that is not modelled either.
- The file-existence check in `__init__`, the `fasta_path` field, and the CSV writing and directory creation in `main` are filesystem I/O.
- All printed output is left out. Only its effect on an empty parse is kept: it raises, and the model returns `EmptyTable`.
- `main` and its command-line handling are not modelled.
- GapPercentage: no rounding to two decimals (`round(gap_percentage, 2)`). The model keeps the exact ratio as a Dafny `real`, not a float.
- GetStatistics: `avg_gap_percentage` is left out, because it is a float mean of rounded values. `avg_length` is the exact rational mean, not a float.
- GetStatistics: on an empty table pandas raises KeyError for a frame without columns and gives NaN for one with columns. The model returns `EmptyTable` in both cases.
- GetSequenceById: on a frame without columns pandas raises KeyError for the `uniref_id` column. The model treats an empty table like any table without a match (`UniRefIdNotFound`).
- ExtractUniRefId: `\d` and the whitespace of `str.split()` are ASCII only here. `\d` is the digits 0-9. Whitespace is space, tab, line feed, vertical tab, form feed, carriage return and 0x1C-0x1F. Python's Unicode digits and non-ASCII whitespace are not modelled.
