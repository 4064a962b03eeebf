# FASTA processor: a Dafny model

`fasta_processor.py` reads a FASTA file one line at a time. It strips each
line. A line starting with `>` is a header and opens a new record. Every other
non-empty line is appended, with no separator, to the sequence of the open
record. A record is written out when the next header arrives, and the last one
after the loop. To write a record, the eGFP coding sequence in its sequence is
replaced by the mCherry one (Python `str.replace`). Then the header line is
written, then the sequence wrapped into lines of fixed width, if it is not
empty. The function also counts the records it writes.

The project models this in five modules:

- `PyStr` (`pystr.dfy`): the Python string built-ins used by the loop.
  `Strip` is `str.strip()` with Python's full `str.isspace` set. `IsHeader`
  is `startswith('>')`. `ReplaceAll` is `str.replace` for a non-empty
  needle: a left-to-right scan that replaces each leftmost occurrence and
  resumes after it.
- `Wrap` (`wrap.dfy`): `wrap_sequence`. `Chunks` gives the slices
  `s[i:i+w]` for `i` in `range(0, len(s), w)`. `Join` is `'\n'.join`.
- `FastaRecords` (`records.dfy`): what the loop computes, stated without a
  loop. `Records` groups the stripped lines into `Record(header, body)`
  values. `Flush` is the text written for one record. `Render` is the whole
  output: every record but the last at width 80, the last at width 100.
- `Processor` (`processor.dfy`): the record loop of `process_fasta` as an
  imperative method. The file becomes a `seq<string>` of lines. The output
  file becomes a string that grows by appends. The method is proved to write
  exactly `Render(Records(lines), …)` and to count one record per header line.
- `FastaExample` (`worked_example.dfy`): a worked input in which a sequence spread
  over two lines is merged, substituted and rewrapped.

The replaced and replacing sequences are parameters (`egfp`, `mcherry`) of
the model. The needle must be non-empty, as the source's literal is. The two
widths are kept as the source has them: `FlushWidth = 80` (line 58) and
`FinalWidth = 100` (line 88). The module docstring promises 100 characters
everywhere. The model follows the code: a record flushed because another
header follows is wrapped at 80.

## Model

| member | source | states |
|---|---|---|
| PyStr.StripSpec | fasta_processor.py:45 | `Strip(s)` is `s` with exactly its leading and trailing whitespace removed; it is empty exactly when every character of `s` is whitespace, and otherwise starts and ends with a non-whitespace character |
| PyStr.StripUnchanged | fasta_processor.py:45 | a line with no whitespace at either end is returned unchanged by `strip()` |
| PyStr.StripIdempotent | fasta_processor.py:45 | stripping a stripped line changes nothing |
| PyStr.LeadingSpaceSpec | fasta_processor.py:45 | the count of leading characters removed is the whole run of whitespace at the front, and no more |
| PyStr.TrailingSpaceSpec | fasta_processor.py:45 | the count of trailing characters removed is the whole run of whitespace at the end, and no more |
| PyStr.ReplaceAbsent | fasta_processor.py:51 | with no occurrence of the needle, `replace` returns the sequence unchanged |
| PyStr.ReplaceCopiesPrefix | fasta_processor.py:51 | characters before the first occurrence of the needle are copied unchanged |
| PyStr.ReplaceLeftmost | fasta_processor.py:51 | the leftmost occurrence is the one replaced, and the scan resumes right after it, so occurrences never overlap |
| PyStr.ReplaceBySelf | fasta_processor.py:51 | replacing the needle by itself is the identity |
| PyStr.ReplaceLength | fasta_processor.py:51 | the result's length is the input's plus, for each replaced occurrence, the difference between replacement and needle lengths |
| PyStr.MatchCountZero | fasta_processor.py:51 | the scan replaces something exactly when the needle occurs in the sequence |
| Wrap.ChunksShape | fasta_processor.py:18 | the slices concatenate back to the sequence; every slice has `width` characters except the last, which has 1 to `width` |
| Wrap.ChunksUnique | fasta_processor.py:18 | any list of parts with those lengths that concatenates to the sequence is the list of slices |
| Wrap.ChunkCount | fasta_processor.py:18 | there are `ceil(len / width)` slices, and none exactly for an empty sequence |
| Wrap.WrapEmpty | fasta_processor.py:18 | `wrap_sequence` yields the empty string exactly for an empty sequence |
| Wrap.WrapLines | fasta_processor.py:57-59 | writing the wrapped non-empty sequence plus a newline, or nothing for an empty one, writes each slice as its own line |
| Wrap.JoinThenNewline | fasta_processor.py:59 | a `'\n'`-joined text followed by a newline is each part written as a line |
| FastaRecords.BodyRun | fasta_processor.py:75-76 | the run of non-header lines after a header is maximal: none of its lines is a header, and the line after it is one |
| FastaRecords.RecordSplit | fasta_processor.py:44-76 | a header, the non-header lines after it and then another header or the end give one record whose body is those lines concatenated |
| FastaRecords.GroupSnoc | fasta_processor.py:44-76 | the grouping of lines into records is exactly the loop's step: one more stripped line opens a record if it is a header, is appended to the open record otherwise, and is dropped when no record is open |
| FastaRecords.RecordsSnoc | fasta_processor.py:44-45 | reading one more raw line feeds its stripped form to the records |
| FastaRecords.OrphansDropped | fasta_processor.py:44-76 | lines before the first header belong to no record and change no output |
| FastaRecords.BlankLineIgnored | fasta_processor.py:75-76 | a line that strips to nothing adds nothing to a sequence |
| FastaRecords.ConcatNoMarker | fasta_processor.py:75-76 | a sequence made of non-header lines does not start with `>` |
| FastaRecords.GroupShape | fasta_processor.py:47-76 | every record's header starts with `>` and its sequence does not |
| FastaRecords.GroupHeaders | fasta_processor.py:47-69 | the records' headers are the input's header lines, each once and in input order |
| FastaRecords.RecordCount | fasta_processor.py:47-69 | there is one record per header line, and none without a header line |
| FastaRecords.FlushLines | fasta_processor.py:50-59 | a written record is its header line followed by its own chunk lines; the chunks put together are the substituted sequence, and without an occurrence they are the original sequence |
| FastaRecords.EmptyRecord | fasta_processor.py:57-59 | a record with an empty sequence is written as its header line alone |
| FastaRecords.FlushAllLines | fasta_processor.py:49-61 | the records flushed one after another write their blocks of lines in order |
| FastaRecords.RenderLines | fasta_processor.py:44-91 | the whole output is the records' blocks of lines in input order, every block but the last wrapped at the flush width and the last at the final width |
| Processor.LoopState | fasta_processor.py:38-76 | loop invariant: before any header nothing is written and the count is 0; afterwards the open record is the last one seen and every earlier record has been written at width 80 |
| Processor.FirstHeader | fasta_processor.py:47-69 | the first header opens the first record and writes nothing |
| Processor.NextHeader | fasta_processor.py:47-69 | a later header writes the open record at width 80, increments the count and opens a new record with an empty sequence |
| Processor.SequenceLine | fasta_processor.py:75-76 | a non-empty non-header line is appended to the open sequence and writes nothing |
| Processor.BlankLine | fasta_processor.py:75-76 | a blank line changes no state |
| Processor.EndOfInput | fasta_processor.py:78-91 | after the last line, the output is complete when no header was seen, and otherwise is completed by writing the open record at width 100 |
| Processor.WriteRecord | fasta_processor.py:50-59 | appends the text of one record at the given width: substitution, header line, wrapped sequence only when non-empty |
| Processor.ProcessFasta | fasta_processor.py:38-91 | the text written is exactly the records rendered (all but the last at 80, the last at 100); the count is the number of records and of header lines; the headers are the header lines in order; with no header nothing is written and the count is 0 |
| FastaExample.TwoRecords | fasta_processor.py:44-76 | two headers around three sequence lines give two records, the first one's sequence the two lines concatenated |
| FastaExample.ExampleRecords | fasta_processor.py:44-76 | the records of the worked input: the two sequence lines of the first record merge into one |
| FastaExample.ExampleFirstRecord | fasta_processor.py:50-59 | a sequence equal to the needle is written as the replacement on one line |
| FastaExample.ExampleSecondRecord | fasta_processor.py:50-59 | a sequence with no occurrence is written unchanged, cut into lines of the width |
| FastaExample.RenderTwo | fasta_processor.py:49-89 | of two records, the first is written at the flush width and the second at the final width |
| FastaExample.MultiLineMerge | fasta_processor.py:38-91 | the full output for the worked input, line by line |

## Left out

- Command-line handling (`main`, `argparse`) is not modelled. The `--width` option it defines is never passed to `process_fasta` and has no effect.
- File access is not modelled: opening, reading and writing files, and the `FileNotFoundError` and generic exception handlers. The input is a sequence of lines and the output a string.
- The `print` messages are not modelled: the start and success messages, the progress message every 100 records and the header display truncated to 60 characters. They do not affect the output file.
- The eGFP and mCherry literals are parameters of the model. `ProcessFasta` requires the needle to be non-empty, which the literal is. Python's `replace` with an empty needle, which inserts the replacement between characters, is not modelled.
- Python iterates the file lazily, one line at a time; the model takes all lines at once. Line terminators are removed by `strip()` either way, so the model's lines may or may not carry them.
- Strings are sequences of Unicode code points, as Python's are; the decoding of the file from bytes is not modelled.
- The claim that no needle remains after substitution is not stated: `str.replace` does not promise it, since a replacement can create a new occurrence together with the characters around it. The model states what `replace` does promise instead (`ReplaceLeftmost`, `ReplaceAbsent`).
- The unused `re`, `sys` and `Path` imports have no behaviour to model.
