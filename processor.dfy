/** The record loop of `process_fasta`: the input file is the sequence of its
    lines, and everything written to the output file is the string `out`. */
module Processor {
  import opened PyStr
  import opened Wrap
  import opened FastaRecords

  datatype Option<T> = None | Some(value: T)

  /** Width of a record flushed because the next header arrived. */
  const FlushWidth: nat := 80
  /** Width of the last record, flushed after the loop. */
  const FinalWidth: nat := 100

  /** After the loop: the open record, if any, is the last one, and writing it
      at `FinalWidth` completes the output. */
  lemma EndOfInput(recs: seq<Record>, header: Option<string>, sequence: string, out: string, count: nat,
                   egfp: string, mcherry: string)
    requires egfp != []
    requires LoopState(recs, header, sequence, out, count, egfp, mcherry)
    ensures header.None? ==> Render(recs, egfp, mcherry, FlushWidth, FinalWidth) == out && |recs| == count
    ensures header.Some? ==>
      && Render(recs, egfp, mcherry, FlushWidth, FinalWidth)
         == out + Flush(Record(header.value, sequence), egfp, mcherry, FinalWidth)
      && |recs| == count + 1
  {
    if header.Some? {
      assert recs[..count] == recs[..|recs| - 1];
    }
  }

  /** Writes one record (lines 50-59 and 80-89 of the source): the
      substitution, the header line, and the wrapped sequence only when it is
      non-empty. */
  method WriteRecord(out: string, header: string, sequence: string, egfp: string, mcherry: string, width: nat)
    returns (written: string)
    requires egfp != [] && width >= 1
    ensures written == out + Flush(Record(header, sequence), egfp, mcherry, width)
  {
    var substituted := ReplaceAll(sequence, egfp, mcherry);
    written := out + header + "\n";
    if substituted != [] {
      var wrapped := WrapSequence(substituted, width);
      written := written + wrapped + "\n";
    }
  }

  /** The state of the record loop after reading the lines whose records are
      `recs`: with no header seen, nothing is written; otherwise the last
      record is the open one and every earlier record has been written. */
  ghost predicate LoopState(recs: seq<Record>, header: Option<string>, sequence: string,
                            out: string, count: nat, egfp: string, mcherry: string)
    requires egfp != []
  {
    if header.None? then
      recs == [] && out == [] && count == 0
    else
      && |recs| == count + 1
      && recs[count] == Record(header.value, sequence)
      && out == FlushAll(recs[..count], egfp, mcherry, FlushWidth)
  }

  /** The first header opens the first record. */
  lemma FirstHeader(recs: seq<Record>, sequence: string, out: string, count: nat,
                    egfp: string, mcherry: string, line: string)
    requires egfp != [] && IsHeader(line)
    requires LoopState(recs, None, sequence, out, count, egfp, mcherry)
    ensures LoopState(Feed(recs, line), Some(line), "", out, count, egfp, mcherry)
  {
  }

  /** A later header writes the open record and opens a new one. */
  lemma NextHeader(recs: seq<Record>, header: string, sequence: string, out: string, count: nat,
                   egfp: string, mcherry: string, line: string)
    requires egfp != [] && IsHeader(line)
    requires LoopState(recs, Some(header), sequence, out, count, egfp, mcherry)
    ensures LoopState(Feed(recs, line), Some(line), "",
                      out + Flush(Record(header, sequence), egfp, mcherry, FlushWidth), count + 1, egfp, mcherry)
  {
    var recs' := Feed(recs, line);
    assert recs'[..count + 1] == recs;
    assert recs[..count + 1][..count] == recs[..count];
  }

  /** A sequence line is appended to the open record, or to the sequence that
      no record holds before the first header. */
  lemma SequenceLine(recs: seq<Record>, header: Option<string>, sequence: string, out: string, count: nat,
                     egfp: string, mcherry: string, line: string)
    requires egfp != [] && !IsHeader(line)
    requires LoopState(recs, header, sequence, out, count, egfp, mcherry)
    ensures LoopState(Feed(recs, line), header, sequence + line, out, count, egfp, mcherry)
  {
    if header.Some? {
      assert Feed(recs, line)[..count] == recs[..count];
    }
  }

  /** A blank line changes nothing. */
  lemma BlankLine(recs: seq<Record>, header: Option<string>, sequence: string, out: string, count: nat,
                  egfp: string, mcherry: string)
    requires egfp != []
    requires LoopState(recs, header, sequence, out, count, egfp, mcherry)
    ensures LoopState(Feed(recs, ""), header, sequence, out, count, egfp, mcherry)
  {
    assert sequence + "" == sequence;
    SequenceLine(recs, header, sequence, out, count, egfp, mcherry, "");
  }

  /** Reads `lines` one at a time, replaces every occurrence of `egfp` in each
      record's sequence by `mcherry`, and writes each record as its header
      followed by its sequence wrapped; `count` is the number of records
      written. */
  method ProcessFasta(lines: seq<string>, egfp: string, mcherry: string) returns (out: string, count: nat)
    requires egfp != []
    ensures out == Render(Records(lines), egfp, mcherry, FlushWidth, FinalWidth)
    ensures count == |Records(lines)| == |HeaderLines(StripLines(lines))|
    ensures Headers(Records(lines)) == HeaderLines(StripLines(lines))
    ensures HeaderLines(StripLines(lines)) == [] ==> out == [] && count == 0
  {
    var currentHeader: Option<string> := None;
    var currentSequence: string := "";
    count := 0;
    out := "";
    ghost var recs: seq<Record> := [];
    for i := 0 to |lines|
      invariant recs == Records(lines[..i])
      invariant LoopState(recs, currentHeader, currentSequence, out, count, egfp, mcherry)
    {
      assert lines[..i + 1] == lines[..i] + [lines[i]];
      RecordsSnoc(lines[..i], lines[i]);
      var line := Strip(lines[i]);
      if IsHeader(line) {
        if currentHeader.Some? {
          NextHeader(recs, currentHeader.value, currentSequence, out, count, egfp, mcherry, line);
          out := WriteRecord(out, currentHeader.value, currentSequence, egfp, mcherry, FlushWidth);
          count := count + 1;
        } else {
          FirstHeader(recs, currentSequence, out, count, egfp, mcherry, line);
        }
        currentHeader := Some(line);
        currentSequence := "";
      } else if line != [] {
        SequenceLine(recs, currentHeader, currentSequence, out, count, egfp, mcherry, line);
        currentSequence := currentSequence + line;
      } else {
        BlankLine(recs, currentHeader, currentSequence, out, count, egfp, mcherry);
      }
      recs := Feed(recs, line);
    }
    assert lines[..|lines|] == lines;
    EndOfInput(recs, currentHeader, currentSequence, out, count, egfp, mcherry);
    if currentHeader.Some? {
      out := WriteRecord(out, currentHeader.value, currentSequence, egfp, mcherry, FinalWidth);
      count := count + 1;
    }
    GroupHeaders(StripLines(lines));
    RecordCount(StripLines(lines));
  }
}
