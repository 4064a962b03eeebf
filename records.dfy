/** What `process_fasta` computes, stated without its loop: how the stripped
    input lines group into records, and the text written for them. */
module FastaRecords {
  import opened PyStr
  import opened Wrap

  /** A header line (marker included, stripped) and its accumulated sequence. */
  datatype Record = Record(header: string, body: string)

  /** The input lines with `strip()` applied to each, as the loop sees them. */
  function StripLines(lines: seq<string>): seq<string>
  {
    seq(|lines|, k requires 0 <= k < |lines| => Strip(lines[k]))
  }

  /** Length of the longest prefix of `ss` in which no line is a header. */
  function BodyRun(ss: seq<string>): (n: nat)
    ensures n <= |ss|
    ensures forall k :: 0 <= k < n ==> !IsHeader(ss[k])
    ensures n < |ss| ==> IsHeader(ss[n])
  {
    if ss == [] || IsHeader(ss[0]) then 0 else 1 + BodyRun(ss[1..])
  }

  /** The records of a sequence of stripped lines: each header line together
      with the concatenation of the lines that follow it up to the next header
      or the end. Lines before the first header belong to no record. */
  function Group(ss: seq<string>): seq<Record>
    decreases |ss|
  {
    if ss == [] then []
    else if IsHeader(ss[0]) then
      var n := BodyRun(ss[1..]);
      [Record(ss[0], Concat(ss[1..1 + n]))] + Group(ss[1 + n..])
    else Group(ss[1..])
  }

  /** The records of the input file. */
  function Records(lines: seq<string>): seq<Record>
  {
    Group(StripLines(lines))
  }

  /** One step of the record loop on the list of records seen so far, for a
      stripped line: a header opens a new record, any other line is appended
      to the open record, or dropped when no record is open. */
  function Feed(recs: seq<Record>, line: string): seq<Record>
  {
    if IsHeader(line) then recs + [Record(line, "")]
    else if recs == [] then []
    else
      var last := recs[|recs| - 1];
      recs[..|recs| - 1] + [Record(last.header, last.body + line)]
  }

  /** The header lines among `ss`, in order. */
  function HeaderLines(ss: seq<string>): seq<string>
  {
    if ss == [] then []
    else HeaderLines(ss[..|ss| - 1]) + (if IsHeader(ss[|ss| - 1]) then [ss[|ss| - 1]] else [])
  }

  function Headers(recs: seq<Record>): seq<string>
  {
    if recs == [] then [] else Headers(recs[..|recs| - 1]) + [recs[|recs| - 1].header]
  }

  lemma {:induction false} BodyRunUnique(ss: seq<string>, n: nat)
    requires n <= |ss|
    requires forall k :: 0 <= k < n ==> !IsHeader(ss[k])
    requires n < |ss| ==> IsHeader(ss[n])
    ensures BodyRun(ss) == n
  {
  }

  lemma {:induction false} FeedAppend(x: seq<Record>, y: seq<Record>, line: string)
    requires y != []
    ensures Feed(x + y, line) == x + Feed(y, line)
  {
    if !IsHeader(line) {
      assert (x + y)[..|x + y| - 1] == x + y[..|y| - 1];
    }
  }

  /** A header, the non-header lines after it, then the next header or the end:
      one record whose body is those lines concatenated. */
  lemma {:induction false} RecordSplit(h: string, seg: seq<string>, rest: seq<string>)
    requires IsHeader(h)
    requires forall k :: 0 <= k < |seg| ==> !IsHeader(seg[k])
    requires rest == [] || IsHeader(rest[0])
    ensures Group([h] + seg + rest) == [Record(h, Concat(seg))] + Group(rest)
  {
    var ss := [h] + seg + rest;
    var n := |seg|;
    assert ss[0] == h;
    assert ss[1..] == seg + rest;
    BodyRunUnique(seg + rest, n);
    assert ss[1..1 + n] == seg;
    assert ss[1 + n..] == rest;
  }

  lemma {:induction false} SingleHeader(h: string)
    requires IsHeader(h)
    ensures Group([h]) == [Record(h, "")]
  {
    RecordSplit(h, [], []);
    assert [h] + [] + [] == [h];
  }

  /** The step of `GroupSnoc` while the last record is open. */
  lemma {:induction false} SnocOpenRecord(h: string, seg: seq<string>, line: string)
    requires IsHeader(h)
    requires forall k :: 0 <= k < |seg| ==> !IsHeader(seg[k])
    ensures Group([h] + seg + [line]) == Feed(Group([h] + seg), line)
  {
    RecordSplit(h, seg, []);
    assert [h] + seg + [] == [h] + seg;
    if IsHeader(line) {
      RecordSplit(h, seg, [line]);
      SingleHeader(line);
    } else {
      assert [h] + seg + [line] == [h] + (seg + [line]) + [];
      RecordSplit(h, seg + [line], []);
      ConcatAppend(seg, [line]);
      assert Concat([line]) == line;
    }
  }

  /** The grouping is exactly the record loop: reading one more line changes
      the records as `Feed` says. */
  lemma {:induction false} GroupSnoc(ss: seq<string>, line: string)
    ensures Group(ss + [line]) == Feed(Group(ss), line)
    decreases |ss|
  {
    if ss == [] {
      assert ss + [line] == [line];
      if IsHeader(line) {
        SingleHeader(line);
      }
    } else if !IsHeader(ss[0]) {
      assert (ss + [line])[0] == ss[0];
      assert (ss + [line])[1..] == ss[1..] + [line];
      GroupSnoc(ss[1..], line);
    } else {
      var h, t := ss[0], ss[1..];
      var n := BodyRun(t);
      var seg, rest := t[..n], t[n..];
      assert ss == [h] + seg + rest;
      if rest == [] {
        assert ss == [h] + seg;
        SnocOpenRecord(h, seg, line);
      } else {
        assert ss + [line] == [h] + seg + (rest + [line]);
        RecordSplit(h, seg, rest);
        RecordSplit(h, seg, rest + [line]);
        GroupSnoc(rest, line);
        assert IsHeader(rest[0]) && Group(rest) != [];
        FeedAppend([Record(h, Concat(seg))], Group(rest), line);
      }
    }
  }

  /** Reading one more raw line: its stripped form is fed to the records. */
  lemma {:induction false} RecordsSnoc(lines: seq<string>, l: string)
    ensures Records(lines + [l]) == Feed(Records(lines), Strip(l))
  {
    assert StripLines(lines + [l]) == StripLines(lines) + [Strip(l)];
    GroupSnoc(StripLines(lines), Strip(l));
  }

  /** Lines before the first header never reach a record. */
  lemma {:induction false} OrphansDropped(pre: seq<string>, rest: seq<string>)
    requires forall k :: 0 <= k < |pre| ==> !IsHeader(pre[k])
    ensures Group(pre + rest) == Group(rest)
    decreases |pre|
  {
    if pre != [] {
      assert (pre + rest)[0] == pre[0];
      assert (pre + rest)[1..] == pre[1..] + rest;
      OrphansDropped(pre[1..], rest);
    } else {
      assert pre + rest == rest;
    }
  }

  /** A line that strips to nothing adds nothing to a body. */
  lemma {:induction false} BlankLineIgnored(a: seq<string>, b: seq<string>)
    ensures Concat(a + [""] + b) == Concat(a + b)
  {
    ConcatAppend(a + [""], b);
    ConcatAppend(a, [""]);
    ConcatAppend(a, b);
    assert Concat([""]) == "";
  }

  /** A concatenation of non-header lines does not start with the marker. */
  lemma {:induction false} ConcatNoMarker(seg: seq<string>)
    requires forall k :: 0 <= k < |seg| ==> !IsHeader(seg[k])
    ensures !IsHeader(Concat(seg))
    decreases |seg|
  {
    if seg != [] {
      ConcatNoMarker(seg[1..]);
      if seg[0] != [] {
        assert Concat(seg)[0] == seg[0][0];
      }
    }
  }

  /** Every record's header starts with the marker and its body does not. */
  lemma {:induction false} GroupShape(ss: seq<string>)
    ensures forall k :: 0 <= k < |Group(ss)| ==> IsHeader(Group(ss)[k].header) && !IsHeader(Group(ss)[k].body)
    decreases |ss|
  {
    if ss != [] {
      if IsHeader(ss[0]) {
        var n := BodyRun(ss[1..]);
        ConcatNoMarker(ss[1..1 + n]);
        GroupShape(ss[1 + n..]);
      } else {
        GroupShape(ss[1..]);
      }
    }
  }

  /** The records' headers are the header lines, each once and in order. */
  lemma {:induction false} GroupHeaders(ss: seq<string>)
    ensures Headers(Group(ss)) == HeaderLines(ss)
    decreases |ss|
  {
    if ss != [] {
      var init, line := ss[..|ss| - 1], ss[|ss| - 1];
      assert ss == init + [line];
      GroupSnoc(init, line);
      GroupHeaders(init);
      var recs := Group(init);
      if IsHeader(line) {
        assert (recs + [Record(line, "")])[..|recs|] == recs;
      } else if recs != [] {
        var last := recs[|recs| - 1];
        var recs' := recs[..|recs| - 1] + [Record(last.header, last.body + line)];
        assert recs'[..|recs'| - 1] == recs[..|recs| - 1];
      }
    }
  }

  lemma {:induction false} HeadersLength(recs: seq<Record>)
    ensures |Headers(recs)| == |recs|
    decreases |recs|
  {
    if recs != [] {
      HeadersLength(recs[..|recs| - 1]);
    }
  }

  /** There is one record per header line; without a header line there is none. */
  lemma {:induction false} RecordCount(ss: seq<string>)
    ensures |Group(ss)| == |HeaderLines(ss)|
    ensures HeaderLines(ss) == [] ==> Group(ss) == []
  {
    GroupHeaders(ss);
    HeadersLength(Group(ss));
  }

  /** The text written for one record, wrapped at width `w`: the substitution
      is applied, the header is written, and the wrapped body only if it is
      non-empty. */
  function Flush(r: Record, needle: string, repl: string, w: nat): string
    requires needle != [] && w >= 1
  {
    var body := ReplaceAll(r.body, needle, repl);
    r.header + "\n" + (if body == [] then "" else WrapSequence(body, w) + "\n")
  }

  /** The lines written for one record: its header, then its substituted body
      cut into chunks of `w`. */
  function Block(r: Record, needle: string, repl: string, w: nat): seq<string>
    requires needle != [] && w >= 1
  {
    [r.header] + Chunks(ReplaceAll(r.body, needle, repl), w)
  }

  /** A flushed record is exactly its header line immediately followed by its
      own chunk lines; the chunks put back together are the substituted body,
      and without an occurrence of the needle they are the body itself. */
  lemma {:induction false} FlushLines(r: Record, needle: string, repl: string, w: nat)
    requires needle != [] && w >= 1
    ensures Flush(r, needle, repl, w) == Unlines(Block(r, needle, repl, w))
    ensures Concat(Block(r, needle, repl, w)[1..]) == ReplaceAll(r.body, needle, repl)
    ensures !Contains(r.body, needle) ==> Block(r, needle, repl, w) == [r.header] + Chunks(r.body, w)
  {
    var body := ReplaceAll(r.body, needle, repl);
    WrapLines(body, w);
    ChunksShape(body, w);
    assert Block(r, needle, repl, w)[1..] == Chunks(body, w);
    assert Unlines([r.header] + Chunks(body, w)) == r.header + "\n" + Unlines(Chunks(body, w)) by {
      assert ([r.header] + Chunks(body, w))[1..] == Chunks(body, w);
    }
    if !Contains(r.body, needle) {
      ReplaceAbsent(r.body, needle, repl);
    }
  }

  /** A record with an empty body is written as its header line alone. */
  lemma {:induction false} EmptyRecord(header: string, needle: string, repl: string, w: nat)
    requires needle != [] && w >= 1
    ensures Flush(Record(header, ""), needle, repl, w) == header + "\n"
  {
    assert ReplaceAll("", needle, repl) == "";
  }

  /** Records flushed, in order, each at width `w`. */
  function FlushAll(recs: seq<Record>, needle: string, repl: string, w: nat): string
    requires needle != [] && w >= 1
  {
    if recs == [] then ""
    else FlushAll(recs[..|recs| - 1], needle, repl, w) + Flush(recs[|recs| - 1], needle, repl, w)
  }

  /** The whole output: every record but the last is flushed when the next
      header arrives, at width `flushWidth`; the last is flushed after the
      loop, at width `finalWidth`. */
  function Render(recs: seq<Record>, needle: string, repl: string, flushWidth: nat, finalWidth: nat): string
    requires needle != [] && flushWidth >= 1 && finalWidth >= 1
  {
    if recs == [] then ""
    else FlushAll(recs[..|recs| - 1], needle, repl, flushWidth) + Flush(recs[|recs| - 1], needle, repl, finalWidth)
  }

  /** The output lines: the records' blocks one after another, every block but
      the last cut at `flushWidth` and the last at `finalWidth`. */
  function OutputLines(recs: seq<Record>, needle: string, repl: string, flushWidth: nat, finalWidth: nat): seq<string>
    requires needle != [] && flushWidth >= 1 && finalWidth >= 1
  {
    if recs == [] then []
    else BlocksAt(recs[..|recs| - 1], needle, repl, flushWidth) + Block(recs[|recs| - 1], needle, repl, finalWidth)
  }

  function BlocksAt(recs: seq<Record>, needle: string, repl: string, w: nat): seq<string>
    requires needle != [] && w >= 1
  {
    if recs == [] then []
    else BlocksAt(recs[..|recs| - 1], needle, repl, w) + Block(recs[|recs| - 1], needle, repl, w)
  }

  lemma {:induction false} FlushAllLines(recs: seq<Record>, needle: string, repl: string, w: nat)
    requires needle != [] && w >= 1
    ensures FlushAll(recs, needle, repl, w) == Unlines(BlocksAt(recs, needle, repl, w))
    decreases |recs|
  {
    if recs != [] {
      var init := recs[..|recs| - 1];
      FlushAllLines(init, needle, repl, w);
      FlushLines(recs[|recs| - 1], needle, repl, w);
      UnlinesAppend(BlocksAt(init, needle, repl, w), Block(recs[|recs| - 1], needle, repl, w));
    }
  }

  /** The output text is the output lines, each followed by a newline. */
  lemma {:induction false} RenderLines(recs: seq<Record>, needle: string, repl: string, flushWidth: nat, finalWidth: nat)
    requires needle != [] && flushWidth >= 1 && finalWidth >= 1
    ensures Render(recs, needle, repl, flushWidth, finalWidth)
         == Unlines(OutputLines(recs, needle, repl, flushWidth, finalWidth))
  {
    if recs != [] {
      var init := recs[..|recs| - 1];
      FlushAllLines(init, needle, repl, flushWidth);
      FlushLines(recs[|recs| - 1], needle, repl, finalWidth);
      UnlinesAppend(BlocksAt(init, needle, repl, flushWidth), Block(recs[|recs| - 1], needle, repl, finalWidth));
    }
  }
}
