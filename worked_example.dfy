/** A worked input for the record loop: two records, the first one's sequence
    spread over two lines and equal to the needle, written at width 3. */
module FastaExample {
  import opened PyStr
  import opened Wrap
  import opened FastaRecords

  const Input: seq<string> := [">seq1", "ATGG", "TGAG", ">seq2", "CCCC"]
  const Needle: string := "ATGGTGAG"
  const Replacement: string := "XX"

  /** Lines with no whitespace at either end are kept as they are. */
  lemma StripLinesUnchanged(lines: seq<string>)
    requires forall k :: 0 <= k < |lines| ==> lines[k] == [] || (!IsSpace(lines[k][0]) && !IsSpace(lines[k][|lines[k]| - 1]))
    ensures StripLines(lines) == lines
  {
    forall k | 0 <= k < |lines| ensures StripLines(lines)[k] == lines[k] {
      StripUnchanged(lines[k]);
    }
  }

  /** Two records, the first with its sequence on two lines: the lines are
      merged into one body with no separator. */
  lemma {:induction false} TwoRecords(h0: string, a: string, b: string, h1: string, c: string)
    requires IsHeader(h0) && IsHeader(h1)
    requires !IsHeader(a) && !IsHeader(b) && !IsHeader(c)
    ensures Group([h0, a, b, h1, c]) == [Record(h0, a + b), Record(h1, c)]
  {
    RecordSplit(h0, [a, b], [h1, c]);
    RecordSplit(h1, [c], []);
    assert [h0] + [a, b] + [h1, c] == [h0, a, b, h1, c];
    assert [h1] + [c] + [] == [h1, c];
    assert Concat([a, b]) == a + b by {
      assert Concat([b]) == b + Concat([]);
      assert b + "" == b;
    }
    assert Concat([c]) == c by {
      assert Concat([c]) == c + Concat([]);
      assert c + "" == c;
    }
    assert Group([]) == [];
    assert Group([h1, c]) == [Record(h1, c)] + Group([]);
    assert Group([h0, a, b, h1, c]) == [Record(h0, a + b)] + Group([h1, c]);
  }

  /** The first record's sequence is the needle: one replacement, one line. */
  lemma {:induction false} ExampleFirstRecord()
    ensures Flush(Record(">seq1", "ATGGTGAG"), Needle, Replacement, 3) == Unlines([">seq1", "XX"])
  {
    assert ReplaceAll("ATGGTGAG", Needle, Replacement) == "XX" by {
      assert ReplaceAll("", Needle, Replacement) == "";
    }
    ChunksUnique("XX", 3, ["XX"]);
    FlushLines(Record(">seq1", "ATGGTGAG"), Needle, Replacement, 3);
  }

  /** The second record holds no occurrence and is cut after 3 characters. */
  lemma {:induction false} ExampleSecondRecord()
    ensures Flush(Record(">seq2", "CCCC"), Needle, Replacement, 3) == Unlines([">seq2", "CCC", "C"])
  {
    assert ReplaceAll("CCCC", Needle, Replacement) == "CCCC";
    assert Concat(["CCC", "C"]) == "CCCC" by {
      assert Concat(["C"]) == "C";
    }
    ChunksUnique("CCCC", 3, ["CCC", "C"]);
    FlushLines(Record(">seq2", "CCCC"), Needle, Replacement, 3);
  }

  /** Rendering two records: the first flushed at the flush width, the last
      at the final width. */
  lemma {:induction false} RenderTwo(r0: Record, r1: Record, needle: string, repl: string, fw: nat, lw: nat)
    requires needle != [] && fw >= 1 && lw >= 1
    ensures Render([r0, r1], needle, repl, fw, lw) == Flush(r0, needle, repl, fw) + Flush(r1, needle, repl, lw)
  {
    var recs := [r0, r1];
    assert recs[..1] == [r0];
    assert [r0][..0] == [];
    assert FlushAll([r0], needle, repl, fw) == Flush(r0, needle, repl, fw);
  }

  /** The needle is the two sequence lines of the first record put together. */
  lemma NeedleSplit()
    ensures "ATGG" + "TGAG" == "ATGGTGAG"
  {
  }

  /** The records of the worked input. */
  lemma ExampleRecords(h0: string, a: string, b: string, h1: string, c: string)
    requires [h0, a, b, h1, c] == Input
    ensures Records([h0, a, b, h1, c]) == [Record(">seq1", "ATGGTGAG"), Record(">seq2", "CCCC")]
  {
    var lines := [h0, a, b, h1, c];
    StripLinesUnchanged(lines);
    TwoRecords(h0, a, b, h1, c);
    assert a == "ATGG" && b == "TGAG" by {
      assert a == lines[1] == Input[1];
      assert b == lines[2] == Input[2];
    }
    NeedleSplit();
  }

  /** The output for the worked input, line by line: each header once, the
      merged and substituted first sequence, the second sequence wrapped. */
  lemma MultiLineMerge(h0: string, a: string, b: string, h1: string, c: string)
    requires [h0, a, b, h1, c] == Input
    ensures Render(Records([h0, a, b, h1, c]), Needle, Replacement, 3, 3)
         == Unlines([">seq1", "XX", ">seq2", "CCC", "C"])
  {
    ExampleRecords(h0, a, b, h1, c);
    ExampleFirstRecord();
    ExampleSecondRecord();
    RenderTwo(Record(">seq1", "ATGGTGAG"), Record(">seq2", "CCCC"), Needle, Replacement, 3, 3);
    UnlinesAppend([">seq1", "XX"], [">seq2", "CCC", "C"]);
    assert [">seq1", "XX"] + [">seq2", "CCC", "C"] == [">seq1", "XX", ">seq2", "CCC", "C"];
  }
}
