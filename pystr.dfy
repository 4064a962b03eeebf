/** The Python string built-ins the FASTA processor relies on: `str.strip()`,
    `str.startswith('>')` and `str.replace(old, new)`, stated on `seq<char>`. */
module PyStr {

  /** Python's `str.isspace` for one character: the characters of Unicode
      category Zs or bidirectional class WS, B or S. */
  predicate IsSpace(c: char)
  {
    var n := c as int;
    || (0x09 <= n <= 0x0D)
    || (0x1C <= n <= 0x20)
    || n == 0x85 || n == 0xA0 || n == 0x1680
    || (0x2000 <= n <= 0x200A)
    || n == 0x2028 || n == 0x2029 || n == 0x202F || n == 0x205F || n == 0x3000
  }

  /** Number of whitespace characters at the front of `s`. */
  function LeadingSpace(s: string): (n: nat)
    ensures n <= |s|
  {
    if |s| == 0 || !IsSpace(s[0]) then 0 else 1 + LeadingSpace(s[1..])
  }

  /** Number of whitespace characters at the end of `s`. */
  function TrailingSpace(s: string): (n: nat)
    ensures n <= |s|
  {
    if |s| == 0 || !IsSpace(s[|s| - 1]) then 0 else 1 + TrailingSpace(s[..|s| - 1])
  }

  /** `LeadingSpace` counts the whole run of whitespace at the front. */
  lemma {:induction false} LeadingSpaceSpec(s: string)
    ensures forall k :: 0 <= k < LeadingSpace(s) ==> IsSpace(s[k])
    ensures LeadingSpace(s) < |s| ==> !IsSpace(s[LeadingSpace(s)])
    decreases |s|
  {
    if |s| > 0 && IsSpace(s[0]) {
      LeadingSpaceSpec(s[1..]);
      forall k | 1 <= k < LeadingSpace(s) ensures IsSpace(s[k]) {
        assert s[k] == s[1..][k - 1];
      }
    }
  }

  /** `TrailingSpace` counts the whole run of whitespace at the end. */
  lemma {:induction false} TrailingSpaceSpec(s: string)
    ensures forall k :: |s| - TrailingSpace(s) <= k < |s| ==> IsSpace(s[k])
    ensures TrailingSpace(s) < |s| ==> !IsSpace(s[|s| - 1 - TrailingSpace(s)])
    decreases |s|
  {
    if |s| > 0 && IsSpace(s[|s| - 1]) {
      var init := s[..|s| - 1];
      TrailingSpaceSpec(init);
      forall k | |s| - TrailingSpace(s) <= k < |s| - 1 ensures IsSpace(s[k]) {
        assert s[k] == init[k];
      }
      if TrailingSpace(s) < |s| {
        assert s[|s| - 1 - TrailingSpace(s)] == init[|init| - 1 - TrailingSpace(init)];
      }
    }
  }

  /** `r` is `s` with exactly the whitespace before offset `i` and after
      offset `i + |r|` removed. */
  predicate StrippedAt(s: string, r: string, i: nat)
  {
    && i + |r| <= |s|
    && s[i..i + |r|] == r
    && (forall k :: 0 <= k < i ==> IsSpace(s[k]))
    && (forall k :: i + |r| <= k < |s| ==> IsSpace(s[k]))
  }

  /** Python's `s.strip()`: leading and trailing whitespace removed. */
  function Strip(s: string): string
  {
    var rest := s[LeadingSpace(s)..];
    rest[..|rest| - TrailingSpace(rest)]
  }

  /** `Strip` removes the whitespace at both ends and nothing else: the result
      is empty exactly for an all-whitespace line, and otherwise neither starts
      nor ends with whitespace. */
  lemma StripSpec(s: string)
    ensures exists i :: StrippedAt(s, Strip(s), i)
    ensures Strip(s) == [] <==> forall k :: 0 <= k < |s| ==> IsSpace(s[k])
    ensures Strip(s) != [] ==> !IsSpace(Strip(s)[0]) && !IsSpace(Strip(s)[|Strip(s)| - 1])
  {
    var lead := LeadingSpace(s);
    var rest := s[lead..];
    var r := Strip(s);
    LeadingSpaceSpec(s);
    TrailingSpaceSpec(rest);
    assert StrippedAt(s, r, lead) by {
      assert s[lead..lead + |r|] == r;
      forall k | lead + |r| <= k < |s| ensures IsSpace(s[k]) {
        assert s[k] == rest[k - lead];
      }
    }
    assert lead < |s| ==> r != [] by {
      if lead < |s| {
        assert rest[0] == s[lead];
      }
    }
    if r != [] {
      assert r[0] == s[lead];
      assert r[|r| - 1] == rest[|rest| - 1 - TrailingSpace(rest)];
    }
  }

  /** A line with no whitespace at either end is kept as it is. */
  lemma StripUnchanged(s: string)
    requires s == [] || (!IsSpace(s[0]) && !IsSpace(s[|s| - 1]))
    ensures Strip(s) == s
  {
    if s != [] {
      assert LeadingSpace(s) == 0;
      assert s[0..] == s;
      assert TrailingSpace(s) == 0;
    }
  }

  /** Stripping a stripped line changes nothing. */
  lemma StripIdempotent(s: string)
    ensures Strip(Strip(s)) == Strip(s)
  {
    StripSpec(s);
    StripUnchanged(Strip(s));
  }

  /** Python's `line.startswith('>')`: the line opens a new record. */
  predicate IsHeader(line: string)
  {
    |line| > 0 && line[0] == '>'
  }

  /** `needle` occurs in `s` starting at offset `i`. */
  predicate OccursAt(s: string, needle: string, i: nat)
  {
    i + |needle| <= |s| && s[i..i + |needle|] == needle
  }

  predicate Contains(s: string, needle: string)
  {
    exists i: nat | i <= |s| :: OccursAt(s, needle, i)
  }

  /** Python's `s.replace(needle, repl)` for a non-empty `needle`: scanning
      left to right, each leftmost occurrence is replaced and the scan resumes
      after it, so occurrences never overlap. */
  function ReplaceAll(s: string, needle: string, repl: string): string
    requires needle != []
    decreases |s|
  {
    if |s| < |needle| then s
    else if s[..|needle|] == needle then repl + ReplaceAll(s[|needle|..], needle, repl)
    else [s[0]] + ReplaceAll(s[1..], needle, repl)
  }

  /** The number of occurrences the left-to-right scan of `ReplaceAll` finds. */
  function MatchCount(s: string, needle: string): nat
    requires needle != []
    decreases |s|
  {
    if |s| < |needle| then 0
    else if s[..|needle|] == needle then 1 + MatchCount(s[|needle|..], needle)
    else MatchCount(s[1..], needle)
  }

  /** An occurrence in the tail of `s` is an occurrence in `s`, one further on. */
  lemma OccursInTail(s: string, needle: string, d: nat, i: nat)
    requires d <= |s|
    ensures OccursAt(s[d..], needle, i) <==> OccursAt(s, needle, d + i)
  {
    if i + |needle| <= |s| - d {
      assert s[d..][i..i + |needle|] == s[d + i..d + i + |needle|];
    }
  }

  /** Without an occurrence of `needle`, `replace` returns `s` unchanged. */
  lemma {:induction false} ReplaceAbsent(s: string, needle: string, repl: string)
    requires needle != []
    requires !Contains(s, needle)
    ensures ReplaceAll(s, needle, repl) == s
    decreases |s|
  {
    if |s| >= |needle| {
      assert !OccursAt(s, needle, 0);
      assert !Contains(s[1..], needle) by {
        forall i: nat ensures !OccursAt(s[1..], needle, i) {
          OccursInTail(s, needle, 1, i);
        }
      }
      ReplaceAbsent(s[1..], needle, repl);
      assert s == [s[0]] + s[1..];
    }
  }

  /** Characters before the first occurrence are copied unchanged. */
  lemma {:induction false} ReplaceCopiesPrefix(s: string, needle: string, repl: string, i: nat)
    requires needle != []
    requires i <= |s|
    requires forall j: nat :: j < i ==> !OccursAt(s, needle, j)
    ensures ReplaceAll(s, needle, repl) == s[..i] + ReplaceAll(s[i..], needle, repl)
    decreases i
  {
    if i == 0 {
      assert s[..0] + s[0..] == s;
    } else if |s| < |needle| {
      assert s[..i] + s[i..] == s;
    } else {
      assert !OccursAt(s, needle, 0);
      forall j: nat | j < i - 1 ensures !OccursAt(s[1..], needle, j) {
        OccursInTail(s, needle, 1, j);
      }
      ReplaceCopiesPrefix(s[1..], needle, repl, i - 1);
      assert s[1..][i - 1..] == s[i..];
      assert [s[0]] + s[1..][..i - 1] == s[..i];
    }
  }

  /** The leftmost occurrence is the one replaced, and the scan resumes right
      after it. Together with `ReplaceAbsent` this pins `ReplaceAll` down. */
  lemma {:induction false} ReplaceLeftmost(s: string, needle: string, repl: string, i: nat)
    requires needle != []
    requires OccursAt(s, needle, i)
    requires forall j: nat :: j < i ==> !OccursAt(s, needle, j)
    ensures ReplaceAll(s, needle, repl)
         == s[..i] + repl + ReplaceAll(s[i + |needle|..], needle, repl)
  {
    ReplaceCopiesPrefix(s, needle, repl, i);
    var t := s[i..];
    assert t[..|needle|] == needle;
    assert t[|needle|..] == s[i + |needle|..];
    assert ReplaceAll(t, needle, repl) == repl + ReplaceAll(t[|needle|..], needle, repl);
  }

  /** Replacing `needle` by itself is the identity. */
  lemma {:induction false} ReplaceBySelf(s: string, needle: string)
    requires needle != []
    ensures ReplaceAll(s, needle, needle) == s
    decreases |s|
  {
    if |s| >= |needle| {
      if s[..|needle|] == needle {
        ReplaceBySelf(s[|needle|..], needle);
        assert s[..|needle|] + s[|needle|..] == s;
      } else {
        ReplaceBySelf(s[1..], needle);
        assert [s[0]] + s[1..] == s;
      }
    }
  }

  lemma MulStep(m: int, d: int)
    ensures (1 + m) * d == d + m * d
  {
  }

  /** Each match found by the scan changes the length by `|repl| - |needle|`. */
  lemma {:induction false} ReplaceLength(s: string, needle: string, repl: string)
    requires needle != []
    ensures |ReplaceAll(s, needle, repl)| == |s| + MatchCount(s, needle) * (|repl| - |needle|)
    decreases |s|
  {
    var d := |repl| - |needle|;
    if |s| < |needle| {
      assert MatchCount(s, needle) == 0;
    } else if s[..|needle|] == needle {
      var t := s[|needle|..];
      ReplaceLength(t, needle, repl);
      var m := MatchCount(t, needle);
      assert |ReplaceAll(t, needle, repl)| == |t| + m * d;
      assert |ReplaceAll(s, needle, repl)| == |repl| + |ReplaceAll(t, needle, repl)|;
      assert MatchCount(s, needle) == 1 + m;
      assert |s| == |needle| + |t|;
      MulStep(m, d);
    } else {
      var t := s[1..];
      ReplaceLength(t, needle, repl);
      assert MatchCount(s, needle) == MatchCount(t, needle);
      assert |ReplaceAll(s, needle, repl)| == 1 + |ReplaceAll(t, needle, repl)|;
    }
  }

  /** The scan finds a match exactly when `needle` occurs in `s`. */
  lemma {:induction false} MatchCountZero(s: string, needle: string)
    requires needle != []
    ensures MatchCount(s, needle) == 0 <==> !Contains(s, needle)
    decreases |s|
  {
    if |s| < |needle| {
      forall i: nat ensures !OccursAt(s, needle, i) { }
    } else if s[..|needle|] == needle {
      assert OccursAt(s, needle, 0);
    } else {
      MatchCountZero(s[1..], needle);
      assert !OccursAt(s, needle, 0);
      forall i: nat ensures OccursAt(s[1..], needle, i) <==> OccursAt(s, needle, 1 + i) {
        OccursInTail(s, needle, 1, i);
      }
      if Contains(s, needle) {
        var i: nat :| OccursAt(s, needle, i);
        assert OccursAt(s[1..], needle, i - 1);
      }
    }
  }
}
