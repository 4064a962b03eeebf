/** `wrap_sequence(sequence, width)`: the slices `sequence[i:i+width]` for
    `i` in `range(0, len(sequence), width)`, joined with `'\n'`. */
module Wrap {

  function Min(a: int, b: int): int
  {
    if a <= b then a else b
  }

  /** The slices of the generator from offset `start` on. */
  function ChunksFrom(s: string, w: nat, start: nat): seq<string>
    requires w >= 1
    decreases |s| - start
  {
    if start >= |s| then []
    else [s[start..Min(start + w, |s|)]] + ChunksFrom(s, w, start + w)
  }

  /** The slices `s[i:i+w]` for `i` in `range(0, len(s), w)`. */
  function Chunks(s: string, w: nat): seq<string>
    requires w >= 1
  {
    ChunksFrom(s, w, 0)
  }

  /** Python's `sep.join(parts)`. */
  function Join(parts: seq<string>, sep: string): string
  {
    if |parts| == 0 then ""
    else if |parts| == 1 then parts[0]
    else parts[0] + sep + Join(parts[1..], sep)
  }

  function WrapSequence(s: string, w: nat): string
    requires w >= 1
  {
    Join(Chunks(s, w), "\n")
  }

  /** The concatenation of `parts` with no separator. */
  function Concat(parts: seq<string>): string
  {
    if parts == [] then "" else parts[0] + Concat(parts[1..])
  }

  /** The text of `lines` written one after another, each followed by a newline. */
  function Unlines(lines: seq<string>): string
  {
    if lines == [] then "" else lines[0] + "\n" + Unlines(lines[1..])
  }

  lemma {:induction false} ConcatAppend(a: seq<string>, b: seq<string>)
    ensures Concat(a + b) == Concat(a) + Concat(b)
    decreases |a|
  {
    if a == [] {
      assert a + b == b;
    } else {
      assert (a + b)[1..] == a[1..] + b;
      ConcatAppend(a[1..], b);
    }
  }

  /** Every part has `w` characters except the last, which has 1 to `w`. */
  predicate IsChunking(parts: seq<string>, w: nat)
  {
    && (forall k :: 0 <= k < |parts| - 1 ==> |parts[k]| == w)
    && (|parts| > 0 ==> 1 <= |parts[|parts| - 1]| <= w)
  }

  lemma {:induction false} ChunksFromShape(s: string, w: nat, start: nat)
    requires w >= 1 && start <= |s|
    ensures Concat(ChunksFrom(s, w, start)) == s[start..]
    ensures IsChunking(ChunksFrom(s, w, start), w)
    decreases |s| - start
  {
    if start < |s| {
      var c := ChunksFrom(s, w, start);
      var rest := ChunksFrom(s, w, start + w);
      assert c[1..] == rest;
      if start + w >= |s| {
        assert rest == [];
        assert c[0] == s[start..|s|] == s[start..];
      } else {
        ChunksFromShape(s, w, start + w);
        assert s[start..] == s[start..start + w] + s[start + w..];
        assert forall k :: 1 <= k < |c| ==> c[k] == rest[k - 1];
      }
    }
  }

  /** Concatenating the chunks gives back `s`; every chunk but the last has
      exactly `w` characters and the last has 1 to `w`. */
  lemma ChunksShape(s: string, w: nat)
    requires w >= 1
    ensures Concat(Chunks(s, w)) == s
    ensures IsChunking(Chunks(s, w), w)
  {
    ChunksFromShape(s, w, 0);
  }

  lemma {:induction false} ChunksFromUnique(s: string, w: nat, start: nat, parts: seq<string>)
    requires w >= 1 && start <= |s|
    requires IsChunking(parts, w)
    requires Concat(parts) == s[start..]
    ensures parts == ChunksFrom(s, w, start)
    decreases |parts|
  {
    if parts != [] {
      var p := parts[0];
      var rest := parts[1..];
      assert s[start..] == p + Concat(rest);
      assert p == s[start..start + |p|];
      assert Concat(rest) == s[start + |p|..];
      if |parts| == 1 {
        assert rest == [];
        assert start + |p| == |s|;
        assert Min(start + w, |s|) == |s|;
      } else {
        assert |p| == w;
        assert Concat(rest) == rest[0] + Concat(rest[1..]);
        assert |rest[0]| >= 1 by {
          if |rest| == 1 { } else { assert |rest[0]| == |parts[1]| == w; }
        }
        assert IsChunking(rest, w) by {
          assert forall k :: 0 <= k < |rest| ==> rest[k] == parts[k + 1];
        }
        ChunksFromUnique(s, w, start + w, rest);
      }
    } else {
      assert s[start..] == "";
    }
  }

  /** The chunking is the only one with those lengths: any sequence of parts
      that concatenates to `s`, all of length `w` but a last of 1 to `w`, is
      `Chunks(s, w)`. */
  lemma ChunksUnique(s: string, w: nat, parts: seq<string>)
    requires w >= 1
    requires IsChunking(parts, w)
    requires Concat(parts) == s
    ensures parts == Chunks(s, w)
  {
    assert s[0..] == s;
    ChunksFromUnique(s, w, 0, parts);
  }

  lemma {:induction false} ChunksFromCount(s: string, w: nat, start: nat)
    requires w >= 1 && start <= |s|
    ensures (|ChunksFrom(s, w, start)| - 1) * w < |s| - start <= |ChunksFrom(s, w, start)| * w
    decreases |s| - start
  {
    if start < |s| && start + w < |s| {
      ChunksFromCount(s, w, start + w);
      var n := |ChunksFrom(s, w, start + w)|;
      assert |ChunksFrom(s, w, start)| == n + 1;
      assert (n + 1) * w == n * w + w;
    }
  }

  lemma MulBetween(d: int, w: int)
    requires w >= 1
    requires -w < d * w < w
    ensures d == 0
  {
  }

  /** Euclidean division is determined by its bounds. */
  lemma DivUnique(a: nat, w: nat, n: nat)
    requires w >= 1
    requires n * w <= a < n * w + w
    ensures a / w == n
  {
    var q := a / w;
    assert (q - n) * w == q * w - n * w;
    MulBetween(q - n, w);
  }

  /** Division characterization of a ceiling. */
  lemma CeilDiv(len: nat, w: nat, n: nat)
    requires w >= 1
    requires (n - 1) * w < len <= n * w
    ensures n == (len + w - 1) / w
  {
    assert (n - 1) * w == n * w - w;
    DivUnique(len + w - 1, w, n);
  }

  /** There are `ceil(|s| / w)` chunks; in particular none for an empty `s`. */
  lemma ChunkCount(s: string, w: nat)
    requires w >= 1
    ensures |Chunks(s, w)| == (|s| + w - 1) / w
    ensures Chunks(s, w) == [] <==> s == []
  {
    ChunksFromCount(s, w, 0);
    CeilDiv(|s|, w, |Chunks(s, w)|);
  }

  /** Wrapping produces the empty string exactly for an empty input: an empty
      sequence gives no line at all, not one empty line. */
  lemma WrapEmpty(s: string, w: nat)
    requires w >= 1
    ensures WrapSequence(s, w) == [] <==> s == []
  {
    ChunksShape(s, w);
    var c := Chunks(s, w);
    if c != [] {
      assert |c[0]| >= 1 by {
        if |c| > 1 { assert |c[0]| == w; }
      }
      assert WrapSequence(s, w)[..|c[0]|] == c[0];
    }
  }

  /** A joined text written with a final newline is each part written as a line. */
  lemma {:induction false} JoinThenNewline(parts: seq<string>)
    requires parts != []
    ensures Join(parts, "\n") + "\n" == Unlines(parts)
  {
    if |parts| > 1 {
      JoinThenNewline(parts[1..]);
    } else {
      assert parts[1..] == [];
    }
  }

  lemma {:induction false} UnlinesAppend(a: seq<string>, b: seq<string>)
    ensures Unlines(a + b) == Unlines(a) + Unlines(b)
  {
    if a == [] {
      assert a + b == b;
    } else {
      assert (a + b)[1..] == a[1..] + b;
      UnlinesAppend(a[1..], b);
    }
  }

  /** The output for a wrapped sequence followed by a newline is its chunks,
      one per line; nothing at all for an empty sequence. */
  lemma WrapLines(s: string, w: nat)
    requires w >= 1
    ensures (if s == [] then "" else WrapSequence(s, w) + "\n") == Unlines(Chunks(s, w))
  {
    ChunkCount(s, w);
    if s != [] {
      JoinThenNewline(Chunks(s, w));
    }
  }
}
