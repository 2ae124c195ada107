/** The `wc`-style counting of Lesson_4/lesson4_counter.c: bytes, words and
    lines of everything read from one descriptor, in chunks. */
module WordCount {
  import opened Common

  datatype Counts = Counts(bytes: nat, words: nat, lines: nat)

  /** Number of '\n' bytes. */
  function Lines(s: seq<Byte>): nat {
    if |s| == 0 then 0 else Lines(s[..|s| - 1]) + (if s[|s| - 1] == 10 then 1 else 0)
  }

  /** Position `i` starts a word: it is not a space and the byte before it
      (if any) is. */
  predicate WordStart(s: seq<Byte>, i: nat)
    requires i < |s|
  {
    !IsSpaceByte(s[i]) && (i == 0 || IsSpaceByte(s[i - 1]))
  }

  /** Number of maximal runs of non-space bytes, counted by their first byte. */
  function Words(s: seq<Byte>): nat {
    if |s| == 0 then 0
    else Words(s[..|s| - 1]) + (if WordStart(s, |s| - 1) then 1 else 0)
  }

  /** The counts of one complete input. */
  function CountOf(s: seq<Byte>): Counts {
    Counts(|s|, Words(s), Lines(s))
  }

  function Add(c: Counts, d: Counts): Counts {
    Counts(c.bytes + d.bytes, c.words + d.words, c.lines + d.lines)
  }

  /** `count_fd`: the chunks are the successive non-empty results of `read`;
      the read of 0 bytes (end of input) that ends the C loop is not among
      them. An empty chunk would add nothing, so the model does not need to
      stop at one. The flag `inWord` survives from one chunk to the next.
      The counts are added to those passed in. */
  method CountFd(chunks: seq<seq<Byte>>, c0: Counts) returns (c: Counts)
    ensures c == Add(c0, CountOf(Flatten(chunks)))
  {
    c := c0;
    var inWord := false;
    var j := 0;
    ghost var seen: seq<Byte> := [];
    while j < |chunks|
      invariant j <= |chunks|
      invariant seen == Flatten(chunks[..j])
      invariant c == Add(c0, CountOf(seen))
      invariant inWord == (|seen| > 0 && !IsSpaceByte(seen[|seen| - 1]))
    {
      var buf := chunks[j];
      c := c.(bytes := c.bytes + |buf|);
      c, inWord := CountChunk(buf, c, inWord, seen, c0);
      FlattenStep(chunks, j);
      seen := seen + buf;
      j := j + 1;
    }
    assert chunks[..j] == chunks;
  }

  /** The loop of `count_fd` over one buffer `buf`, read after `before`:
      the byte count is already up to date, and the word and line counts
      and `inWord` move on from `before` to `before + buf`. */
  method CountChunk(buf: seq<Byte>, c: Counts, inWord: bool, ghost before: seq<Byte>, ghost c0: Counts)
      returns (c1: Counts, inWord1: bool)
    requires c == Counts(c0.bytes + |before| + |buf|, c0.words + Words(before), c0.lines + Lines(before))
    requires inWord == (|before| > 0 && !IsSpaceByte(before[|before| - 1]))
    ensures c1 == Counts(c0.bytes + |before| + |buf|, c0.words + Words(before + buf), c0.lines + Lines(before + buf))
    ensures inWord1 == (|before + buf| > 0 && !IsSpaceByte((before + buf)[|before + buf| - 1]))
  {
    c1, inWord1 := c, inWord;
    var i := 0;
    ghost var seen := before;
    while i < |buf|
      invariant i <= |buf|
      invariant seen == before + buf[..i]
      invariant c1 == Counts(c0.bytes + |before| + |buf|, c0.words + Words(seen), c0.lines + Lines(seen))
      invariant inWord1 == (|seen| > 0 && !IsSpaceByte(seen[|seen| - 1]))
    {
      var ch := buf[i];
      StepCounts(seen, ch);
      if ch == 10 {
        c1 := c1.(lines := c1.lines + 1);
      }
      if IsSpaceByte(ch) {
        inWord1 := false;
      } else if !inWord1 {
        c1 := c1.(words := c1.words + 1);
        inWord1 := true;
      }
      seen := seen + [ch];
      assert buf[..i + 1] == buf[..i] + [ch];
      i := i + 1;
    }
    assert buf[..|buf|] == buf;
  }

  /** One more byte: what the loop body of CountFd adds. */
  lemma StepCounts(seen: seq<Byte>, ch: Byte)
    ensures Lines(seen + [ch]) == Lines(seen) + (if ch == 10 then 1 else 0)
    ensures Words(seen + [ch]) == Words(seen)
      + (if !IsSpaceByte(ch) && !(|seen| > 0 && !IsSpaceByte(seen[|seen| - 1])) then 1 else 0)
  {
    assert (seen + [ch])[..|seen|] == seen;
  }

  /** Words of a concatenation: a word that runs across the seam is counted once. */
  lemma {:induction false} WordsAppend(s: seq<Byte>, t: seq<Byte>)
    ensures Words(s + t) == Words(s) + Words(t)
      - (if |s| > 0 && |t| > 0 && !IsSpaceByte(s[|s| - 1]) && !IsSpaceByte(t[0]) then 1 else 0)
  {
    if |t| == 0 {
      assert s + t == s;
    } else {
      var t' := t[..|t| - 1];
      WordsAppend(s, t');
      assert (s + t)[..|s + t| - 1] == s + t';
      if |t'| == 0 {
        assert t' == [] && s + t' == s;
        assert Words(t) == (if WordStart(t, 0) then 1 else 0);
      } else {
        assert t[..|t| - 1][..|t'| - 1] == t'[..|t'| - 1];
      }
    }
  }

  /** There are never more words than bytes. */
  lemma {:induction false} WordsAtMostBytes(s: seq<Byte>)
    ensures Words(s) <= |s|
  {
    if |s| > 0 {
      WordsAtMostBytes(s[..|s| - 1]);
    }
  }

  /** Input made only of whitespace has no words. */
  lemma {:induction false} BlankHasNoWords(s: seq<Byte>)
    requires forall i :: 0 <= i < |s| ==> IsSpaceByte(s[i])
    ensures Words(s) == 0
  {
    if |s| > 0 {
      BlankHasNoWords(s[..|s| - 1]);
    }
  }

  /** The line count is the number of '\n' bytes. */
  lemma {:induction false} LinesAreNewlines(s: seq<Byte>)
    ensures Lines(s) == multiset(s)[10]
  {
    if |s| > 0 {
      LinesAreNewlines(s[..|s| - 1]);
      assert s == s[..|s| - 1] + [s[|s| - 1]];
    }
  }
}
