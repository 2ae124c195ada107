/** The command-line parsing of the shell in Lesson_4/lesson4_myshell.c. The
    line is a character buffer that the parser rewrites in place: `trim` puts
    NULs over trailing white space, `split_segments` puts NULs over the `|`
    delimiters, `parse_argv` removes quote characters by copying the word
    down over itself. The results are offsets into the buffer at which C
    strings now start; `Holds(b, q, r)` says that the buffer `b` holds the C
    string `r` at offset `q`. */
module Shell {
  import opened Common

  /** A C string: no NUL inside. */
  predicate NoNul(s: string) {
    forall k :: 0 <= k < |s| ==> s[k] != NUL
  }

  /** The buffer `b` holds the C string `r` at `q`: its characters, then a NUL. */
  predicate Holds(b: seq<char>, q: nat, r: string) {
    q + |r| < |b| && b[q + |r|] == NUL && NoNul(r) &&
    forall k :: 0 <= k < |r| ==> b[q + k] == r[k]
  }

  /** What `Holds` says is what `strlen` and a copy of the string read back. */
  lemma HoldsCStr(b: seq<char>, q: nat, r: string)
    requires Holds(b, q, r)
    ensures CStr(b, q) == r
  {
    assert forall k :: q <= k < q + |r| ==> b[k] == r[k - q];
    StrlenAt(b, q, |r|);
    assert b[q .. q + |r|] == r;
  }

  /** A C string stays in place when nothing from its first character to its
      terminator changes. */
  lemma HoldsFrame(b0: seq<char>, b1: seq<char>, q: nat, r: string)
    requires Holds(b0, q, r) && |b1| == |b0|
    requires forall k :: q <= k <= q + |r| ==> b1[k] == b0[k]
    ensures Holds(b1, q, r)
  {
    assert b1[q + |r|] == b0[q + |r|];
    forall k | 0 <= k < |r|
      ensures b1[q + k] == r[k]
    {
      assert b1[q + k] == b0[q + k];
    }
  }

  // ---------------------------------------------------------------- trim

  function SkipSpaces(s: string, i: nat): (j: nat)
    requires i <= |s|
    ensures i <= j <= |s| && (j < |s| ==> !IsSpace(s[j]))
    decreases |s| - i
  {
    if i == |s| || !IsSpace(s[i]) then i else SkipSpaces(s, i + 1)
  }

  /** Everything `SkipSpaces` skips is white space. */
  lemma {:induction false} SkipSpacesSkips(s: string, i: nat)
    requires i <= |s|
    ensures forall k :: i <= k < SkipSpaces(s, i) ==> IsSpace(s[k])
    decreases |s| - i
  {
    if i < |s| && IsSpace(s[i]) {
      SkipSpacesSkips(s, i + 1);
    }
  }

  /** The end of `s[lo..e]` once its trailing white space is dropped. */
  function StripRight(s: string, lo: nat, e: nat): (b: nat)
    requires lo <= e <= |s|
    ensures lo <= b <= e && (b > lo ==> !IsSpace(s[b - 1]))
    decreases e
  {
    if e == lo || !IsSpace(s[e - 1]) then e else StripRight(s, lo, e - 1)
  }

  /** Everything `StripRight` drops is white space. */
  lemma {:induction false} StripRightDrops(s: string, lo: nat, e: nat)
    requires lo <= e <= |s|
    ensures forall k :: StripRight(s, lo, e) <= k < e ==> IsSpace(s[k])
    decreases e
  {
    if e > lo && IsSpace(s[e - 1]) {
      StripRightDrops(s, lo, e - 1);
    }
  }

  /** The string `trim` leaves: `s` without leading and trailing `isspace`
      characters. */
  function TrimStr(s: string): string {
    var a := SkipSpaces(s, 0);
    s[a .. StripRight(s, a, |s|)]
  }

  predicate AllSpace(s: string) {
    forall k :: 0 <= k < |s| ==> IsSpace(s[k])
  }

  /** Neither end of `m` is white space. */
  predicate Trimmed(m: string) {
    m == [] || (!IsSpace(m[0]) && !IsSpace(m[|m| - 1]))
  }

  /** `TrimStr(s)` is `s` with white space cut from both ends, nothing else:
      `s` is white space, then the result, then white space. */
  lemma TrimShape(s: string)
    ensures Trimmed(TrimStr(s))
    ensures s == s[..SkipSpaces(s, 0)] + TrimStr(s) + s[SkipSpaces(s, 0) + |TrimStr(s)|..]
    ensures forall k :: 0 <= k < SkipSpaces(s, 0) ==> IsSpace(s[k])
    ensures forall k :: SkipSpaces(s, 0) + |TrimStr(s)| <= k < |s| ==> IsSpace(s[k])
  {
    var a := SkipSpaces(s, 0);
    var b := StripRight(s, a, |s|);
    var t := s[a..b];
    assert t == TrimStr(s) && |t| == b - a;
    assert Trimmed(t) by {
      if t != [] {
        assert t[0] == s[a] && t[|t| - 1] == s[b - 1];
      }
    }
    assert s == s[..a] + t + s[b..];
    SkipSpacesSkips(s, 0);
    StripRightDrops(s, a, |s|);
  }

  /** The converse: cutting the white space off both ends of a string gives
      back its trimmed middle, whatever white space surrounds it. */
  lemma TrimUnique(l: string, m: string, t: string)
    requires AllSpace(l) && AllSpace(t) && Trimmed(m)
    ensures TrimStr(l + m + t) == m
  {
    var s := l + m + t;
    SkipFrom(s, 0, |l|);
    var a := SkipSpaces(s, 0);
    if m == [] {
      assert a == |s|;
    } else {
      assert a == |l|;
      StripFrom(s, a, |s|, |l| + |m|);
      assert s[|l| .. |l| + |m|] == m;
    }
  }

  /** Skipping white space from `i` stops at the first non-space at or after `e`
      when all before `e` is white space. */
  lemma {:induction false} SkipFrom(s: string, i: nat, e: nat)
    requires i <= e <= |s| && forall k :: i <= k < e ==> IsSpace(s[k])
    ensures SkipSpaces(s, i) == SkipSpaces(s, e)
    decreases e - i
  {
    if i < e {
      SkipFrom(s, i + 1, e);
    }
  }

  /** Stripping from `e` down stops at `b` when all in `[b, e)` is white space and
      `s[b - 1]` is not. */
  lemma {:induction false} StripFrom(s: string, lo: nat, e: nat, b: nat)
    requires lo < b <= e <= |s| && !IsSpace(s[b - 1])
    requires forall k :: b <= k < e ==> IsSpace(s[k])
    ensures StripRight(s, lo, e) == b
    decreases e
  {
    if e > b {
      StripFrom(s, lo, e - 1, b);
    }
  }

  /** Trimming twice is trimming once. */
  lemma TrimIdempotent(s: string)
    ensures TrimStr(TrimStr(s)) == TrimStr(s)
  {
    TrimShape(s);
    assert TrimStr(s) == [] + TrimStr(s) + [] by {
      assert TrimStr(s) + [] == TrimStr(s);
    }
    TrimUnique([], TrimStr(s), []);
  }

  /** `b1` is `b0` except perhaps at the offsets in `[lo, hi)`. */
  predicate SameExcept(b0: seq<char>, b1: seq<char>, lo: nat, hi: nat) {
    |b1| == |b0| && forall k :: 0 <= k < |b0| && !(lo <= k < hi) ==> b1[k] == b0[k]
  }

  /** `b` holds NULs at the offsets in `[lo, hi)`. */
  predicate NulsIn(b: seq<char>, lo: nat, hi: nat) {
    forall k :: lo <= k < hi && k < |b| ==> b[k] == NUL
  }

  /** `trim`: the C string at `p` in `buf` is `s`. The result is the offset of
      the trimmed string, which now ends in a NUL written over the first
      trailing space; every trailing space became a NUL and nothing else
      changed. */
  method Trim(buf: array<char>, p: nat, ghost s: string) returns (q: nat)
    requires Holds(buf[..], p, s)
    modifies buf
    ensures q == p + SkipSpaces(s, 0) && q + |TrimStr(s)| <= p + |s|
    ensures Holds(buf[..], q, TrimStr(s))
    ensures SameExcept(old(buf[..]), buf[..], q + |TrimStr(s)|, p + |s|)
    ensures NulsIn(buf[..], q + |TrimStr(s)|, p + |s|)
  {
    q := SkipLeading(buf, p, s);
    if buf[q] == NUL {
      HoldsEnd(buf[..], p, s, q - p);
      TrimBetween(s, |s|, |s|);
      assert TrimStr(s) == [];
      assert Holds(buf[..], q, []);
      return;
    }
    HoldsEnd(buf[..], p, s, q - p);
    HoldsPart(buf[..], p, s, q, p + |s|);
    var n := StringLength(buf, q, s[q - p..]);
    ghost var b0 := buf[..];
    var e := ClearTrailing(buf, p, q, q + n - 1, s);
    TrimDone(b0, buf[..], p, s, q, e);
  }

  /** What the two loops of `trim` leave, put together: the trimmed string
      runs from `q` to `e`, and NULs follow it to the old terminator. */
  lemma TrimDone(b0: seq<char>, b1: seq<char>, p: nat, s: string, q: nat, e: nat)
    requires Holds(b0, p, s) && |b1| == |b0| && q == p + SkipSpaces(s, 0) && q <= e < p + |s|
    requires StripRight(s, q - p, |s|) == e + 1 - p
    requires SameExcept(b0, b1, e + 1, p + |s|) && NulsIn(b1, e + 1, p + |s|)
    ensures q + |TrimStr(s)| <= p + |s| && Holds(b1, q, TrimStr(s))
    ensures SameExcept(b0, b1, q + |TrimStr(s)|, p + |s|) && NulsIn(b1, q + |TrimStr(s)|, p + |s|)
  {
    HoldsCut(b0, b1, p, s, q, e);
    TrimBetween(s, q - p, e + 1 - p);
    assert |s[q - p .. e + 1 - p]| == e + 1 - q;
  }

  /** The first loop of `trim`: the offset of the first non-space of the C
      string `s` at `p`. */
  method SkipLeading(buf: array<char>, p: nat, ghost s: string) returns (q: nat)
    requires Holds(buf[..], p, s)
    ensures q == p + SkipSpaces(s, 0)
  {
    q := p;
    while IsSpace(buf[q])
      invariant p <= q <= p + |s| && SkipSpaces(s, q - p) == SkipSpaces(s, 0)
      decreases p + |s| - q
    {
      assert buf[q] == s[q - p];
      q := q + 1;
    }
    HoldsEnd(buf[..], p, s, q - p);
    assert q < p + |s| ==> buf[q] == s[q - p];
  }

  /** The first NUL of a C string is its terminator. */
  lemma HoldsEnd(b: seq<char>, q: nat, r: string, n: nat)
    requires Holds(b, q, r) && n <= |r|
    ensures b[q + n] == NUL <==> n == |r|
  {
    assert n < |r| ==> b[q + n] == r[n];
  }

  /** `strlen` of the C string `r` at `q`. */
  method StringLength(buf: array<char>, q: nat, ghost r: string) returns (n: nat)
    requires Holds(buf[..], q, r)
    ensures n == |r|
  {
    n := 0;
    while buf[q + n] != NUL
      invariant n <= |r| && buf[q + n] == buf[..][q + n]
      decreases |r| - n
    {
      HoldsEnd(buf[..], q, r, n);
      n := n + 1;
    }
    HoldsEnd(buf[..], q, r, n);
  }

  /** The loop at the end of `trim`: from the last character of the C string
      `s` at `p` down to just above `q`, NULs go over white space until a
      non-space is met; `e` is where it stops, the end of the trimmed
      string. */
  method ClearTrailing(buf: array<char>, p: nat, q: nat, e0: nat, ghost s: string) returns (e: nat)
    requires p <= q <= e0 && e0 + 1 == p + |s| && Holds(buf[..], p, s) && !IsSpace(s[q - p])
    modifies buf
    ensures q <= e <= e0 && StripRight(s, q - p, |s|) == e + 1 - p
    ensures SameExcept(old(buf[..]), buf[..], e + 1, e0 + 1) && NulsIn(buf[..], e + 1, e0 + 1)
  {
    e := e0;
    while e > q && IsSpace(buf[e])
      invariant q <= e <= e0 && StripRight(s, q - p, |s|) == StripRight(s, q - p, e + 1 - p)
      invariant SameExcept(old(buf[..]), buf[..], e + 1, e0 + 1) && NulsIn(buf[..], e + 1, e0 + 1)
    {
      assert buf[e] == s[e - p];
      buf[e] := NUL;
      e := e - 1;
    }
    assert buf[e] == s[e - p];
  }

  /** After the trailing loop, the characters from `q` to `e` are the C string
      `s`'s and a NUL follows them. */
  lemma HoldsCut(b0: seq<char>, b1: seq<char>, p: nat, s: string, q: nat, e: nat)
    requires Holds(b0, p, s) && |b1| == |b0| && p <= q <= e < p + |s|
    requires SameExcept(b0, b1, e + 1, p + |s|) && NulsIn(b1, e + 1, p + |s|)
    ensures b1[e] == s[e - p]
    ensures Holds(b1, q, s[q - p .. e + 1 - p])
  {
    assert b1[p + |s|] == b0[p + |s|];
    assert b1[e] == b0[e];
    HoldsPart(b1, p, s, q, e + 1);
  }

  /** The trimmed string lies between the first non-space and the end of the
      last one. */
  lemma TrimBetween(s: string, a: nat, b: nat)
    requires a <= b <= |s| && SkipSpaces(s, 0) == a && StripRight(s, a, |s|) == b
    ensures TrimStr(s) == s[a..b]
  {
  }

  /** The part `s[q - p .. e - p]` of the C string `s` at `p` is a C string of
      its own once a NUL follows it. */
  lemma HoldsPart(b: seq<char>, p: nat, s: string, q: nat, e: nat)
    requires p <= q <= e <= p + |s| && e < |b| && b[e] == NUL && NoNul(s)
    requires forall k :: q <= k < e ==> b[k] == s[k - p]
    ensures Holds(b, q, s[q - p .. e - p])
  {
    var r := s[q - p .. e - p];
    forall k | 0 <= k < |r|
      ensures b[q + k] == r[k] && r[k] != NUL
    {
      assert r[k] == s[q - p + k];
    }
  }

  // ---------------------------------------------------------------- split_segments

  /** The C string `s` at `p` is still in `b` from its `i`-th character on,
      terminator included. */
  predicate Unread(b: seq<char>, p: nat, s: string, i: nat) {
    p + |s| < |b| && b[p + |s|] == NUL && forall k :: i <= k < |s| ==> b[p + k] == s[k]
  }

  /** `b1` is `b0` with perhaps some NULs written at offsets in `[lo, hi)`. */
  predicate NulsOver(b0: seq<char>, b1: seq<char>, lo: nat, hi: nat) {
    |b1| == |b0| && forall k :: 0 <= k < |b0| ==> b1[k] == b0[k] || (lo <= k < hi && b1[k] == NUL)
  }

  /** The strings `got` are C strings in `b` at the offsets `at`, in order:
      each starts at `lo` or later and ends, terminator included, before the
      next one starts and before `lim`. */
  predicate Placed(b: seq<char>, at: seq<nat>, got: seq<string>, lo: nat, lim: nat) {
    |at| == |got| &&
    (forall j :: 0 <= j < |at| ==> lo <= at[j] && at[j] + |got[j]| < lim && Holds(b, at[j], got[j])) &&
    (forall j, k :: 0 <= j < k < |at| ==> at[j] + |got[j]| < at[k])
  }

  /** Where the segment that starts at `i` ends: the first `delim` outside
      single and double quotes, or the end of `s`. A double quote toggles
      double quoting unless inside single quotes, and the other way round. */
  function SegEnd(s: string, delim: char, i: nat, inS: bool, inD: bool): (e: nat)
    requires i <= |s|
    ensures i <= e <= |s| && (e < |s| ==> s[e] == delim)
    decreases |s| - i
  {
    if i == |s| then i
    else if !inS && s[i] == '"' then SegEnd(s, delim, i + 1, inS, !inD)
    else if !inD && s[i] == '\'' then SegEnd(s, delim, i + 1, !inS, inD)
    else if !inS && !inD && s[i] == delim then i
    else SegEnd(s, delim, i + 1, inS, inD)
  }

  /** The pieces of the line `s` from offset `i` on, as `split_segments` cuts
      them: each runs up to an unquoted `delim` or the end of the line. A
      `delim` that ends the line opens no further piece. */
  function PiecesFrom(s: string, delim: char, i: nat): seq<string>
    requires i <= |s|
    decreases |s| - i
  {
    var e := SegEnd(s, delim, i, false, false);
    [s[i..e]] + (if e + 1 >= |s| then [] else PiecesFrom(s, delim, e + 1))
  }

  /** The trimmed string `t` as a segment: none if it is empty. */
  function Kept(t: string): seq<string> {
    if t == [] then [] else [t]
  }

  /** The pieces, trimmed, the empty ones dropped. */
  function KeepTrimmed(ps: seq<string>): seq<string> {
    if |ps| == 0 then [] else KeepTrimmed(ps[..|ps| - 1]) + Kept(TrimStr(ps[|ps| - 1]))
  }

  /** The segments `split_segments` returns for the line `s`. */
  function Segments(s: string, delim: char): seq<string> {
    KeepTrimmed(PiecesFrom(s, delim, 0))
  }

  /** The inner loop of `split_segments`: from offset `i` of the C string `s`
      at `p`, the offset of the segment's end. */
  method ScanSegment(buf: array<char>, p: nat, ghost s: string, i: nat, delim: char) returns (e: nat)
    requires i <= |s| && Unread(buf[..], p, s, i) && NoNul(s)
    ensures e == p + SegEnd(s, delim, i, false, false)
  {
    e := p + i;
    var inS, inD := false, false;
    while buf[e] != NUL
      invariant p + i <= e <= p + |s|
      invariant SegEnd(s, delim, e - p, inS, inD) == SegEnd(s, delim, i, false, false)
      decreases p + |s| - e
    {
      var c := buf[e];
      assert c == s[e - p];
      if !inS && c == '"' {
        inD := !inD;
      } else if !inD && c == '\'' {
        inS := !inS;
      } else if !inS && !inD && c == delim {
        break;
      }
      e := e + 1;
    }
    assert e < p + |s| ==> buf[e] == s[e - p];
  }

  /** `split_segments(line, delim, &n)`: the C string at `p` is `s`. Each
      kept segment is a C string in `buf` at one of the returned offsets, in
      order, and they are the segments of `s`; only NULs were written, over
      delimiters and trailing white space. */
  method SplitSegments(buf: array<char>, p: nat, ghost s: string, delim: char) returns (segs: seq<nat>)
    requires Holds(buf[..], p, s) && delim != NUL
    modifies buf
    ensures Placed(buf[..], segs, Segments(s, delim), p, p + |s| + 1)
    ensures NulsOver(old(buf[..]), buf[..], p, p + |s|)
  {
    segs := [];
    ghost var got: seq<string> := [];
    ghost var raw: seq<string> := [];
    var i := 0;
    SplitStart(buf[..], p, s, delim);
    while true
      invariant SplitInv(old(buf[..]), buf[..], p, s, delim, i, segs, got, raw)
      decreases |s| - i
    {
      ghost var b, i0, segs0, got0, raw0 := buf[..], i, segs, got, raw;
      var j, clean, kept, more := SplitRound(buf, p, s, i, delim, old(buf[..]));
      if kept {
        segs := segs + [clean];
      }
      got := got + Kept(TrimStr(s[i..j]));
      raw := raw + [s[i..j]];
      i := j + 1;
      RoundInv(old(buf[..]), b, buf[..], p, s, delim, i0, j, clean, kept, more, segs0, got0, raw0, i, segs, got, raw);
      if !more {
        break;
      }
    }
  }

  /** The state of `split_segments` before the round that starts at offset
      `i` of the C string `s` at `p`: the rest of the line is still in `b`,
      only NULs were written into it since `b0`, the segments `got` kept so
      far are placed below `p + i`, and they are the trimmed pieces `raw` cut
      so far, which with those still to cut make up the line. */
  predicate SplitInv(b0: seq<char>, b: seq<char>, p: nat, s: string, delim: char, i: nat,
                     segs: seq<nat>, got: seq<string>, raw: seq<string>) {
    i <= |s| && Unread(b, p, s, i) && NulsOver(b0, b, p, p + |s|) && Placed(b, segs, got, p, p + i) &&
    raw + PiecesFrom(s, delim, i) == PiecesFrom(s, delim, 0) && got == KeepTrimmed(raw)
  }

  lemma SplitStart(b: seq<char>, p: nat, s: string, delim: char)
    requires Holds(b, p, s)
    ensures SplitInv(b, b, p, s, delim, 0, [], [], [])
  {
    assert [] + PiecesFrom(s, delim, 0) == PiecesFrom(s, delim, 0);
  }

  /** What one round of `split_segments` does to its state: the next round
      starts after the delimiter, or the segments are all placed. */
  lemma RoundInv(b0: seq<char>, b: seq<char>, b1: seq<char>, p: nat, s: string, delim: char, i: nat,
                 j: nat, clean: nat, kept: bool, more: bool, segs: seq<nat>, got: seq<string>, raw: seq<string>,
                 i1: nat, segs1: seq<nat>, got1: seq<string>, raw1: seq<string>)
    requires SplitInv(b0, b, p, s, delim, i, segs, got, raw)
    requires j == SegEnd(s, delim, i, false, false)
    requires Unread(b1, p, s, j + 1) && NulsOver(b0, b1, p, p + |s|)
    requires SameExcept(b, b1, p + i, |b|)
    requires kept <==> TrimStr(s[i..j]) != []
    requires kept ==> p + i <= clean && clean + |TrimStr(s[i..j])| < p + j + 1 && Holds(b1, clean, TrimStr(s[i..j]))
    requires more <==> j + 1 < |s|
    requires i1 == j + 1 && segs1 == (if kept then segs + [clean] else segs)
    requires got1 == got + Kept(TrimStr(s[i..j])) && raw1 == raw + [s[i..j]]
    ensures more ==> i < i1 && SplitInv(b0, b1, p, s, delim, i1, segs1, got1, raw1)
    ensures !more ==> Placed(b1, segs1, Segments(s, delim), p, p + |s| + 1)
    ensures !more ==> NulsOver(b0, b1, p, p + |s|)
  {
    PiecesAdvance(s, delim, i, j, raw, got, i1, raw1, got1);
    PlacedStep(b, b1, segs, got, p, i, j, clean, TrimStr(s[i..j]), kept, i1, segs1, got1);
    if !more {
      PlacedWiden(b1, segs1, got1, p, p + i1, p + |s| + 1);
    }
  }

  /** One round of the loop of `split_segments`, on the segment that starts at
      offset `i` of the C string `s` at `p` (`b0` is the buffer before the
      first round): the segment ends at `j`, where a delimiter becomes a NUL;
      `trim` leaves `clean`, kept when not empty; `more` says whether the
      line goes on after the delimiter. */
  method SplitRound(buf: array<char>, p: nat, ghost s: string, i: nat, delim: char, ghost b0: seq<char>)
    returns (j: nat, clean: nat, kept: bool, more: bool)
    requires i <= |s| && Holds(b0, p, s) && delim != NUL
    requires Unread(buf[..], p, s, i) && NulsOver(b0, buf[..], p, p + |s|)
    modifies buf
    ensures j == SegEnd(s, delim, i, false, false)
    ensures Unread(buf[..], p, s, j + 1) && NulsOver(b0, buf[..], p, p + |s|)
    ensures SameExcept(old(buf[..]), buf[..], p + i, |old(buf[..])|)
    ensures kept <==> TrimStr(s[i..j]) != []
    ensures kept ==> p + i <= clean && clean + |TrimStr(s[i..j])| < p + j + 1 && Holds(buf[..], clean, TrimStr(s[i..j]))
    ensures more <==> j + 1 < |s|
  {
    ghost var b1 := buf[..];
    var atDelim;
    j, atDelim := CutSegment(buf, p, s, i, delim);
    ghost var b2 := buf[..];
    SegmentHolds(b1, b2, p, s, i, j);
    clean := Trim(buf, p + i, s[i..j]);
    ghost var t := TrimStr(s[i..j]);
    SplitStep(b0, b1, b2, buf[..], p, s, i, j, clean + |t|);
    var empty := IsEmptyAt(buf, clean, t);
    kept := !empty;
    more := LineGoesOn(buf, p, s, j, atDelim);
  }

  /** `*clean` is NUL just when the C string at `q` is empty. */
  method IsEmptyAt(buf: array<char>, q: nat, ghost r: string) returns (empty: bool)
    requires Holds(buf[..], q, r)
    ensures empty <==> r == []
  {
    HoldsEnd(buf[..], q, r, 0);
    empty := buf[q] == NUL;
  }

  /** The test that ends the loop of `split_segments`: the line goes on after
      the segment that ended at `j` when that was a delimiter and does not
      end the line. */
  method LineGoesOn(buf: array<char>, p: nat, ghost s: string, j: nat, atDelim: bool) returns (more: bool)
    requires j <= |s| && (atDelim <==> j < |s|) && Unread(buf[..], p, s, j + 1) && NoNul(s)
    ensures more <==> j + 1 < |s|
  {
    if atDelim {
      UnreadAt(buf[..], p, s, j + 1, j + 1);
      more := buf[p + j + 1] != NUL;
    } else {
      more := false;
    }
  }

  /** The segment from `i` of the C string `s` at `p` ends at `j`; a delimiter
      there becomes a NUL. */
  method CutSegment(buf: array<char>, p: nat, ghost s: string, i: nat, delim: char) returns (j: nat, atDelim: bool)
    requires i <= |s| && Unread(buf[..], p, s, i) && NoNul(s) && delim != NUL
    modifies buf
    ensures j == SegEnd(s, delim, i, false, false)
    ensures atDelim <==> j < |s|
    ensures SameExcept(old(buf[..]), buf[..], p + j, p + j + 1) && buf[p + j] == NUL
  {
    var e := ScanSegment(buf, p, s, i, delim);
    j := e - p;
    UnreadAt(buf[..], p, s, i, j);
    atDelim := buf[e] == delim;
    if atDelim {
      buf[e] := NUL;
    }
  }

  /** In what is left of the C string `s`, the first NUL is its terminator. */
  lemma UnreadAt(b: seq<char>, p: nat, s: string, i: nat, k: nat)
    requires i <= k <= |s| && Unread(b, p, s, i) && NoNul(s)
    ensures p + k < |b| && (b[p + k] == NUL <==> k == |s|)
    ensures k < |s| ==> b[p + k] == s[k]
  {
    if k < |s| {
      assert b[p + k] == s[k] && s[k] != NUL;
    }
  }

  /** One round consumes the piece `s[i..j]`: appended to the pieces `raw`
      already cut, it leaves those after `j` to cut, or none, and adds its
      trimmed self to the segments kept, if not empty. */
  lemma PiecesAdvance(s: string, delim: char, i: nat, j: nat, raw: seq<string>, got: seq<string>,
                      i1: nat, raw1: seq<string>, got1: seq<string>)
    requires i <= |s| && j == SegEnd(s, delim, i, false, false)
    requires raw + PiecesFrom(s, delim, i) == PiecesFrom(s, delim, 0) && got == KeepTrimmed(raw)
    requires i1 == j + 1 && raw1 == raw + [s[i..j]] && got1 == got + Kept(TrimStr(s[i..j]))
    ensures got1 == KeepTrimmed(raw1)
    ensures i1 < |s| ==> raw1 + PiecesFrom(s, delim, i1) == PiecesFrom(s, delim, 0)
    ensures i1 >= |s| ==> got1 == Segments(s, delim)
  {
    var rest: seq<string>;
    if j + 1 >= |s| {
      rest := [];
      PiecesLastOne(s, delim, i, j);
    } else {
      rest := PiecesFrom(s, delim, j + 1);
      PiecesCons(s, delim, i, j);
    }
    AppendAssoc(raw, [s[i..j]], rest);
    KeepSnoc(raw, s[i..j]);
    if j + 1 >= |s| {
      assert raw1 + rest == raw1;
      SegmentsDone(s, delim, raw1, got1);
    }
  }

  /** Once every piece is cut, the kept ones are the segments. */
  lemma SegmentsDone(s: string, delim: char, raw: seq<string>, got: seq<string>)
    requires raw == PiecesFrom(s, delim, 0) && got == KeepTrimmed(raw)
    ensures got == Segments(s, delim)
  {
  }

  lemma AppendAssoc<T>(a: seq<T>, b: seq<T>, c: seq<T>)
    ensures (a + b) + c == a + (b + c)
  {
  }

  /** One more piece adds its trimmed self, if not empty. */
  lemma KeepSnoc(ps: seq<string>, x: string)
    ensures KeepTrimmed(ps + [x]) == KeepTrimmed(ps) + Kept(TrimStr(x))
  {
    assert (ps + [x])[..|ps|] == ps;
  }

  /** The segment `s[i..j]`, once a NUL is at `j`, is a C string of its own. */
  lemma SegmentHolds(b1: seq<char>, b2: seq<char>, p: nat, s: string, i: nat, j: nat)
    requires i <= j <= |s| && Unread(b1, p, s, i) && NoNul(s)
    requires SameExcept(b1, b2, p + j, p + j + 1) && b2[p + j] == NUL
    ensures Holds(b2, p + i, s[i..j])
  {
    HoldsPart(b2, p, s, p + i, p + j);
  }

  /** One round of `split_segments`: from `b1` a NUL at `j` gives `b2`, and
      `trim` of the segment gives `b3`, whose changes end before `j`. */
  lemma SplitStep(b0: seq<char>, b1: seq<char>, b2: seq<char>, b3: seq<char>, p: nat, s: string, i: nat, j: nat, lo3: nat)
    requires i <= j <= |s| && Holds(b0, p, s) && Unread(b1, p, s, i) && NulsOver(b0, b1, p, p + |s|)
    requires SameExcept(b1, b2, p + j, p + j + 1) && b2[p + j] == NUL
    requires p + i <= lo3 && SameExcept(b2, b3, lo3, p + j) && NulsIn(b3, lo3, p + j)
    ensures SameExcept(b1, b3, p + i, |b1|)
    ensures Unread(b3, p, s, j + 1) && NulsOver(b0, b3, p, p + |s|)
  {
    assert b0[p + |s|] == NUL;
  }

  /** Placed strings stay placed when nothing changes below `lim`. */
  lemma PlacedFrame(b0: seq<char>, b1: seq<char>, at: seq<nat>, got: seq<string>, lo: nat, lim: nat)
    requires Placed(b0, at, got, lo, lim) && SameExcept(b0, b1, lim, |b0|)
    ensures Placed(b1, at, got, lo, lim)
  {
    forall j | 0 <= j < |at|
      ensures Holds(b1, at[j], got[j])
    {
      HoldsFrame(b0, b1, at[j], got[j]);
    }
  }

  /** One round of `split_segments` keeps the strings placed so far, which lie
      below `p + i` where nothing changed, and places the trimmed segment `t`
      at `clean` after them when it is kept. */
  lemma PlacedStep(b0: seq<char>, b1: seq<char>, segs: seq<nat>, got: seq<string>, p: nat, i: nat, j: nat,
                    clean: nat, t: string, kept: bool, i1: nat, segs1: seq<nat>, got1: seq<string>)
    requires i <= j && Placed(b0, segs, got, p, p + i) && SameExcept(b0, b1, p + i, |b0|)
    requires kept <==> t != []
    requires kept ==> p + i <= clean && clean + |t| < p + j + 1 && Holds(b1, clean, t)
    requires i1 == j + 1 && segs1 == (if kept then segs + [clean] else segs) && got1 == got + Kept(t)
    ensures Placed(b1, segs1, got1, p, p + i1)
  {
    PlacedFrame(b0, b1, segs, got, p, p + i);
    if kept {
      PlacedSnoc(b1, segs, got, p, p + i, clean, t, p + j + 1);
    } else {
      assert got1 == got;
      PlacedWiden(b1, segs, got, p, p + i, p + j + 1);
    }
  }

  /** One more placed string, after the others. */
  lemma PlacedSnoc(b: seq<char>, at: seq<nat>, got: seq<string>, lo: nat, lim: nat, q: nat, t: string, lim2: nat)
    requires Placed(b, at, got, lo, lim) && lo <= lim <= q && q + |t| < lim2 && Holds(b, q, t)
    ensures Placed(b, at + [q], got + [t], lo, lim2)
  {
  }

  lemma PlacedWiden(b: seq<char>, at: seq<nat>, got: seq<string>, lo: nat, lim: nat, lim2: nat)
    requires Placed(b, at, got, lo, lim) && lim <= lim2
    ensures Placed(b, at, got, lo, lim2)
  {
  }

  // ---------------------------------------------------------------- properties of the segments

  /** Every kept segment is non-empty and has no white space at either end. */
  lemma {:induction false} KeepTrimmedShape(ps: seq<string>)
    ensures forall k :: 0 <= k < |KeepTrimmed(ps)| ==> KeepTrimmed(ps)[k] != [] && Trimmed(KeepTrimmed(ps)[k])
  {
    if |ps| > 0 {
      KeepTrimmedShape(ps[..|ps| - 1]);
      TrimShape(ps[|ps| - 1]);
    }
  }

  lemma SegmentsTrimmed(s: string, delim: char)
    ensures forall k :: 0 <= k < |Segments(s, delim)| ==> Segments(s, delim)[k] != [] && Trimmed(Segments(s, delim)[k])
  {
    KeepTrimmedShape(PiecesFrom(s, delim, 0));
  }

  /** Without a delimiter there is no cut: the segment ends with the line. */
  lemma {:induction false} SegEndNoDelim(s: string, delim: char, i: nat, inS: bool, inD: bool)
    requires i <= |s| && forall k :: i <= k < |s| ==> s[k] != delim
    ensures SegEnd(s, delim, i, inS, inD) == |s|
    decreases |s| - i
  {
    if i < |s| {
      SegEndNoDelim(s, delim, i + 1, inS, !inD);
      SegEndNoDelim(s, delim, i + 1, !inS, inD);
      SegEndNoDelim(s, delim, i + 1, inS, inD);
    }
  }

  /** A line without the delimiter is one segment: the line trimmed, or none
      when it is blank. */
  lemma NoDelimOneSegment(s: string, delim: char)
    requires forall k :: 0 <= k < |s| ==> s[k] != delim
    ensures Segments(s, delim) == Kept(TrimStr(s))
  {
    SegEndNoDelim(s, delim, 0, false, false);
    assert PiecesFrom(s, delim, 0) == [s[0..|s|]];
    assert s[0..|s|] == s;
    KeepSnoc([], s);
    assert [] + [s] == [s];
  }

  /** The pieces put back together with the delimiter between them. */
  function Join(ps: seq<string>, delim: char): string {
    if |ps| == 0 then [] else if |ps| == 1 then ps[0] else ps[0] + [delim] + Join(ps[1..], delim)
  }

  /** `t` is the pieces joined with the delimiter, perhaps with one more
      delimiter at the end. */
  predicate JoinsBack(t: string, ps: seq<string>, delim: char) {
    t == Join(ps, delim) || t == Join(ps, delim) + [delim]
  }

  /** The pieces are the line cut at delimiters and nothing else: joined with
      the delimiter they give back the line from `i`, less a delimiter that
      ends it. */
  lemma {:induction false} JoinPieces(s: string, delim: char, i: nat)
    requires i <= |s|
    ensures JoinsBack(s[i..], PiecesFrom(s, delim, i), delim)
    decreases |s| - i
  {
    var e := SegEnd(s, delim, i, false, false);
    if e + 1 >= |s| {
      JoinLast(s, delim, i, e, PiecesFrom(s, delim, i));
    } else {
      JoinPieces(s, delim, e + 1);
      PiecesCons(s, delim, i, e);
      JoinMore(s, delim, i, e, PiecesFrom(s, delim, i), PiecesFrom(s, delim, e + 1));
    }
  }

  lemma JoinLast(s: string, delim: char, i: nat, e: nat, ps: seq<string>)
    requires i <= |s| && e == SegEnd(s, delim, i, false, false) && e + 1 >= |s|
    requires ps == PiecesFrom(s, delim, i)
    ensures JoinsBack(s[i..], ps, delim)
  {
    PiecesLastOne(s, delim, i, e);
    assert Join(ps, delim) == s[i..e];
    if e == |s| {
      assert s[i..e] == s[i..];
    } else {
      assert s[i..e] + [delim] == s[i..];
    }
  }

  lemma JoinMore(s: string, delim: char, i: nat, e: nat, ps: seq<string>, rest: seq<string>)
    requires i <= e && e + 1 < |s| && s[e] == delim
    requires ps == [s[i..e]] + rest && |rest| > 0 && JoinsBack(s[e + 1..], rest, delim)
    ensures JoinsBack(s[i..], ps, delim)
  {
    JoinCons(s[i..e], rest, delim, ps);
    CutAt(s, delim, i, e);
    JoinStep(s[i..e] + [delim], s[e + 1..], Join(rest, delim), delim);
  }

  lemma CutAt(s: string, delim: char, i: nat, e: nat)
    requires i <= e < |s| && s[e] == delim
    ensures s[i..] == (s[i..e] + [delim]) + s[e + 1..]
  {
    assert s[i..] == s[i..e] + s[e..];
    assert s[e..] == [delim] + s[e + 1..];
  }

  lemma JoinStep(x: string, tail: string, j: string, delim: char)
    requires tail == j || tail == j + [delim]
    ensures x + tail == x + j || x + tail == (x + j) + [delim]
  {
    if tail != j {
      AppendAssoc(x, j, [delim]);
    }
  }

  lemma PiecesCons(s: string, delim: char, i: nat, e: nat)
    requires i <= |s| && e == SegEnd(s, delim, i, false, false) && e + 1 < |s|
    ensures PiecesFrom(s, delim, i) == [s[i..e]] + PiecesFrom(s, delim, e + 1)
    ensures |PiecesFrom(s, delim, e + 1)| > 0
  {
  }

  lemma PiecesLastOne(s: string, delim: char, i: nat, e: nat)
    requires i <= |s| && e == SegEnd(s, delim, i, false, false) && e + 1 >= |s|
    ensures PiecesFrom(s, delim, i) == [s[i..e]]
  {
  }

  lemma JoinCons(x: string, rest: seq<string>, delim: char, ps: seq<string>)
    requires ps == [x] + rest && |rest| > 0
    ensures Join(ps, delim) == x + [delim] + Join(rest, delim)
  {
    assert ps[0] == x && ps[1..] == rest;
  }

  /** A string with no white space at either end is its own trim. */
  lemma TrimmedFixed(m: string)
    requires Trimmed(m)
    ensures TrimStr(m) == m
  {
    var e: string := [];
    TrimUnique(e, m, e);
    assert e + m + e == m;
  }

  /** A delimiter inside quotes does not cut, and the quotes stay. */
  lemma SegmentsExample()
    ensures Segments("a|'|'", '|') == ["a", "'|'"]
  {
    var s := "a|'|'";
    assert SegEnd(s, '|', 0, false, false) == 1;
    assert SegEnd(s, '|', 2, false, false) == 5;
    assert s[2..5] == "'|'" && s[0..1] == "a";
    PiecesLastOne(s, '|', 2, 5);
    PiecesCons(s, '|', 0, 1);
    assert PiecesFrom(s, '|', 0) == ["a", "'|'"];
    TrimmedFixed("a");
    TrimmedFixed("'|'");
    KeepSnoc([], "a");
    KeepSnoc(["a"], "'|'");
  }

  // ---------------------------------------------------------------- expand_tilde

  /** The directory `~` stands for: `$HOME`, or `/` when it is unset or empty. */
  function HomeDir(home: Option<string>): (h: string)
    ensures h != []
    ensures home.Some? && home.value != [] ==> h == home.value
    ensures home.None? || home.value == [] ==> h == "/"
  {
    if home.Some? && home.value != [] then home.value else "/"
  }

  /** `arg` is `~` alone or starts with `~/`: the forms `expand_tilde` expands.
      `~user` is not one of them. */
  predicate TildeForm(arg: string) {
    |arg| > 0 && arg[0] == '~' && (|arg| == 1 || arg[1] == '/')
  }

  /** `expand_tilde`: the home directory in place of the leading `~` (the
      `/` and what follows it are copied after it), or a copy of `arg` when
      it is not of that form. `home` is the value of `$HOME`. */
  function ExpandTilde(arg: string, home: Option<string>): (r: string)
    ensures !TildeForm(arg) ==> r == arg
    ensures TildeForm(arg) ==> |r| == |HomeDir(home)| + |arg| - 1
  {
    if |arg| == 0 || arg[0] != '~' then arg
    else if |arg| > 1 && arg[1] != '/' then arg
    else
      var rest := if |arg| > 1 then arg[1..] else "";
      HomeDir(home) + rest
  }

  /** The expansion starts with the home directory, and putting the `~` back
      in its place gives the argument again. */
  lemma ExpandTildeInverse(arg: string, home: Option<string>)
    requires TildeForm(arg)
    ensures ExpandTilde(arg, home)[..|HomeDir(home)|] == HomeDir(home)
    ensures "~" + ExpandTilde(arg, home)[|HomeDir(home)|..] == arg
  {
    var h := HomeDir(home);
    var r := ExpandTilde(arg, home);
    assert r == h + arg[1..];
    assert r[|h|..] == arg[1..];
  }

  /** Expanding twice is expanding once, unless the home directory itself
      starts with `~`. */
  lemma ExpandTildeIdempotent(arg: string, home: Option<string>)
    requires HomeDir(home)[0] != '~'
    ensures ExpandTilde(ExpandTilde(arg, home), home) == ExpandTilde(arg, home)
  {
    if TildeForm(arg) {
      var r := ExpandTilde(arg, home);
      assert r[0] == HomeDir(home)[0];
    }
  }

  /** With no usable `$HOME`, `~` is `/` and `~/x` is `//x`; `~user` and the
      empty argument are left alone. */
  lemma ExpandTildeExamples()
    ensures ExpandTilde("~", None) == "/"
    ensures ExpandTilde("~", Some("")) == "/"
    ensures ExpandTilde("~/x", None) == "//x"
    ensures ExpandTilde("~/x", Some("/home/u")) == "/home/u/x"
    ensures ExpandTilde("~user", Some("/home/u")) == "~user"
    ensures ExpandTilde("", Some("/home/u")) == ""
    ensures ExpandTilde("a~", Some("/home/u")) == "a~"
  {
    assert "~/x"[1..] == "/x";
  }

  // ---------------------------------------------------------------- is_builtin

  /** The sign of `strcmp(a, b)` on two C strings: the first differing
      character decides, and a string that ends first is the smaller. */
  function StrCmp(a: string, b: string): (r: int)
    ensures -1 <= r <= 1
  {
    if a == [] && b == [] then 0
    else if a == [] then -1
    else if b == [] then 1
    else if a[0] < b[0] then -1
    else if a[0] > b[0] then 1
    else StrCmp(a[1..], b[1..])
  }

  /** `strcmp` is zero exactly on equal strings. */
  lemma {:induction false} StrCmpZero(a: string, b: string)
    ensures StrCmp(a, b) == 0 <==> a == b
  {
    if a != [] && b != [] && a[0] == b[0] {
      StrCmpZero(a[1..], b[1..]);
      if a[1..] == b[1..] {
        assert a == [a[0]] + a[1..] && b == [b[0]] + b[1..];
      }
    }
  }

  /** Swapping the operands of `strcmp` flips the sign. */
  lemma {:induction false} StrCmpAntisymmetric(a: string, b: string)
    ensures StrCmp(b, a) == -StrCmp(a, b)
  {
    if a != [] && b != [] && a[0] == b[0] {
      StrCmpAntisymmetric(a[1..], b[1..]);
    }
  }

  /** `is_builtin`: a command is run by the shell itself when it is present
      and `strcmp` finds it equal to `exit`, `cd` or `pwd`. */
  predicate IsBuiltin(cmd: Option<string>) {
    cmd.Some? && (StrCmp(cmd.value, "exit") == 0 || StrCmp(cmd.value, "cd") == 0 || StrCmp(cmd.value, "pwd") == 0)
  }

  /** The built-ins are exactly these three names. */
  lemma IsBuiltinExactly(cmd: Option<string>)
    ensures IsBuiltin(cmd) <==> cmd == Some("exit") || cmd == Some("cd") || cmd == Some("pwd")
  {
    if cmd.Some? {
      StrCmpZero(cmd.value, "exit");
      StrCmpZero(cmd.value, "cd");
      StrCmpZero(cmd.value, "pwd");
    }
  }
}
