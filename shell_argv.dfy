/** The second half of the parser of Lesson_4/lesson4_myshell.c: `parse_argv`
    cuts a segment into words in place, `extract_redirs` takes the
    redirections out of an argument vector, and the input loop puts the
    pieces together. Buffers and C strings are as in module Shell. */
module ShellArgv {
  import opened Common
  import opened Shell

  // ---------------------------------------------------------------- the words of a segment

  /** Where the word scanned from `i` ends: just after the first white space
      character outside quotes, or at the end of the line. A single quote
      switches single quoting unless inside double quotes, and a double quote
      switches double quoting unless inside single quotes. */
  function WordEnd(s: string, i: nat, inS: bool, inD: bool): (e: nat)
    requires i <= |s|
    ensures i <= e <= |s| && (i < |s| ==> i < e)
    decreases |s| - i
  {
    if i == |s| then i
    else if s[i] == '\'' && !inD then WordEnd(s, i + 1, !inS, inD)
    else if s[i] == '"' && !inS then WordEnd(s, i + 1, inS, !inD)
    else if !inS && !inD && IsSpace(s[i]) then i + 1
    else WordEnd(s, i + 1, inS, inD)
  }

  /** The characters of the word scanned from `i`: those scanned less the
      quote characters that switched quoting. They are never more than were
      scanned, and fewer when the word ended at a white space character. */
  function WordChars(s: string, i: nat, inS: bool, inD: bool): (w: string)
    requires i <= |s|
    ensures i + |w| <= WordEnd(s, i, inS, inD)
    ensures WordEnd(s, i, inS, inD) < |s| ==> i + |w| < WordEnd(s, i, inS, inD)
    ensures NoNul(s) ==> NoNul(w)
    decreases |s| - i
  {
    if i == |s| then []
    else if s[i] == '\'' && !inD then WordChars(s, i + 1, !inS, inD)
    else if s[i] == '"' && !inS then WordChars(s, i + 1, inS, !inD)
    else if !inS && !inD && IsSpace(s[i]) then []
    else [s[i]] + WordChars(s, i + 1, inS, inD)
  }

  /** The words of the line from offset `i` on, as `parse_argv` finds them:
      white space is skipped, then a word is scanned, until the line ends. */
  function WordsFrom(s: string, i: nat): seq<string>
    requires i <= |s|
    decreases |s| - i
  {
    var k := SkipSpaces(s, i);
    if k == |s| then [] else [WordChars(s, k, false, false)] + WordsFrom(s, WordEnd(s, k, false, false))
  }

  function Words(s: string): seq<string> {
    WordsFrom(s, 0)
  }

  // ---------------------------------------------------------------- the argv table

  /** The number of entries `argv` has room for once `n` words are in it:
      8 at first, doubled when a word arrives at a full table. */
  function CapAfter(n: nat): (c: nat)
    ensures c >= 8
  {
    if n == 0 then 8
    else
      var c := CapAfter(n - 1);
      if n - 1 == c then 2 * c else c
  }

  /** The table always has room for the words in it. */
  lemma {:induction false} CapAfterRoom(n: nat)
    ensures n <= CapAfter(n)
  {
    if n > 0 {
      CapAfterRoom(n - 1);
    }
  }

  /** The entries `0 .. n - 1` of a table, which are all pointers. */
  function Targets(argv: seq<Option<nat>>, n: nat): (at: seq<nat>)
    requires n <= |argv| && forall k :: 0 <= k < n ==> argv[k].Some?
    ensures |at| == n && forall k :: 0 <= k < n ==> argv[k] == Some(at[k])
  {
    seq(n, k requires 0 <= k < n => argv[k].value)
  }

  /** `argv` is a NULL-terminated table of pointers to the C strings `ws` in
      `b`: its entry `k` points at `ws[k]` and the entry after the last word
      is NULL; the strings lie in `[lo, lim)`, in order, apart. */
  predicate ArgvHolds(b: seq<char>, argv: seq<Option<nat>>, ws: seq<string>, lo: nat, lim: nat) {
    |ws| < |argv| && argv[|ws|] == None &&
    (forall k :: 0 <= k < |ws| ==> argv[k].Some?) &&
    Placed(b, Targets(argv, |ws|), ws, lo, lim)
  }

  // ---------------------------------------------------------------- parse_argv

  /** How far the strings already placed may reach while the line is read
      from `i`: up to `i`, or past the end of the line once it is all read. */
  function Lim(p: nat, s: string, i: nat): nat {
    if i < |s| then p + i else p + |s| + 1
  }

  /** The invariant of the loop of `parse_argv`: the line from `i` on is
      unread, the words `ws` before it are in place at `at` and in the
      table, and the words still to come follow them. */
  predicate ArgvInv(b0: seq<char>, b: seq<char>, p: nat, s: string, i: nat,
                    argv: seq<Option<nat>>, at: seq<nat>, ws: seq<string>)
  {
    i <= |s| && NoNul(s) && Unread(b, p, s, i) && SameExcept(b0, b, p, p + |s| + 1) &&
    |at| == |ws| <= |argv| && |argv| == CapAfter(|ws|) &&
    (forall k :: 0 <= k < |ws| ==> argv[k] == Some(at[k])) &&
    Placed(b, at, ws, p, Lim(p, s, i)) &&
    ws + WordsFrom(s, i) == Words(s)
  }

  /** `parse_argv` on the C string `s` at `p`, with the argument table grown
      before the NULL terminator is written when it is full (the code as
      written does not; see `CapAfter` and `EightWordsOverrun`). The table
      holds the words of `s`; each is a C string in the buffer, its quote
      characters removed; the buffer changes only inside the string. */
  method ParseArgv(buf: array<char>, p: nat, ghost s: string) returns (argv: seq<Option<nat>>)
    requires Holds(buf[..], p, s)
    modifies buf
    ensures ArgvHolds(buf[..], argv, Words(s), p, p + |s| + 1)
    ensures SameExcept(old(buf[..]), buf[..], p, p + |s| + 1)
    ensures |argv| == (if CapAfter(|Words(s)|) == |Words(s)| then 2 * |Words(s)| else CapAfter(|Words(s)|))
  {
    argv := seq(8, _ => None);
    var argc: nat := 0;
    ghost var at: seq<nat> := [];
    ghost var ws: seq<string> := [];
    var i: nat := 0;
    ArgvStart(buf[..], p, s, argv);
    while true
      invariant ArgvInv(old(buf[..]), buf[..], p, s, i, argv, at, ws) && argc == |ws|
      decreases |s| - i
    {
      var end := IsEndAt(buf, p, s, i);
      if end {
        ArgvNoMore(s, i);
        break;
      }
      var k := SkipBlank(buf, p, s, i);
      end := IsEndAt(buf, p, s, k);
      if end {
        ArgvNoMore(s, i);
        break;
      }
      ghost var b := buf[..];
      var next := CopyWord(buf, p, s, k);
      ghost var i0, argv0, at0, ws0 := i, argv, at, ws;
      argv := Store(argv, argc, Some(p + k));
      argc := argc + 1;
      at := at + [p + k];
      ws := ws + [WordChars(s, k, false, false)];
      i := next;
      ArgvStep(old(buf[..]), b, buf[..], p, s, i0, k, argv0, at0, ws0, i, argv, at, ws);
    }
    ghost var argv0 := argv;
    argv := Store(argv, argc, None);
    ArgvDone(old(buf[..]), buf[..], p, s, i, argv0, at, ws, argv);
  }

  /** `argv[argc] = x` after doubling a full table with `realloc`: the first
      `argc` entries are kept and entry `argc` is `x`. */
  method Store(argv: seq<Option<nat>>, argc: nat, x: Option<nat>) returns (t: seq<Option<nat>>)
    requires 0 < |argv| && argc <= |argv|
    ensures |t| == (if argc == |argv| then 2 * |argv| else |argv|)
    ensures forall j :: 0 <= j < argc ==> t[j] == argv[j]
    ensures argc < |t| && t[argc] == x
  {
    t := argv;
    if argc == |t| {
      t := t + seq(|t|, _ => None);
    }
    t := t[argc := x];
  }

  /** `*p == '\0'`: the line is all read. */
  method IsEndAt(buf: array<char>, p: nat, ghost s: string, i: nat) returns (end: bool)
    requires i <= |s| && Unread(buf[..], p, s, i) && NoNul(s)
    ensures end <==> i == |s|
  {
    UnreadAt(buf[..], p, s, i, i);
    end := buf[p + i] == NUL;
  }

  /** The loop that skips white space before a word. */
  method SkipBlank(buf: array<char>, p: nat, ghost s: string, i: nat) returns (k: nat)
    requires i <= |s| && Unread(buf[..], p, s, i) && NoNul(s)
    ensures k == SkipSpaces(s, i) && Unread(buf[..], p, s, k)
  {
    k := i;
    UnreadAt(buf[..], p, s, i, k);
    while IsSpace(buf[p + k])
      invariant i <= k <= |s| && Unread(buf[..], p, s, k)
      invariant p + k < buf.Length && (buf[p + k] == NUL <==> k == |s|) && (k < |s| ==> buf[p + k] == s[k])
      invariant SkipSpaces(s, i) == SkipSpaces(s, k)
      decreases |s| - k
    {
      SkipOne(s, i, k);
      k := k + 1;
      UnreadAt(buf[..], p, s, k - 1, k);
    }
  }

  lemma SkipOne(s: string, i: nat, k: nat)
    requires i <= k < |s| && IsSpace(s[k]) && SkipSpaces(s, i) == SkipSpaces(s, k)
    ensures SkipSpaces(s, i) == SkipSpaces(s, k + 1)
  {
  }

  /** The inner loop of `parse_argv` and the NUL after it: the word from `k`
      is copied down over itself with `w` behind the read position `r`,
      dropping the quote characters that switch quoting. */
  method CopyWord(buf: array<char>, p: nat, ghost s: string, k: nat) returns (next: nat)
    requires k < |s| && Unread(buf[..], p, s, k) && NoNul(s)
    modifies buf
    ensures next == WordEnd(s, k, false, false)
    ensures Holds(buf[..], p + k, WordChars(s, k, false, false))
    ensures Unread(buf[..], p, s, next)
    ensures SameExcept(old(buf[..]), buf[..], p + k, p + |s| + 1)
  {
    var r: nat, w: nat := k, k;
    var inS, inD := false, false;
    ghost var got: string := [];
    CopyStart(buf[..], p, s, k);
    while true
      invariant CopyInv(old(buf[..]), buf[..], p, s, k, r, w, inS, inD, got)
      decreases |s| - r
    {
      var end := IsEndAt(buf, p, s, r);
      if end {
        CopyEnd(old(buf[..]), buf[..], p, s, k, r, w, inS, inD, got);
        break;
      }
      UnreadAt(buf[..], p, s, r, r);
      var c := buf[p + r];
      ghost var r0, inS0, inD0 := r, inS, inD;
      r := r + 1;
      if c == '\'' && !inD {
        inS := !inS;
        CopySingle(old(buf[..]), buf[..], p, s, k, r0, w, inS0, inD0, got, r, inS);
        continue;
      }
      if c == '"' && !inS {
        inD := !inD;
        CopyDouble(old(buf[..]), buf[..], p, s, k, r0, w, inS0, inD0, got, r, inD);
        continue;
      }
      if !inS && !inD && IsSpace(c) {
        CopyBreak(old(buf[..]), buf[..], p, s, k, r0, w, inS, inD, got, r);
        break;
      }
      ghost var b := buf[..];
      buf[p + w] := c;
      ghost var w0, got0 := w, got;
      w := w + 1;
      got := got + [c];
      CopyChar(old(buf[..]), b, buf[..], p, s, k, r0, w0, inS, inD, got0, r, w, got);
    }
    ghost var b := buf[..];
    buf[p + w] := NUL;
    next := r;
    CopyFinish(old(buf[..]), b, buf[..], p, s, k, r, w, got);
  }

  // ---------------------------------------------------------------- proof of CopyWord

  /** The invariant of the copying loop: `got`, the characters kept so far,
      lies at `k` in front of the write position `w`, which is not ahead of
      the read position `r`; the rest of the word is what the scan from `r`
      keeps, in the current quoting state. */
  predicate CopyInv(b0: seq<char>, b: seq<char>, p: nat, s: string, k: nat, r: nat, w: nat,
                    inS: bool, inD: bool, got: string)
  {
    k <= w <= r <= |s| && NoNul(s) && Unread(b, p, s, r) && |got| == w - k &&
    (forall j :: 0 <= j < |got| ==> b[p + k + j] == got[j]) &&
    SameExcept(b0, b, p + k, p + w) &&
    got + WordChars(s, r, inS, inD) == WordChars(s, k, false, false) &&
    WordEnd(s, r, inS, inD) == WordEnd(s, k, false, false)
  }

  /** The loop is over: `got` is the whole word and `r` is where the word
      ends; the write position is behind `r` unless the line is all read. */
  predicate CopyDone(b0: seq<char>, b: seq<char>, p: nat, s: string, k: nat, r: nat, w: nat, got: string) {
    k <= w <= r <= |s| && NoNul(s) && Unread(b, p, s, r) && |got| == w - k &&
    (forall j :: 0 <= j < |got| ==> b[p + k + j] == got[j]) &&
    SameExcept(b0, b, p + k, p + w) &&
    got == WordChars(s, k, false, false) && r == WordEnd(s, k, false, false) &&
    (r < |s| ==> w < r)
  }

  lemma CopyStart(b: seq<char>, p: nat, s: string, k: nat)
    requires k < |s| && Unread(b, p, s, k) && NoNul(s)
    ensures CopyInv(b, b, p, s, k, k, k, false, false, [])
  {
  }

  lemma CopyEnd(b0: seq<char>, b: seq<char>, p: nat, s: string, k: nat, r: nat, w: nat,
                inS: bool, inD: bool, got: string)
    requires CopyInv(b0, b, p, s, k, r, w, inS, inD, got) && r == |s|
    ensures CopyDone(b0, b, p, s, k, r, w, got)
  {
    assert WordChars(s, r, inS, inD) == [];
    assert got + [] == got;
  }

  lemma CopySingle(b0: seq<char>, b: seq<char>, p: nat, s: string, k: nat, r: nat, w: nat,
                   inS: bool, inD: bool, got: string, r1: nat, inS1: bool)
    requires CopyInv(b0, b, p, s, k, r, w, inS, inD, got) && r < |s|
    requires s[r] == '\'' && !inD && r1 == r + 1 && inS1 == !inS
    ensures CopyInv(b0, b, p, s, k, r1, w, inS1, inD, got)
  {
  }

  lemma CopyDouble(b0: seq<char>, b: seq<char>, p: nat, s: string, k: nat, r: nat, w: nat,
                   inS: bool, inD: bool, got: string, r1: nat, inD1: bool)
    requires CopyInv(b0, b, p, s, k, r, w, inS, inD, got) && r < |s|
    requires s[r] == '"' && !inS && r1 == r + 1 && inD1 == !inD
    ensures CopyInv(b0, b, p, s, k, r1, w, inS, inD1, got)
  {
  }

  lemma CopyBreak(b0: seq<char>, b: seq<char>, p: nat, s: string, k: nat, r: nat, w: nat,
                  inS: bool, inD: bool, got: string, r1: nat)
    requires CopyInv(b0, b, p, s, k, r, w, inS, inD, got) && r < |s|
    requires !(s[r] == '\'' && !inD) && !(s[r] == '"' && !inS)
    requires !inS && !inD && IsSpace(s[r]) && r1 == r + 1
    ensures CopyDone(b0, b, p, s, k, r1, w, got)
  {
    assert WordChars(s, r, inS, inD) == [];
    assert got + [] == got;
  }

  lemma CopyChar(b0: seq<char>, b: seq<char>, b1: seq<char>, p: nat, s: string, k: nat, r: nat, w: nat,
                 inS: bool, inD: bool, got: string, r1: nat, w1: nat, got1: string)
    requires CopyInv(b0, b, p, s, k, r, w, inS, inD, got) && r < |s|
    requires !(s[r] == '\'' && !inD) && !(s[r] == '"' && !inS) && !(!inS && !inD && IsSpace(s[r]))
    requires b1 == b[p + w := s[r]] && r1 == r + 1 && w1 == w + 1 && got1 == got + [s[r]]
    ensures CopyInv(b0, b1, p, s, k, r1, w1, inS, inD, got1)
  {
    assert WordChars(s, r, inS, inD) == [s[r]] + WordChars(s, r1, inS, inD);
    AppendAssoc(got, [s[r]], WordChars(s, r1, inS, inD));
  }

  lemma CopyFinish(b0: seq<char>, b: seq<char>, b1: seq<char>, p: nat, s: string, k: nat, r: nat, w: nat, got: string)
    requires CopyDone(b0, b, p, s, k, r, w, got) && b1 == b[p + w := NUL]
    ensures Holds(b1, p + k, WordChars(s, k, false, false))
    ensures Unread(b1, p, s, r)
    ensures SameExcept(b0, b1, p + k, p + |s| + 1)
  {
  }

  // ---------------------------------------------------------------- proof of ParseArgv

  lemma ArgvStart(b: seq<char>, p: nat, s: string, argv: seq<Option<nat>>)
    requires Holds(b, p, s) && |argv| == 8
    ensures ArgvInv(b, b, p, s, 0, argv, [], [])
  {
    assert [] + WordsFrom(s, 0) == Words(s);
  }

  /** Only white space is left: no more words. */
  lemma ArgvNoMore(s: string, i: nat)
    requires i <= |s| && SkipSpaces(s, i) == |s|
    ensures WordsFrom(s, i) == []
  {
  }

  /** One more word, copied into place at `k` and entered in the table. */
  lemma ArgvStep(b0: seq<char>, b: seq<char>, b1: seq<char>, p: nat, s: string, i: nat, k: nat,
                 argv0: seq<Option<nat>>, at0: seq<nat>, ws0: seq<string>,
                 i1: nat, argv: seq<Option<nat>>, at: seq<nat>, ws: seq<string>)
    requires ArgvInv(b0, b, p, s, i, argv0, at0, ws0)
    requires k == SkipSpaces(s, i) && k < |s| && i1 == WordEnd(s, k, false, false)
    requires Holds(b1, p + k, WordChars(s, k, false, false)) && Unread(b1, p, s, i1)
    requires SameExcept(b, b1, p + k, p + |s| + 1)
    requires |argv| == (if |ws0| == |argv0| then 2 * |argv0| else |argv0|)
    requires (forall j :: 0 <= j < |ws0| ==> argv[j] == argv0[j]) && argv[|ws0|] == Some(p + k)
    requires at == at0 + [p + k] && ws == ws0 + [WordChars(s, k, false, false)]
    ensures ArgvInv(b0, b1, p, s, i1, argv, at, ws)
  {
    var word := WordChars(s, k, false, false);
    WordsStep(s, i, k, i1, ws0, ws);
    PlacedStepArgv(b, b1, p, s, i, k, i1, at0, ws0, word);
  }

  lemma WordsStep(s: string, i: nat, k: nat, i1: nat, ws0: seq<string>, ws: seq<string>)
    requires i <= |s| && k == SkipSpaces(s, i) && k < |s| && i1 == WordEnd(s, k, false, false)
    requires ws0 + WordsFrom(s, i) == Words(s) && ws == ws0 + [WordChars(s, k, false, false)]
    ensures ws + WordsFrom(s, i1) == Words(s)
  {
    var word := WordChars(s, k, false, false);
    assert WordsFrom(s, i) == [word] + WordsFrom(s, i1);
    AppendAssoc(ws0, [word], WordsFrom(s, i1));
  }

  lemma PlacedStepArgv(b: seq<char>, b1: seq<char>, p: nat, s: string, i: nat, k: nat, i1: nat,
                       at0: seq<nat>, ws0: seq<string>, word: string)
    requires i <= k < |s| && i1 == WordEnd(s, k, false, false) && word == WordChars(s, k, false, false)
    requires Placed(b, at0, ws0, p, Lim(p, s, i)) && Holds(b1, p + k, word)
    requires p + |s| < |b| && SameExcept(b, b1, p + k, p + |s| + 1)
    ensures Placed(b1, at0 + [p + k], ws0 + [word], p, Lim(p, s, i1))
  {
    assert Lim(p, s, i) == p + i;
    assert p + k + |word| < Lim(p, s, i1);
    SameExceptWiden(b, b1, p + k, p + |s| + 1, p + i, |b|);
    PlacedFrame(b, b1, at0, ws0, p, p + i);
    PlacedSnoc(b1, at0, ws0, p, p + i, p + k, word, Lim(p, s, i1));
  }

  lemma SameExceptWiden(b0: seq<char>, b1: seq<char>, lo: nat, hi: nat, lo2: nat, hi2: nat)
    requires SameExcept(b0, b1, lo, hi) && lo2 <= lo && hi <= hi2
    ensures SameExcept(b0, b1, lo2, hi2)
  {
  }

  /** The NULL after the last word, in a table grown first if it is full. */
  lemma ArgvDone(b0: seq<char>, b: seq<char>, p: nat, s: string, i: nat,
                 argv0: seq<Option<nat>>, at: seq<nat>, ws: seq<string>, argv: seq<Option<nat>>)
    requires ArgvInv(b0, b, p, s, i, argv0, at, ws) && WordsFrom(s, i) == []
    requires |argv| == (if |ws| == |argv0| then 2 * |argv0| else |argv0|)
    requires (forall j :: 0 <= j < |ws| ==> argv[j] == argv0[j]) && argv[|ws|] == None
    ensures ArgvHolds(b, argv, Words(s), p, p + |s| + 1)
    ensures SameExcept(b0, b, p, p + |s| + 1)
    ensures |argv| == (if CapAfter(|Words(s)|) == |Words(s)| then 2 * |Words(s)| else CapAfter(|Words(s)|))
  {
    assert ws + [] == ws;
    assert Targets(argv, |ws|) == at;
    PlacedWiden(b, at, ws, p, Lim(p, s, i), p + |s| + 1);
  }

  // ---------------------------------------------------------------- the terminator as written

  /** Up to 8 words the table keeps its first 8 entries. */
  lemma {:induction false} CapSmall(n: nat)
    requires n <= 8
    ensures CapAfter(n) == 8
  {
    if n > 0 {
      CapSmall(n - 1);
    }
  }

  /** A table exactly full after `n` words is doubled by the next word, and
      the next `n` words fill it exactly again. */
  lemma {:induction false} CapStays(n: nat, m: nat)
    requires CapAfter(n) == n && n < m <= 2 * n
    ensures CapAfter(m) == 2 * n
    decreases m
  {
    if m > n + 1 {
      CapStays(n, m - 1);
    }
  }

  /** The code as written stores the NULL at `argv[argc]` without checking
      `argc == cap`: after 8, 16, 32, ... words that index is one past the
      table. */
  lemma FullAgain(n: nat)
    requires CapAfter(n) == n
    ensures CapAfter(2 * n) == 2 * n
  {
    CapAfterRoom(n);
    CapStays(n, 2 * n);
  }

  /** One word `a` followed by a space. */
  lemma WordA(s: string, i: nat)
    requires i + 1 < |s| && s[i] == 'a' && s[i + 1] == ' '
    ensures WordsFrom(s, i) == ["a"] + WordsFrom(s, i + 2)
  {
    assert WordChars(s, i + 1, false, false) == [];
    assert WordChars(s, i, false, false) == "a";
  }

  /** The line of `n` words `a` with one space between them: `a a ... a`. */
  function Spaced(n: nat): (s: string)
    requires n > 0
    ensures |s| == 2 * n - 1
  {
    seq(2 * n - 1, k => if k % 2 == 0 then 'a' else ' ')
  }

  /** The line `a a ... a` of `n` words has `n` words. */
  lemma {:induction false} SpacedFrom(s: string, i: nat)
    requires |s| % 2 == 1 && i % 2 == 0 && i < |s|
    requires forall k :: 0 <= k < |s| ==> s[k] == (if k % 2 == 0 then 'a' else ' ')
    ensures |WordsFrom(s, i)| == (|s| - i + 1) / 2
    decreases |s| - i
  {
    if i + 1 < |s| {
      WordA(s, i);
      SpacedFrom(s, i + 2);
    } else {
      assert WordChars(s, i, false, false) == "a";
      assert WordsFrom(s, i) == ["a"];
    }
  }

  lemma SpacedWords(n: nat)
    requires n > 0
    ensures |Words(Spaced(n))| == n
  {
    SpacedFrom(Spaced(n), 0);
  }

  /** The line `a a a a a a a a` has 8 words, and 8 words leave the table
      full: the code as written puts the NULL in entry 8 of an 8-entry
      table. */
  lemma EightWordsOverrun()
    ensures |Words(Spaced(8))| == 8
    ensures CapAfter(|Words(Spaced(8))|) == |Words(Spaced(8))|
  {
    SpacedWords(8);
    CapSmall(8);
  }

  // ---------------------------------------------------------------- properties of the words

  /** The characters `parse_argv` keeps from the line from `i` on: all but
      the quote characters that switch quoting and the white space outside
      quotes. */
  function Unquoted(s: string, i: nat, inS: bool, inD: bool): string
    requires i <= |s|
    decreases |s| - i
  {
    if i == |s| then []
    else if s[i] == '\'' && !inD then Unquoted(s, i + 1, !inS, inD)
    else if s[i] == '"' && !inS then Unquoted(s, i + 1, inS, !inD)
    else if !inS && !inD && IsSpace(s[i]) then Unquoted(s, i + 1, inS, inD)
    else [s[i]] + Unquoted(s, i + 1, inS, inD)
  }

  /** The words one after the other. */
  function Concat(ws: seq<string>): string {
    if |ws| == 0 then [] else ws[0] + Concat(ws[1..])
  }

  /** A word and what follows it keep the same characters as the scan that
      does not stop at the word's end. */
  lemma {:induction false} WordUnquoted(s: string, i: nat, inS: bool, inD: bool)
    requires i <= |s|
    ensures WordChars(s, i, inS, inD) + Unquoted(s, WordEnd(s, i, inS, inD), false, false) == Unquoted(s, i, inS, inD)
    decreases |s| - i
  {
    if i == |s| {
    } else if s[i] == '\'' && !inD {
      WordUnquoted(s, i + 1, !inS, inD);
    } else if s[i] == '"' && !inS {
      WordUnquoted(s, i + 1, inS, !inD);
    } else if !inS && !inD && IsSpace(s[i]) {
    } else {
      WordUnquoted(s, i + 1, inS, inD);
      AppendAssoc([s[i]], WordChars(s, i + 1, inS, inD), Unquoted(s, WordEnd(s, i + 1, inS, inD), false, false));
    }
  }

  /** White space outside quotes keeps nothing. */
  lemma {:induction false} SkipUnquoted(s: string, i: nat)
    requires i <= |s|
    ensures Unquoted(s, SkipSpaces(s, i), false, false) == Unquoted(s, i, false, false)
    decreases |s| - i
  {
    if i < |s| && IsSpace(s[i]) {
      SkipUnquoted(s, i + 1);
    }
  }

  /** The words put together are the line less its quote characters and
      its white space outside quotes: `parse_argv` loses nothing else and
      adds nothing. */
  lemma {:induction false} WordsConcat(s: string, i: nat)
    requires i <= |s|
    ensures Concat(WordsFrom(s, i)) == Unquoted(s, i, false, false)
    decreases |s| - i
  {
    var k := SkipSpaces(s, i);
    SkipUnquoted(s, i);
    if k < |s| {
      var e := WordEnd(s, k, false, false);
      WordsConcat(s, e);
      WordUnquoted(s, k, false, false);
      var ws := WordsFrom(s, i);
      assert ws[0] == WordChars(s, k, false, false) && ws[1..] == WordsFrom(s, e);
    }
  }

  /** A line with a character other than white space at the front has a
      first word (maybe empty, as for `''`). */
  lemma HasWord(s: string)
    requires |s| > 0 && !IsSpace(s[0])
    ensures |Words(s)| >= 1
  {
  }

  /** A line of white space only has no words. */
  lemma {:induction false} BlankNoWords(s: string, i: nat)
    requires i <= |s| && forall k :: i <= k < |s| ==> IsSpace(s[k])
    ensures WordsFrom(s, i) == []
    decreases |s| - i
  {
    if i < |s| {
      BlankNoWords(s, i + 1);
    }
  }

  predicate NoQuote(s: string) {
    forall k :: 0 <= k < |s| ==> s[k] != '\'' && s[k] != '"'
  }

  predicate NoSpace(w: string) {
    forall k :: 0 <= k < |w| ==> !IsSpace(w[k])
  }

  /** Without quotes a word is the run of characters up to the next white
      space: it has none itself. */
  lemma {:induction false} PlainWord(s: string, i: nat)
    requires i <= |s| && NoQuote(s)
    ensures NoSpace(WordChars(s, i, false, false))
    ensures i < |s| && !IsSpace(s[i]) ==> WordChars(s, i, false, false) != []
    decreases |s| - i
  {
    if i < |s| && !IsSpace(s[i]) {
      PlainWord(s, i + 1);
      var w := WordChars(s, i, false, false);
      assert w == [s[i]] + WordChars(s, i + 1, false, false);
    }
  }

  /** Without quotes the words are the non-empty runs of characters other
      than white space. */
  lemma {:induction false} PlainWords(s: string, i: nat)
    requires i <= |s| && NoQuote(s)
    ensures forall j :: 0 <= j < |WordsFrom(s, i)| ==> WordsFrom(s, i)[j] != [] && NoSpace(WordsFrom(s, i)[j])
    decreases |s| - i
  {
    var k := SkipSpaces(s, i);
    if k < |s| {
      PlainWord(s, k);
      PlainWords(s, WordEnd(s, k, false, false));
    }
  }

  /** Quotes keep white space inside a word and go themselves; `''` is an
      empty word. */
  lemma WordsExamples()
    ensures Words("'a b'") == ["a b"]
    ensures Words("''") == [""]
  {
    var s := "'a b'";
    assert WordChars(s, 4, true, false) == [];
    assert WordChars(s, 3, true, false) == "b";
    assert WordChars(s, 2, true, false) == " b";
    assert WordChars(s, 1, true, false) == "a b";
    assert WordEnd(s, 0, false, false) == 5;
    var t := "''";
    assert WordChars(t, 0, false, false) == [];
    assert WordEnd(t, 0, false, false) == 2;
  }

  // ---------------------------------------------------------------- extract_redirs

  /** What `extract_redirs` finds in a command's words: the file for `<`,
      the file for `>` or `>>` and whether it is appended to, and the words
      left for the command. */
  datatype Redirs = Redirs(inPath: Option<string>, outPath: Option<string>, append: bool, words: seq<string>)

  const NoRedirs := Redirs(None, None, false, [])

  predicate IsOp(w: string) {
    w == "<" || w == ">" || w == ">>"
  }

  /** The scan of `extract_redirs` from word `i`, having found `r` so far:
      an operator takes the next word as its file, any other word is kept.
      An operator with no word after it is a syntax error (`None`). */
  function ExtractFrom(ws: seq<string>, i: nat, r: Redirs): Option<Redirs>
    requires i <= |ws|
    decreases |ws| - i
  {
    if i == |ws| then Some(r)
    else if ws[i] == "<" then
      if i + 1 == |ws| then None
      else ExtractFrom(ws, i + 2, r.(inPath := Some(ws[i + 1])))
    else if ws[i] == ">" || ws[i] == ">>" then
      if i + 1 == |ws| then None
      else ExtractFrom(ws, i + 2, r.(outPath := Some(ws[i + 1]), append := |ws[i]| > 1 && ws[i][1] == '>'))
    else ExtractFrom(ws, i + 1, r.(words := r.words + [ws[i]]))
  }

  function Extract(ws: seq<string>): Option<Redirs> {
    ExtractFrom(ws, 0, NoRedirs)
  }

  /** The invariant of the loop of `extract_redirs`: the words from `i` on
      are unread, the `j` words kept so far are at the front, and the scan
      from `i` with what was found so far ends as the whole scan does. */
  predicate ExtInv(a: seq<Option<string>>, ws: seq<string>, n: nat, i: nat, j: nat, r: Redirs) {
    |ws| == n < |a| && a[n] == None && j <= i <= n && |r.words| == j &&
    (forall k :: i <= k < n ==> a[k] == Some(ws[k])) &&
    (forall k :: 0 <= k < j ==> a[k] == Some(r.words[k])) &&
    ExtractFrom(ws, i, r) == Extract(ws)
  }

  /** `extract_redirs` on the NULL-terminated table `argv` holding the words
      `ws`: the result is 0 or -1, and -1 exactly for a syntax error. On
      success the paths and the append flag are those of the scan, and the
      table holds the kept words, in order, NULL-terminated. On -1 the
      caller reports the syntax error and exits with 2 without looking at
      the table or the paths (lines 220-223), so what they then hold is
      left unspecified. */
  method ExtractRedirs(argv: array<Option<string>>, ghost ws: seq<string>)
      returns (rc: int, inPath: Option<string>, outPath: Option<string>, append: bool)
    requires |ws| < argv.Length && argv[|ws|] == None && forall k :: 0 <= k < |ws| ==> argv[k] == Some(ws[k])
    modifies argv
    ensures rc == 0 || rc == -1
    ensures rc == 0 <==> Extract(ws).Some?
    ensures rc == 0 ==> var x := Extract(ws).value;
      inPath == x.inPath && outPath == x.outPath && append == x.append &&
      |x.words| < argv.Length && argv[|x.words|] == None &&
      forall k :: 0 <= k < |x.words| ==> argv[k] == Some(x.words[k])
  {
    inPath, outPath, append := None, None, false;
    if argv[0] == None {
      rc := 0;
      return;
    }
    var i: nat, j: nat := 0, 0;
    ghost var r := NoRedirs;
    while argv[i] != None
      invariant ExtInv(argv[..], ws, |ws|, i, j, r)
      invariant inPath == r.inPath && outPath == r.outPath && append == r.append
      decreases |ws| - i
    {
      var a := argv[i].value;
      ghost var i0, r0 := i, r;
      if StrCmp(a, "<") == 0 {
        StrCmpZero(a, "<");
        if argv[i + 1] == None {
          ExtMissing(argv[..], ws, i, j, r);
          rc := -1;
          return;
        }
        inPath := argv[i + 1];
        i := i + 2;
        r := r.(inPath := inPath);
        ExtInStep(argv[..], ws, i0, j, r0, i, r);
        continue;
      }
      if StrCmp(a, ">") == 0 || StrCmp(a, ">>") == 0 {
        StrCmpZero(a, ">");
        StrCmpZero(a, ">>");
        if argv[i + 1] == None {
          ExtMissing(argv[..], ws, i, j, r);
          rc := -1;
          return;
        }
        outPath := argv[i + 1];
        append := |a| > 1 && a[1] == '>';
        i := i + 2;
        r := r.(outPath := outPath, append := append);
        ExtOutStep(argv[..], ws, i0, j, r0, i, r);
        continue;
      }
      StrCmpZero(a, "<");
      StrCmpZero(a, ">");
      StrCmpZero(a, ">>");
      ghost var b, j0 := argv[..], j;
      argv[j] := argv[i];
      j := j + 1;
      i := i + 1;
      r := r.(words := r.words + [a]);
      ExtKeepStep(b, argv[..], ws, i0, j0, r0, i, j, r);
    }
    ghost var b := argv[..];
    argv[j] := None;
    rc := 0;
    ExtDone(b, argv[..], ws, i, j, r);
  }

  lemma ExtMissing(a: seq<Option<string>>, ws: seq<string>, i: nat, j: nat, r: Redirs)
    requires ExtInv(a, ws, |ws|, i, j, r) && i < |ws| && IsOp(ws[i]) && a[i + 1] == None
    ensures Extract(ws).None?
  {
  }

  lemma ExtInStep(a: seq<Option<string>>, ws: seq<string>, i: nat, j: nat, r: Redirs, i1: nat, r1: Redirs)
    requires ExtInv(a, ws, |ws|, i, j, r) && i < |ws| && ws[i] == "<" && a[i + 1] != None
    requires i1 == i + 2 && r1 == r.(inPath := a[i + 1])
    ensures ExtInv(a, ws, |ws|, i1, j, r1)
  {
  }

  lemma ExtOutStep(a: seq<Option<string>>, ws: seq<string>, i: nat, j: nat, r: Redirs, i1: nat, r1: Redirs)
    requires ExtInv(a, ws, |ws|, i, j, r) && i < |ws| && (ws[i] == ">" || ws[i] == ">>") && a[i + 1] != None
    requires i1 == i + 2 && r1 == r.(outPath := a[i + 1], append := |ws[i]| > 1 && ws[i][1] == '>')
    ensures ExtInv(a, ws, |ws|, i1, j, r1)
  {
  }

  lemma ExtKeepStep(a: seq<Option<string>>, a1: seq<Option<string>>, ws: seq<string>, i: nat, j: nat, r: Redirs,
                    i1: nat, j1: nat, r1: Redirs)
    requires ExtInv(a, ws, |ws|, i, j, r) && i < |ws| && !IsOp(ws[i])
    requires a1 == a[j := a[i]] && i1 == i + 1 && j1 == j + 1 && r1 == r.(words := r.words + [ws[i]])
    ensures ExtInv(a1, ws, |ws|, i1, j1, r1)
  {
  }

  lemma ExtDone(a: seq<Option<string>>, a1: seq<Option<string>>, ws: seq<string>, i: nat, j: nat, r: Redirs)
    requires ExtInv(a, ws, |ws|, i, j, r) && a[i] == None && a1 == a[j := None]
    ensures Extract(ws) == Some(r)
    ensures j < |a1| && a1[j] == None && forall k :: 0 <= k < j ==> a1[k] == Some(r.words[k])
  {
  }

  // ---------------------------------------------------------------- properties of extract_redirs

  /** A scan that gets through `a` goes on into whatever follows `a` from
      where it ended. */
  lemma {:induction false} ExtractAppend(a: seq<string>, b: seq<string>, i: nat, r: Redirs)
    requires i <= |a| && ExtractFrom(a, i, r).Some?
    ensures ExtractFrom(a + b, i, r) == ExtractFrom(a + b, |a|, ExtractFrom(a, i, r).value)
    decreases |a| - i
  {
    var ab := a + b;
    if i < |a| {
      assert ab[i] == a[i];
      if a[i] == "<" || a[i] == ">" || a[i] == ">>" {
        assert i + 1 < |a| && ab[i + 1] == a[i + 1];
        var r1 := if a[i] == "<" then r.(inPath := Some(a[i + 1]))
                  else r.(outPath := Some(a[i + 1]), append := |a[i]| > 1 && a[i][1] == '>');
        assert ExtractFrom(a, i, r) == ExtractFrom(a, i + 2, r1);
        assert ExtractFrom(ab, i, r) == ExtractFrom(ab, i + 2, r1);
        ExtractAppend(a, b, i + 2, r1);
      } else {
        ExtractAppend(a, b, i + 1, r.(words := r.words + [a[i]]));
      }
    }
  }

  /** The last redirection wins: one more at the end replaces what came
      before in its direction, `>` turns appending off, `>>` turns it on. */
  lemma LastRedirectWins(a: seq<string>, x: string)
    requires Extract(a).Some?
    ensures Extract(a + ["<", x]) == Some(Extract(a).value.(inPath := Some(x)))
    ensures Extract(a + [">", x]) == Some(Extract(a).value.(outPath := Some(x), append := false))
    ensures Extract(a + [">>", x]) == Some(Extract(a).value.(outPath := Some(x), append := true))
  {
    ExtractAppend(a, ["<", x], 0, NoRedirs);
    ExtractAppend(a, [">", x], 0, NoRedirs);
    ExtractAppend(a, [">>", x], 0, NoRedirs);
    assert (a + ["<", x])[|a|] == "<" && (a + ["<", x])[|a| + 1] == x;
    assert (a + [">", x])[|a|] == ">" && (a + [">", x])[|a| + 1] == x;
    assert (a + [">>", x])[|a|] == ">>" && (a + [">>", x])[|a| + 1] == x;
  }

  /** An operator at the very end has no file: a syntax error. */
  lemma MissingOperand(a: seq<string>, op: string)
    requires Extract(a).Some? && IsOp(op)
    ensures Extract(a + [op]).None?
  {
    ExtractAppend(a, [op], 0, NoRedirs);
    assert (a + [op])[|a|] == op;
  }

  /** A word that is not an operator is kept, after the words kept before. */
  lemma WordKept(a: seq<string>, w: string)
    requires Extract(a).Some? && !IsOp(w)
    ensures Extract(a + [w]) == Some(Extract(a).value.(words := Extract(a).value.words + [w]))
  {
    ExtractAppend(a, [w], 0, NoRedirs);
    assert (a + [w])[|a|] == w;
  }

  /** Without operators nothing is taken out. */
  lemma {:induction false} NoOpsFrom(ws: seq<string>, i: nat, r: Redirs)
    requires i <= |ws| && forall k :: i <= k < |ws| ==> !IsOp(ws[k])
    ensures ExtractFrom(ws, i, r) == Some(r.(words := r.words + ws[i..]))
    decreases |ws| - i
  {
    if i < |ws| {
      NoOpsFrom(ws, i + 1, r.(words := r.words + [ws[i]]));
      assert r.words + [ws[i]] + ws[i + 1..] == r.words + ws[i..];
    } else {
      assert r.words + ws[i..] == r.words;
    }
  }

  lemma NoOpsIdentity(ws: seq<string>)
    requires forall k :: 0 <= k < |ws| ==> !IsOp(ws[k])
    ensures Extract(ws) == Some(Redirs(None, None, false, ws))
  {
    NoOpsFrom(ws, 0, NoRedirs);
    assert [] + ws[0..] == ws;
  }

  /** The words kept contain no operator and are never more than the words
      given; a file is set only by an operator, and appending only by `>>`. */
  lemma {:induction false} ExtractFacts(ws: seq<string>, i: nat, r: Redirs)
    requires i <= |ws| && ExtractFrom(ws, i, r).Some?
    requires forall k :: 0 <= k < |r.words| ==> !IsOp(r.words[k])
    ensures var x := ExtractFrom(ws, i, r).value;
      (forall k :: 0 <= k < |x.words| ==> !IsOp(x.words[k])) &&
      |x.words| <= |r.words| + |ws| - i &&
      (x.append ==> r.append || exists k :: i <= k < |ws| && ws[k] == ">>") &&
      (x.inPath.Some? ==> r.inPath.Some? || exists k :: i <= k < |ws| && ws[k] == "<") &&
      (x.outPath.Some? ==> r.outPath.Some? || exists k :: i <= k < |ws| && (ws[k] == ">" || ws[k] == ">>"))
    decreases |ws| - i
  {
    if i < |ws| {
      if ws[i] == "<" || ws[i] == ">" || ws[i] == ">>" {
        var r1 := if ws[i] == "<" then r.(inPath := Some(ws[i + 1]))
                  else r.(outPath := Some(ws[i + 1]), append := |ws[i]| > 1 && ws[i][1] == '>');
        ExtractFacts(ws, i + 2, r1);
        if r1.append && !r.append {
          assert ws[i] == ">>";
        }
      } else {
        ExtractFacts(ws, i + 1, r.(words := r.words + [ws[i]]));
      }
    }
  }

  lemma ExtractKept(ws: seq<string>)
    requires Extract(ws).Some?
    ensures forall k :: 0 <= k < |Extract(ws).value.words| ==> !IsOp(Extract(ws).value.words[k])
    ensures |Extract(ws).value.words| <= |ws|
    ensures Extract(ws).value.append ==> exists k :: 0 <= k < |ws| && ws[k] == ">>"
  {
    ExtractFacts(ws, 0, NoRedirs);
  }

  /** `cat < in >> out` reads `in`, appends to `out` and runs `cat`;
      `> out` alone leaves no command; `ls >` is a syntax error. */
  lemma ExtractExamples()
    ensures Extract(["cat", "<", "in", ">>", "out"]) == Some(Redirs(Some("in"), Some("out"), true, ["cat"]))
    ensures Extract([">", "out"]) == Some(Redirs(None, Some("out"), false, []))
    ensures Extract(["ls", ">"]) == None
  {
    WordKept([], "cat");
    assert [] + ["cat"] == ["cat"];
    LastRedirectWins(["cat"], "in");
    assert ["cat"] + ["<", "in"] == ["cat", "<", "in"];
    LastRedirectWins(["cat", "<", "in"], "out");
    assert ["cat", "<", "in"] + [">>", "out"] == ["cat", "<", "in", ">>", "out"];
    LastRedirectWins([], "out");
    assert [] + [">", "out"] == [">", "out"];
    MissingOperand(["ls"], ">");
    assert ["ls"] + [">"] == ["ls", ">"];
  }

  // ---------------------------------------------------------------- the input loop

  /** The line as `getline` returned it, less one `'\n'` at its end. */
  function Chomp(line: string): (c: string)
    ensures |line| > 0 && line[|line| - 1] == '\n' ==> c + "\n" == line
    ensures !(|line| > 0 && line[|line| - 1] == '\n') ==> c == line
  {
    if |line| > 0 && line[|line| - 1] == '\n' then line[..|line| - 1] else line
  }

  /** What the input loop hands to `run_pipeline` for one line: the words
      of each `|`-segment of the line, chomped and trimmed. A blank line
      gives no command. */
  function Pipeline(line: string): (cmds: seq<seq<string>>)
    ensures var segs := Segments(TrimStr(Chomp(line)), '|');
      |cmds| == |segs| && forall i :: 0 <= i < |segs| ==> cmds[i] == Words(segs[i])
  {
    var segs := Segments(TrimStr(Chomp(line)), '|');
    seq(|segs|, i requires 0 <= i < |segs| => Words(segs[i]))
  }

  /** One pass of the input loop on the line that `getline` put at the start
      of `buf`, `nread` characters long, up to the call of `run_pipeline`:
      the result has one argument table per command of `Pipeline(line)`,
      each holding that command's words. */
  method ReadCommand(buf: array<char>, nread: nat, ghost line: string) returns (argvs: seq<seq<Option<nat>>>)
    requires Holds(buf[..], 0, line) && nread == |line|
    modifies buf
    ensures |argvs| == |Pipeline(line)|
    ensures forall i :: 0 <= i < |argvs| ==> ArgvHolds(buf[..], argvs[i], Pipeline(line)[i], 0, |line| + 1)
  {
    ghost var c := Chomp(line);
    ghost var b0 := buf[..];
    if nread > 0 && buf[nread - 1] == '\n' {
      buf[nread - 1] := NUL;
    }
    ChompHolds(b0, buf[..], line);
    var ln := Trim(buf, 0, c);
    ghost var t := TrimStr(c);
    var empty := IsEmptyAt(buf, ln, t);
    if empty {
      BlankPipeline(line);
      argvs := [];
      return;
    }
    var segs := SplitSegments(buf, ln, t, '|');
    ghost var S := Segments(t, '|');
    if |segs| == 0 {
      argvs := [];
      return;
    }
    argvs := [];
    var i := 0;
    CmdStart(buf[..], segs, S, ln, ln + |t| + 1);
    while i < |segs|
      invariant CmdInv(buf[..], segs, S, i, argvs, ln, ln + |t| + 1)
    {
      ghost var b := buf[..];
      var argv := ParseArgv(buf, segs[i], S[i]);
      ghost var i0, argvs0 := i, argvs;
      argvs := argvs + [argv];
      i := i + 1;
      CmdStep(b, buf[..], segs, S, i0, argvs0, argv, i, argvs, ln, ln + |t| + 1);
    }
    CmdDone(buf[..], segs, S, argvs, ln, ln + |t| + 1, line);
  }

  lemma ChompHolds(b0: seq<char>, b1: seq<char>, line: string)
    requires Holds(b0, 0, line)
    requires |line| > 0 && b0[|line| - 1] == '\n' ==> b1 == b0[|line| - 1 := NUL]
    requires !(|line| > 0 && b0[|line| - 1] == '\n') ==> b1 == b0
    ensures Holds(b1, 0, Chomp(line))
  {
  }

  /** The invariant of the loop over the segments: the segments from `i` on
      are still in the buffer, the tables before `i` hold their words. */
  predicate CmdInv(b: seq<char>, segs: seq<nat>, S: seq<string>, i: nat,
                   argvs: seq<seq<Option<nat>>>, lo: nat, lim: nat)
  {
    |segs| == |S| && i <= |segs| && |argvs| == i &&
    (forall j, k :: 0 <= j < k < |segs| ==> segs[j] + |S[j]| < segs[k]) &&
    (forall k :: 0 <= k < |segs| ==> lo <= segs[k] && segs[k] + |S[k]| < lim) &&
    (forall k :: i <= k < |segs| ==> Holds(b, segs[k], S[k])) &&
    (forall k :: 0 <= k < i ==> ArgvHolds(b, argvs[k], Words(S[k]), segs[k], segs[k] + |S[k]| + 1))
  }

  lemma CmdStart(b: seq<char>, segs: seq<nat>, S: seq<string>, lo: nat, lim: nat)
    requires Placed(b, segs, S, lo, lim)
    ensures CmdInv(b, segs, S, 0, [], lo, lim)
  {
  }

  /** A table that changes nothing from `lim` down keeps holding its words. */
  lemma ArgvFrame(b0: seq<char>, b1: seq<char>, argv: seq<Option<nat>>, ws: seq<string>, lo: nat, lim: nat)
    requires ArgvHolds(b0, argv, ws, lo, lim) && SameExcept(b0, b1, lim, |b0|)
    ensures ArgvHolds(b1, argv, ws, lo, lim)
  {
    PlacedFrame(b0, b1, Targets(argv, |ws|), ws, lo, lim);
  }

  lemma CmdStep(b: seq<char>, b1: seq<char>, segs: seq<nat>, S: seq<string>, i: nat,
                argvs: seq<seq<Option<nat>>>, argv: seq<Option<nat>>,
                i1: nat, argvs1: seq<seq<Option<nat>>>, lo: nat, lim: nat)
    requires CmdInv(b, segs, S, i, argvs, lo, lim) && i < |segs|
    requires ArgvHolds(b1, argv, Words(S[i]), segs[i], segs[i] + |S[i]| + 1)
    requires SameExcept(b, b1, segs[i], segs[i] + |S[i]| + 1)
    requires i1 == i + 1 && argvs1 == argvs + [argv]
    ensures CmdInv(b1, segs, S, i1, argvs1, lo, lim)
  {
    var hi := segs[i] + |S[i]| + 1;
    forall k | i1 <= k < |segs|
      ensures Holds(b1, segs[k], S[k])
    {
      HoldsFrame(b, b1, segs[k], S[k]);
    }
    forall k | 0 <= k < i
      ensures ArgvHolds(b1, argvs1[k], Words(S[k]), segs[k], segs[k] + |S[k]| + 1)
    {
      SameExceptWiden(b, b1, segs[i], hi, segs[k] + |S[k]| + 1, |b|);
      ArgvFrame(b, b1, argvs[k], Words(S[k]), segs[k], segs[k] + |S[k]| + 1);
    }
  }

  lemma ArgvWiden(b: seq<char>, argv: seq<Option<nat>>, ws: seq<string>, lo: nat, lim: nat, lo2: nat, lim2: nat)
    requires ArgvHolds(b, argv, ws, lo, lim) && lo2 <= lo && lim <= lim2
    ensures ArgvHolds(b, argv, ws, lo2, lim2)
  {
  }

  lemma CmdDone(b: seq<char>, segs: seq<nat>, S: seq<string>, argvs: seq<seq<Option<nat>>>,
                lo: nat, lim: nat, line: string)
    requires CmdInv(b, segs, S, |segs|, argvs, lo, lim)
    requires S == Segments(TrimStr(Chomp(line)), '|') && lim <= |line| + 1
    ensures |argvs| == |Pipeline(line)|
    ensures forall i :: 0 <= i < |argvs| ==> ArgvHolds(b, argvs[i], Pipeline(line)[i], 0, |line| + 1)
  {
    forall i | 0 <= i < |argvs|
      ensures ArgvHolds(b, argvs[i], Pipeline(line)[i], 0, |line| + 1)
    {
      ArgvWiden(b, argvs[i], Words(S[i]), segs[i], segs[i] + |S[i]| + 1, 0, |line| + 1);
    }
  }

  /** A blank line gives no command. */
  lemma BlankPipeline(line: string)
    requires TrimStr(Chomp(line)) == []
    ensures Pipeline(line) == []
  {
    var t: string := [];
    var none: seq<string> := [];
    assert SegEnd(t, '|', 0, false, false) == 0;
    assert PiecesFrom(t, '|', 0) == none + [t];
    KeepSnoc(none, t);
    assert TrimStr(t) == t;
  }

  /** Every command of a line has a first word, so `argvs[i][0]` is never
      NULL after `parse_argv` (the check after it in the loop does nothing). */
  lemma PipelineWords(line: string)
    ensures forall i :: 0 <= i < |Pipeline(line)| ==> |Pipeline(line)[i]| >= 1
  {
    var segs := Segments(TrimStr(Chomp(line)), '|');
    SegmentsTrimmed(TrimStr(Chomp(line)), '|');
    forall i | 0 <= i < |segs|
      ensures |Words(segs[i])| >= 1
    {
      HasWord(segs[i]);
    }
  }
}
