/** The formatting helpers of Lesson_10/lesson10_myls.c: the permission
    string, colours, digit counts, the filter and compaction of directory
    entries, the column layout and the option parser. */
module Ls {
  import opened Common

  const S_ISUID: Mode := 0x800
  const S_ISGID: Mode := 0x400
  const S_ISVTX: Mode := 0x200
  const S_IRUSR: Mode := 0x100
  const S_IWUSR: Mode := 0x80
  const S_IXUSR: Mode := 0x40
  const S_IRGRP: Mode := 0x20
  const S_IWGRP: Mode := 0x10
  const S_IXGRP: Mode := 0x8
  const S_IROTH: Mode := 0x4
  const S_IWOTH: Mode := 0x2
  const S_IXOTH: Mode := 0x1

  // ---------------------------------------------------------------- mode_to_str

  /** The type letter of `ls -l`. */
  function TypeChar(m: Mode): (c: char)
    ensures c in "dlcbps-"
  {
    if IsDir(m) then 'd' else if IsLnk(m) then 'l'
    else if IsChr(m) then 'c' else if IsBlk(m) then 'b'
    else if IsFifo(m) then 'p' else if IsSock(m) then 's' else '-'
  }

  /** A type letter other than '-' names exactly one file type. */
  lemma TypeCharDetermines(m1: Mode, m2: Mode)
    requires TypeChar(m1) == TypeChar(m2) != '-'
    ensures m1 & S_IFMT == m2 & S_IFMT
  {
  }

  /** `(m & bit) ? c : '-'`. */
  function Bit(m: Mode, bit: Mode, c: char): char {
    if m & bit != 0 then c else '-'
  }

  /** The overlay of a special bit on an x place `c`: with the bit set, `lower`
      over an 'x' and `upper` over anything else; without it, `c` stays. */
  function Special(m: Mode, bit: Mode, c: char, lower: char, upper: char): char {
    if m & bit != 0 then (if c == 'x' then lower else upper) else c
  }

  /** One `rwx` triple: the read, write and execute places, with the special
      bit overlaid on the execute place. */
  function Triple(m: Mode, r: Mode, w: Mode, x: Mode, special: Mode, lower: char, upper: char): (t: seq<char>)
    ensures |t| == 3
  {
    [Bit(m, r, 'r'), Bit(m, w, 'w'), Special(m, special, Bit(m, x, 'x'), lower, upper)]
  }

  function UserTriple(m: Mode): seq<char> { Triple(m, S_IRUSR, S_IWUSR, S_IXUSR, S_ISUID, 's', 'S') }
  function GroupTriple(m: Mode): seq<char> { Triple(m, S_IRGRP, S_IWGRP, S_IXGRP, S_ISGID, 's', 'S') }
  function OtherTriple(m: Mode): seq<char> { Triple(m, S_IROTH, S_IWOTH, S_IXOTH, S_ISVTX, 't', 'T') }

  /** Positions 1..9 of the mode string: owner, group and others, with setuid,
      setgid and sticky overlaid on the three x places. */
  function PermString(m: Mode): (s: seq<char>)
    ensures |s| == 9
  {
    UserTriple(m) + GroupTriple(m) + OtherTriple(m)
  }

  /** `mode_to_str`: fills the caller's 11-character buffer. The conditional
      overwrite of places 3, 6 and 9 is written as a write of `Special`, which
      leaves the character as it is when the special bit is clear. */
  method ModeToStr(m: Mode, s: array<char>)
    requires s.Length == 11
    modifies s
    ensures IsModeString(m, s[..])
  {
    s[0] := TypeChar(m);
    s[1] := Bit(m, S_IRUSR, 'r');
    s[2] := Bit(m, S_IWUSR, 'w');
    s[3] := Bit(m, S_IXUSR, 'x');
    s[4] := Bit(m, S_IRGRP, 'r');
    s[5] := Bit(m, S_IWGRP, 'w');
    s[6] := Bit(m, S_IXGRP, 'x');
    s[7] := Bit(m, S_IROTH, 'r');
    s[8] := Bit(m, S_IWOTH, 'w');
    s[9] := Bit(m, S_IXOTH, 'x');
    s[3] := Special(m, S_ISUID, s[3], 's', 'S');
    s[6] := Special(m, S_ISGID, s[6], 's', 'S');
    s[9] := Special(m, S_ISVTX, s[9], 't', 'T');
    s[10] := NUL;
    Three(s[1..4]);
    Three(s[4..7]);
    Three(s[7..10]);
  }

  /** A three-character sequence is the display of its characters. */
  lemma Three(t: seq<char>)
    requires |t| == 3
    ensures t == [t[0], t[1], t[2]]
  {
  }

  /** What ModeToStr leaves in the buffer: the ten characters of `ls -l` and
      the terminator. */
  predicate IsModeString(m: Mode, s: seq<char>) {
    |s| == 11 && s[0] == TypeChar(m) && s[10] == NUL &&
    s[1..4] == UserTriple(m) && s[4..7] == GroupTriple(m) && s[7..10] == OtherTriple(m)
  }

  /** The buffer holds a C string of ten characters whose places 1..9 are
      the permission string. */
  lemma ModeStringShape(m: Mode, s: seq<char>)
    requires IsModeString(m, s)
    ensures s[1..10] == PermString(m)
    ensures Strlen(s, 0) == 10
  {
    assert s[1..10] == s[1..4] + s[4..7] + s[7..10];
    NoNulInTriples(m);
    assert forall k :: 1 <= k < 4 ==> s[k] == s[1..4][k - 1];
    assert forall k :: 4 <= k < 7 ==> s[k] == s[4..7][k - 4];
    assert forall k :: 7 <= k < 10 ==> s[k] == s[7..10][k - 7];
    StrlenAt(s, 0, 10);
  }

  /** No place of a triple is a NUL. */
  lemma NoNulInTriples(m: Mode)
    ensures NUL !in UserTriple(m) && NUL !in GroupTriple(m) && NUL !in OtherTriple(m)
  {
  }

  /** Each x place shows the special letter exactly when the special bit is
      set, in lower case exactly when the execute bit is set too. */
  lemma XPlaceMeaning(m: Mode)
    ensures PermString(m)[2] == (if m & S_ISUID != 0 then (if m & S_IXUSR != 0 then 's' else 'S')
                                 else (if m & S_IXUSR != 0 then 'x' else '-'))
    ensures PermString(m)[5] == (if m & S_ISGID != 0 then (if m & S_IXGRP != 0 then 's' else 'S')
                                 else (if m & S_IXGRP != 0 then 'x' else '-'))
    ensures PermString(m)[8] == (if m & S_ISVTX != 0 then (if m & S_IXOTH != 0 then 't' else 'T')
                                 else (if m & S_IXOTH != 0 then 'x' else '-'))
  {
  }

  /** The bit a permission character stands for. */
  function Shown(c: char, bit: Mode): Mode {
    if c == '-' || c == 'S' || c == 'T' then 0 else bit
  }

  /** The special bit an x-place character stands for. */
  function Overlaid(c: char, bit: Mode): Mode {
    if c == 's' || c == 't' || c == 'S' || c == 'T' then bit else 0
  }

  /** The four bits one triple stands for. */
  function TripleBits(t: seq<char>, r: Mode, w: Mode, x: Mode, special: Mode): Mode
    requires |t| == 3
  {
    Shown(t[0], r) | Shown(t[1], w) | Shown(t[2], x) | Overlaid(t[2], special)
  }

  /** Reads the twelve permission bits back from positions 1..9. */
  function PermBitsOf(s: seq<char>): Mode
    requires |s| == 9
  {
    TripleBits(s[0..3], S_IRUSR, S_IWUSR, S_IXUSR, S_ISUID) |
    TripleBits(s[3..6], S_IRGRP, S_IWGRP, S_IXGRP, S_ISGID) |
    TripleBits(s[6..9], S_IROTH, S_IWOTH, S_IXOTH, S_ISVTX)
  }

  /** Each triple gives back its own read, write, execute and special bits. */
  lemma UserRoundTrip(m: Mode)
    ensures TripleBits(UserTriple(m), S_IRUSR, S_IWUSR, S_IXUSR, S_ISUID) == m & 0x9C0
  {
  }

  lemma GroupRoundTrip(m: Mode)
    ensures TripleBits(GroupTriple(m), S_IRGRP, S_IWGRP, S_IXGRP, S_ISGID) == m & 0x438
  {
  }

  lemma OtherRoundTrip(m: Mode)
    ensures TripleBits(OtherTriple(m), S_IROTH, S_IWOTH, S_IXOTH, S_ISVTX) == m & 0x207
  {
  }

  /** The permission string loses nothing: its nine characters give back
      all twelve permission and special bits. */
  lemma PermStringRoundTrip(m: Mode)
    ensures PermBitsOf(PermString(m)) == m & 0xFFF
  {
    var s := PermString(m);
    assert s[0..3] == UserTriple(m) && s[3..6] == GroupTriple(m) && s[6..9] == OtherTriple(m);
    UserRoundTrip(m);
    GroupRoundTrip(m);
    OtherRoundTrip(m);
    assert m & 0xFFF == (m & 0x9C0) | (m & 0x438) | (m & 0x207);
  }

  // ----------------------------------------------------------------- colours

  /** Executable by somebody: any of the three x bits. */
  predicate AnyExec(m: Mode) { m & (S_IXUSR | S_IXGRP | S_IXOTH) != 0 }

  /** The escape character, octal 033. */
  const ESC: char := '\U{1b}'

  const DIR_COLOR := [ESC] + "[01;34m"
  const LNK_COLOR := [ESC] + "[01;36m"
  const SOCK_COLOR := [ESC] + "[01;35m"
  const FIFO_COLOR := [ESC] + "[33m"
  const DEV_COLOR := [ESC] + "[01;33m"
  const EXEC_COLOR := [ESC] + "[01;32m"
  const RESET := [ESC] + "[0m"

  /** `color_code`: the SGR sequence for a file type, checked in the order
      directory, link, socket, fifo, block device, character device and
      executable regular file; `None` stands for NULL. */
  function ColorCode(m: Mode): (c: Option<string>)
    ensures c.None? <==> !(IsDir(m) || IsLnk(m) || IsSock(m) || IsFifo(m) ||
                           IsBlk(m) || IsChr(m) || (IsReg(m) && AnyExec(m)))
    ensures c.Some? ==> |c.value| >= 4 && c.value[..2] == [ESC, '['] && c.value[|c.value| - 1] == 'm'
  {
    if IsDir(m) then Some(DIR_COLOR)
    else if IsLnk(m) then Some(LNK_COLOR)
    else if IsSock(m) then Some(SOCK_COLOR)
    else if IsFifo(m) then Some(FIFO_COLOR)
    else if IsBlk(m) then Some(DEV_COLOR)
    else if IsChr(m) then Some(DEV_COLOR)
    else if IsReg(m) && AnyExec(m) then Some(EXEC_COLOR)
    else None
  }

  /** The colour depends only on the file type and, for a regular file, on
      whether anybody may execute it. */
  lemma ColorByType(m1: Mode, m2: Mode)
    requires m1 & S_IFMT == m2 & S_IFMT
    requires IsReg(m1) ==> AnyExec(m1) == AnyExec(m2)
    ensures ColorCode(m1) == ColorCode(m2)
  {
  }

  /** Different file types get different colours, except block and character
      devices, which share one. */
  lemma ColorsDistinguishTypes(m1: Mode, m2: Mode)
    requires ColorCode(m1).Some? && ColorCode(m1) == ColorCode(m2)
    ensures m1 & S_IFMT == m2 & S_IFMT || ((IsBlk(m1) || IsChr(m1)) && (IsBlk(m2) || IsChr(m2)))
  {
    ColorTells(m1);
    ColorTells(m2);
  }

  /** The length and the seventh character of a colour tell the file type. */
  lemma ColorTells(m: Mode)
    requires ColorCode(m).Some?
    ensures var c := ColorCode(m).value;
      (|c| == 5 <==> IsFifo(m)) &&
      (|c| == 8 ==> (c[6] == '4' <==> IsDir(m)) && (c[6] == '6' <==> IsLnk(m)) &&
                    (c[6] == '5' <==> IsSock(m)) && (c[6] == '3' <==> IsBlk(m) || IsChr(m)) &&
                    (c[6] == '2' <==> IsReg(m)))
  {
    assert |FIFO_COLOR| == 5 && |DIR_COLOR| == |LNK_COLOR| == |SOCK_COLOR| == |DEV_COLOR| == |EXEC_COLOR| == 8;
    assert DIR_COLOR[6] == '4' && LNK_COLOR[6] == '6' && SOCK_COLOR[6] == '5';
    assert DEV_COLOR[6] == '3' && EXEC_COLOR[6] == '2';
  }

  /** `print_name_colored`: the text written for one name. `color` is the
      `opts.color` setting (0 never, 1 auto, 2 always) and `tty` whether
      standard output is a terminal. */
  function ColoredName(name: string, m: Mode, color: int, tty: bool): (out: string)
    ensures out == name || (ColorCode(m).Some? && out == ColorCode(m).value + name + RESET)
  {
    var c := if color == 2 || (color == 1 && tty) then ColorCode(m) else None;
    if c.Some? then c.value + name + RESET else name
  }

  /** The name is wrapped exactly when colouring is on for this output and
      the file type has a colour. */
  lemma ColoredNameRule(name: string, m: Mode, color: int, tty: bool)
    ensures ColoredName(name, m, color, tty) != name <==>
      (color == 2 || (color == 1 && tty)) && ColorCode(m).Some?
  {
    if (color == 2 || (color == 1 && tty)) && ColorCode(m).Some? {
      assert |ColoredName(name, m, color, tty)| > |name|;
    }
  }

  /** `parse_color` of the environment variable MYLS_COLOR (`None` when it is
      unset). */
  function ParseColor(s: Option<string>): (r: int)
    ensures 0 <= r <= 2
    ensures r == 2 <==> s == Some("always")
    ensures r == 0 <==> s == Some("never")
  {
    if s.None? || |s.value| == 0 then 1
    else if s.value == "always" then 2
    else if s.value == "auto" then 1
    else if s.value == "never" then 0
    else 1
  }

  // ------------------------------------------------------- directory entries

  /** `sel_visible`: the first character of the name is not '.'. An empty
      name has NUL there and is kept. */
  predicate SelVisible(name: string) {
    |name| == 0 || name[0] != '.'
  }

  /** Without -a, exactly the dot files are hidden, "." and ".." among them. */
  lemma SelVisibleHidesDotFiles(name: string)
    ensures !SelVisible(name) <==> |name| > 0 && name[..1] == "."
    ensures !SelVisible(".") && !SelVisible("..")
  {
  }

  /** `digits_uintmax` as a specification: the number of decimal digits. */
  function DigitCount(x: nat): (d: nat)
    ensures d >= 1 && x < Pow10(d)
    ensures d == 1 || Pow10(d - 1) <= x
  {
    if x < 10 then 1 else 1 + DigitCount(x / 10)
  }

  function Pow10(k: nat): (p: nat)
    ensures p >= 1
  {
    if k == 0 then 1 else 10 * Pow10(k - 1)
  }

  /** The digit count is the only d with 10^(d-1) <= x < 10^d (d = 1 for 0). */
  lemma {:induction false} DigitCountUnique(x: nat, d: nat)
    requires d >= 1 && x < Pow10(d) && (d == 1 || Pow10(d - 1) <= x)
    ensures DigitCount(x) == d
  {
    var e := DigitCount(x);
    if e < d {
      PowMonotone(e, d - 1);
    } else if d < e {
      PowMonotone(d, e - 1);
    }
  }

  lemma {:induction false} PowMonotone(a: nat, b: nat)
    requires a <= b
    ensures Pow10(a) <= Pow10(b)
  {
    if a < b {
      PowMonotone(a, b - 1);
    }
  }

  /** `digits_uintmax`: divides by ten until one digit is left. */
  method Digits(x0: nat) returns (d: nat)
    ensures d == DigitCount(x0)
  {
    var x := x0;
    d := 1;
    while x >= 10
      invariant d >= 1 && d - 1 + DigitCount(x) == DigitCount(x0)
      decreases x
    {
      x := x / 10;
      d := d + 1;
    }
  }

  /** A directory entry after `lstat`: `name` is NULL when `lstat` failed. */
  datatype Item = Item(name: Option<string>, mode: Mode)

  /** The entries whose name is set, in their original order. */
  function Kept(s: seq<Item>): seq<Item> {
    if |s| == 0 then []
    else Kept(s[..|s| - 1]) + (if s[|s| - 1].name.Some? then [s[|s| - 1]] else [])
  }

  /** Compaction keeps exactly the named entries and never grows. */
  lemma {:induction false} KeptMembers(s: seq<Item>)
    ensures |Kept(s)| <= |s|
    ensures forall it :: it in Kept(s) <==> it in s && it.name.Some?
  {
    if |s| > 0 {
      KeptMembers(s[..|s| - 1]);
      assert s == s[..|s| - 1] + [s[|s| - 1]];
    }
  }

  /** Compacting an already compact list changes nothing. */
  lemma {:induction false} KeptIdempotent(s: seq<Item>)
    ensures Kept(Kept(s)) == Kept(s)
  {
    if |s| > 0 {
      var front, last := s[..|s| - 1], s[|s| - 1];
      KeptIdempotent(front);
      if last.name.Some? {
        var k := Kept(front) + [last];
        assert k[..|k| - 1] == Kept(front) && k[|k| - 1] == last;
      } else {
        assert Kept(s) == Kept(front) + [] == Kept(front);
      }
    }
  }

  /** Compaction distributes over concatenation: order is kept. */
  lemma {:induction false} KeptAppend(s: seq<Item>, t: seq<Item>)
    ensures Kept(s + t) == Kept(s) + Kept(t)
  {
    if |t| == 0 {
      assert s + t == s;
    } else {
      var t' := t[..|t| - 1];
      assert (s + t)[..|s + t| - 1] == s + t';
      KeptAppend(s, t');
    }
  }

  /** One more entry. */
  lemma KeptSnoc(s: seq<Item>, it: Item)
    ensures Kept(s + [it]) == Kept(s) + (if it.name.Some? then [it] else [])
  {
    assert (s + [it])[..|s|] == s;
  }

  /** The compaction at the end of `scandir_items`: named entries are moved
      down over the unnamed ones in place, and their number is returned. */
  method Compact(items: array<Item>, n: nat) returns (w: nat)
    requires n <= items.Length
    modifies items
    ensures w <= n && items[..w] == Kept(old(items[..n]))
    ensures forall k :: n <= k < items.Length ==> items[k] == old(items[k])
  {
    w := 0;
    var i := 0;
    while i < n
      invariant w <= i <= n
      invariant items[..w] == Kept(old(items[..i]))
      invariant forall k :: i <= k < items.Length ==> items[k] == old(items[k])
    {
      assert old(items[..i + 1]) == old(items[..i]) + [old(items[i])];
      KeptSnoc(old(items[..i]), old(items[i]));
      if items[i].name.Some? {
        ghost var before := items[..w];
        items[w] := items[i];
        w := w + 1;
        assert items[..w] == before + [old(items[i])];
      }
      i := i + 1;
    }
    assert old(items[..i]) == old(items[..n]);
  }

  // -------------------------------------------------------------- the grid

  /** The terminal width: the `ws_col` reported by TIOCGWINSZ when the call
      succeeds with a positive value, otherwise 80. */
  function TermWidth(wsCol: Option<nat>): (w: nat)
    ensures w > 0
    ensures wsCol.Some? && wsCol.value > 0 ==> w == wsCol.value
  {
    if wsCol.Some? && wsCol.value > 0 then wsCol.value else 80
  }

  datatype Grid = Grid(cellw: nat, cols: nat, rows: nat)

  /** The layout of `print_columns`: a cell holds the optional inode column,
      the longest name and a gap of two; as many cells as fit the width, at
      least one; as many rows as needed for `n` names. */
  function Layout(n: nat, inode: bool, inodeW: nat, maxNameLen: nat, termw: nat): (g: Grid)
    ensures g.cellw == (if inode then inodeW + 1 else 0) + maxNameLen + 2
    ensures g.cols >= 1 && (g.cols == 1 || g.cols * g.cellw <= termw) && (g.cols + 1) * g.cellw > termw
    ensures g.rows * g.cols >= n && (g.rows == 0 || (g.rows - 1) * g.cols < n)
  {
    var cellw0 := (if inode then inodeW + 1 else 0) + maxNameLen + 2;
    var cellw := if cellw0 < 1 then 1 else cellw0;
    var cols0 := termw / cellw;
    var cols := if cols0 < 1 then 1 else cols0;
    var rows := (n + cols - 1) / cols;
    DivBounds(termw, cellw);
    CeilDiv(n, cols);
    Grid(cellw, cols, rows)
  }

  /** a / b is the largest q with q * b <= a. */
  lemma DivBounds(a: nat, b: nat)
    requires b >= 1
    ensures (a / b) * b <= a < (a / b + 1) * b
  {
    assert a == (a / b) * b + a % b;
  }

  /** `(n + c - 1) / c` is the least r with r * c >= n. */
  lemma CeilDiv(n: nat, c: nat)
    requires c >= 1
    ensures ((n + c - 1) / c) * c >= n
    ensures (n + c - 1) / c == 0 || ((n + c - 1) / c - 1) * c < n
  {
    var r := (n + c - 1) / c;
    assert r * c + (n + c - 1) % c == n + c - 1;
    assert (r - 1) * c == r * c - c;
  }

  /** Quotient and remainder are unique. */
  lemma DivModUnique(x: int, d: int, q: int, r: int)
    requires d > 0 && 0 <= r < d && x == q * d + r
    ensures x / d == q && x % d == r
  {
    var q', r' := x / d, x % d;
    assert x == q' * d + r';
    if q' < q {
      MulMono(1, q - q', d);
    } else if q < q' {
      MulMono(1, q' - q, d);
    }
  }

  /** Position `idx` of column-major order sits in row idx % rows, column
      idx / rows. */
  lemma CellOf(r: nat, c: nat, rows: nat)
    requires r < rows
    ensures (r + c * rows) % rows == r && (r + c * rows) / rows == c
  {
    DivModUnique(r + c * rows, rows, c, r);
  }

  /** The order in which `print_columns` prints the `n` names, each name once.
      Off a terminal it prints one name per line, in order. On a terminal it
      lays out the grid, then prints row by row, each row walking
      idx = r + c * rows across the columns until idx passes the last name.
      `wsCol` is what TIOCGWINSZ reports, if the call succeeds. */
  method PrintOrder(n: nat, tty: bool, inode: bool, inodeW: nat, maxNameLen: nat, wsCol: Option<nat>)
    returns (order: seq<nat>)
    ensures !tty ==> order == Range(n)
    ensures forall k :: 0 <= k < |order| ==> order[k] < n
    ensures forall i :: 0 <= i < n ==> i in order
    ensures forall p, q :: 0 <= p < q < |order| ==> order[p] != order[q]
  {
    order := [];
    if !tty {
      var i := 0;
      while i < n
        invariant i <= n && order == Range(i)
      {
        order := order + [i];
        i := i + 1;
      }
      RangeFacts(n);
      return;
    }
    var g := Layout(n, inode, inodeW, maxNameLen, TermWidth(wsCol));
    var cols, rows := g.cols, g.rows;
    var r := 0;
    while r < rows
      invariant r <= rows
      invariant if rows == 0 then order == [] else Walked(order, n, rows, r, 0)
    {
      var c := 0;
      while c < cols
        invariant c <= cols
        invariant Walked(order, n, rows, r, c)
      {
        var idx := r + c * rows;
        if idx >= n {
          AfterBreak(order, n, rows, r, c);
          break;
        }
        WalkStep(order, n, rows, r, c);
        order := order + [idx];
        c := c + 1;
      }
      if c == cols {
        RowDone(order, n, rows, cols, r);
      }
      r := r + 1;
    }
    WalkDone(order, n, rows, cols, r);
  }

  /** [0, 1, ..., i - 1]. */
  function Range(i: nat): (s: seq<nat>)
    ensures |s| == i && forall k :: 0 <= k < i ==> s[k] == k
  {
    if i == 0 then [] else Range(i - 1) + [i - 1]
  }

  lemma RangeFacts(n: nat)
    ensures forall i :: 0 <= i < n ==> i in Range(n)
    ensures forall p, q :: 0 <= p < q < |Range(n)| ==> Range(n)[p] != Range(n)[q]
  {
    forall i | 0 <= i < n ensures i in Range(n) {
      assert Range(n)[i] == i;
    }
  }

  /** The walk so far: distinct indices below n, holding exactly those of
      the rows before r and the first c columns of row r. */
  ghost predicate Walked(order: seq<nat>, n: nat, rows: nat, r: nat, c: nat) {
    rows > 0 &&
    (forall p, q :: 0 <= p < q < |order| ==> order[p] != order[q]) &&
    (forall k :: 0 <= k < |order| ==> order[k] < n) &&
    (forall x: nat :: x in order <==> x < n && (x % rows < r || (x % rows == r && x / rows < c)))
  }

  /** Taking idx = r + c * rows extends the walk by one column. */
  lemma WalkStep(order: seq<nat>, n: nat, rows: nat, r: nat, c: nat)
    requires r < rows && Walked(order, n, rows, r, c) && r + c * rows < n
    ensures Walked(order + [r + c * rows], n, rows, r, c + 1)
  {
    var idx := r + c * rows;
    CellOf(r, c, rows);
    var o := order + [idx];
    forall x: nat
      ensures x in o <==> x < n && (x % rows < r || (x % rows == r && x / rows < c + 1))
    {
      assert x == (x / rows) * rows + x % rows;
    }
    assert idx !in order;
  }

  /** Once idx passes the last name, no later column of the row holds one. */
  lemma AfterBreak(order: seq<nat>, n: nat, rows: nat, r: nat, c: nat)
    requires r < rows && Walked(order, n, rows, r, c) && r + c * rows >= n
    ensures Walked(order, n, rows, r + 1, 0)
  {
    forall x: nat | x % rows == r && x / rows >= c
      ensures x >= n
    {
      ColumnBound(x, rows, c);
    }
  }

  /** A row walked across all columns holds every name of that row. */
  lemma RowDone(order: seq<nat>, n: nat, rows: nat, cols: nat, r: nat)
    requires r < rows && rows * cols >= n && Walked(order, n, rows, r, cols)
    ensures Walked(order, n, rows, r + 1, 0)
  {
    forall x: nat | x < n && x % rows == r
      ensures x / rows < cols
    {
      RowBound(x, rows, cols);
    }
  }

  /** After the last row every name has been visited. */
  lemma WalkDone(order: seq<nat>, n: nat, rows: nat, cols: nat, r: nat)
    requires rows * cols >= n && r == rows
    requires if rows == 0 then order == [] else Walked(order, n, rows, r, 0)
    ensures forall k :: 0 <= k < |order| ==> order[k] < n
    ensures forall i :: 0 <= i < n ==> i in order
    ensures forall p, q :: 0 <= p < q < |order| ==> order[p] != order[q]
  {
    if rows > 0 {
      forall i | 0 <= i < n ensures i in order {
        assert i % rows < rows;
      }
    }
  }

  /** An index in column c or later is at least x % rows + c * rows. */
  lemma ColumnBound(x: nat, rows: nat, c: nat)
    requires rows > 0 && x / rows >= c
    ensures x >= x % rows + c * rows
  {
    MulMono(c, x / rows, rows);
    assert x == (x / rows) * rows + x % rows;
  }

  /** An index below rows * cols lies in one of the cols columns. */
  lemma RowBound(x: nat, rows: nat, cols: nat)
    requires rows > 0 && x < rows * cols
    ensures x / rows < cols
  {
    assert x == (x / rows) * rows + x % rows;
    MulLess(x / rows, cols, rows);
  }

  lemma MulMono(a: nat, b: nat, k: nat)
    requires a <= b
    ensures a * k <= b * k
  {
  }

  lemma MulLess(a: nat, b: nat, k: nat)
    requires a * k < b * k
    ensures a < b
  {
    if b <= a {
      MulMono(b, a, k);
    }
  }

  /** The padding after a cell that is followed by another one: up to the
      cell width, or the gap of two when the cell is already full. */
  function Pad(cellw: nat, printed: nat): (pad: nat)
    ensures printed < cellw ==> printed + pad == cellw
    ensures printed >= cellw ==> pad == 2
  {
    if cellw > printed then cellw - printed else 2
  }

  // ---------------------------------------------------------------- options

  /** `struct opts`. */
  datatype Opts = Opts(l: bool, i: bool, n: bool, R: bool, a: bool, d: bool, color: int)

  /** How the option loop of `main` ends: listing goes on with the options,
      or the program stops with exit status 2. */
  datatype Parsed = Run(opts: Opts) | Usage

  /** The letters of "linRad". */
  predicate IsOptionLetter(c: char) {
    c == 'l' || c == 'i' || c == 'n' || c == 'R' || c == 'a' || c == 'd'
  }

  /** An argument the loop accepts: it starts with '-' and every later
      character is an option letter ("-" alone among them). "--" is not one,
      since '-' is no option letter; it is the end of the options, Stop. */
  predicate ValidArg(s: string) {
    |s| > 0 && s[0] == '-' && forall k :: 1 <= k < |s| ==> IsOptionLetter(s[k])
  }

  /** The index of the first "--", or the number of arguments. */
  function Stop(args: seq<string>): (k: nat)
    ensures k <= |args|
    ensures forall j :: 0 <= j < k ==> args[j] != "--"
    ensures k < |args| ==> args[k] == "--"
  {
    if |args| == 0 || args[0] == "--" then 0 else 1 + Stop(args[1..])
  }

  /** Everything after the first "--" is ignored. */
  lemma {:induction false} StopAtFirstDashDash(pre: seq<string>, rest: seq<string>)
    requires "--" !in pre
    ensures Stop(pre + ["--"] + rest) == |pre|
  {
    if |pre| > 0 {
      assert (pre + ["--"] + rest)[1..] == pre[1..] + ["--"] + rest;
      StopAtFirstDashDash(pre[1..], rest);
    }
  }

  /** The option letters of one argument: its characters after the '-'. */
  function ArgLetters(s: string): set<char> {
    set k | 1 <= k < |s| :: s[k]
  }

  /** The option letters of a sequence of arguments. */
  function Letters(args: seq<string>): set<char> {
    if |args| == 0 then {} else Letters(args[..|args| - 1]) + ArgLetters(args[|args| - 1])
  }

  /** The options a set of letters turns on. -n turns on -l as well. */
  function OptsFrom(letters: set<char>, color: int): (o: Opts)
    ensures o.n ==> o.l
  {
    Opts('l' in letters || 'n' in letters, 'i' in letters, 'n' in letters,
         'R' in letters, 'a' in letters, 'd' in letters, color)
  }

  /** The option loop of `main`, after `opts.color` is set from MYLS_COLOR.
      `args` are the arguments after the program name; C strings hold no
      NUL. An argument that does not start with '-' or holds a letter other
      than l, i, n, R, a and d ends the program with status 2; "--" ends the
      loop. */
  method ParseArgs(args: seq<string>, env: Option<string>) returns (p: Parsed)
    requires forall k :: 0 <= k < |args| ==> NUL !in args[k]
    ensures p.Usage? <==> exists k :: 0 <= k < Stop(args) && !ValidArg(args[k])
    ensures p.Run? ==> p.opts == OptsFrom(Letters(args[..Stop(args)]), ParseColor(env))
  {
    var color := ParseColor(env);
    var o := Opts(false, false, false, false, false, false, color);
    var i := 0;
    while i < |args|
      invariant i <= Stop(args)
      invariant forall k :: 0 <= k < i ==> ValidArg(args[k])
      invariant o == OptsFrom(Letters(args[..i]), color)
    {
      var s := args[i];
      if |s| == 0 || s[0] != '-' {
        assert !ValidArg(args[i]);
        return Usage;
      }
      if s == "--" {
        break;
      }
      var ok;
      ok, o := ScanLetters(s, o, Letters(args[..i]));
      if !ok {
        return Usage;
      }
      assert args[..i + 1][..i] == args[..i];
      i := i + 1;
    }
    return Run(o);
  }

  /** A lone "-n" gives a long listing with numeric ids; "-" alone is accepted
      and sets nothing; a file name or "-x" is refused. */
  lemma OptionExamples()
    ensures ValidArg("-n") && OptsFrom(Letters(["-n"]), 1) == Opts(true, false, true, false, false, false, 1)
    ensures ValidArg("-") && Letters(["-"]) == {}
    ensures !ValidArg("file") && !ValidArg("-x") && !ValidArg("")
  {
    assert Letters(["-n"]) == Letters([]) + ArgLetters("-n");
    assert "-n"[1] == 'n';
    assert ArgLetters("-n") == {'n'};
    assert Letters(["-"]) == Letters([]) + ArgLetters("-");
    assert "-x"[1] == 'x';
  }

  /** The inner `for (j = 1; s[j]; j++)` loop over one argument: each option
      letter sets its flag; any other character stops the scan. */
  method ScanLetters(s: string, o0: Opts, ghost before: set<char>) returns (ok: bool, o: Opts)
    requires |s| > 0 && s[0] == '-' && o0 == OptsFrom(before, o0.color)
    ensures ok <==> ValidArg(s)
    ensures ok ==> o == OptsFrom(before + ArgLetters(s), o0.color)
  {
    o := o0;
    var j := 1;
    ghost var seen := before;
    while j < |s|
      invariant 1 <= j <= |s|
      invariant forall k :: 1 <= k < j ==> IsOptionLetter(s[k])
      invariant seen == before + ArgLetters(s[..j])
      invariant o == OptsFrom(seen, o0.color)
    {
      ArgLettersStep(s, j);
      seen := seen + {s[j]};
      match s[j] {
        case 'l' => o := o.(l := true);
        case 'i' => o := o.(i := true);
        case 'n' => o := o.(n := true, l := true);
        case 'R' => o := o.(R := true);
        case 'a' => o := o.(a := true);
        case 'd' => o := o.(d := true);
        case _ => return false, o;
      }
      j := j + 1;
    }
    assert s[..j] == s;
    return true, o;
  }

  lemma ArgLettersStep(s: string, j: nat)
    requires 1 <= j < |s|
    ensures ArgLetters(s[..j + 1]) == ArgLetters(s[..j]) + {s[j]}
  {
    assert forall k :: 1 <= k < j ==> s[..j + 1][k] == s[..j][k];
  }
}
