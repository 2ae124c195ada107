/** The `cp` of Lesson_3/lesson3_my_cp.c: path joining, the overwrite
    question, the checks `copy_file` makes before copying, the read/write
    loop and the operand dispatch of `main`. What the system calls answer
    is given as data. */
module Cp {
  import opened Common

  const PATH_MAX: nat := 4096

  // ------------------------------------------------------------- join_path

  /** What `snprintf(out, outsz, …)` leaves in `out`: the text cut to
      outsz - 1 characters. */
  function Truncate(s: string, outsz: nat): (r: string)
    requires outsz > 0
    ensures r <= s && |r| == if |s| < outsz then |s| else outsz - 1
  {
    if |s| < outsz then s else s[..outsz - 1]
  }

  /** `join_path`: `dir` and `name` with one '/' between them, unless `dir`
      already ends in '/'. */
  function JoinPath(dir: string, name: string, outsz: nat): (out: string)
    requires outsz > 0
    ensures |out| < outsz
  {
    var dl := |dir|;
    if dl > 0 && dir[dl - 1] == '/' then Truncate(dir + name, outsz)
    else Truncate(dir + "/" + name, outsz)
  }

  /** `dir` without one trailing '/'. */
  function DropSlash(dir: string): string {
    if |dir| > 0 && dir[|dir| - 1] == '/' then dir[..|dir| - 1] else dir
  }

  /** A joined path that fits is the directory (one trailing slash dropped),
      a single '/', and the name; an empty directory gives "/" + name. */
  lemma JoinPathShape(dir: string, name: string, outsz: nat)
    requires |dir| + 1 + |name| < outsz
    ensures JoinPath(dir, name, outsz) == DropSlash(dir) + "/" + name
    ensures dir == "" ==> JoinPath(dir, name, outsz) == "/" + name
  {
    if |dir| > 0 && dir[|dir| - 1] == '/' {
      assert dir == dir[..|dir| - 1] + "/";
    }
  }

  /** A joined path that does not fit is the first outsz - 1 characters of
      the one that would. */
  lemma JoinPathTruncates(dir: string, name: string, outsz: nat)
    requires outsz > 0
    ensures JoinPath(dir, name, outsz) <= DropSlash(dir) + "/" + name
    ensures |JoinPath(dir, name, outsz)| == if |DropSlash(dir) + "/" + name| < outsz
      then |DropSlash(dir) + "/" + name| else outsz - 1
  {
    if |dir| > 0 && dir[|dir| - 1] == '/' {
      assert dir == dir[..|dir| - 1] + "/";
      assert dir + name == DropSlash(dir) + "/" + name;
    }
  }

  // ------------------------------------------------------------- basename

  /** The length of `p` without its trailing slashes. */
  function StripLen(p: string, k: nat): (n: nat)
    requires k <= |p|
    ensures n <= k && (forall i :: n <= i < k ==> p[i] == '/') && (n > 0 ==> p[n - 1] != '/')
  {
    if k == 0 || p[k - 1] != '/' then k else StripLen(p, k - 1)
  }

  /** The start of the last component of `p[..k]`: just after its last '/'. */
  function ComponentStart(p: string, k: nat): (s: nat)
    requires k <= |p|
    ensures s <= k && (forall i :: s <= i < k ==> p[i] != '/') && (s > 0 ==> p[s - 1] == '/')
  {
    if k == 0 || p[k - 1] == '/' then k else ComponentStart(p, k - 1)
  }

  /** POSIX `basename` (<libgen.h>): "." for the empty path, "/" for a path
      of slashes only, otherwise the last component without trailing
      slashes. */
  function Basename(p: string): (b: string)
    ensures |b| > 0 && (b == "/" || '/' !in b)
  {
    if |p| == 0 then "."
    else
      var n := StripLen(p, |p|);
      if n == 0 then "/" else p[ComponentStart(p, n)..n]
  }

  /** The base name of dir/name is name, whatever the directory and however
      many slashes end the path. */
  lemma BasenameOfJoin(dir: string, name: string, slashes: nat)
    requires |name| > 0 && '/' !in name
    ensures Basename(dir + "/" + name + Repeat('/', slashes)) == name
  {
    var p := dir + "/" + name + Repeat('/', slashes);
    var e := |dir| + 1 + |name|;
    assert p[..e] == dir + "/" + name;
    assert p[e - 1] == name[|name| - 1];
    StripLenAt(p, e);
    ComponentStartAt(p, |dir| + 1, e);
    assert p[|dir| + 1..e] == name;
  }

  function Repeat(c: char, n: nat): (s: string)
    ensures |s| == n && forall i :: 0 <= i < n ==> s[i] == c
  {
    if n == 0 then [] else Repeat(c, n - 1) + [c]
  }

  lemma {:induction false} StripLenAt(p: string, e: nat)
    requires 0 < e <= |p| && p[e - 1] != '/' && forall i :: e <= i < |p| ==> p[i] == '/'
    ensures StripLen(p, |p|) == e
  {
    StripLenFrom(p, e, |p|);
  }

  lemma {:induction false} StripLenFrom(p: string, e: nat, k: nat)
    requires 0 < e <= k <= |p| && p[e - 1] != '/' && forall i :: e <= i < k ==> p[i] == '/'
    ensures StripLen(p, k) == e
    decreases k
  {
    if k > e {
      StripLenFrom(p, e, k - 1);
    }
  }

  lemma {:induction false} ComponentStartAt(p: string, s: nat, k: nat)
    requires 0 < s <= k <= |p| && p[s - 1] == '/' && forall i :: s <= i < k ==> p[i] != '/'
    ensures ComponentStart(p, k) == s
    decreases k
  {
    if k > s {
      ComponentStartAt(p, s, k - 1);
    }
  }

  /** `filename_of`: the path is first cut to PATH_MAX - 1 characters in a
      scratch buffer, then given to `basename`. */
  function FilenameOf(path: string): string {
    Basename(Truncate(path, PATH_MAX))
  }

  // ------------------------------------------------------ confirm_overwrite

  /** The position of the first '\n' of `s`, or |s|. */
  function LineEnd(s: seq<char>): (k: nat)
    ensures k <= |s| && (forall i :: 0 <= i < k ==> s[i] != '\n') && (k < |s| ==> s[k] == '\n')
  {
    if |s| == 0 || s[0] == '\n' then 0 else 1 + LineEnd(s[1..])
  }

  /** The input after its first line, the '\n' included; nothing if no line
      ends. */
  function AfterLine(s: seq<char>): seq<char> {
    var k := LineEnd(s);
    if k < |s| then s[k + 1..] else []
  }

  /** `confirm_overwrite`: `input` is what standard input still holds; its
      end is EOF. The answer is yes exactly when the first character is 'y'
      or 'Y', and the rest of that line is read away. */
  method ConfirmOverwrite(input: seq<char>) returns (yes: bool, rest: seq<char>)
    ensures yes <==> |input| > 0 && (input[0] == 'y' || input[0] == 'Y')
    ensures rest == AfterLine(input)
  {
    if |input| == 0 {
      return false, [];
    }
    var c := input[0];
    var p := 1;
    if c != '\n' {
      while p < |input| && input[p] != '\n'
        invariant 1 <= p <= |input|
        invariant forall i :: 0 <= i < p ==> input[i] != '\n'
      {
        p := p + 1;
      }
      LineEndAt(input, p);
      if p < |input| {
        p := p + 1;
      }
    } else {
      LineEndAt(input, 0);
    }
    rest := input[p..];
    yes := c == 'y' || c == 'Y';
  }

  /** A run of non-newlines closed by a newline or by the end of the input
      fixes LineEnd. */
  lemma {:induction false} LineEndAt(s: seq<char>, k: nat)
    requires k <= |s| && (forall i :: 0 <= i < k ==> s[i] != '\n') && (k < |s| ==> s[k] == '\n')
    ensures LineEnd(s) == k
  {
    if k > 0 {
      LineEndAt(s[1..], k - 1);
    }
  }

  // ------------------------------------------------------------- copy_file

  /** What `fstat`/`stat` report: the mode, device and inode. */
  datatype Stat = Stat(mode: Mode, dev: nat, ino: nat)

  /** Both are regular files with the same device and inode. */
  predicate SameFile(s: Stat, d: Stat) {
    IsReg(s.mode) && IsReg(d.mode) && s.dev == d.dev && s.ino == d.ino
  }

  /** The answers a chunk's `write` calls get: each writes at most what it
      was given, and the list reaches an end, all bytes written or a
      negative result. */
  predicate Finishes(left: nat, writes: seq<int>)
    decreases |writes|
  {
    left == 0 || (|writes| > 0 && (writes[0] < 0 || (writes[0] <= left && Finishes(left - writes[0], writes[1..]))))
  }

  /** The chunk is written completely, with no failing `write`. */
  predicate WriteOk(left: nat, writes: seq<int>)
    decreases |writes|
  {
    left == 0 || (|writes| > 0 && writes[0] >= 0 && writes[0] <= left && WriteOk(left - writes[0], writes[1..]))
  }

  predicate AllOk(chunks: seq<seq<Byte>>, writes: seq<seq<int>>)
    requires |writes| >= |chunks|
  {
    forall j :: 0 <= j < |chunks| ==> WriteOk(|chunks[j]|, writes[j])
  }

  /** The copy loop of `copy_file`: `chunks` are the successive positive
      results of `read`, after which `read` returns 0, or -1 when
      `readFails`; `writes[j]` are the results of the `write` calls for
      chunk j. `out` is what reaches the destination. */
  method CopyData(chunks: seq<seq<Byte>>, readFails: bool, writes: seq<seq<int>>)
    returns (rc: int, out: seq<Byte>)
    requires forall j :: 0 <= j < |chunks| ==> |chunks[j]| > 0
    requires |writes| >= |chunks| && forall j :: 0 <= j < |chunks| ==> Finishes(|chunks[j]|, writes[j])
    ensures rc == 0 || rc == -1
    ensures out <= Flatten(chunks)
    ensures out == Flatten(chunks) <==> AllOk(chunks, writes)
    ensures rc == 0 <==> !readFails && AllOk(chunks, writes)
  {
    out := [];
    var j := 0;
    while j < |chunks|
      invariant j <= |chunks| && out == Flatten(chunks[..j])
      invariant forall i :: 0 <= i < j ==> WriteOk(|chunks[i]|, writes[i])
    {
      var buf := chunks[j];
      var n := |buf|;
      var off: nat := 0;
      var k: nat := 0;
      while off < n
        invariant off <= n && k <= |writes[j]|
        invariant out == Flatten(chunks[..j]) + buf[..off]
        invariant Finishes(n - off, writes[j][k..])
        invariant WriteOk(n, writes[j]) <==> WriteOk(n - off, writes[j][k..])
        decreases |writes[j]| - k
      {
        var w := writes[j][k];
        assert writes[j][k..][1..] == writes[j][k + 1..];
        if w < 0 {
          FlattenPrefixBreak(chunks, j, off);
          assert !AllOk(chunks, writes);
          return -1, out;
        }
        out := out + buf[off..off + w];
        assert buf[..off + w] == buf[..off] + buf[off..off + w];
        off := off + w;
        k := k + 1;
      }
      assert buf[..off] == buf;
      FlattenStep(chunks, j);
      j := j + 1;
    }
    assert chunks[..j] == chunks;
    if readFails {
      return -1, out;
    }
    return 0, out;
  }

  /** Stopping inside chunk j leaves a proper prefix of the whole input. */
  lemma FlattenPrefixBreak(chunks: seq<seq<Byte>>, j: nat, off: nat)
    requires j < |chunks| && off < |chunks[j]|
    ensures Flatten(chunks[..j]) + chunks[j][..off] < Flatten(chunks)
  {
    FlattenStep(chunks, j);
    FlattenPrefix(chunks, j + 1);
  }

  /** The bytes of the first j chunks begin the bytes of all of them. */
  lemma {:induction false} FlattenPrefix(chunks: seq<seq<Byte>>, j: nat)
    requires j <= |chunks|
    ensures Flatten(chunks[..j]) <= Flatten(chunks)
    decreases |chunks| - j
  {
    if j < |chunks| {
      FlattenStep(chunks, j);
      FlattenPrefix(chunks, j + 1);
    } else {
      assert chunks[..j] == chunks;
    }
  }

  /** How `open(dst, O_WRONLY | O_CREAT | O_TRUNC)` answers: it succeeds, or
      it fails, with ENOENT or with another error. */
  datatype OpenResult = Opened | Refused(enoent: bool)

  /** What the system calls of one `copy_file` answer. `src` is `None` when
      `open(src)` fails, otherwise the `fstat` of the descriptor; `dst` is
      the `stat` of the destination, `None` when it fails; `reopenOk` is the
      answer of the second `open` after `unlink` under -f; the copy loop
      sees `chunks`, `readFails` and `writes` as in CopyData; `closeOk` is
      the answer of `close` on the destination. */
  datatype CopyEnv = CopyEnv(
    src: Option<Stat>, dst: Option<Stat>, open1: OpenResult, reopenOk: bool,
    chunks: seq<seq<Byte>>, readFails: bool, writes: seq<seq<int>>, closeOk: bool)

  /** The answers of the copy loop are well formed (see CopyData). */
  predicate LoopWellFormed(e: CopyEnv) {
    (forall j :: 0 <= j < |e.chunks| ==> |e.chunks[j]| > 0) &&
    |e.writes| >= |e.chunks| && forall j :: 0 <= j < |e.chunks| ==> Finishes(|e.chunks[j]|, e.writes[j])
  }

  /** The first character read answers yes. */
  predicate Yes(input: seq<char>) {
    |input| > 0 && (input[0] == 'y' || input[0] == 'Y')
  }

  /** `copy_file` asks before overwriting: the source opened and is no
      directory, the destination exists and is not the same file, and -i
      is on. */
  predicate Asks(e: CopyEnv, optI: bool) {
    e.src.Some? && !IsDir(e.src.value.mode) && e.dst.Some? && !SameFile(e.src.value, e.dst.value) && optI
  }

  /** `copy_file` gets as far as opening the destination. */
  predicate Proceeds(e: CopyEnv, optI: bool, input: seq<char>) {
    e.src.Some? && !IsDir(e.src.value.mode) &&
    !(e.dst.Some? && SameFile(e.src.value, e.dst.value)) &&
    !(Asks(e, optI) && !Yes(input))
  }

  /** The destination opens, at once or, under -f after an error other than
      ENOENT, after `unlink`. */
  predicate DstOpens(e: CopyEnv, optF: bool) {
    e.open1.Opened? || (optF && !e.open1.enoent && e.reopenOk)
  }

  /** `copy_file`. `rc` is its return value, `dest` the new contents of the
      destination (`None`: not opened, so untouched) and `rest` what is left
      of standard input. A directory source, and a source and destination
      that are the same regular file, are refused before anything is
      opened for writing; a "no" to the question skips the file with 0. */
  method CopyFile(e: CopyEnv, optF: bool, optI: bool, input: seq<char>)
    returns (rc: int, dest: Option<seq<Byte>>, rest: seq<char>)
    requires LoopWellFormed(e)
    ensures rc == 0 || rc == -1
    ensures rest == if Asks(e, optI) then AfterLine(input) else input
    ensures dest.Some? <==> Proceeds(e, optI, input) && DstOpens(e, optF)
    ensures dest.Some? ==> dest.value <= Flatten(e.chunks)
    ensures rc == 0 <==> ((Asks(e, optI) && !Yes(input)) ||
      (Proceeds(e, optI, input) && DstOpens(e, optF) && !e.readFails && AllOk(e.chunks, e.writes) && e.closeOk))
    ensures rc == 0 && dest.Some? ==> dest.value == Flatten(e.chunks)
  {
    rest := input;
    dest := None;
    if e.src.None? {
      return -1, dest, rest;
    }
    var st := e.src.value;
    if IsDir(st.mode) {
      return -1, dest, rest;
    }
    if e.dst.Some? {
      if SameFile(st, e.dst.value) {
        return -1, dest, rest;
      }
      if optI {
        var yes;
        yes, rest := ConfirmOverwrite(input);
        if !yes {
          return 0, dest, rest;
        }
      }
    }
    var outOk := e.open1.Opened?;
    if !outOk {
      if optF && !e.open1.enoent {
        outOk := e.reopenOk;
      }
      if !outOk {
        return -1, dest, rest;
      }
    }
    var r, out := CopyData(e.chunks, e.readFails, e.writes);
    dest := Some(out);
    if r != 0 {
      return -1, dest, rest;
    }
    if !e.closeOk {
      return -1, dest, rest;
    }
    return 0, dest, rest;
  }

  /** A source that is the destination itself is never copied onto it. */
  lemma SameFileRefused(e: CopyEnv, optI: bool, input: seq<char>)
    requires e.src.Some? && e.dst.Some? && SameFile(e.src.value, e.dst.value)
    ensures !Proceeds(e, optI, input) && !Asks(e, optI)
  {
  }

  // ------------------------------------------------------------------ main

  /** The copies of the SRC... DIR form: each source to the directory joined
      with its base name. */
  function Targets(srcs: seq<string>, dir: string): (t: seq<(string, string)>)
    ensures |t| == |srcs|
    ensures forall i :: 0 <= i < |srcs| ==> t[i] == Target(srcs[i], dir)
  {
    if |srcs| == 0 then []
    else Targets(srcs[..|srcs| - 1], dir) + [Target(srcs[|srcs| - 1], dir)]
  }

  /** The copy `main` makes of `src` into the directory `dir`. */
  function Target(src: string, dir: string): (string, string) {
    (src, JoinPath(dir, FilenameOf(src), PATH_MAX))
  }

  /** Every copy in `tried` succeeded. */
  predicate AllCopied(tried: seq<(string, string)>, copy: (string, string) -> bool) {
    forall k :: 0 <= k < |tried| ==> copy(tried[k].0, tried[k].1)
  }

  /** The operand dispatch of `main`, after option parsing. `operands` are
      the arguments after the options, `destIsDir` whether `stat` finds the
      last one to be a directory, and `copy(src, dst)` whether that
      `copy_file` returns 0. `tried` are the copies made, in order. */
  method Dispatch(operands: seq<string>, destIsDir: bool, copy: (string, string) -> bool)
    returns (exit: int, tried: seq<(string, string)>)
    ensures exit == 0 || exit == 1
    ensures |operands| < 2 ==> exit == 1 && tried == []
    ensures |operands| == 2 && !destIsDir ==>
      tried == [(operands[0], operands[1])] && (exit == 0 <==> copy(operands[0], operands[1]))
    ensures |operands| > 2 && !destIsDir ==> exit == 1 && tried == []
    ensures |operands| >= 2 && destIsDir ==>
      CopiedInOrder(Targets(operands[..|operands| - 1], operands[|operands| - 1]), copy, exit, tried)
  {
    tried := [];
    if |operands| < 2 {
      return 1, tried;
    }
    var dest := operands[|operands| - 1];
    if |operands| == 2 && !destIsDir {
      tried := [(operands[0], dest)];
      return if copy(operands[0], dest) then 0 else 1, tried;
    }
    if !destIsDir {
      return 1, tried;
    }
    exit, tried := CopyAll(operands[..|operands| - 1], dest, copy);
  }

  /** The copies `all` made in order up to the first failure: `tried` is a
      prefix of `all` whose every copy but the last succeeded; the exit
      status is 0 exactly when all were made and succeeded, and 1 only after
      a failure. */
  predicate CopiedInOrder(all: seq<(string, string)>, copy: (string, string) -> bool, exit: int, tried: seq<(string, string)>) {
    tried <= all && (|tried| > 0 ==> AllCopied(tried[..|tried| - 1], copy)) &&
    (exit == 0 <==> tried == all && AllCopied(tried, copy)) &&
    (exit == 1 ==> |tried| > 0 && !copy(tried[|tried| - 1].0, tried[|tried| - 1].1))
  }

  /** The SRC... DIR loop of `main`. */
  method CopyAll(srcs: seq<string>, dir: string, copy: (string, string) -> bool)
    returns (exit: int, tried: seq<(string, string)>)
    ensures exit == 0 || exit == 1
    ensures CopiedInOrder(Targets(srcs, dir), copy, exit, tried)
  {
    ghost var all := Targets(srcs, dir);
    tried := [];
    var i := 0;
    while i < |srcs|
      invariant i <= |srcs| && tried == all[..i] && AllCopied(tried, copy)
    {
      var t := Target(srcs[i], dir);
      ghost var before := tried;
      tried := tried + [t];
      assert tried == all[..i + 1] && tried[..i] == before;
      if !copy(t.0, t.1) {
        return 1, tried;
      }
      i := i + 1;
    }
    assert all[..i] == all;
    return 0, tried;
  }
}
