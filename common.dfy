/** Definitions shared by several of the programs: bytes, an optional value,
    the C-locale character classes and the reading of a NUL-terminated C
    string out of a character buffer. */
module Common {

  /** An `unsigned char`. */
  type Byte = x: int | 0 <= x < 256

  datatype Option<T> = None | Some(value: T)

  const NUL: char := '\0'

  /** `isspace` in the C locale: space, \t, \n, \v, \f and \r. */
  predicate IsSpace(c: char) {
    c == ' ' || ('\t' <= c <= '\r')
  }

  /** `isspace` applied to an `unsigned char`. */
  predicate IsSpaceByte(b: Byte) {
    b == 32 || (9 <= b <= 13)
  }

  /** `strlen` of the C string that starts at `p` in the buffer `s`; the end of
      the buffer counts as a terminator, so the function is total. */
  function Strlen(s: seq<char>, p: nat): (n: nat)
    requires p <= |s|
    ensures p + n <= |s|
    ensures forall k :: p <= k < p + n ==> s[k] != NUL
    ensures p + n < |s| ==> s[p + n] == NUL
    decreases |s| - p
  {
    if p == |s| || s[p] == NUL then 0 else 1 + Strlen(s, p + 1)
  }

  /** The characters of the C string that starts at `p`. */
  function CStr(s: seq<char>, p: nat): seq<char>
    requires p <= |s|
  {
    s[p .. p + Strlen(s, p)]
  }

  /** The buffer holds a NUL at or after `p`: the C string at `p` is terminated
      inside the buffer, so reading it never leaves the buffer. */
  predicate Terminated(s: seq<char>, p: nat) {
    exists z :: p <= z < |s| && s[z] == NUL
  }

  /** A run of non-NUL characters closed by a NUL is exactly the C string. */
  lemma {:induction false} StrlenAt(s: seq<char>, p: nat, n: nat)
    requires p + n < |s| && s[p + n] == NUL
    requires forall k :: p <= k < p + n ==> s[k] != NUL
    ensures Strlen(s, p) == n
    ensures CStr(s, p) == s[p .. p + n]
  {
  }

  /** A terminated C string ends strictly inside the buffer. */
  lemma TerminatedStrlen(s: seq<char>, p: nat)
    requires p <= |s| && Terminated(s, p)
    ensures p + Strlen(s, p) < |s|
  {
    var z :| p <= z < |s| && s[z] == NUL;
    assert p + Strlen(s, p) <= z;
  }

  /** Two buffers that agree on a C string and its terminator hold the same
      C string there. */
  lemma CStrFrame(s: seq<char>, t: seq<char>, p: nat)
    requires p <= |s| && p + Strlen(s, p) < |s| && |t| == |s|
    requires forall k :: p <= k <= p + Strlen(s, p) ==> t[k] == s[k]
    ensures Strlen(t, p) == Strlen(s, p) && CStr(t, p) == CStr(s, p)
  {
    StrlenAt(t, p, Strlen(s, p));
  }

  /** The sum of a sequence of counts (the total of the cooks' `pizzas_to_make`). */
  function Sum(counts: seq<int>): int {
    if |counts| == 0 then 0 else Sum(counts[..|counts| - 1]) + counts[|counts| - 1]
  }

  /** A prefix of non-negative counts sums to no more than all of them. */
  lemma {:induction false} SumPrefix(counts: seq<nat>, c: nat)
    requires c <= |counts|
    ensures Sum(counts[..c]) <= Sum(counts)
  {
    if c < |counts| {
      var front := counts[..|counts| - 1];
      assert front[..c] == counts[..c];
      SumPrefix(front, c);
    } else {
      assert counts[..c] == counts;
    }
  }

  /** Each cook makes between 1 and `max` pizzas, so the total lies between the
      number of cooks and `max` times that. */
  lemma {:induction false} SumBounds(counts: seq<int>, max: int)
    requires forall i :: 0 <= i < |counts| ==> 1 <= counts[i] <= max
    ensures |counts| <= Sum(counts) <= |counts| * max
  {
    if |counts| > 0 {
      SumBounds(counts[..|counts| - 1], max);
    }
  }

  /** The bytes of successive reads, in order. */
  function Flatten(chunks: seq<seq<Byte>>): seq<Byte> {
    if |chunks| == 0 then [] else Flatten(chunks[..|chunks| - 1]) + chunks[|chunks| - 1]
  }

  /** One more chunk. */
  lemma FlattenStep(chunks: seq<seq<Byte>>, j: nat)
    requires j < |chunks|
    ensures Flatten(chunks[..j + 1]) == Flatten(chunks[..j]) + chunks[j]
  {
    assert chunks[..j + 1][..j] == chunks[..j];
  }

  /** `mode_t`: a 32-bit unsigned value with the Linux bit layout of
      <sys/stat.h>. */
  type Mode = bv32

  const S_IFMT: Mode := 0xF000
  const S_IFSOCK: Mode := 0xC000
  const S_IFLNK: Mode := 0xA000
  const S_IFREG: Mode := 0x8000
  const S_IFBLK: Mode := 0x6000
  const S_IFDIR: Mode := 0x4000
  const S_IFCHR: Mode := 0x2000
  const S_IFIFO: Mode := 0x1000

  predicate IsDir(m: Mode) { m & S_IFMT == S_IFDIR }
  predicate IsLnk(m: Mode) { m & S_IFMT == S_IFLNK }
  predicate IsChr(m: Mode) { m & S_IFMT == S_IFCHR }
  predicate IsBlk(m: Mode) { m & S_IFMT == S_IFBLK }
  predicate IsFifo(m: Mode) { m & S_IFMT == S_IFIFO }
  predicate IsSock(m: Mode) { m & S_IFMT == S_IFSOCK }
  predicate IsReg(m: Mode) { m & S_IFMT == S_IFREG }
}
