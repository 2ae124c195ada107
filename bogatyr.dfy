/** The choir of Bogatyr/lesson13_bogatyr.c: n processes share one System V
    message queue. The one that takes the LOCK token conducts: it gathers
    the registrations, sorts the pids, gives each distinct byte of the song
    to one process (ASSIGN), then for each byte of the song hands the turn
    to its owner (TURN) and waits for the ACK; at the end it sends DONE and
    waits for one BYE from every other process. The others are workers: they
    take their ASSIGN, write their byte on each TURN that carries it, ACK
    every TURN, and say BYE on DONE. */
module Bogatyr {
  import opened Common

  // ---------------------------------------------------------------- messages

  const MT_LOCK: int := 1
  const MT_REG: int := 2
  const MT_ACK: int := 3

  const K_REG: int := 1
  const K_ASSIGN: int := 2
  const K_TURN: int := 3
  const K_DONE: int := 4
  const K_ACK: int := 5
  const K_BYE: int := 6
  const K_LOCK: int := 7

  /** The private mailbox of a process: its pid plus 1000. */
  function MtTo(pid: int): (t: int)
    ensures pid > 0 ==> t > MT_ACK
  {
    pid + 1000
  }

  /** Different processes have different mailboxes. */
  lemma MtToInjective(p: int, q: int)
    ensures MtTo(p) == MtTo(q) <==> p == q
  {
  }

  /** `struct msg`. */
  datatype Msg = Msg(mtype: int, kind: int, pid: int, seqNo: int, ch: Byte)

  // ---------------------------------------------------------------- cmp_pid and qsort

  /** `cmp_pid`: `(pa > pb) - (pa < pb)`, which cannot overflow as `pa - pb`
      could. */
  function CmpPid(a: int, b: int): (r: int)
    ensures r == -1 <==> a < b
    ensures r == 0 <==> a == b
    ensures r == 1 <==> a > b
  {
    (if a > b then 1 else 0) - (if a < b then 1 else 0)
  }

  /** `cmp_pid` is antisymmetric and transitive: an order `qsort` can use. */
  lemma CmpPidOrder(a: int, b: int, c: int)
    ensures CmpPid(a, b) == -CmpPid(b, a)
    ensures CmpPid(a, b) <= 0 && CmpPid(b, c) <= 0 ==> CmpPid(a, c) <= 0
  {
  }

  predicate Sorted(s: seq<int>) {
    forall i, j :: 0 <= i < j < |s| ==> CmpPid(s[i], s[j]) <= 0
  }

  predicate Distinct<T(==)>(s: seq<T>) {
    forall i, j :: 0 <= i < j < |s| ==> s[i] != s[j]
  }

  /** `x` put into the sorted `s` before the first element not below it. */
  function Insert(x: int, s: seq<int>): (r: seq<int>)
    ensures multiset(r) == multiset{x} + multiset(s)
    ensures |r| == |s| + 1
  {
    if |s| == 0 then [x]
    else if CmpPid(x, s[0]) <= 0 then [x] + s
    else
      assert s == [s[0]] + s[1..];
      [s[0]] + Insert(x, s[1..])
  }

  /** `qsort(pids, n, sizeof(pid_t), cmp_pid)`, a library routine, stands for
      any sort by `cmp_pid`; this is an insertion sort. */
  function SortPids(s: seq<int>): (r: seq<int>)
    ensures multiset(r) == multiset(s) && |r| == |s|
  {
    if |s| == 0 then []
    else
      assert s == [s[0]] + s[1..];
      Insert(s[0], SortPids(s[1..]))
  }

  lemma {:induction false} InsertSorted(x: int, s: seq<int>)
    requires Sorted(s)
    ensures Sorted(Insert(x, s))
  {
    if |s| > 0 && CmpPid(x, s[0]) > 0 {
      InsertSorted(x, s[1..]);
      var r := Insert(x, s);
      var t := Insert(x, s[1..]);
      assert r == [s[0]] + t;
      forall j | 0 < j < |r|
        ensures CmpPid(r[0], r[j]) <= 0
      {
        assert r[j] in multiset(t);
        assert r[j] in multiset{x} + multiset(s[1..]);
        if r[j] != x {
          assert r[j] in s[1..];
        }
      }
    }
  }

  /** After `qsort` the pids are ascending, and they are the pids registered. */
  lemma {:induction false} SortPidsSorted(s: seq<int>)
    ensures Sorted(SortPids(s))
    ensures multiset(SortPids(s)) == multiset(s)
  {
    if |s| > 0 {
      SortPidsSorted(s[1..]);
      InsertSorted(s[0], SortPids(s[1..]));
    }
  }

  /** A value occurs at most once in a sequence without repetitions. */
  lemma {:induction false} DistinctCount<T>(s: seq<T>, x: T)
    requires Distinct(s)
    ensures multiset(s)[x] <= 1
  {
    if |s| > 0 {
      assert s == [s[0]] + s[1..];
      DistinctCount(s[1..], x);
      if x == s[0] {
        assert x !in s[1..];
      }
    }
  }

  /** A rearrangement of distinct values has no repetition either. */
  lemma DistinctPerm<T>(s: seq<T>, t: seq<T>)
    requires Distinct(s) && multiset(t) == multiset(s)
    ensures Distinct(t)
  {
    forall i, j | 0 <= i < j < |t|
      ensures t[i] != t[j]
    {
      if t[i] == t[j] {
        assert t == t[..i] + [t[i]] + t[i + 1..j] + [t[j]] + t[j + 1..];
        assert multiset(t)[t[i]] >= 2;
        DistinctCount(s, t[i]);
      }
    }
  }

  // ---------------------------------------------------------------- collect_unique

  /** The distinct bytes of `s`, each once, in the order of their first
      occurrence. */
  function Unique(s: seq<Byte>): seq<Byte> {
    if |s| == 0 then []
    else
      var u := Unique(s[..|s| - 1]);
      if s[|s| - 1] in u then u else u + [s[|s| - 1]]
  }

  /** `collect_unique` on the C string `s` (its bytes, without the NUL): the
      distinct bytes go to `out` in order of first occurrence; when `out` is
      full and another one turns up, the scan stops. The result is how many
      were stored: all of them, or `out.Length`. The rest of `out` is left
      as it was. */
  method CollectUnique(s: seq<Byte>, out: array<Byte>) returns (k: nat)
    modifies out
    ensures |Unique(s)| <= out.Length ==> k == |Unique(s)|
    ensures |Unique(s)| > out.Length ==> k == out.Length
    ensures k <= out.Length && out[..k] == Unique(s)[..k]
    ensures forall t :: k <= t < out.Length ==> out[t] == old(out[t])
  {
    var seen := new bool[256](_ => false);
    k := 0;
    var i: nat := 0;
    CollectStart(s, out[..], seen[..]);
    while i < |s|
      invariant CollectInv(s, i, k, out[..], seen[..])
      invariant forall t :: k <= t < out.Length ==> out[t] == old(out[t])
    {
      var c := s[i];
      if !seen[c] {
        ghost var o0, z0 := out[..], seen[..];
        seen[c] := true;
        if k < out.Length {
          out[k] := c;
          CollectNew(s, i, k, o0, z0, out[..], seen[..]);
          k := k + 1;
        } else {
          CollectFull(s, i, k, o0, z0);
          return;
        }
      } else {
        CollectSeen(s, i, k, out[..], seen[..]);
      }
      i := i + 1;
    }
    CollectEnd(s, k, out[..], seen[..]);
  }

  /** The loop invariant of CollectUnique, on snapshots of `out` and `seen`:
      the bytes collected so far are the distinct bytes of `s[..i]`, and
      `seen` marks exactly them. */
  ghost predicate CollectInv(s: seq<Byte>, i: nat, k: nat, o: seq<Byte>, seen: seq<bool>) {
    i <= |s| && |seen| == 256 && k == |Unique(s[..i])| <= |o| && o[..k] == Unique(s[..i]) &&
    forall c :: 0 <= c < 256 ==> (seen[c] <==> c in Unique(s[..i]))
  }

  lemma CollectStart(s: seq<Byte>, o: seq<Byte>, seen: seq<bool>)
    requires |seen| == 256 && forall c :: 0 <= c < 256 ==> !seen[c]
    ensures CollectInv(s, 0, 0, o, seen)
  {
    assert s[..0] == [];
  }

  lemma CollectSeen(s: seq<Byte>, i: nat, k: nat, o: seq<Byte>, seen: seq<bool>)
    requires CollectInv(s, i, k, o, seen) && i < |s| && seen[s[i]]
    ensures CollectInv(s, i + 1, k, o, seen)
  {
    UniqueStep(s, i);
  }

  lemma CollectNew(s: seq<Byte>, i: nat, k: nat, o: seq<Byte>, seen: seq<bool>, o1: seq<Byte>, seen1: seq<bool>)
    requires CollectInv(s, i, k, o, seen) && i < |s| && !seen[s[i]] && k < |o|
    requires o1 == o[k := s[i]] && seen1 == seen[s[i] := true]
    ensures CollectInv(s, i + 1, k + 1, o1, seen1)
  {
    UniqueStep(s, i);
    assert o1[..k + 1] == o[..k] + [s[i]];
  }

  lemma CollectFull(s: seq<Byte>, i: nat, k: nat, o: seq<Byte>, seen: seq<bool>)
    requires CollectInv(s, i, k, o, seen) && i < |s| && !seen[s[i]] && k == |o|
    ensures |Unique(s)| > |o| && o[..k] == Unique(s)[..k]
  {
    UniqueStep(s, i);
    UniquePrefix(s, i + 1);
  }

  lemma CollectEnd(s: seq<Byte>, k: nat, o: seq<Byte>, seen: seq<bool>)
    requires CollectInv(s, |s|, k, o, seen)
    ensures k == |Unique(s)| <= |o| && o[..k] == Unique(s)[..k]
  {
    assert s[..|s|] == s;
  }

  /** One more byte: what the loop body of CollectUnique adds. */
  lemma UniqueStep(s: seq<Byte>, i: nat)
    requires i < |s|
    ensures Unique(s[..i + 1]) == if s[i] in Unique(s[..i]) then Unique(s[..i]) else Unique(s[..i]) + [s[i]]
  {
    assert s[..i + 1][..i] == s[..i];
  }

  /** The distinct bytes of a prefix begin the distinct bytes of the whole. */
  lemma {:induction false} UniquePrefix(s: seq<Byte>, i: nat)
    requires i <= |s|
    ensures |Unique(s[..i])| <= |Unique(s)| && Unique(s)[..|Unique(s[..i])|] == Unique(s[..i])
    decreases |s| - i
  {
    if i < |s| {
      UniquePrefix(s, i + 1);
      UniqueStep(s, i);
    } else {
      assert s[..i] == s;
    }
  }

  /** Each byte is collected once. */
  lemma {:induction false} UniqueDistinct(s: seq<Byte>)
    ensures Distinct(Unique(s))
  {
    if |s| > 0 {
      UniqueDistinct(s[..|s| - 1]);
    }
  }

  /** The collected bytes are exactly the bytes of the song. */
  lemma {:induction false} UniqueMembers(s: seq<Byte>)
    ensures forall c :: c in Unique(s) <==> c in s
  {
    if |s| > 0 {
      var t := s[..|s| - 1];
      UniqueMembers(t);
      assert s == t + [s[|s| - 1]];
    }
  }

  /** Index of the first occurrence of `c` in `s`. */
  function First(s: seq<Byte>, c: Byte): (i: nat)
    requires c in s
    ensures i < |s| && s[i] == c
    ensures forall k :: 0 <= k < i ==> s[k] != c
  {
    if s[0] == c then 0 else 1 + First(s[1..], c)
  }

  /** The first occurrence is the one with no earlier occurrence. */
  lemma FirstAt(s: seq<Byte>, c: Byte, i: nat)
    requires i < |s| && s[i] == c && forall k :: 0 <= k < i ==> s[k] != c
    ensures First(s, c) == i
  {
  }

  /** First occurrences are not moved by appending. */
  lemma FirstSnoc(t: seq<Byte>, x: Byte, c: Byte)
    requires c in t
    ensures First(t + [x], c) == First(t, c)
  {
    FirstAt(t + [x], c, First(t, c));
  }

  /** The collected bytes come in the order of their first occurrence. */
  lemma {:induction false} UniqueOrder(s: seq<Byte>)
    ensures forall c :: c in Unique(s) ==> c in s
    ensures forall i, j :: 0 <= i < j < |Unique(s)| ==> First(s, Unique(s)[i]) < First(s, Unique(s)[j])
  {
    UniqueMembers(s);
    if |s| > 0 {
      var t, x := s[..|s| - 1], s[|s| - 1];
      assert s == t + [x];
      UniqueOrder(t);
      UniqueMembers(t);
      var u := Unique(t);
      forall i, j | 0 <= i < j < |Unique(s)|
        ensures First(s, Unique(s)[i]) < First(s, Unique(s)[j])
      {
        FirstSnoc(t, x, u[i]);
        if j < |u| {
          FirstSnoc(t, x, u[j]);
        } else {
          assert Unique(s)[j] == x && x !in t;
          FirstAt(s, x, |t|);
        }
      }
    }
  }

  /** `u` without its element at `i`. */
  function Drop(u: seq<int>, i: nat): (v: seq<int>)
    requires i < |u|
    ensures |v| == |u| - 1
    ensures forall k :: 0 <= k < |v| ==> v[k] == if k < i then u[k] else u[k + 1]
  {
    u[..i] + u[i + 1..]
  }

  /** A sequence of distinct values below `n` is at most `n` long. */
  lemma {:induction false} DistinctBelow(u: seq<int>, n: nat)
    requires Distinct(u) && forall k :: 0 <= k < |u| ==> 0 <= u[k] < n
    ensures |u| <= n
  {
    assert |u| > 0 ==> 0 <= u[0] < n;
    if n > 0 {
      if i :| 0 <= i < |u| && u[i] == n - 1 {
        var v := Drop(u, i);
        forall a, b | 0 <= a < b < |v|
          ensures v[a] != v[b]
        {
          var a', b' := if a < i then a else a + 1, if b < i then b else b + 1;
          assert v[a] == u[a'] && v[b] == u[b'] && a' < b';
        }
        assert forall k :: 0 <= k < |v| ==> v[k] != n - 1;
        DistinctBelow(v, n - 1);
      } else {
        DistinctBelow(u, n - 1);
      }
    }
  }

  /** There are never more than 256 distinct bytes, so a buffer of 256
      holds them all. */
  lemma UniqueAtMost256(s: seq<Byte>)
    ensures |Unique(s)| <= 256
  {
    UniqueDistinct(s);
    var u := Unique(s);
    var w := seq(|u|, k requires 0 <= k < |u| => u[k] as int);
    assert forall k :: 0 <= k < |w| ==> w[k] == u[k] as int;
    DistinctBelow(w, 256);
  }

  // ---------------------------------------------------------------- the worker

  /** Where a worker process is: waiting for its ASSIGN, in the TURN/DONE
      loop with its symbol (0: it sings nothing), gone after DONE, or exited
      with an error code. */
  datatype Phase = AwaitAssign | Singing(myCh: Byte) | Finished | Failed(code: int)

  predicate Running(ph: Phase) {
    ph.AwaitAssign? || ph.Singing?
  }

  /** What a worker does with one message from its mailbox: its next phase,
      the bytes it writes, the messages it sends to MT_ACK. */
  datatype Reaction = Reaction(next: Phase, written: seq<Byte>, reply: seq<Msg>)

  function React(pid: int, ph: Phase, m: Msg): (r: Reaction)
    requires Running(ph)
    ensures |r.reply| <= 1 && forall k :: 0 <= k < |r.reply| ==> r.reply[k].mtype == MT_ACK
  {
    match ph
    case AwaitAssign =>
      if m.kind != K_ASSIGN then Reaction(Failed(5), [], [])
      else Reaction(Singing(m.ch), [], [])
    case Singing(c) =>
      if m.kind == K_TURN then
        Reaction(ph, if c != 0 && m.ch == c then [m.ch] else [], [Msg(MT_ACK, K_ACK, pid, m.seqNo, 0)])
      else if m.kind == K_DONE then
        Reaction(Finished, [], [Msg(MT_ACK, K_BYE, pid, 0, 0)])
      else Reaction(ph, [], [])
  }

  /** A singing worker writes a TURN's byte exactly when it is its own
      non-zero symbol, and always answers with an ACK carrying the TURN's
      position. */
  lemma TurnAnswer(pid: int, c: Byte, m: Msg)
    requires m.kind == K_TURN
    ensures var r := React(pid, Singing(c), m);
      r.next == Singing(c) &&
      (|r.written| > 0 <==> c != 0 && m.ch == c) &&
      (|r.written| > 0 ==> r.written == [c]) &&
      r.reply == [Msg(MT_ACK, K_ACK, pid, m.seqNo, 0)]
  {
  }

  /** On DONE a singing worker sends one BYE and stops; a worker still
      waiting for ASSIGN that gets anything else exits with 5. */
  lemma DoneAnswer(pid: int, ph: Phase, m: Msg)
    requires Running(ph) && m.kind == K_DONE
    ensures var r := React(pid, ph, m);
      r.written == [] &&
      (ph.Singing? ==> r.next == Finished && r.reply == [Msg(MT_ACK, K_BYE, pid, 0, 0)]) &&
      (ph.AwaitAssign? ==> r.next == Failed(5) && r.reply == [])
  {
  }

  /** The worker's ASSIGN sets its symbol. */
  lemma AssignAnswer(pid: int, m: Msg)
    requires m.kind == K_ASSIGN
    ensures React(pid, AwaitAssign, m) == Reaction(Singing(m.ch), [], [])
  {
  }

  /** A worker writes nothing but its own symbol. */
  lemma WritesOwnSymbol(pid: int, ph: Phase, m: Msg)
    requires Running(ph)
    ensures var r := React(pid, ph, m);
      forall k :: 0 <= k < |r.written| ==> ph.Singing? && r.written[k] == ph.myCh != 0
  {
  }

  /** The worker loop run over the messages `msgs` of its mailbox until it
      would block (no message left) or ends (BYE sent, or exit): its last
      phase, what it wrote, what it sent, and the messages it left. */
  datatype Outcome = Outcome(last: Phase, written: seq<Byte>, replies: seq<Msg>, rest: seq<Msg>)

  function Drain(pid: int, ph: Phase, msgs: seq<Msg>): (o: Outcome)
    ensures forall k :: 0 <= k < |o.replies| ==> o.replies[k].mtype == MT_ACK
    ensures |o.rest| <= |msgs|
    ensures Running(o.last) ==> o.rest == []
    decreases |msgs|
  {
    if !Running(ph) || msgs == [] then Outcome(ph, [], [], msgs)
    else
      var r := React(pid, ph, msgs[0]);
      var o := Drain(pid, r.next, msgs[1..]);
      Outcome(o.last, r.written + o.written, r.reply + o.replies, o.rest)
  }

  /** A worker given one message in an empty mailbox reacts to it once. */
  lemma DrainOne(pid: int, ph: Phase, m: Msg)
    requires Running(ph)
    ensures var r := React(pid, ph, m);
      Drain(pid, ph, [m]) == Outcome(r.next, r.written, r.reply, [])
  {
    var r := React(pid, ph, m);
    assert [m][1..] == [];
    assert Drain(pid, r.next, []) == Outcome(r.next, [], [], []);
  }

  // ---------------------------------------------------------------- the queue and the processes

  /** The processes around one message queue: the messages waiting in it,
      by mtype and oldest first; whether it has been removed; what has been
      written to standard output; and where each worker process is. */
  class Choir {
    var boxes: map<int, seq<Msg>>
    var removed: bool
    var out: seq<Byte>
    var phase: map<int, Phase>

    /** The queue just after every process has registered and the conductor
        `self` has taken the LOCK token: one REG per process, in the order
        `regs` they arrived, and empty mailboxes. */
    constructor (self: int, regs: seq<int>)
      requires self in regs && forall p :: p in regs ==> p > 0
      ensures Ready(self, regs)
    {
      boxes := (map t | t in MailboxTypes(regs) :: [])[MT_REG := RegMsgs(regs)];
      removed := false;
      out := [];
      phase := map p | p in regs && p != self :: AwaitAssign;
    }

    ghost predicate Ready(self: int, regs: seq<int>)
      reads this
    {
      MT_REG in boxes && boxes[MT_REG] == RegMsgs(regs) &&
      MT_ACK in boxes && boxes[MT_ACK] == [] &&
      (forall p :: p in regs ==> MtTo(p) in boxes && boxes[MtTo(p)] == []) &&
      phase.Keys == Workers(regs, self) &&
      (forall p :: p in phase ==> phase[p] == AwaitAssign) &&
      out == [] && !removed
    }

    /** `xmsgsnd`: the message joins the end of its mtype's queue. */
    method Send(m: Msg)
      requires !removed && m.mtype in boxes
      modifies this
      ensures boxes == old(boxes)[m.mtype := old(boxes[m.mtype]) + [m]]
      ensures phase == old(phase) && out == old(out) && !removed
    {
      boxes := boxes[m.mtype := boxes[m.mtype] + [m]];
    }

    /** `xmsgrcv` of type `t`, blocking: the oldest message of that type is
        taken; the model requires one to be there. */
    method Recv(t: int) returns (m: Msg)
      requires !removed && t in boxes && |boxes[t]| > 0
      modifies this
      ensures m == old(boxes[t][0]) && boxes == old(boxes)[t := old(boxes[t][1..])]
      ensures phase == old(phase) && out == old(out) && !removed
    {
      m := boxes[t][0];
      boxes := boxes[t := boxes[t][1..]];
    }

    /** One round of the worker `pid`: it takes the oldest message from its
        mailbox and handles it as its ASSIGN wait or its TURN/DONE loop do. */
    method WorkerStep(pid: int)
      requires !removed && pid in phase && Running(phase[pid])
      requires MtTo(pid) in boxes && |boxes[MtTo(pid)]| > 0 && MT_ACK in boxes && MtTo(pid) != MT_ACK
      modifies this
      ensures var r := React(pid, old(phase[pid]), old(boxes[MtTo(pid)][0]));
        phase == old(phase)[pid := r.next] && out == old(out) + r.written &&
        boxes == old(boxes)[MtTo(pid) := old(boxes[MtTo(pid)][1..])][MT_ACK := old(boxes[MT_ACK]) + r.reply] &&
        !removed
    {
      var m := Recv(MtTo(pid));
      match phase[pid]
      case AwaitAssign =>
        if m.kind != K_ASSIGN {
          phase := phase[pid := Failed(5)];
        } else {
          phase := phase[pid := Singing(m.ch)];
        }
        NothingSent(boxes);
      case Singing(myCh) =>
        if m.kind == K_TURN {
          if myCh != 0 && m.ch == myCh {
            out := out + [m.ch];
          }
          Send(Msg(MT_ACK, K_ACK, pid, m.seqNo, 0));
        } else if m.kind == K_DONE {
          Send(Msg(MT_ACK, K_BYE, pid, 0, 0));
          phase := phase[pid := Finished];
        } else {
          // any other kind is ignored
          assert phase == phase[pid := phase[pid]];
          NothingSent(boxes);
        }
    }

    /** The worker `pid` runs until its mailbox is empty (where it would
        block) or it has ended. */
    method RunWorker(pid: int)
      requires !removed && pid in phase
      requires MtTo(pid) in boxes && MT_ACK in boxes && MtTo(pid) != MT_ACK
      modifies this
      ensures var o := Drain(pid, old(phase[pid]), old(boxes[MtTo(pid)]));
        phase == old(phase)[pid := o.last] && out == old(out) + o.written &&
        boxes == old(boxes)[MtTo(pid) := o.rest][MT_ACK := old(boxes[MT_ACK]) + o.replies] &&
        !removed
    {
      ghost var P0, O0, B0 := phase, out, boxes;
      ghost var o0 := Drain(pid, phase[pid], boxes[MtTo(pid)]);
      ghost var w: seq<Byte> := [];
      ghost var rep: seq<Msg> := [];
      RunStart(pid, o0, P0, O0, B0);
      while Running(phase[pid]) && |boxes[MtTo(pid)]| > 0
        invariant !removed
        invariant RunInv(pid, o0, w, rep, P0, phase, O0, out, B0, boxes)
        decreases |boxes[MtTo(pid)]|
      {
        ghost var P, O, B := phase, out, boxes;
        WorkerStep(pid);
        ghost var r := React(pid, P[pid], B[MtTo(pid)][0]);
        ghost var w1, rep1 := w + r.written, rep + r.reply;
        RunStep(pid, o0, w, rep, P0, P, O0, O, B0, B, phase, out, boxes, w1, rep1);
        w, rep := w1, rep1;
      }
      RunEnd(pid, o0, w, rep, P0, phase, O0, out, B0, boxes);
    }

    /** The conductor sends `m` to the mailbox of the worker `pid`, which
        was empty, and the worker handles it. */
    method Deliver(pid: int, m: Msg)
      requires !removed && pid in phase && Running(phase[pid]) && m.mtype == MtTo(pid)
      requires MtTo(pid) in boxes && boxes[MtTo(pid)] == [] && MT_ACK in boxes && MtTo(pid) != MT_ACK
      modifies this
      ensures var r := React(pid, old(phase[pid]), m);
        phase == old(phase)[pid := r.next] && out == old(out) + r.written &&
        boxes == old(boxes)[MT_ACK := old(boxes[MT_ACK]) + r.reply] && !removed
    {
      Send(m);
      assert boxes[MtTo(pid)] == [m];
      DrainOne(pid, phase[pid], m);
      RunWorker(pid);
    }

    /** The registration gather: `n` REG messages, their pids stored in
        arrival order. A message of another kind would end the conductor
        with 2; only REGs are sent with type MT_REG, so it cannot come. */
    method Gather(n: nat, ghost regs: seq<int>) returns (pids: array<int>)
      requires !removed && MT_REG in boxes && boxes[MT_REG] == RegMsgs(regs) && n == |regs|
      modifies this
      ensures fresh(pids) && pids[..] == regs
      ensures boxes == old(boxes)[MT_REG := []] && phase == old(phase) && out == old(out) && !removed
    {
      pids := new int[n];
      assert boxes == boxes[MT_REG := RegMsgs(regs)[0..]];
      for i := 0 to n
        invariant MT_REG in boxes && boxes == old(boxes)[MT_REG := RegMsgs(regs)[i..]]
        invariant phase == old(phase) && out == old(out) && !removed
        invariant forall k :: 0 <= k < i ==> pids[k] == regs[k]
      {
        var m := Recv(MT_REG);
        if m.kind != K_REG {
          assert false;
        }
        pids[i] := m.pid;
        assert RegMsgs(regs)[i..][1..] == RegMsgs(regs)[i + 1..];
      }
      assert RegMsgs(regs)[n..] == [];
    }

    /** More distinct symbols than processes: DONE goes to every pid, the
        conductor's own mailbox included, and the queue is removed at once,
        without waiting for any answer. The workers in `caught`, which read
        their DONE before the removal, exit with 5 since it is not an ASSIGN;
        whoever is caught is a matter of timing, hence a parameter. Every
        other worker is still waiting for its ASSIGN when the queue goes
        away: its receive fails and `die` ends it with `EXIT_FAILURE`, 1.
        Their DONEs are left unread. */
    method Abort(self: int, pids: array<int>, caught: set<int>, ghost ps: seq<int>, ghost si: nat)
      requires pids[..] == ps && !removed && si < |ps| && ps[si] == self && Distinct(ps)
      requires MT_ACK in boxes && MailboxesEmpty(boxes, ps)
      requires phase.Keys == Workers(ps, self) && forall p :: p in phase ==> phase[p] == AwaitAssign
      modifies this
      ensures out == old(out) && removed && phase.Keys == old(phase.Keys)
      ensures forall p :: p in phase ==> phase[p] == Failed(if p in caught then 5 else 1)
      ensures boxes == old(boxes) + DoneLeft(ps, self, caught)
    {
      ghost var B0, P0 := boxes, phase;
      AbortStart(P0, ps, self, caught);
      assert ps[..0] == [];
      for i := 0 to pids.Length
        invariant !removed && out == old(out)
        invariant AbortInv(P0, phase, ps, self, caught, i)
        invariant boxes == B0 + DoneLeft(ps[..i], self, caught)
      {
        var done := Msg(MtTo(pids[i]), K_DONE, self, 0, 0);
        ghost var B, P := boxes, phase;
        AbortBox(B0, B, ps, self, caught, i);
        if pids[i] == self || pids[i] !in caught {
          Send(done);
          AbortLeave(B0, ps, self, caught, i);
        } else {
          Deliver(pids[i], done);
          NothingSent(B);
          AbortStep(P0, P, phase, ps, self, caught, i);
          AbortCaught(ps, self, caught, i);
        }
      }
      assert ps[..|ps|] == ps;
      AbortEnd(P0, phase, ps, self, caught);
      removed := true;
      phase := map p | p in phase :: if phase[p] == AwaitAssign then Failed(1) else phase[p];
    }

    /** ASSIGN to every pid in sorted order, carrying the symbol it owns or
        0: the workers take theirs; the conductor's own ASSIGN stays unread
        in its mailbox, and it keeps its symbol as `myCh`. */
    method SendAssigns(self: int, pids: array<int>, uniq: array<Byte>, ucnt: nat, owner: array<int>,
                       ghost ps: seq<int>, ghost u: seq<Byte>, ghost si: nat)
      returns (myCh: Byte)
      requires pids[..] == ps && ucnt <= uniq.Length && uniq[..ucnt] == u && OwnerTableIs(owner[..], u, ps)
      requires !removed && si < |ps| && ps[si] == self && Distinct(ps) && Distinct(u)
      requires MT_ACK in boxes && MailboxesEmpty(boxes, ps)
      requires phase.Keys == Workers(ps, self) && forall p :: p in phase ==> phase[p] == AwaitAssign
      modifies this
      ensures myCh == Sym(u, si)
      ensures SingingPhases(phase, ps, u, self) && phase.Keys == old(phase.Keys)
      ensures boxes == old(boxes)[MtTo(self) := [Msg(MtTo(self), K_ASSIGN, self, 0, myCh)]]
      ensures out == old(out) && !removed
    {
      ghost var B0, P0 := boxes, phase;
      myCh := 0;
      AssignStart(P0, ps, u, self);
      for i := 0 to pids.Length
        invariant !removed && out == old(out)
        invariant AssignInv(P0, phase, ps, u, self, i)
        invariant si < i ==> myCh == Sym(u, si)
        invariant boxes == if si < i then B0[MtTo(self) := [Msg(MtTo(self), K_ASSIGN, self, 0, myCh)]] else B0
      {
        var symbol := FindAssigned(uniq, ucnt, owner, pids[i]);
        AssignedSymbol(u, ps, owner[..], i);
        var asg := Msg(MtTo(pids[i]), K_ASSIGN, self, 0, symbol);
        assert ps[i] in ps;
        if pids[i] == self {
          assert i == si && boxes == B0 && B0[MtTo(self)] == [];
          Send(asg);
          assert [] + [asg] == [asg];
          myCh := symbol;
          AssignSkip(P0, phase, ps, u, self, i);
        } else {
          ghost var B, P := boxes, phase;
          AssignAnswer(pids[i], asg);
          Deliver(pids[i], asg);
          NothingSent(B);
          AssignStep(P0, P, phase, ps, u, self, i);
        }
      }
      AssignEnd(P0, phase, ps, u, self);
    }

    /** The song, position by position: the conductor writes its own
        symbol itself; any other byte goes as a TURN with that position to
        its owner, whose ACK must carry the same position (a wrong one would
        end the conductor with 4; it cannot come). A byte without an owner
        would be skipped; every byte of the song has one. */
    method Sing(self: int, song: seq<Byte>, owner: array<int>, myCh: Byte,
                ghost ps: seq<int>, ghost u: seq<Byte>, ghost si: nat)
      requires OwnerTableIs(owner[..], u, ps) && u == Unique(song) && NoNulBytes(song)
      requires !removed && si < |ps| && ps[si] == self && Distinct(ps) && forall k :: 0 <= k < |ps| ==> ps[k] > 0
      requires myCh == Sym(u, si)
      requires MT_ACK in boxes && boxes[MT_ACK] == [] && WorkerBoxesEmpty(boxes, ps, self)
      requires SingingPhases(phase, ps, u, self)
      modifies this
      ensures out == old(out) + song && boxes == old(boxes) && phase == old(phase) && !removed
    {
      var sq := 0;
      while sq < |song|
        invariant sq <= |song| && out == old(out) + song[..sq]
        invariant boxes == old(boxes) && phase == old(phase) && !removed
      {
        var c := song[sq];
        var singer := owner[c];
        TurnFacts(song, sq, u, ps, owner[..], self, si, myCh, phase);
        if singer == -1 {
          assert false;
        }
        if singer == self {
          if myCh != 0 {
            out := out + [c];
          }
        } else {
          ghost var B, P := boxes, phase;
          var turn := Msg(MtTo(singer), K_TURN, self, sq, c);
          TurnAnswer(singer, c, turn);
          Deliver(singer, turn);
          var ack := Recv(MT_ACK);
          BackToStart(B, P, singer, Singing(c), Msg(MT_ACK, K_ACK, singer, sq, 0));
          if ack.kind != K_ACK || ack.seqNo != sq {
            assert false;
          }
        }
        assert song[..sq + 1] == song[..sq] + [c];
        sq := sq + 1;
      }
      assert song[..sq] == song;
    }

    /** DONE to every pid but the conductor's own; each worker stops and
        answers with one BYE. */
    method SendDone(self: int, pids: array<int>, ghost ps: seq<int>)
      requires pids[..] == ps && !removed && Distinct(ps)
      requires MT_ACK in boxes && boxes[MT_ACK] == [] && WorkerBoxesEmpty(boxes, ps, self)
      requires forall k :: 0 <= k < |ps| && ps[k] != self ==> ps[k] in phase && phase[ps[k]].Singing?
      requires phase.Keys == Workers(ps, self)
      modifies this
      ensures forall p :: p in phase ==> phase[p] == Finished
      ensures phase.Keys == old(phase.Keys)
      ensures boxes == old(boxes)[MT_ACK := Byes(ps, self)] && out == old(out) && !removed
    {
      ghost var B0, P0 := boxes, phase;
      assert B0 == B0[MT_ACK := Byes(ps[..0], self)];
      DoneStart(P0, ps, self);
      for i := 0 to pids.Length
        invariant !removed && out == old(out)
        invariant DoneInv(P0, phase, ps, self, i)
        invariant boxes == B0[MT_ACK := Byes(ps[..i], self)]
      {
        if pids[i] != self {
          var done := Msg(MtTo(pids[i]), K_DONE, self, 0, 0);
          ghost var B, P := boxes, phase;
          DoneReady(B0, P0, B, P, ps, self, i);
          Deliver(pids[i], done);
          DoneAfter(B0, P0, B, P, boxes, phase, ps, self, i, done);
        } else {
          DoneSkip(B0, boxes, ps, self, i);
        }
      }
      assert ps[..pids.Length] == ps;
      DoneEnd(P0, phase, ps, self);
    }

    /** The BYE wait: messages are taken from MT_ACK until `n - 1` BYEs
        have come; only BYEs count. */
    method AwaitByes(n: int)
      requires !removed && n >= 1 && MT_ACK in boxes && CountByes(boxes[MT_ACK]) >= n - 1
      modifies this
      ensures boxes == old(boxes)[MT_ACK := AfterByes(old(boxes[MT_ACK]), n - 1)]
      ensures phase == old(phase) && out == old(out) && !removed
    {
      var byeNeed := n - 1;
      while byeNeed > 0
        invariant 0 <= byeNeed && MT_ACK in boxes && CountByes(boxes[MT_ACK]) >= byeNeed
        invariant boxes == old(boxes)[MT_ACK := boxes[MT_ACK]]
        invariant AfterByes(old(boxes[MT_ACK]), n - 1) == AfterByes(boxes[MT_ACK], byeNeed)
        invariant phase == old(phase) && out == old(out) && !removed
        decreases |boxes[MT_ACK]|
      {
        var bye := Recv(MT_ACK);
        if bye.kind == K_BYE {
          byeNeed := byeNeed - 1;
        }
      }
    }

    /** The conductor path of `main`, from the registration gather to the
        removal of the queue, with the conductor `self` and the pids
        `regs` in the order they registered. Its result is 3 when the song
        has more distinct bytes than there are processes: nothing is
        written, and every worker exits with 5 if it read its DONE before
        the queue was removed (the set `caught`) and with 1 otherwise.
        Otherwise it is 0: the song
        has been written with a newline after it when needed, and every
        worker has said BYE and ended. */
    method Conduct(self: int, n: int, song: seq<Byte>, caught: set<int>, ghost regs: seq<int>) returns (rc: int)
      requires Ready(self, regs) && n == |regs| && Distinct(regs) && self in regs
      requires (forall k :: 0 <= k < |regs| ==> regs[k] > 0) && NoNulBytes(song)
      modifies this
      ensures rc == 0 || rc == 3
      ensures rc == 3 <==> |Unique(song)| > n
      ensures rc == 3 ==> out == [] && forall p :: p in phase ==> phase[p] == Failed(if p in caught then 5 else 1)
      ensures rc == 0 ==> out == song + Newline(song) && (forall p :: p in phase ==> phase[p] == Finished) &&
                          MT_ACK in boxes && boxes[MT_ACK] == []
      ensures phase.Keys == Workers(regs, self) && removed
    {
      var pids, ps, si := Prepare(self, n, regs);
      rc := Proceed(self, n, song, caught, pids, ps, si);
    }

    /** The conductor after the sort: the symbol count check, then either
        the abort or the performance. */
    method Proceed(self: int, n: int, song: seq<Byte>, caught: set<int>, pids: array<int>, ghost ps: seq<int>, ghost si: nat)
      returns (rc: int)
      requires pids[..] == ps && n == |ps| && Distinct(ps) && si < |ps| && ps[si] == self
      requires (forall k :: 0 <= k < |ps| ==> ps[k] > 0) && NoNulBytes(song) && !removed
      requires MT_ACK in boxes && boxes[MT_ACK] == [] && MailboxesEmpty(boxes, ps)
      requires phase.Keys == Workers(ps, self) && forall p :: p in phase ==> phase[p] == AwaitAssign
      modifies this
      ensures rc == 0 || rc == 3
      ensures rc == 3 <==> |Unique(song)| > n
      ensures rc == 3 ==> out == old(out) && forall p :: p in phase ==> phase[p] == Failed(if p in caught then 5 else 1)
      ensures rc == 0 ==> out == old(out) + song + Newline(song) && (forall p :: p in phase ==> phase[p] == Finished) &&
                          MT_ACK in boxes && boxes[MT_ACK] == []
      ensures phase.Keys == old(phase.Keys) && removed
    {
      var uniq := new Byte[256];
      var ucnt := CollectUnique(song, uniq);
      UniqueAtMost256(song);
      ghost var u := uniq[..ucnt];
      assert u == Unique(song);
      if ucnt > n {
        Abort(self, pids, caught, ps, si);
        return 3;
      }
      Perform(self, song, pids, uniq, ucnt, ps, u, si);
      rc := 0;
    }

    /** The registration gather and the sort: the pids, ascending, each
        with its empty mailbox, and the conductor's place `si` among them. */
    method Prepare(self: int, n: int, ghost regs: seq<int>) returns (pids: array<int>, ghost ps: seq<int>, ghost si: nat)
      requires Ready(self, regs) && n == |regs| && Distinct(regs) && self in regs
      requires forall k :: 0 <= k < |regs| ==> regs[k] > 0
      modifies this
      ensures fresh(pids) && pids[..] == ps && ps == SortPids(regs) && Sorted(ps) && Distinct(ps)
      ensures si < |ps| && ps[si] == self && forall k :: 0 <= k < |ps| ==> ps[k] > 0
      ensures Workers(ps, self) == Workers(regs, self) && out == old(out) && !removed
      ensures phase.Keys == Workers(regs, self) && forall p :: p in phase ==> phase[p] == AwaitAssign
      ensures MT_ACK in boxes && boxes[MT_ACK] == [] && MailboxesEmpty(boxes, ps)
    {
      ghost var B := boxes;
      pids := Gather(n, regs);
      Qsort(pids);
      ps := pids[..];
      SortedRegs(regs, self);
      SortedMailboxes(B, regs);
      si :| si < |ps| && ps[si] == self;
    }

    /** Everything after the check on the number of symbols: owner table,
        ASSIGNs, the song, the newline, DONEs and BYEs, and the removal of
        the queue. */
    method Perform(self: int, song: seq<Byte>, pids: array<int>, uniq: array<Byte>, ucnt: nat,
                   ghost ps: seq<int>, ghost u: seq<Byte>, ghost si: nat)
      requires pids[..] == ps && ucnt <= uniq.Length && uniq[..ucnt] == u && u == Unique(song) && NoNulBytes(song)
      requires !removed && ucnt <= |ps| && si < |ps| && ps[si] == self && Distinct(ps)
      requires forall k :: 0 <= k < |ps| ==> ps[k] > 0
      requires MT_ACK in boxes && boxes[MT_ACK] == [] && MailboxesEmpty(boxes, ps)
      requires phase.Keys == Workers(ps, self) && forall p :: p in phase ==> phase[p] == AwaitAssign
      modifies this
      ensures out == old(out) + song + Newline(song) && phase.Keys == old(phase.Keys) && removed
      ensures forall p :: p in phase ==> phase[p] == Finished
      ensures MT_ACK in boxes && boxes[MT_ACK] == []
    {
      UniqueDistinct(song);
      var owner := BuildOwner(uniq, ucnt, pids);
      var myCh := SendAssigns(self, pids, uniq, ucnt, owner, ps, u, si);
      OwnMailboxAside(old(boxes), ps, self, [Msg(MtTo(self), K_ASSIGN, self, 0, myCh)]);
      Finale(self, song, pids, owner, myCh, ps, u, si);
    }

    /** Once every worker sings its symbol: the song, the newline, DONEs and
        BYEs, and the removal of the queue. */
    method Finale(self: int, song: seq<Byte>, pids: array<int>, owner: array<int>, myCh: Byte,
                  ghost ps: seq<int>, ghost u: seq<Byte>, ghost si: nat)
      requires pids[..] == ps && OwnerTableIs(owner[..], u, ps) && u == Unique(song) && NoNulBytes(song)
      requires !removed && si < |ps| && ps[si] == self && Distinct(ps) && forall k :: 0 <= k < |ps| ==> ps[k] > 0
      requires myCh == Sym(u, si)
      requires MT_ACK in boxes && boxes[MT_ACK] == [] && WorkerBoxesEmpty(boxes, ps, self)
      requires SingingPhases(phase, ps, u, self) && phase.Keys == Workers(ps, self)
      modifies this
      ensures out == old(out) + song + Newline(song) && phase.Keys == old(phase.Keys) && removed
      ensures forall p :: p in phase ==> phase[p] == Finished
      ensures MT_ACK in boxes && boxes[MT_ACK] == []
    {
      Sing(self, song, owner, myCh, ps, u, si);
      var L := |song|;
      if L == 0 || song[L - 1] != 10 {
        out := out + [10];
      }
      SendDone(self, pids, ps);
      ByesCount(ps, self);
      AllByes(Byes(ps, self));
      AwaitByes(pids.Length);
      removed := true;
    }
  }

  /** One REG per registered pid, in arrival order. */
  function RegMsgs(regs: seq<int>): (r: seq<Msg>)
    ensures |r| == |regs|
    ensures forall i :: 0 <= i < |r| ==> r[i] == Msg(MT_REG, K_REG, regs[i], 0, 0)
  {
    seq(|regs|, i requires 0 <= i < |regs| => Msg(MT_REG, K_REG, regs[i], 0, 0))
  }

  function MailboxTypes(regs: seq<int>): set<int> {
    {MT_REG, MT_ACK} + set p | p in regs :: MtTo(p)
  }

  /** Every pid has its empty mailbox in the queue. */
  ghost predicate MailboxesEmpty(boxes: map<int, seq<Msg>>, pids: seq<int>) {
    forall p :: p in pids ==> MtTo(p) in boxes && boxes[MtTo(p)] == [] && MtTo(p) != MT_ACK
  }

  /** Every worker's mailbox is in the queue and empty. */
  ghost predicate WorkerBoxesEmpty(boxes: map<int, seq<Msg>>, pids: seq<int>, self: int) {
    forall p :: p in pids && p != self ==> MtTo(p) in boxes && boxes[MtTo(p)] == [] && MtTo(p) != MT_ACK
  }

  /** Each worker sings the symbol of its place in the sorted pids. */
  ghost predicate SingingPhases(P: map<int, Phase>, pids: seq<int>, u: seq<Byte>, self: int) {
    forall k :: 0 <= k < |pids| && pids[k] != self ==> pids[k] in P && P[pids[k]] == Singing(Sym(u, k))
  }

  function Workers(regs: seq<int>, self: int): set<int> {
    set p | p in regs && p != self
  }

  /** The run RunWorker still has to do finishes the run it began with. */
  ghost predicate DrainRest(o0: Outcome, w: seq<Byte>, rep: seq<Msg>, o: Outcome) {
    o0 == Outcome(o.last, w + o.written, rep + o.replies, o.rest)
  }

  /** The loop invariant of RunWorker, on snapshots: the worker's state so
      far (`P`, `O`, `B`) followed by the rest of its run is the whole run
      from the start (`P0`, `O0`, `B0`). */
  ghost predicate RunInv(pid: int, o0: Outcome, w: seq<Byte>, rep: seq<Msg>,
                         P0: map<int, Phase>, P: map<int, Phase>, O0: seq<Byte>, O: seq<Byte>,
                         B0: map<int, seq<Msg>>, B: map<int, seq<Msg>>)
  {
    pid in P && MtTo(pid) in B && MT_ACK in B && MT_ACK in B0 && MtTo(pid) != MT_ACK &&
    DrainRest(o0, w, rep, Drain(pid, P[pid], B[MtTo(pid)])) &&
    P == P0[pid := P[pid]] && O == O0 + w &&
    B == B0[MtTo(pid) := B[MtTo(pid)]][MT_ACK := B0[MT_ACK] + rep]
  }

  lemma RunStart(pid: int, o0: Outcome, P0: map<int, Phase>, O0: seq<Byte>, B0: map<int, seq<Msg>>)
    requires pid in P0 && MtTo(pid) in B0 && MT_ACK in B0 && MtTo(pid) != MT_ACK
    requires o0 == Drain(pid, P0[pid], B0[MtTo(pid)])
    ensures RunInv(pid, o0, [], [], P0, P0, O0, O0, B0, B0)
  {
    assert B0[MT_ACK] + [] == B0[MT_ACK];
    assert B0[MtTo(pid) := B0[MtTo(pid)]][MT_ACK := B0[MT_ACK]] == B0;
    assert P0[pid := P0[pid]] == P0;
  }

  lemma RunStep(pid: int, o0: Outcome, w: seq<Byte>, rep: seq<Msg>,
                P0: map<int, Phase>, P: map<int, Phase>, O0: seq<Byte>, O: seq<Byte>,
                B0: map<int, seq<Msg>>, B: map<int, seq<Msg>>,
                P1: map<int, Phase>, O1: seq<Byte>, B1: map<int, seq<Msg>>, w1: seq<Byte>, rep1: seq<Msg>)
    requires RunInv(pid, o0, w, rep, P0, P, O0, O, B0, B)
    requires Running(P[pid]) && |B[MtTo(pid)]| > 0
    requires var r := React(pid, P[pid], B[MtTo(pid)][0]);
      P1 == P[pid := r.next] && O1 == O + r.written &&
      B1 == B[MtTo(pid) := B[MtTo(pid)][1..]][MT_ACK := B[MT_ACK] + r.reply] &&
      w1 == w + r.written && rep1 == rep + r.reply
    ensures RunInv(pid, o0, w1, rep1, P0, P1, O0, O1, B0, B1)
  {
    var msgs := B[MtTo(pid)];
    var r := React(pid, P[pid], msgs[0]);
    var o := Drain(pid, r.next, msgs[1..]);
    assert Drain(pid, P[pid], msgs) == Outcome(o.last, r.written + o.written, r.reply + o.replies, o.rest);
    assert w + (r.written + o.written) == w1 + o.written;
    assert rep + (r.reply + o.replies) == rep1 + o.replies;
    assert B0[MT_ACK] + rep + r.reply == B0[MT_ACK] + rep1;
    assert P1 == P0[pid := P1[pid]];
  }

  lemma RunEnd(pid: int, o0: Outcome, w: seq<Byte>, rep: seq<Msg>,
               P0: map<int, Phase>, P: map<int, Phase>, O0: seq<Byte>, O: seq<Byte>,
               B0: map<int, seq<Msg>>, B: map<int, seq<Msg>>)
    requires RunInv(pid, o0, w, rep, P0, P, O0, O, B0, B)
    requires !(Running(P[pid]) && |B[MtTo(pid)]| > 0)
    ensures P == P0[pid := o0.last] && O == O0 + o0.written &&
      B == B0[MtTo(pid) := o0.rest][MT_ACK := B0[MT_ACK] + o0.replies]
  {
    assert Drain(pid, P[pid], B[MtTo(pid)]) == Outcome(P[pid], [], [], B[MtTo(pid)]);
    assert w + [] == w && rep + [] == rep;
  }

  /** Sending no message leaves the queue as it is. */
  lemma NothingSent(b: map<int, seq<Msg>>)
    requires MT_ACK in b
    ensures b[MT_ACK := b[MT_ACK] + []] == b
  {
    assert b[MT_ACK] + [] == b[MT_ACK];
  }

  // ---------------------------------------------------------------- the conductor's tables

  /** `owner[c]` after `owner[uniq[i]] = pids[i]` for each `i < |u|` over a
      table of -1s. */
  function OwnerOf(u: seq<Byte>, pids: seq<int>, c: int): int
    requires |u| <= |pids|
  {
    if |u| == 0 then -1
    else if u[|u| - 1] == c then pids[|u| - 1]
    else OwnerOf(u[..|u| - 1], pids, c)
  }

  /** The i-th distinct symbol belongs to the i-th pid; every other byte
      to nobody (-1). */
  lemma {:induction false} OwnerTable(u: seq<Byte>, pids: seq<int>)
    requires |u| <= |pids| && Distinct(u)
    ensures forall i :: 0 <= i < |u| ==> OwnerOf(u, pids, u[i]) == pids[i]
    ensures forall c :: c !in u ==> OwnerOf(u, pids, c) == -1
  {
    if |u| > 0 {
      var t := u[..|u| - 1];
      assert forall i :: 0 <= i < |t| ==> t[i] == u[i];
      OwnerTable(t, pids);
    }
  }

  /** Different symbols have different owners when the pids differ. */
  lemma DistinctOwners(u: seq<Byte>, pids: seq<int>, c: Byte, d: Byte)
    requires |u| <= |pids| && Distinct(u) && Distinct(pids)
    requires c in u && d in u && c != d
    ensures OwnerOf(u, pids, c) != OwnerOf(u, pids, d)
  {
    OwnerTable(u, pids);
    var i, j := First(u, c), First(u, d);
    assert OwnerOf(u, pids, c) == pids[i] && OwnerOf(u, pids, d) == pids[j];
  }

  /** The owner table as an array is the table OwnerOf describes. */
  ghost predicate OwnerTableIs(own: seq<int>, u: seq<Byte>, pids: seq<int>) {
    |own| == 256 && |u| <= |pids| && forall c :: 0 <= c < 256 ==> own[c] == OwnerOf(u, pids, c)
  }

  /** The symbol the i-th pid gets: the i-th distinct one, or 0 (sing
      nothing) past the last. */
  function Sym(u: seq<Byte>, i: nat): Byte {
    if i < |u| then u[i] else 0
  }

  /** What the ASSIGN search finds for `p`: the first symbol in `u` whose
      owner is `p`, or 0. */
  function Assigned(u: seq<Byte>, own: seq<int>, p: int): Byte
    requires |own| == 256
  {
    if |u| == 0 then 0
    else if own[u[0]] == p then u[0]
    else Assigned(u[1..], own, p)
  }

  /** Each pid's ASSIGN carries the symbol it owns, or 0 when it owns
      none. */
  lemma AssignedSymbol(u: seq<Byte>, pids: seq<int>, own: seq<int>, i: nat)
    requires Distinct(u) && Distinct(pids) && OwnerTableIs(own, u, pids) && i < |pids|
    ensures Assigned(u, own, pids[i]) == Sym(u, i)
  {
    OwnerTable(u, pids);
    AssignedFrom(u, pids, own, i, 0);
  }

  lemma {:induction false} AssignedFrom(u: seq<Byte>, pids: seq<int>, own: seq<int>, i: nat, k: nat)
    requires Distinct(pids) && OwnerTableIs(own, u, pids) && i < |pids| && k <= |u|
    requires forall j :: 0 <= j < |u| ==> OwnerOf(u, pids, u[j]) == pids[j]
    requires i < |u| ==> k <= i
    ensures Assigned(u[k..], own, pids[i]) == Sym(u, i)
    decreases |u| - k
  {
    if k < |u| {
      assert u[k..][1..] == u[k + 1..];
      if k != i {
        AssignedFrom(u, pids, own, i, k + 1);
      }
    }
  }

  /** `owner[256]` filled with -1, then `owner[uniq[i]] = pids[i]` for
      each `i < ucnt`. */
  method BuildOwner(uniq: array<Byte>, ucnt: nat, pids: array<int>) returns (owner: array<int>)
    requires ucnt <= uniq.Length && ucnt <= pids.Length
    ensures fresh(owner) && OwnerTableIs(owner[..], uniq[..ucnt], pids[..])
  {
    owner := new int[256];
    for c := 0 to 256
      invariant forall d :: 0 <= d < c ==> owner[d] == -1
    {
      owner[c] := -1;
    }
    for i := 0 to ucnt
      invariant forall c :: 0 <= c < 256 ==> owner[c] == OwnerOf(uniq[..i], pids[..], c)
    {
      assert uniq[..i + 1][..i] == uniq[..i];
      owner[uniq[i]] := pids[i];
    }
  }

  /** The search for pid `p`'s symbol: the first `k < ucnt` with
      `owner[uniq[k]] == p`. */
  method FindAssigned(uniq: array<Byte>, ucnt: nat, owner: array<int>, p: int) returns (symbol: Byte)
    requires ucnt <= uniq.Length && owner.Length == 256
    ensures symbol == Assigned(uniq[..ucnt], owner[..], p)
  {
    symbol := 0;
    var k := 0;
    while k < ucnt
      invariant k <= ucnt && Assigned(uniq[..ucnt], owner[..], p) == Assigned(uniq[k..ucnt], owner[..], p)
    {
      assert uniq[k..ucnt][1..] == uniq[k + 1..ucnt];
      if owner[uniq[k]] == p {
        symbol := uniq[k];
        return;
      }
      k := k + 1;
    }
  }

  /** `qsort(pids, n, sizeof(pid_t), cmp_pid)`: the array ends up holding
      its sorted contents. */
  method Qsort(a: array<int>)
    modifies a
    ensures a[..] == SortPids(old(a[..]))
  {
    var t := SortPids(a[..]);
    forall i | 0 <= i < a.Length {
      a[i] := t[i];
    }
  }

  /** One `'\n'` after the song when it is empty or does not end in one. */
  function Newline(song: seq<Byte>): seq<Byte> {
    if |song| == 0 || song[|song| - 1] != 10 then [10] else []
  }

  /** The song with its newline is the song, ends in exactly one added
      `'\n'` at most, and always ends in `'\n'`. */
  lemma SongLine(song: seq<Byte>)
    ensures var o := song + Newline(song);
      o[..|song|] == song && |o| > 0 && o[|o| - 1] == 10 &&
      (|o| == |song| + 1 <==> |song| == 0 || song[|song| - 1] != 10) &&
      (|o| == |song| <==> |song| > 0 && song[|song| - 1] == 10)
  {
  }

  /** The BYEs the workers among `ps` send on DONE, in order. */
  function Byes(ps: seq<int>, self: int): (r: seq<Msg>)
    ensures forall k :: 0 <= k < |r| ==> r[k].mtype == MT_ACK && r[k].kind == K_BYE
  {
    if |ps| == 0 then []
    else Byes(ps[..|ps| - 1], self) + (if ps[|ps| - 1] == self then [] else [Msg(MT_ACK, K_BYE, ps[|ps| - 1], 0, 0)])
  }

  /** With `self` once among the pids, there are n - 1 BYEs. */
  lemma {:induction false} ByesCount(ps: seq<int>, self: int)
    requires Distinct(ps)
    ensures |Byes(ps, self)| == if self in ps then |ps| - 1 else |ps|
  {
    if |ps| > 0 {
      var t := ps[..|ps| - 1];
      assert ps == t + [ps[|ps| - 1]];
      assert Distinct(t);
      ByesCount(t, self);
    }
  }

  predicate NoNulBytes(s: seq<Byte>) {
    forall k :: 0 <= k < |s| ==> s[k] != 0
  }

  /** The owner of the byte at `sq`: a pid; if it is the conductor, its own
      symbol; otherwise a worker singing that very byte. */
  lemma TurnFacts(song: seq<Byte>, sq: nat, u: seq<Byte>, pids: seq<int>, own: seq<int>,
                  self: int, si: nat, myCh: Byte, P: map<int, Phase>)
    requires sq < |song| && NoNulBytes(song) && u == Unique(song)
    requires OwnerTableIs(own, u, pids) && Distinct(pids) && si < |pids| && pids[si] == self
    requires forall k :: 0 <= k < |pids| ==> pids[k] > 0
    requires myCh == Sym(u, si) && SingingPhases(P, pids, u, self)
    ensures var c := song[sq]; var s := own[c];
      s > 0 && s in pids &&
      (s == self ==> myCh == c && c != 0) &&
      (s != self ==> s in P && P[s] == Singing(c))
  {
    var c := song[sq];
    UniqueMembers(song);
    UniqueDistinct(song);
    OwnerTable(u, pids);
    var j := First(u, c);
    assert own[c] == pids[j];
    if pids[j] == self {
      assert j == si;
    }
  }

  /** A TURN and its ACK leave the queue and the singer as they were. */
  lemma BackToStart(B: map<int, seq<Msg>>, P: map<int, Phase>, s: int, ph: Phase, x: Msg)
    requires MT_ACK in B && B[MT_ACK] == [] && s in P && P[s] == ph
    ensures var B1 := B[MT_ACK := B[MT_ACK] + [x]]; B1[MT_ACK := B1[MT_ACK][1..]] == B
    ensures P[s := ph] == P
  {
    var B1 := B[MT_ACK := B[MT_ACK] + [x]];
    assert B1[MT_ACK][1..] == [];
  }

  /** How many BYEs are among `msgs`. */
  function CountByes(msgs: seq<Msg>): nat {
    if |msgs| == 0 then 0 else (if msgs[0].kind == K_BYE then 1 else 0) + CountByes(msgs[1..])
  }

  /** What is left of `msgs` once `need` BYEs have been taken, with
      whatever came before them. */
  function AfterByes(msgs: seq<Msg>, need: nat): seq<Msg>
    requires CountByes(msgs) >= need
  {
    if need == 0 then msgs
    else if msgs[0].kind == K_BYE then AfterByes(msgs[1..], need - 1)
    else AfterByes(msgs[1..], need)
  }

  /** When every message is a BYE, the wait for all of them takes them all. */
  lemma {:induction false} AllByes(msgs: seq<Msg>)
    requires forall k :: 0 <= k < |msgs| ==> msgs[k].kind == K_BYE
    ensures CountByes(msgs) == |msgs| && AfterByes(msgs, |msgs|) == []
  {
    if |msgs| > 0 {
      AllByes(msgs[1..]);
    }
  }

  /** The loop invariant of SendAssigns: pids before `i` sing their
      symbol, the others still wait for their ASSIGN. */
  ghost predicate AssignInv(P0: map<int, Phase>, P: map<int, Phase>, pids: seq<int>, u: seq<Byte>, self: int, i: nat) {
    P.Keys == P0.Keys &&
    forall k :: 0 <= k < |pids| && pids[k] != self ==>
      pids[k] in P && P[pids[k]] == if k < i then Singing(Sym(u, k)) else AwaitAssign
  }

  lemma AssignStart(P0: map<int, Phase>, pids: seq<int>, u: seq<Byte>, self: int)
    requires P0.Keys == Workers(pids, self) && forall p :: p in P0 ==> P0[p] == AwaitAssign
    ensures AssignInv(P0, P0, pids, u, self, 0)
  {
    forall k | 0 <= k < |pids| && pids[k] != self
      ensures pids[k] in P0
    {
      assert pids[k] in Workers(pids, self);
    }
  }

  lemma AssignSkip(P0: map<int, Phase>, P: map<int, Phase>, pids: seq<int>, u: seq<Byte>, self: int, i: nat)
    requires AssignInv(P0, P, pids, u, self, i) && i < |pids| && pids[i] == self
    ensures AssignInv(P0, P, pids, u, self, i + 1)
  {
  }

  lemma AssignStep(P0: map<int, Phase>, P: map<int, Phase>, P1: map<int, Phase>, pids: seq<int>, u: seq<Byte>, self: int, i: nat)
    requires AssignInv(P0, P, pids, u, self, i) && i < |pids| && pids[i] != self && Distinct(pids)
    requires P1 == P[pids[i] := Singing(Sym(u, i))]
    ensures AssignInv(P0, P1, pids, u, self, i + 1)
  {
    forall k | 0 <= k < |pids| && pids[k] != self
      ensures P1[pids[k]] == if k < i + 1 then Singing(Sym(u, k)) else AwaitAssign
    {
      if k != i {
        assert pids[k] != pids[i];
      }
    }
  }

  lemma AssignEnd(P0: map<int, Phase>, P: map<int, Phase>, pids: seq<int>, u: seq<Byte>, self: int)
    requires AssignInv(P0, P, pids, u, self, |pids|)
    ensures SingingPhases(P, pids, u, self) && P.Keys == P0.Keys
  {
  }

  /** The loop invariant of SendDone: workers before `i` are gone, the
      others are as they were. */
  ghost predicate DoneInv(P0: map<int, Phase>, P: map<int, Phase>, pids: seq<int>, self: int, i: nat) {
    P.Keys == P0.Keys &&
    forall k :: 0 <= k < |pids| && pids[k] != self ==>
      pids[k] in P && pids[k] in P0 && P[pids[k]] == if k < i then Finished else P0[pids[k]]
  }

  lemma DoneStart(P0: map<int, Phase>, pids: seq<int>, self: int)
    requires forall k :: 0 <= k < |pids| && pids[k] != self ==> pids[k] in P0 && P0[pids[k]].Singing?
    ensures DoneInv(P0, P0, pids, self, 0)
  {
  }

  lemma DoneStep(P0: map<int, Phase>, P: map<int, Phase>, P1: map<int, Phase>, pids: seq<int>, self: int, i: nat)
    requires DoneInv(P0, P, pids, self, i) && i < |pids| && pids[i] != self && Distinct(pids)
    requires P1 == P[pids[i] := Finished]
    ensures DoneInv(P0, P1, pids, self, i + 1)
  {
    forall k | 0 <= k < |pids| && pids[k] != self
      ensures P1[pids[k]] == if k < i + 1 then Finished else P0[pids[k]]
    {
      if k != i {
        assert pids[k] != pids[i];
      }
    }
  }

  lemma ByesSnoc(ps: seq<int>, i: nat, self: int)
    requires i < |ps|
    ensures Byes(ps[..i + 1], self) == Byes(ps[..i], self) + (if ps[i] == self then [] else [Msg(MT_ACK, K_BYE, ps[i], 0, 0)])
  {
    assert ps[..i + 1][..i] == ps[..i];
  }

  /** The conductor's own mailbox is not a worker's, nor MT_ACK. */
  lemma OwnMailboxAside(B: map<int, seq<Msg>>, pids: seq<int>, self: int, x: seq<Msg>)
    requires MailboxesEmpty(B, pids) && self in pids && MT_ACK in B
    ensures MtTo(self) in B && WorkerBoxesEmpty(B[MtTo(self) := x], pids, self)
    ensures B[MtTo(self) := x][MT_ACK] == B[MT_ACK]
  {
  }

  /** The sorted pids are the registered ones: no repetition, all
      positive, the conductor among them, the same workers. */
  lemma SortedRegs(regs: seq<int>, self: int)
    requires Distinct(regs) && self in regs && forall k :: 0 <= k < |regs| ==> regs[k] > 0
    ensures var t := SortPids(regs);
      Sorted(t) && Distinct(t) && self in t && (forall k :: 0 <= k < |t| ==> t[k] > 0) &&
      (forall p :: p in t <==> p in regs) && Workers(t, self) == Workers(regs, self)
  {
    var t := SortPids(regs);
    SortPidsSorted(regs);
    DistinctPerm(regs, t);
    PermMembers(regs, t);
    PermPositive(regs, t);
  }

  lemma PermMembers(s: seq<int>, t: seq<int>)
    requires multiset(t) == multiset(s)
    ensures forall p :: p in t <==> p in s
  {
    forall p
      ensures p in t <==> p in s
    {
      assert p in t <==> p in multiset(t);
      assert p in s <==> p in multiset(s);
    }
  }

  lemma PermPositive(s: seq<int>, t: seq<int>)
    requires (forall p :: p in t <==> p in s) && forall k :: 0 <= k < |s| ==> s[k] > 0
    ensures forall k :: 0 <= k < |t| ==> t[k] > 0
  {
    forall k | 0 <= k < |t|
      ensures t[k] > 0
    {
      assert t[k] in t;
      var j :| 0 <= j < |s| && s[j] == t[k];
    }
  }

  /** The mailboxes of the registered pids, after the REGs are taken. */
  lemma SortedMailboxes(B: map<int, seq<Msg>>, regs: seq<int>)
    requires forall p :: p in regs ==> MtTo(p) in B && B[MtTo(p)] == []
    requires forall k :: 0 <= k < |regs| ==> regs[k] > 0
    requires forall p :: p in SortPids(regs) <==> p in regs
    ensures MailboxesEmpty(B[MT_REG := []], SortPids(regs))
  {
  }

  /** What holds for the worker at each place of `pids` holds for every
      worker process. */
  lemma EveryWorker(P: map<int, Phase>, pids: seq<int>, self: int, ph: Phase)
    requires P.Keys == Workers(pids, self)
    requires forall k :: 0 <= k < |pids| && pids[k] != self ==> pids[k] in P && P[pids[k]] == ph
    ensures forall p :: p in P ==> P[p] == ph
  {
    forall p | p in P
      ensures P[p] == ph
    {
      assert p in Workers(pids, self);
      var k :| 0 <= k < |pids| && pids[k] == p;
    }
  }

  /** The loop invariant of Abort: caught workers before `i` have exited
      with 5, the others still wait for their ASSIGN. */
  ghost predicate AbortInv(P0: map<int, Phase>, P: map<int, Phase>, pids: seq<int>, self: int, caught: set<int>, i: nat) {
    P.Keys == P0.Keys &&
    forall k :: 0 <= k < |pids| && pids[k] != self ==>
      pids[k] in P && P[pids[k]] == if k < i && pids[k] in caught then Failed(5) else AwaitAssign
  }

  lemma AbortStart(P0: map<int, Phase>, pids: seq<int>, self: int, caught: set<int>)
    requires P0.Keys == Workers(pids, self) && forall p :: p in P0 ==> P0[p] == AwaitAssign
    ensures AbortInv(P0, P0, pids, self, caught, 0)
  {
    forall k | 0 <= k < |pids| && pids[k] != self
      ensures pids[k] in P0
    {
      assert pids[k] in Workers(pids, self);
    }
  }

  lemma AbortStep(P0: map<int, Phase>, P: map<int, Phase>, P1: map<int, Phase>, pids: seq<int>, self: int,
                  caught: set<int>, i: nat)
    requires AbortInv(P0, P, pids, self, caught, i) && i < |pids| && pids[i] != self && pids[i] in caught
    requires Distinct(pids) && P1 == P[pids[i] := Failed(5)]
    ensures AbortInv(P0, P1, pids, self, caught, i + 1)
  {
    forall k | 0 <= k < |pids| && pids[k] != self
      ensures P1[pids[k]] == if k < i + 1 && pids[k] in caught then Failed(5) else AwaitAssign
    {
      if k != i {
        assert pids[k] != pids[i];
      }
    }
  }

  lemma AbortEnd(P0: map<int, Phase>, P: map<int, Phase>, pids: seq<int>, self: int, caught: set<int>)
    requires AbortInv(P0, P, pids, self, caught, |pids|) && P0.Keys == Workers(pids, self)
    ensures forall p :: p in P ==> P[p] == if p in caught then Failed(5) else AwaitAssign
  {
    forall p | p in P
      ensures P[p] == if p in caught then Failed(5) else AwaitAssign
    {
      assert p in Workers(pids, self);
      var k :| 0 <= k < |pids| && pids[k] == p;
    }
  }

  /** The DONEs the abort leaves unread in their mailboxes: the conductor's
      own, and those of the workers outside `caught`. */
  function DoneLeft(ps: seq<int>, self: int, caught: set<int>): (d: map<int, seq<Msg>>)
    ensures forall t :: t in d ==> d[t] == [Msg(t, K_DONE, self, 0, 0)]
    decreases |ps|
  {
    if ps == [] then map[]
    else
      var d := DoneLeft(ps[..|ps| - 1], self, caught);
      var p := ps[|ps| - 1];
      if p == self || p !in caught then d[MtTo(p) := [Msg(MtTo(p), K_DONE, self, 0, 0)]] else d
  }

  /** A DONE is left in the mailbox of `p` exactly when `p` is one of the
      pids and is the conductor or was not caught. */
  lemma {:induction false} DoneLeftKeys(ps: seq<int>, self: int, caught: set<int>, p: int)
    ensures MtTo(p) in DoneLeft(ps, self, caught) <==> p in ps && (p == self || p !in caught)
    decreases |ps|
  {
    if ps != [] {
      var front := ps[..|ps| - 1];
      DoneLeftKeys(front, self, caught, p);
      MtToInjective(p, ps[|ps| - 1]);
      assert ps == front + [ps[|ps| - 1]];
      assert p in ps <==> p in front || p == ps[|ps| - 1];
    }
  }

  /** Before the DONE to the `i`-th pid its mailbox is still empty. */
  lemma AbortBox(B0: map<int, seq<Msg>>, B: map<int, seq<Msg>>, ps: seq<int>, self: int, caught: set<int>, i: nat)
    requires i < |ps| && Distinct(ps) && MT_ACK in B0 && MailboxesEmpty(B0, ps)
    requires B == B0 + DoneLeft(ps[..i], self, caught)
    ensures MtTo(ps[i]) in B && B[MtTo(ps[i])] == [] && MT_ACK in B && MtTo(ps[i]) != MT_ACK
  {
    assert ps[i] in ps;
    DoneLeftKeys(ps[..i], self, caught, ps[i]);
    assert ps[i] !in ps[..i];
  }

  /** The DONE to an uncaught pid, or to the conductor, stays in its mailbox. */
  lemma AbortLeave(B0: map<int, seq<Msg>>, ps: seq<int>, self: int, caught: set<int>, i: nat)
    requires i < |ps| && (ps[i] == self || ps[i] !in caught)
    requires MtTo(ps[i]) in B0 + DoneLeft(ps[..i], self, caught) && (B0 + DoneLeft(ps[..i], self, caught))[MtTo(ps[i])] == []
    ensures var B := B0 + DoneLeft(ps[..i], self, caught); var t := MtTo(ps[i]);
      B[t := B[t] + [Msg(t, K_DONE, self, 0, 0)]] == B0 + DoneLeft(ps[..i + 1], self, caught)
  {
    assert ps[..i + 1][..i] == ps[..i];
    var t := MtTo(ps[i]);
    assert [] + [Msg(t, K_DONE, self, 0, 0)] == [Msg(t, K_DONE, self, 0, 0)];
  }

  /** The DONE to a caught worker is read: nothing is left for it. */
  lemma AbortCaught(ps: seq<int>, self: int, caught: set<int>, i: nat)
    requires i < |ps| && ps[i] != self && ps[i] in caught
    ensures DoneLeft(ps[..i + 1], self, caught) == DoneLeft(ps[..i], self, caught)
  {
    assert ps[..i + 1][..i] == ps[..i];
  }

  lemma DoneEnd(P0: map<int, Phase>, P: map<int, Phase>, pids: seq<int>, self: int)
    requires DoneInv(P0, P, pids, self, |pids|) && P0.Keys == Workers(pids, self)
    ensures forall p :: p in P ==> P[p] == Finished
  {
    EveryWorker(P, pids, self, Finished);
  }

  /** Before the DONE to the `i`-th pid: the worker still sings and its
      mailbox is empty. */
  lemma DoneReady(B0: map<int, seq<Msg>>, P0: map<int, Phase>, B: map<int, seq<Msg>>, P: map<int, Phase>,
                  pids: seq<int>, self: int, i: nat)
    requires i < |pids| && pids[i] != self && DoneInv(P0, P, pids, self, i)
    requires WorkerBoxesEmpty(B0, pids, self) && MT_ACK in B0 && B == B0[MT_ACK := Byes(pids[..i], self)]
    requires forall k :: 0 <= k < |pids| && pids[k] != self ==> pids[k] in P0 && P0[pids[k]].Singing?
    ensures pids[i] in P && P[pids[i]].Singing?
    ensures MtTo(pids[i]) in B && B[MtTo(pids[i])] == [] && MT_ACK in B && MtTo(pids[i]) != MT_ACK
  {
    assert pids[i] in pids;
  }

  /** After the DONE to the `i`-th pid: it has finished and its BYE is
      queued. */
  lemma DoneAfter(B0: map<int, seq<Msg>>, P0: map<int, Phase>, B: map<int, seq<Msg>>, P: map<int, Phase>,
                  B1: map<int, seq<Msg>>, P1: map<int, Phase>, pids: seq<int>, self: int, i: nat, done: Msg)
    requires i < |pids| && pids[i] != self && Distinct(pids) && pids[i] in P && P[pids[i]].Singing?
    requires DoneInv(P0, P, pids, self, i) && B == B0[MT_ACK := Byes(pids[..i], self)] && done.kind == K_DONE
    requires var r := React(pids[i], P[pids[i]], done);
      P1 == P[pids[i] := r.next] && B1 == B[MT_ACK := B[MT_ACK] + r.reply]
    ensures DoneInv(P0, P1, pids, self, i + 1) && B1 == B0[MT_ACK := Byes(pids[..i + 1], self)]
  {
    DoneAnswer(pids[i], P[pids[i]], done);
    ByesSnoc(pids, i, self);
    DoneStep(P0, P, P1, pids, self, i);
  }

  lemma DoneSkip(B0: map<int, seq<Msg>>, B: map<int, seq<Msg>>, pids: seq<int>, self: int, i: nat)
    requires i < |pids| && pids[i] == self && B == B0[MT_ACK := Byes(pids[..i], self)]
    ensures B == B0[MT_ACK := Byes(pids[..i + 1], self)]
  {
    ByesSnoc(pids, i, self);
    assert Byes(pids[..i], self) + [] == Byes(pids[..i], self);
  }
}
