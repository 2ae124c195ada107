/** Lesson_11/lesson11_signal_cat.c: a parent sends a message to its child as
    real-time signals, one bit per signal (least significant bit first),
    then a "fin" signal with payload 2; the child rebuilds the bytes. */
module SignalCat {

  const BITS: nat := 8

  datatype SigKind = SigBit | SigAck | SigFin | SigOther

  /** A queued signal as `sigwaitinfo` reports it: its number, the sender's
      pid (`si_pid`) and the integer payload (`si_value.sival_int`). */
  datatype Signal = Signal(kind: SigKind, from: int, payload: int)

  /** `(c >> b) & 1` */
  function BitOf(c: bv8, b: nat): (bit: int)
    requires b < BITS
    ensures bit == 0 || bit == 1
  {
    if (c >> b) & 1 == 1 then 1 else 0
  }

  /** The eight data signals for one byte, bit 0 first. */
  function ByteSignals(parent: int, c: bv8): (r: seq<Signal>)
    ensures |r| == BITS
  {
    seq(BITS, b requires 0 <= b < BITS => Signal(SigBit, parent, BitOf(c, b)))
  }

  function BitSignals(parent: int, msg: seq<bv8>): (r: seq<Signal>)
    ensures |r| == BITS * |msg|
  {
    if |msg| == 0 then [] else BitSignals(parent, msg[..|msg| - 1]) + ByteSignals(parent, msg[|msg| - 1])
  }

  /** Everything the parent sends: the data signals, then fin with payload 2. */
  function Stream(parent: int, msg: seq<bv8>): seq<Signal> {
    BitSignals(parent, msg) + [Signal(SigFin, parent, 2)]
  }

  /** The character echoed after each byte: itself when printable ASCII, '.' otherwise. */
  function Shown(c: bv8): (r: char)
    ensures 32 <= r as int < 127
    ensures (32 <= c as int < 127) ==> r as int == c as int
    ensures !(32 <= c as int < 127) ==> r == '.'
  {
    if 32 <= c as int < 127 then (c as int) as char else '.'
  }

  /** `parent_send`: for every byte eight bit signals and the echoed
      character, then the fin signal. (Waiting for each ACK is left to the
      child: the parent only proceeds once it arrives.) */
  method ParentSend(parent: int, msg: seq<bv8>) returns (sent: seq<Signal>, shown: seq<char>)
    ensures sent == Stream(parent, msg)
    ensures |sent| == BITS * |msg| + 1
    ensures |shown| == |msg| && forall i :: 0 <= i < |msg| ==> shown[i] == Shown(msg[i])
  {
    sent := [];
    shown := [];
    var i := 0;
    while i < |msg|
      invariant i <= |msg|
      invariant sent == BitSignals(parent, msg[..i])
      invariant |shown| == i && forall k :: 0 <= k < i ==> shown[k] == Shown(msg[k])
    {
      var c := msg[i];
      var b := 0;
      ghost var before := sent;
      while b < BITS
        invariant b <= BITS
        invariant sent == before + ByteSignals(parent, c)[..b]
      {
        var bit := if (c >> b) & 1 == 1 then 1 else 0;
        sent := sent + [Signal(SigBit, parent, bit)];
        assert ByteSignals(parent, c)[..b + 1] == ByteSignals(parent, c)[..b] + [Signal(SigBit, parent, bit)];
        b := b + 1;
      }
      shown := shown + [Shown(c)];
      assert msg[..i + 1][..i] == msg[..i];
      i := i + 1;
    }
    assert msg[..i] == msg;
    sent := sent + [Signal(SigFin, parent, 2)];
  }

  // ----- the receiving side -----

  /** The signals the child's inner wait loop accepts: from the parent, and a
      data or fin signal. Everything else is skipped. */
  predicate Accepted(parent: int, s: Signal) {
    s.from == parent && (s.kind == SigBit || s.kind == SigFin)
  }

  /** The signals of `inbox` that the child accepts, in order. */
  function Relevant(parent: int, inbox: seq<Signal>): seq<Signal> {
    RelevantFrom(parent, inbox, 0)
  }

  /** Relevant of the suffix that starts at `pos`, read by index. */
  function RelevantFrom(parent: int, inbox: seq<Signal>, pos: nat): seq<Signal>
    requires pos <= |inbox|
    decreases |inbox| - pos
  {
    if pos == |inbox| then []
    else (if Accepted(parent, inbox[pos]) then [inbox[pos]] else []) + RelevantFrom(parent, inbox, pos + 1)
  }

  /** A fin with payload 2 ends the transfer; a fin with another payload is
      taken as a data bit. */
  predicate IsFin2(s: Signal) {
    s.kind == SigFin && s.payload == 2
  }

  /** None of the signals is the fin with payload 2. */
  predicate NoFin2(t: seq<Signal>) {
    forall j :: 0 <= j < |t| ==> !IsFin2(t[j])
  }

  /** The single-bit mask `1 << b`. */
  function Mask(b: nat): bv8
    requires b < BITS
  {
    match b
    case 0 => 1 case 1 => 2 case 2 => 4 case 3 => 8
    case 4 => 16 case 5 => 32 case 6 => 64 case _ => 128
  }

  /** `payload & 1`; on a two's-complement int this is the parity. */
  function PayloadBit(x: int): (bit: bv8)
    ensures bit == 0 || bit == 1
  {
    if x % 2 == 0 then 0 else 1
  }

  /** `c |= (payload & 1) << b` over the bits received so far for one byte. */
  function DecodeBits(bits: seq<int>): bv8
    requires |bits| <= BITS
  {
    if |bits| == 0 then 0
    else DecodeBits(bits[..|bits| - 1]) | (if PayloadBit(bits[|bits| - 1]) == 1 then Mask(|bits| - 1) else 0)
  }

  lemma ShiftMask(x: bv8, b: nat)
    requires b < BITS && (x == 0 || x == 1)
    ensures x << b == (if x == 1 then Mask(b) else 0)
  {
  }

  lemma BitOfMask(c: bv8, b: nat)
    requires b < BITS
    ensures (BitOf(c, b) == 1) == (c & Mask(b) != 0)
  {
  }

  function Payloads(r: seq<Signal>): (p: seq<int>)
    ensures |p| == |r|
  {
    seq(|r|, i requires 0 <= i < |r| => r[i].payload)
  }

  function Min(a: int, b: int): int { if a < b then a else b }

  /** The buffer of `len` bytes after the given bits arrived: byte k is built
      from bits 8k .. 8k+7, a byte whose bits stopped early keeps what it got,
      and the bytes no bit reached stay 0. */
  function Assemble(bits: seq<int>, len: nat): (buf: seq<bv8>)
    ensures |buf| == len
  {
    seq(len, k requires 0 <= k < len =>
      DecodeBits(bits[Min(BITS * k, |bits|) .. Min(BITS * k + BITS, |bits|)]))
  }

  datatype RecvStatus = Finished | EarlyEnd | Starved

  /** Some accepted signal before position `m` is the fin with payload 2. */
  predicate EarlyFin(r: seq<Signal>, m: nat) {
    exists e :: 0 <= e < m && e < |r| && IsFin2(r[e])
  }

  /** Some accepted signal at or after position `m` is the fin with payload 2. */
  predicate FinAfter(r: seq<Signal>, m: nat) {
    exists j :: m <= j < |r| && IsFin2(r[j])
  }

  /** The inner `for (;;)` of `child_recv`: take signals until one from the
      parent is a data or fin signal. `found` is false when the inbox runs
      out first (the real child would block). */
  method NextAccepted(parent: int, inbox: seq<Signal>, pos: nat) returns (found: bool, s: Signal, next: nat)
    requires pos <= |inbox|
    ensures pos <= next <= |inbox|
    ensures found ==> (Accepted(parent, s)
      && RelevantFrom(parent, inbox, pos) == [s] + RelevantFrom(parent, inbox, next))
    ensures !found <==> RelevantFrom(parent, inbox, pos) == []
  {
    next := pos;
    while true
      invariant pos <= next <= |inbox|
      invariant RelevantFrom(parent, inbox, pos) == RelevantFrom(parent, inbox, next)
      decreases |inbox| - next
    {
      if next == |inbox| {
        found := false;
        s := Signal(SigOther, 0, 0);
        return;
      }
      s := inbox[next];
      next := next + 1;
      if s.from == parent && (s.kind == SigBit || s.kind == SigFin) {
        found := true;
        return;
      }
    }
  }

  /** How the reception of one byte ended: all eight bits arrived, the fin
      with payload 2 came first, or the inbox ran out. */
  datatype ByteEnd = Full | Fin | Out

  /** The body of `child_recv`'s loop over `b`: up to eight accepted signals,
      each a bit that is ORed into `c` at position `b`; `taken` are the
      signals used as bits. */
  method RecvByte(parent: int, inbox: seq<Signal>, pos: nat) returns (st: ByteEnd, c: bv8, next: nat, taken: seq<Signal>)
    requires pos <= |inbox|
    ensures pos <= next <= |inbox|
    ensures ByteResult(RelevantFrom(parent, inbox, pos), RelevantFrom(parent, inbox, next), st, taken)
    ensures c == DecodeBits(Payloads(taken))
  {
    ghost var r := RelevantFrom(parent, inbox, pos);
    c := 0;
    next := pos;
    taken := [];
    var b := 0;
    while b < BITS
      invariant b <= BITS && pos <= next <= |inbox|
      invariant |taken| == b
      invariant ByteSoFar(r, taken, RelevantFrom(parent, inbox, next), c)
    {
      var found, s, after := NextAccepted(parent, inbox, next);
      if !found {
        st := Out;
        ByteOut(r, taken, RelevantFrom(parent, inbox, next), c);
        return;
      }
      next := after;
      if s.kind == SigFin && s.payload == 2 {
        st := Fin;
        ByteFin(r, taken, s, RelevantFrom(parent, inbox, next), c);
        return;
      }
      var bit := PayloadBit(s.payload);
      BitStep(r, taken, s, RelevantFrom(parent, inbox, next), c, bit);
      // `c |= bit << b`, written with the mask (SetBitMask shows they agree)
      c := c | (if bit == 1 then Mask(b) else 0);
      taken := taken + [s];
      b := b + 1;
    }
    st := Full;
  }

  /** How one byte's reception relates the accepted signals `r` before it
      and `rest` after it: the bits taken are the first accepted signals, none
      of them is the fin with payload 2; a full
      byte takes eight, an early fin stops at the first fin with payload 2 and
      an exhausted inbox leaves nothing after the bits. */
  predicate ByteResult(r: seq<Signal>, rest: seq<Signal>, st: ByteEnd, taken: seq<Signal>) {
    && |taken| <= BITS && NoFin2(taken)
    && (st == Full ==> |taken| == BITS && r == taken + rest)
    && (st == Fin ==> |taken| < BITS && |taken| < |r| && IsFin2(r[|taken|]) && r[..|taken|] == taken)
    && (st == Out ==> |taken| < BITS && r == taken)
  }

  /** The invariant of RecvByte's loop: the bits taken so far are the first
      accepted signals, none is the fin with payload 2, and `c` holds them. */
  predicate ByteSoFar(r: seq<Signal>, taken: seq<Signal>, rest: seq<Signal>, c: bv8) {
    |taken| <= BITS && r == taken + rest && NoFin2(taken) && c == DecodeBits(Payloads(taken))
  }

  lemma ByteOut(r: seq<Signal>, taken: seq<Signal>, rest: seq<Signal>, c: bv8)
    requires |taken| < BITS && ByteSoFar(r, taken, [], c)
    ensures ByteResult(r, rest, Out, taken) && c == DecodeBits(Payloads(taken))
  {
    assert r == taken;
  }

  lemma ByteFin(r: seq<Signal>, taken: seq<Signal>, s: Signal, rest: seq<Signal>, c: bv8)
    requires |taken| < BITS && ByteSoFar(r, taken, [s] + rest, c) && IsFin2(s)
    ensures ByteResult(r, rest, Fin, taken) && c == DecodeBits(Payloads(taken))
  {
    assert r[..|taken|] == taken;
    assert r[|taken|] == s;
  }

  /** One data bit taken: the invariants of RecvByte's loop one step on. */
  lemma BitStep(r: seq<Signal>, taken: seq<Signal>, s: Signal, rest: seq<Signal>, c: bv8, bit: bv8)
    requires |taken| < BITS && ByteSoFar(r, taken, [s] + rest, c) && !IsFin2(s) && bit == PayloadBit(s.payload)
    ensures ByteSoFar(r, taken + [s], rest, c | (if bit == 1 then Mask(|taken|) else 0))
  {
    PayloadsSnoc(taken, s);
    OrBit(c, Payloads(taken), s.payload, bit);
  }

  lemma OrBit(c: bv8, bits: seq<int>, x: int, bit: bv8)
    requires |bits| < BITS && c == DecodeBits(bits) && bit == PayloadBit(x)
    ensures c | (if bit == 1 then Mask(|bits|) else 0) == DecodeBits(bits + [x])
  {
    assert (bits + [x])[..|bits|] == bits;
  }

  /** Shifting a single bit into place is OR-ing the matching mask. */
  lemma SetBitMask(c: bv8, bit: bv8, b: nat)
    requires b < BITS && (bit == 0 || bit == 1)
    ensures SetBit(c, bit, b) == c | (if bit == 1 then Mask(b) else 0)
  {
    ShiftMask(bit, b);
  }

  /** `c |= bit << b` */
  function SetBit(c: bv8, bit: bv8, b: nat): bv8
    requires b < BITS
  {
    c | (bit << b)
  }

  lemma PayloadsSnoc(t: seq<Signal>, s: Signal)
    ensures Payloads(t + [s]) == Payloads(t) + [s.payload]
  {
  }

  /** One turn of `child_recv`'s loop over `i`: receive a byte and store
      what was built of it in `buf[i]`, also when an early fin cut it short. */
  method RecvInto(parent: int, inbox: seq<Signal>, pos: nat, a: array<bv8>, i: nat, ghost consumed: seq<Signal>)
      returns (st: ByteEnd, next: nat, taken: seq<Signal>)
    requires pos <= |inbox| && i < a.Length && |consumed| == BITS * i
    requires a[..] == Assemble(Payloads(consumed), a.Length)
    modifies a
    ensures pos <= next <= |inbox|
    ensures ByteResult(RelevantFrom(parent, inbox, pos), RelevantFrom(parent, inbox, next), st, taken)
    ensures a[..] == Assemble(Payloads(consumed + taken), a.Length)
  {
    var c;
    st, c, next, taken := RecvByte(parent, inbox, pos);
    ByteConsumed(consumed, taken, a.Length, i, c, st == Full);
    a[i] := c;
  }

  /** The final `for (;;)` of `child_recv`: wait for the fin with payload 2
      from the parent, ignoring everything else. */
  method WaitFin(parent: int, inbox: seq<Signal>, pos: nat) returns (found: bool)
    requires pos <= |inbox|
    ensures found <==> FinAfter(RelevantFrom(parent, inbox, pos), 0)
  {
    var p := pos;
    ghost var skipped: seq<Signal> := [];
    while p < |inbox|
      invariant pos <= p <= |inbox|
      invariant RelevantFrom(parent, inbox, pos) == skipped + RelevantFrom(parent, inbox, p)
      invariant NoFin2(skipped)
    {
      var s := inbox[p];
      if s.from == parent && s.kind == SigFin && s.payload == 2 {
        assert RelevantFrom(parent, inbox, pos)[|skipped|] == s;
        return true;
      }
      if Accepted(parent, s) {
        skipped := skipped + [s];
      }
      p := p + 1;
    }
    assert RelevantFrom(parent, inbox, pos) == skipped;
    return false;
  }

  /** `child_recv`: for each of the `len` bytes, eight accepted signals, each
      acknowledged; an early fin with payload 2 stores the partial byte and
      stops; after the last byte the child waits for fin with payload 2 and
      acknowledges it. `Starved` stands for waiting forever: the inbox ran
      out before the child could finish. `r` below is the sequence of
      signals the inner wait loop accepts. */
  method ChildRecv(parent: int, len: nat, inbox: seq<Signal>) returns (status: RecvStatus, buf: seq<bv8>, acks: nat)
    ensures RecvResult(Relevant(parent, inbox), len, status, buf, acks)
  {
    ghost var m := BITS * len;
    var a := new bv8[len](_ => 0);
    ghost var r := RelevantFrom(parent, inbox, 0);
    ghost var consumed: seq<Signal> := [];
    var pos := 0;
    acks := 0;
    var i := 0;
    while i < len
      invariant i <= len && pos <= |inbox|
      invariant |consumed| == BITS * i && acks == |consumed|
      invariant r == consumed + RelevantFrom(parent, inbox, pos)
      invariant NoFin2(consumed)
      invariant a[..] == Assemble(Payloads(consumed), len)
    {
      var st, next, taken := RecvInto(parent, inbox, pos, a, i, consumed);
      ghost var old_pos := pos;
      pos := next;
      acks := acks + |taken|;
      if st == Out {
        status := Starved;
        buf := a[..];
        StarvedEarly(r, consumed, taken, len, buf, acks);
        return;
      } else if st == Fin {
        status := EarlyEnd;
        buf := a[..];
        EarlyResult(r, consumed, taken, RelevantFrom(parent, inbox, old_pos), len, buf, acks);
        return;
      }
      FullStep(r, consumed, taken, RelevantFrom(parent, inbox, old_pos), RelevantFrom(parent, inbox, pos));
      consumed := consumed + taken;
      i := i + 1;
    }
    buf := a[..];
    var found := WaitFin(parent, inbox, pos);
    if found {
      acks := acks + 1;
      status := Finished;
    } else {
      status := Starved;
    }
    FinalResult(r, consumed, RelevantFrom(parent, inbox, pos), len, buf, found, acks, status);
  }

  /** What `child_recv` ends with, given the accepted signals `r`: it ends
      early exactly when a fin with payload 2 is among the first 8·len
      accepted signals, and then holds the bits before it; it finishes
      exactly when no such early fin exists and one follows the 8·len data
      signals, and then holds the bytes built from those and has sent
      8·len + 1 ACKs. */
  predicate RecvResult(r: seq<Signal>, len: nat, status: RecvStatus, buf: seq<bv8>, acks: nat) {
    var m := BITS * len;
    && |buf| == len
    && (status == EarlyEnd <==> EarlyFin(r, m))
    && (status == EarlyEnd ==>
          && acks < m && acks < |r| && IsFin2(r[acks])
          && (forall j :: 0 <= j < acks ==> !IsFin2(r[j]))
          && buf == Assemble(Payloads(r[..acks]), len))
    && (status == Finished <==> !EarlyFin(r, m) && m <= |r| && FinAfter(r, m))
    && (status == Finished ==> acks == m + 1 && buf == Assemble(Payloads(r[..m]), len))
  }

  lemma FullStep(r: seq<Signal>, consumed: seq<Signal>, taken: seq<Signal>, here: seq<Signal>, rest: seq<Signal>)
    requires r == consumed + here && here == taken + rest
    requires NoFin2(consumed) && NoFin2(taken)
    ensures r == (consumed + taken) + rest && NoFin2(consumed + taken)
  {
    forall j | 0 <= j < |consumed + taken| ensures !IsFin2((consumed + taken)[j]) {
      if j >= |consumed| { assert (consumed + taken)[j] == taken[j - |consumed|]; }
    }
  }

  /** One received byte enters the buffer at index `i`. */
  lemma ByteConsumed(consumed: seq<Signal>, taken: seq<Signal>, len: nat, i: nat, c: bv8, full: bool)
    requires i < len && |consumed| == BITS * i && |taken| <= BITS
    requires full ==> |taken| == BITS
    requires c == DecodeBits(Payloads(taken))
    ensures Assemble(Payloads(consumed), len)[i := c] == Assemble(Payloads(consumed + taken), len)
  {
    var all := consumed + taken;
    assert all[.. BITS * i] == consumed;
    assert Payloads(all)[BITS * i ..] == Payloads(taken);
    if |taken| == BITS {
      AssembleByte(all, len, i, c);
    } else {
      EarlyAssemble(all, len, i, |taken|, c);
    }
  }

  lemma StarvedEarly(r: seq<Signal>, consumed: seq<Signal>, taken: seq<Signal>, len: nat, buf: seq<bv8>, acks: nat)
    requires r == consumed + taken && |consumed| + |taken| < BITS * len && |buf| == len
    requires NoFin2(consumed)
    requires NoFin2(taken)
    ensures RecvResult(r, len, Starved, buf, acks)
  {
    forall e | 0 <= e < |r| ensures !IsFin2(r[e]) {
      if e < |consumed| { assert r[e] == consumed[e]; } else { assert r[e] == taken[e - |consumed|]; }
    }
  }

  lemma EarlyResult(r: seq<Signal>, consumed: seq<Signal>, taken: seq<Signal>, rest: seq<Signal>,
                    len: nat, buf: seq<bv8>, acks: nat)
    requires |consumed| + |taken| < BITS * len && acks == |consumed| + |taken|
    requires NoFin2(consumed)
    requires NoFin2(taken)
    requires r == consumed + rest && |taken| < |rest| && IsFin2(rest[|taken|]) && rest[..|taken|] == taken
    requires buf == Assemble(Payloads(consumed + taken), len)
    ensures RecvResult(r, len, EarlyEnd, buf, acks)
  {
    var got := consumed + taken;
    assert r[|got|] == rest[|taken|];
    assert r[..|got|] == got;
    forall j | 0 <= j < |got| ensures !IsFin2(r[j]) {
      if j < |consumed| { assert r[j] == consumed[j]; } else { assert r[j] == taken[j - |consumed|]; }
    }
  }

  lemma FinalResult(r: seq<Signal>, consumed: seq<Signal>, rest: seq<Signal>, len: nat, buf: seq<bv8>,
                    found: bool, acks: nat, status: RecvStatus)
    requires |consumed| == BITS * len && r == consumed + rest
    requires NoFin2(consumed)
    requires buf == Assemble(Payloads(consumed), len)
    requires found <==> FinAfter(rest, 0)
    requires acks == BITS * len + (if found then 1 else 0)
    requires status == (if found then Finished else Starved)
    ensures RecvResult(r, len, status, buf, acks)
  {
    var m := BITS * len;
    assert r[..m] == consumed;
    forall e | 0 <= e < m && e < |r| ensures !IsFin2(r[e]) {
      assert r[e] == consumed[e];
    }
    if FinAfter(r, m) {
      var j :| m <= j < |r| && IsFin2(r[j]);
      assert rest[j - m] == r[j];
    }
    if FinAfter(rest, 0) {
      var j :| 0 <= j < |rest| && IsFin2(rest[j]);
      assert r[j + m] == rest[j];
    }
  }

  lemma AssembleByte(consumed: seq<Signal>, len: nat, i: nat, c: bv8)
    requires i < len && |consumed| == BITS * i + BITS
    requires c == DecodeBits(Payloads(consumed)[BITS * i ..])
    ensures Assemble(Payloads(consumed[.. BITS * i]), len)[i := c] == Assemble(Payloads(consumed), len)
  {
    var p := Payloads(consumed);
    var q := Payloads(consumed[.. BITS * i]);
    assert q == p[.. BITS * i];
    forall k | 0 <= k < len
      ensures Assemble(q, len)[i := c][k] == Assemble(p, len)[k]
    {
      if k < i {
        assert BITS * k + BITS <= BITS * i;
        assert q[BITS * k .. BITS * k + BITS] == p[BITS * k .. BITS * k + BITS];
      } else if k == i {
        assert p[BITS * i ..] == p[BITS * i .. BITS * i + BITS];
      } else {
        assert BITS * k >= BITS * i + BITS;
        assert q[Min(BITS * k, |q|) .. Min(BITS * k + BITS, |q|)] == [];
        assert p[Min(BITS * k, |p|) .. Min(BITS * k + BITS, |p|)] == [];
      }
    }
  }

  lemma EarlyAssemble(consumed: seq<Signal>, len: nat, i: nat, b: nat, c: bv8)
    requires i < len && b < BITS && |consumed| == BITS * i + b
    requires c == DecodeBits(Payloads(consumed)[BITS * i ..])
    ensures Assemble(Payloads(consumed[.. BITS * i]), len)[i := c] == Assemble(Payloads(consumed), len)
  {
    var p := Payloads(consumed);
    var q := Payloads(consumed[.. BITS * i]);
    assert q == p[.. BITS * i];
    forall k | 0 <= k < len
      ensures Assemble(q, len)[i := c][k] == Assemble(p, len)[k]
    {
      if k < i {
        assert BITS * k + BITS <= BITS * i;
        assert q[BITS * k .. BITS * k + BITS] == p[BITS * k .. BITS * k + BITS];
      } else if k == i {
        assert p[Min(BITS * i, |p|) .. Min(BITS * i + BITS, |p|)] == p[BITS * i ..];
      } else {
        assert BITS * k >= BITS * i + BITS;
        assert q[Min(BITS * k, |q|) .. Min(BITS * k + BITS, |q|)] == [];
        assert p[Min(BITS * k, |p|) .. Min(BITS * k + BITS, |p|)] == [];
      }
    }
  }

  // ----- properties -----

  /** Decoding the eight bits of a byte gives the byte back. */
  lemma DecodeByte(c: bv8)
    ensures DecodeBits(Payloads(ByteSignals(0, c))) == c
  {
    var p := Payloads(ByteSignals(0, c));
    forall b | 0 <= b < BITS ensures p[b] == BitOf(c, b) && ((BitOf(c, b) == 1) == (c & Mask(b) != 0)) {
      BitOfMask(c, b);
    }
    assert p[..1][..0] == p[..0];
    assert p[..2][..1] == p[..1];
    assert p[..3][..2] == p[..2];
    assert p[..4][..3] == p[..3];
    assert p[..5][..4] == p[..4];
    assert p[..6][..5] == p[..5];
    assert p[..7][..6] == p[..6];
    assert p[..8][..7] == p[..7];
    assert p == p[..8];
    assert DecodeBits(p[..1]) == c & 1;
    assert DecodeBits(p[..2]) == c & 3;
    assert DecodeBits(p[..3]) == c & 7;
    assert DecodeBits(p[..4]) == c & 15;
    assert DecodeBits(p[..5]) == c & 31;
    assert DecodeBits(p[..6]) == c & 63;
    assert DecodeBits(p[..7]) == c & 127;
  }

  lemma PayloadsAnyPid(parent: int, c: bv8)
    ensures Payloads(ByteSignals(parent, c)) == Payloads(ByteSignals(0, c))
  {
  }

  lemma {:induction false} RelevantOfBits(parent: int, msg: seq<bv8>)
    ensures Relevant(parent, BitSignals(parent, msg)) == BitSignals(parent, msg)
  {
    if |msg| > 0 {
      RelevantOfBits(parent, msg[..|msg| - 1]);
      RelevantAppend(parent, BitSignals(parent, msg[..|msg| - 1]), ByteSignals(parent, msg[|msg| - 1]));
      RelevantAll(parent, ByteSignals(parent, msg[|msg| - 1]), 0);
    }
  }

  lemma {:induction false} RelevantAll(parent: int, s: seq<Signal>, i: nat)
    requires i <= |s| && forall k :: 0 <= k < |s| ==> Accepted(parent, s[k])
    ensures RelevantFrom(parent, s, i) == s[i..]
    decreases |s| - i
  {
    if i < |s| {
      RelevantAll(parent, s, i + 1);
      assert s[i..] == [s[i]] + s[i + 1..];
    }
  }

  /** Filtering the second half of a concatenation from its own start. */
  lemma {:induction false} RelevantShift(parent: int, s: seq<Signal>, t: seq<Signal>, j: nat)
    requires j <= |t|
    ensures RelevantFrom(parent, s + t, |s| + j) == RelevantFrom(parent, t, j)
    decreases |t| - j
  {
    if j < |t| {
      RelevantShift(parent, s, t, j + 1);
      assert (s + t)[|s| + j] == t[j];
    }
  }

  lemma {:induction false} RelevantAppendFrom(parent: int, s: seq<Signal>, t: seq<Signal>, i: nat)
    requires i <= |s|
    ensures RelevantFrom(parent, s + t, i) == RelevantFrom(parent, s, i) + RelevantFrom(parent, t, 0)
    decreases |s| - i
  {
    if i == |s| {
      RelevantShift(parent, s, t, 0);
    } else {
      RelevantAppendFrom(parent, s, t, i + 1);
      var h := if Accepted(parent, s[i]) then [s[i]] else [];
      assert (s + t)[i] == s[i];
      assert RelevantFrom(parent, s + t, i) == h + RelevantFrom(parent, s + t, i + 1);
      assert RelevantFrom(parent, s, i) == h + RelevantFrom(parent, s, i + 1);
    }
  }

  /** The filter distributes over concatenation. */
  lemma RelevantAppend(parent: int, s: seq<Signal>, t: seq<Signal>)
    ensures Relevant(parent, s + t) == Relevant(parent, s) + Relevant(parent, t)
  {
    RelevantAppendFrom(parent, s, t, 0);
  }

  lemma {:induction false} BitSignalsAreBits(parent: int, msg: seq<bv8>, j: nat)
    requires j < BITS * |msg|
    ensures BitSignals(parent, msg)[j].kind == SigBit
  {
    var front := BitSignals(parent, msg[..|msg| - 1]);
    if j >= |front| {
    } else {
      BitSignalsAreBits(parent, msg[..|msg| - 1], j);
    }
  }

  /** Appending the eight bits of one more byte leaves the earlier bytes
      alone and decodes the new one from those bits. */
  lemma AssembleSnoc(pf: seq<int>, pc: seq<int>, n: nat)
    requires |pf| == BITS * n && |pc| == BITS
    ensures Assemble(pf + pc, n + 1)[..n] == Assemble(pf, n)
    ensures Assemble(pf + pc, n + 1)[n] == DecodeBits(pc)
  {
    var p := pf + pc;
    forall k | 0 <= k < n
      ensures Assemble(p, n + 1)[k] == Assemble(pf, n)[k]
    {
      assert BITS * k + BITS <= |pf|;
      assert p[BITS * k .. BITS * k + BITS] == pf[BITS * k .. BITS * k + BITS];
    }
    assert p[BITS * n .. BITS * n + BITS] == pc;
  }

  lemma {:induction false} AssembleBits(parent: int, msg: seq<bv8>)
    ensures Assemble(Payloads(BitSignals(parent, msg)), |msg|) == msg
  {
    if |msg| > 0 {
      var n := |msg| - 1;
      var front := msg[..n];
      AssembleBits(parent, front);
      var pf := Payloads(BitSignals(parent, front));
      var pc := Payloads(ByteSignals(parent, msg[n]));
      assert BitSignals(parent, msg) == BitSignals(parent, front) + ByteSignals(parent, msg[n]);
      PayloadsAppend(BitSignals(parent, front), ByteSignals(parent, msg[n]));
      AssembleSnoc(pf, pc, n);
      PayloadsAnyPid(parent, msg[n]);
      DecodeByte(msg[n]);
      var q := Assemble(pf + pc, n + 1);
      assert q == q[..n] + [q[n]];
      assert msg == front + [msg[n]];
    }
  }

  lemma PayloadsAppend(a: seq<Signal>, b: seq<Signal>)
    ensures Payloads(a + b) == Payloads(a) + Payloads(b)
  {
  }

  /** The round trip: a child whose inbox, once filtered, is exactly what
      the parent sends (any foreign signals mixed in are skipped) finishes,
      acknowledges 8·len + 1 signals and holds the message. */
  lemma RoundTrip(parent: int, msg: seq<bv8>, inbox: seq<Signal>, status: RecvStatus, buf: seq<bv8>, acks: nat)
    requires Relevant(parent, inbox) == Stream(parent, msg)
    requires RecvResult(Relevant(parent, inbox), |msg|, status, buf, acks)
    ensures status == Finished && buf == msg && acks == BITS * |msg| + 1
  {
    var r := Relevant(parent, inbox);
    var m := BITS * |msg|;
    assert r[..m] == BitSignals(parent, msg);
    forall j | 0 <= j < m && j < |r| ensures !IsFin2(r[j]) {
      BitSignalsAreBits(parent, msg, j);
    }
    assert IsFin2(r[m]);
    AssembleBits(parent, msg);
  }

  /** The parent's own stream passes the child's filter unchanged. */
  lemma StreamIsRelevant(parent: int, msg: seq<bv8>)
    ensures Relevant(parent, Stream(parent, msg)) == Stream(parent, msg)
  {
    RelevantAppend(parent, BitSignals(parent, msg), [Signal(SigFin, parent, 2)]);
    RelevantOfBits(parent, msg);
    RelevantAll(parent, [Signal(SigFin, parent, 2)], 0);
  }

  /** What `printf("%s\n", buf)` shows of the buffer: the bytes before the
      first 0 (the buffer itself carries a 0 after its last byte). */
  function PrintedText(buf: seq<bv8>): (t: seq<bv8>)
    ensures |t| <= |buf| && t == buf[..|t|]
    ensures forall k :: 0 <= k < |t| ==> t[k] != 0
    ensures |t| < |buf| ==> buf[|t|] == 0
  {
    if |buf| == 0 || buf[0] == 0 then [] else [buf[0]] + PrintedText(buf[1..])
  }

  /** A message without 0 bytes is printed whole after the round trip. */
  lemma PrintedWhole(msg: seq<bv8>)
    requires forall k :: 0 <= k < |msg| ==> msg[k] != 0
    ensures PrintedText(msg) == msg
  {
  }

  /** After an early fin, the bytes no bit reached are still 0. */
  lemma EarlyFinZeroFill(bits: seq<int>, len: nat, k: nat)
    requires k < len && BITS * k >= |bits|
    ensures Assemble(bits, len)[k] == 0
  {
    assert bits[Min(BITS * k, |bits|) .. Min(BITS * k + BITS, |bits|)] == [];
  }
}
