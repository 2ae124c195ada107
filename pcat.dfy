/** The two-thread `cat` of Lesson_8/lesson8_pcat2.c: a writer thread reads
    the input files and deposits each chunk in a one-slot buffer, a reader
    thread takes it out and writes it to standard output, and the first error
    from either side is latched in the monitor and stops both. Each monitor
    operation runs under the mutex and is one atomic step; its condition-wait
    loop becomes the precondition that the wait is over. */
module PCat {
  import opened Common

  /** Size of the slot buffer and of each read. */
  const BUFSZ: nat := 4096

  /** The errno reported when a failure recorded none (`EIO` on Linux). */
  const EIO: int := 5

  /** What the reader finds once its wait is over. */
  datatype Take = Stopped | Drained | Data(bytes: seq<Byte>)

  class Monitor {
    /** The slot holds data. */
    var full: bool
    /** The writer finished normally. */
    var done: bool
    /** A fatal error happened: everyone ends. */
    var stop: bool
    var len: nat
    const buf: array<Byte>
    var errNo: int
    var errCtx: Option<string>

    ghost predicate Valid()
      reads this
    {
      buf.Length == BUFSZ && len <= BUFSZ
    }

    /** `mon_init`: everything zero. */
    constructor Init()
      ensures Valid() && fresh(buf)
      ensures !full && !done && !stop && len == 0
      ensures errNo == 0 && errCtx == None
    {
      buf := new Byte[BUFSZ](_ => 0);
      full, done, stop := false, false, false;
      len := 0;
      errNo, errCtx := 0, None;
    }

    /** `mon_fail_locked`: only the first failure is recorded. */
    method Fail(err: int, ctx: string)
      modifies this
      ensures stop
      ensures old(stop) ==> errNo == old(errNo) && errCtx == old(errCtx)
      ensures !old(stop) ==> errNo == err && errCtx == Some(ctx)
      ensures full == old(full) && done == old(done) && len == old(len)
    {
      if !stop {
        stop := true;
        errNo := err;
        errCtx := Some(ctx);
      }
    }

    /** The locked part of `copy_fd_to_monitor` for one chunk read, once the
        slot is empty or `stop` is set: deposits the chunk unless some thread
        has failed. */
    method Put(chunk: seq<Byte>) returns (put: bool)
      requires Valid() && 0 < |chunk| <= BUFSZ && (!full || stop)
      modifies this, buf
      ensures Valid()
      ensures put == !old(stop)
      ensures put ==> full && len == |chunk| && buf[..len] == chunk
      ensures !put ==> full == old(full) && len == old(len) && buf[..] == old(buf[..])
      ensures stop == old(stop) && done == old(done)
      ensures errNo == old(errNo) && errCtx == old(errCtx)
    {
      if stop {
        return false;
      }
      var i := 0;
      while i < |chunk|
        invariant i <= |chunk| && buf[..i] == chunk[..i]
        invariant unchanged(this)
      {
        buf[i] := chunk[i];
        i := i + 1;
      }
      len := |chunk|;
      full := true;
      return true;
    }

    /** The writer is through with its input. */
    method Finish()
      modifies this
      ensures done
      ensures full == old(full) && stop == old(stop) && len == old(len)
      ensures errNo == old(errNo) && errCtx == old(errCtx)
    {
      done := true;
    }

    /** The locked part of one `reader_thread` round, once the slot is full,
        the writer is done or `stop` is set. `stop` wins even over a full
        slot; an empty slot after `done` ends the reader normally; otherwise
        the chunk is taken and the slot emptied. */
    method Get() returns (t: Take)
      requires Valid() && (full || done || stop)
      modifies this
      ensures Valid()
      ensures old(stop) ==> t == Stopped && full == old(full)
      ensures !old(stop) && !old(full) ==> t == Drained && !full
      ensures !old(stop) && old(full) ==> t == Data(buf[..old(len)]) && !full
      ensures done == old(done) && stop == old(stop) && len == old(len)
      ensures errNo == old(errNo) && errCtx == old(errCtx)
    {
      if stop {
        return Stopped;
      }
      if !full && done {
        return Drained;
      }
      t := Data(buf[..len]);
      full := false;
    }

    /** The end of `main`: the exit status, and the errno put in the error
        message when there is one. */
    function Outcome(): (r: (int, Option<int>))
      reads this
      ensures r.0 == 0 || r.0 == 1
      ensures r.0 == 1 <==> stop
      ensures r.1.Some? <==> stop
      ensures r.1.Some? ==> r.1.value != 0 && (errNo != 0 ==> r.1.value == errNo)
    {
      if stop then (1, Some(if errNo != 0 then errNo else EIO)) else (0, None)
    }
  }

  /** The answer of one `write` call. */
  datatype WriteCall = Wrote(count: nat) | Interrupted | Failed(errno: int)

  /** The answers `calls` bring `write_all` with `left` bytes to go to an
      end: all bytes written, or an error other than EINTR. A `write` never
      reports more bytes than it was given. */
  predicate Completes(left: nat, calls: seq<WriteCall>)
    decreases |calls|
  {
    left == 0 ||
    (|calls| > 0 &&
      match calls[0]
      case Failed(_) => true
      case Interrupted => Completes(left, calls[1..])
      case Wrote(k) => k <= left && Completes(left - k, calls[1..]))
  }

  predicate NoFailure(calls: seq<WriteCall>) {
    forall i :: 0 <= i < |calls| ==> !calls[i].Failed?
  }

  /** The bytes the successful calls report. */
  function Progress(calls: seq<WriteCall>): nat {
    if |calls| == 0 then 0
    else Progress(calls[..|calls| - 1]) + (if calls[|calls| - 1].Wrote? then calls[|calls| - 1].count else 0)
  }

  /** `write_all`: `out` is what reaches the descriptor, `used` the number of
      `write` calls made. It returns 0 exactly when every byte was written,
      retries after EINTR, and returns -1 at the first other error. */
  method WriteAll(data: seq<Byte>, calls: seq<WriteCall>) returns (rc: int, out: seq<Byte>, used: nat)
    requires Completes(|data|, calls)
    ensures used <= |calls| && out <= data && |out| == Progress(calls[..used])
    ensures rc == 0 || rc == -1
    ensures rc == 0 <==> out == data
    ensures rc == 0 ==> NoFailure(calls[..used])
    ensures rc == -1 ==> used > 0 && calls[used - 1].Failed? && NoFailure(calls[..used - 1])
  {
    var off: nat := 0;
    var left: nat := |data|;
    used := 0;
    out := [];
    while left > 0
      invariant off + left == |data| && out == data[..off] && used <= |calls|
      invariant Completes(left, calls[used..])
      invariant NoFailure(calls[..used]) && off == Progress(calls[..used])
      decreases |calls| - used
    {
      CompletesStep(left, calls[used..]);
      var c := calls[used];
      assert calls[used..][0] == c;
      assert calls[used..][1..] == calls[used + 1..];
      assert calls[..used + 1][..used] == calls[..used];
      used := used + 1;
      match c
      case Interrupted =>
      case Failed(_) =>
        return -1, out, used;
      case Wrote(k) =>
        out := out + data[off..off + k];
        off := off + k;
        left := left - k;
    }
    assert data[..off] == data;
    rc := 0;
  }

  /** What one more `write` answer leaves to do. */
  lemma CompletesStep(left: nat, calls: seq<WriteCall>)
    requires left > 0 && Completes(left, calls)
    ensures |calls| > 0
    ensures calls[0].Wrote? ==> calls[0].count <= left && Completes(left - calls[0].count, calls[1..])
    ensures calls[0].Interrupted? ==> Completes(left, calls[1..])
  {
  }

  /** One sequential schedule of the two threads: after each chunk the
      writer deposits, the reader takes it and writes it out. If `readError`
      is `Some(j)`, the read after the first j chunks fails with errno `err`.
      With no error standard output receives every chunk in order and the
      status is 0; after a read error it holds the chunks read before it and
      the status is 1. */
  method RunSequential(chunks: seq<seq<Byte>>, readError: Option<nat>, err: int)
      returns (out: seq<Byte>, rc: int)
    requires forall i :: 0 <= i < |chunks| ==> 0 < |chunks[i]| <= BUFSZ
    requires readError.Some? ==> readError.value <= |chunks|
    ensures readError.None? ==> out == Flatten(chunks) && rc == 0
    ensures readError.Some? ==> out == Flatten(chunks[..readError.value]) && rc == 1
  {
    var m := new Monitor.Init();
    var n := if readError.Some? then readError.value else |chunks|;
    out := [];
    var j := 0;
    while j < n
      invariant j <= n && m.Valid() && fresh(m.buf)
      invariant !m.full && !m.done && !m.stop
      invariant out == Flatten(chunks[..j])
    {
      var put := m.Put(chunks[j]);
      var t := m.Get();
      FlattenStep(chunks, j);
      out := out + t.bytes;
      j := j + 1;
    }
    if readError.Some? {
      m.Fail(err, "input");
    } else {
      assert chunks[..j] == chunks;
    }
    m.Finish();
    var t := m.Get();
    rc := m.Outcome().0;
  }
}
