/** The length limiter: a wrapper around a source that counts down a byte
    budget and refuses to read once the budget is spent. The bound is
    exclusive: a source exactly as long as the limit ends in an error, since
    the read after the last permitted byte finds the budget at zero. */
module Limiter {
  import opened Io
  import opened Cursors

  /** The conversion of the limiter's marker into the host's I/O error: kind
      `InvalidData`, with the marker as its cause. */
  function IntoIoError(e: LengthLimitExceeded): (r: IoError)
    ensures r.kind == InvalidData
    ensures DowncastLimit(r) == Some(e)
  {
    IoError(InvalidData, LimitReached(e))
  }

  /** The error a read with an exhausted budget returns. */
  function Exceeded(): (e: IoError)
    ensures e == IntoIoError(LengthLimitExceeded)
  {
    IntoIoError(LengthLimitExceeded)
  }

  /** `a - b`, clamped at zero instead of wrapping. */
  function SaturatingSub(a: nat, b: nat): (r: nat)
    ensures r <= a
    ensures b <= a ==> r + b == a
    ensures a < b ==> r == 0
  {
    if b <= a then a - b else 0
  }

  datatype Settled = Settled(remaining: nat, poll: Poll)

  /** The last part of a read step, for whatever outcome the source polled:
      the outcome is handed to the caller as it is, and only a successful
      read of `k` bytes lowers the budget, to `max(0, rem - k)`. */
  function Settle(rem: nat, p: Poll): (s: Settled)
    ensures s.poll == p
    ensures s.remaining <= rem
    ensures p.Ready? && p.result.Ok? ==>
              s.remaining == if p.result.n <= rem then rem - p.result.n else 0
    ensures !(p.Ready? && p.result.Ok?) ==> s.remaining == rem
  {
    match p
    case Pending => Settled(rem, p)
    case Ready(Err(_)) => Settled(rem, p)
    case Ready(Ok(k)) => Settled(SaturatingSub(rem, k), p)
  }

  /** The effect of one read step: the new budget, the new state of the
      source, the outcome, and the bytes written to the front of the
      caller's buffer. */
  datatype Step = Step(remaining: nat, next: CursorState, poll: Poll, bytes: seq<byte>)

  /** One read step with budget `rem` and a caller's buffer of `bufLen`
      bytes: fail at once on a spent budget, otherwise narrow the request to
      the budget, poll the source and settle the budget. */
  function LimitStep(rem: nat, bufLen: nat, s: CursorState): (st: Step)
    requires s.Valid()
    ensures st.next.Valid() && st.next.data == s.data
    // A spent budget fails with the marker and leaves the source alone.
    ensures rem == 0 ==> st == Step(0, s, Ready(Err(Exceeded())), [])
    // The source is asked for exactly `min(bufLen, rem)` bytes, so with no
    // interruption due it reads that many, or up to its next interruption.
    ensures rem > 0 && !s.Due() ==>
              |st.bytes| == Min(Min(bufLen, rem), s.Horizon() - s.pos)
    // A successful read stays within both the buffer and the budget, and
    // lowers the budget by exactly what it produced.
    ensures st.poll.Ready? && st.poll.result.Ok? ==>
              && rem > 0 && !s.Due()
              && st.poll.result.n == |st.bytes| <= Min(bufLen, rem)
              && st.remaining == rem - |st.bytes|
              && s.pos + |st.bytes| <= |s.data|
              && st.bytes == s.data[s.pos..s.pos + |st.bytes|]
              && st.next == s.(pos := s.pos + |st.bytes|)
    // The source's own error is forwarded as it is, and never confused
    // with the limit error.
    ensures rem > 0 && s.Due() && s.script[0].Fail? ==>
              st == Step(rem, s.(script := s.script[1..]), Ready(Err(s.script[0].error)), [])
    ensures rem > 0 && st.poll.Ready? && st.poll.result.Err? ==>
              s.Due() && s.script[0] == Fail(s.script[0].at, st.poll.result.error)
    // A source that is not ready changes nothing but its own script.
    ensures rem > 0 && s.Due() && s.script[0].Stall? ==>
              st == Step(rem, s.(script := s.script[1..]), Pending, [])
    ensures st.poll.Pending? ==>
              && rem > 0 && st.remaining == rem && st.bytes == []
              && s.Due() && s.script[0].Stall?
              && st.next == s.(script := s.script[1..])
  {
    if rem == 0 then
      Step(0, s, Ready(Err(Exceeded())), [])
    else
      var p := CursorStep(s, Min(bufLen, rem));
      var settled := Settle(rem, p.poll);
      Step(settled.remaining, p.next, settled.poll, p.bytes)
  }

  /** The effect of a series of read steps, one per buffer length in `lens`. */
  datatype Trace = Trace(remaining: nat, next: CursorState, polls: seq<Poll>, bytes: seq<byte>)

  function ReadSeries(rem: nat, s: CursorState, lens: seq<nat>): (t: Trace)
    requires s.Valid()
    ensures t.next.Valid() && t.next.data == s.data && |t.polls| == |lens|
    decreases |lens|
  {
    if lens == [] then
      Trace(rem, s, [], [])
    else
      var st := LimitStep(rem, lens[0], s);
      var t := ReadSeries(st.remaining, st.next, lens[1..]);
      Trace(t.remaining, t.next, [st.poll] + t.polls, st.bytes + t.bytes)
  }

  /** Once the budget is spent, every later read fails with the marker and
      neither the budget nor the source changes. */
  lemma {:induction false} ExhaustedIsPermanent(s: CursorState, lens: seq<nat>)
    requires s.Valid()
    ensures var t := ReadSeries(0, s, lens);
            && t.remaining == 0 && t.next == s && t.bytes == []
            && forall i :: 0 <= i < |t.polls| ==> t.polls[i] == Ready(Err(Exceeded()))
    decreases |lens|
  {
    if lens != [] {
      ExhaustedIsPermanent(s, lens[1..]);
    }
  }

  /** Over any series of reads the budget falls by exactly the number of
      bytes produced, those bytes are the source's next bytes in order, and
      the budget never goes below zero. */
  lemma {:induction false} BudgetAccounting(rem: nat, s: CursorState, lens: seq<nat>)
    requires s.Valid()
    ensures var t := ReadSeries(rem, s, lens);
            && t.remaining <= rem
            && t.remaining + |t.bytes| == rem
            && s.pos <= t.next.pos
            && t.bytes == s.data[s.pos..t.next.pos]
    decreases |lens|
  {
    if lens != [] {
      var st := LimitStep(rem, lens[0], s);
      assert st.remaining + |st.bytes| == rem && st.bytes == s.data[s.pos..st.next.pos];
      BudgetAccounting(st.remaining, st.next, lens[1..]);
      var t := ReadSeries(st.remaining, st.next, lens[1..]);
      SliceSplit(s.data, s.pos, st.next.pos, t.next.pos);
    }
  }

  lemma SliceSplit<T>(a: seq<T>, i: nat, j: nat, k: nat)
    requires i <= j <= k <= |a|
    ensures a[i..k] == a[i..j] + a[j..k]
  {
  }

  lemma ConcatAssoc<T>(x: seq<T>, y: seq<T>, z: seq<T>)
    ensures x + (y + z) == (x + y) + z
  {
  }

  /** Reading `a` and then `b` is reading `a + b`. */
  lemma {:induction false} SeriesSplit(rem: nat, s: CursorState, a: seq<nat>, b: seq<nat>)
    requires s.Valid()
    ensures var ta := ReadSeries(rem, s, a);
            var tb := ReadSeries(ta.remaining, ta.next, b);
            ReadSeries(rem, s, a + b) == Trace(tb.remaining, tb.next, ta.polls + tb.polls, ta.bytes + tb.bytes)
    decreases |a|
  {
    var ab := a + b;
    if a == [] {
      assert ab == b;
    } else {
      var st := LimitStep(rem, a[0], s);
      assert ab[0] == a[0] && ab[1..] == a[1..] + b;
      SeriesSplit(st.remaining, st.next, a[1..], b);
      var ta' := ReadSeries(st.remaining, st.next, a[1..]);
      var tb := ReadSeries(ta'.remaining, ta'.next, b);
      ConcatAssoc([st.poll], ta'.polls, tb.polls);
      ConcatAssoc(st.bytes, ta'.bytes, tb.bytes);
    }
  }

  /** The budget never increases: after a longer series of reads it is at
      most what it was after any shorter prefix of that series. */
  lemma RemainingNonIncreasing(rem: nat, s: CursorState, lens: seq<nat>, i: nat, j: nat)
    requires s.Valid() && i <= j <= |lens|
    ensures ReadSeries(rem, s, lens[..j]).remaining <= ReadSeries(rem, s, lens[..i]).remaining
  {
    var ti := ReadSeries(rem, s, lens[..i]);
    SeriesSplit(rem, s, lens[..i], lens[i..j]);
    assert lens[..i] + lens[i..j] == lens[..j];
    BudgetAccounting(ti.remaining, ti.next, lens[i..j]);
    assert ReadSeries(rem, s, lens[..j]).remaining == ReadSeries(ti.remaining, ti.next, lens[i..j]).remaining;
  }

  /** The limiter around a cursor. `limit` and `start` are the budget and the
      cursor position at construction; they let the invariant say that the
      budget is the limit less the bytes produced since. */
  class LengthLimit {
    const reader: Cursor
    var bytesRemaining: nat
    ghost const limit: nat
    ghost const start: nat

    ghost predicate Valid()
      reads this, reader
    {
      && reader.Valid()
      && start <= reader.pos
      && bytesRemaining + (reader.pos - start) == limit
    }

    /** The bytes handed to callers so far. */
    ghost function Produced(): seq<byte>
      reads this, reader
      requires Valid()
    {
      reader.data[start..reader.pos]
    }

    constructor (reader: Cursor, maxBytes: nat)
      requires reader.Valid() && maxBytes <= UsizeMax
      ensures Valid()
      ensures this.reader == reader && reader.State() == old(reader.State())
      ensures bytesRemaining == maxBytes && limit == maxBytes && Produced() == []
    {
      this.reader := reader;
      this.bytesRemaining := maxBytes;
      this.limit := maxBytes;
      this.start := reader.pos;
    }

    /** The number of further bytes a caller may read: the limit less what
        has already been produced. */
    function BytesRemaining(): (r: nat)
      reads this, reader
      requires Valid()
      ensures r + |Produced()| == limit
    {
      bytesRemaining
    }

    /** Borrows the wrapped source. */
    function AsRef(): (r: Cursor)
      reads this
      ensures r == reader
    {
      reader
    }

    /** Hands back the wrapped source where its cursor stands: just past the
        bytes produced so far; the unspent budget is forfeited. */
    function IntoInner(): (r: Cursor)
      reads this, reader
      requires Valid()
      ensures r == reader
      ensures r.pos == start + (limit - bytesRemaining)
    {
      reader
    }

    /** One read step into `buf`. */
    method Read(buf: array<byte>) returns (poll: Poll)
      requires Valid()
      modifies this, reader, buf
      ensures Valid()
      ensures var st := LimitStep(old(bytesRemaining), buf.Length, old(reader.State()));
              && bytesRemaining == st.remaining
              && reader.State() == st.next
              && poll == st.poll
              && buf[..|st.bytes|] == st.bytes
              && buf[|st.bytes|..] == old(buf[|st.bytes|..])
              && Produced() == old(Produced()) + st.bytes
      // Nothing at or past the narrowed length is written.
      ensures forall i :: Min(buf.Length, old(bytesRemaining)) <= i < buf.Length ==> buf[i] == old(buf[i])
    {
      var remaining := bytesRemaining;
      if remaining == 0 {
        poll := Ready(Err(Exceeded()));
        return;
      }
      var n := buf.Length;
      if remaining < n {
        n := remaining;
      }
      assert n == Min(buf.Length, remaining);
      ghost var p := CursorStep(reader.State(), n);
      poll := reader.PollRead(buf, n);
      if poll.Pending? || poll.result.Err? {
        return;
      }
      var newBytes := poll.result.n;
      assert newBytes == |p.bytes| <= n;
      bytesRemaining := SaturatingSub(remaining, newBytes);
      SliceSplit(reader.data, start, old(reader.pos), reader.pos);
    }
  }

  /** Wraps `reader` with a budget of `maxBytes` bytes. */
  method LimitBytes(reader: Cursor, maxBytes: nat) returns (l: LengthLimit)
    requires reader.Valid() && maxBytes <= UsizeMax
    ensures fresh(l) && l.Valid() && l.reader == reader
    ensures l.BytesRemaining() == maxBytes && l.Produced() == []
  {
    l := new LengthLimit(reader, maxBytes);
  }

  /** Wraps `reader` with a budget of `maxKb` kilobytes of 1024 bytes. */
  method LimitKb(reader: Cursor, maxKb: nat) returns (l: LengthLimit)
    requires reader.Valid() && maxKb * 1024 <= UsizeMax
    ensures fresh(l) && l.Valid() && l.reader == reader
    ensures l.BytesRemaining() == maxKb * 1024 && l.Produced() == []
  {
    l := LimitBytes(reader, maxKb * 1024);
  }

  /** Wraps `reader` with a budget of `maxMb` megabytes of 1024 kilobytes. */
  method LimitMb(reader: Cursor, maxMb: nat) returns (l: LengthLimit)
    requires reader.Valid() && maxMb * 1048576 <= UsizeMax
    ensures fresh(l) && l.Valid() && l.reader == reader
    ensures l.BytesRemaining() == maxMb * 1048576 && l.Produced() == []
  {
    l := LimitKb(reader, maxMb * 1024);
  }

  /** Wraps `reader` with a budget of `maxGb` gigabytes of 1024 megabytes. */
  method LimitGb(reader: Cursor, maxGb: nat) returns (l: LengthLimit)
    requires reader.Valid() && maxGb * 1073741824 <= UsizeMax
    ensures fresh(l) && l.Valid() && l.reader == reader
    ensures l.BytesRemaining() == maxGb * 1073741824 && l.Produced() == []
  {
    l := LimitMb(reader, maxGb * 1024);
  }
}
