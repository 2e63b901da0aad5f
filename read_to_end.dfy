/** Reading a limited cursor to its end, the way a caller drives the limiter:
    poll with a buffer of `chunk` bytes, keep what each read produced, poll
    again when the source was not ready, and stop at the first end of stream
    or error. Here the exclusive bound shows: an input shorter than the limit
    is read whole, while an input at least as long ends in the limit error
    after exactly `limit` bytes. */
module ReadToEnd {
  import opened Io
  import opened Cursors
  import opened Limiter

  /** The effect of reading to the end: the bytes collected, the final
      result, and the limiter's final budget and source state. */
  datatype Drained = Drained(out: seq<byte>, res: IoResult, remaining: nat, next: CursorState)

  function Drain(rem: nat, s: CursorState, chunk: nat): (d: Drained)
    requires s.Valid()
    ensures d.next.Valid() && d.next.data == s.data
    // A success reports the number of bytes collected.
    ensures d.res.Ok? ==> d.res.n == |d.out|
    // The collected bytes are the source's bytes in order, and the budget
    // fell by exactly their number.
    ensures s.pos <= d.next.pos && d.out == s.data[s.pos..d.next.pos]
    ensures d.remaining + |d.out| == rem
    decreases s.Rank()
  {
    var st := LimitStep(rem, chunk, s);
    match st.poll
    case Pending => Drain(st.remaining, st.next, chunk)
    case Ready(Err(e)) => Drained([], Err(e), st.remaining, st.next)
    case Ready(Ok(k)) =>
      if k == 0 then
        Drained([], Ok(0), st.remaining, st.next)
      else
        assert st.next.pos == s.pos + k && st.bytes == s.data[s.pos..st.next.pos];
        var d := Drain(st.remaining, st.next, chunk);
        SliceSplit(s.data, s.pos, st.next.pos, d.next.pos);
        Drained(st.bytes + d.out, if d.res.Ok? then Ok(k + d.res.n) else d.res, d.remaining, d.next)
  }

  /** One step of `Drain`, spelled out for the loop that implements it. */
  lemma DrainUnfold(rem: nat, s: CursorState, chunk: nat)
    requires s.Valid()
    ensures var st, d := LimitStep(rem, chunk, s), Drain(rem, s, chunk);
            match st.poll
            case Pending => d == Drain(st.remaining, st.next, chunk)
            case Ready(Err(e)) => d == Drained([], Err(e), st.remaining, st.next)
            case Ready(Ok(k)) =>
              if k == 0 then d == Drained([], Ok(0), st.remaining, st.next)
              else
                var d' := Drain(st.remaining, st.next, chunk);
                && d.out == st.bytes + d'.out && d.remaining == d'.remaining && d.next == d'.next
                && (d.res.Ok? <==> d'.res.Ok?) && (d'.res.Err? ==> d.res == d'.res)
  {
  }

  /** A step that read bytes: they come first, and the rest of the read
      decides the outcome. */
  lemma DrainAfterBytes(rem: nat, s: CursorState, chunk: nat)
    requires s.Valid()
    requires LimitStep(rem, chunk, s).poll == Ready(Ok(|LimitStep(rem, chunk, s).bytes|))
    requires |LimitStep(rem, chunk, s).bytes| > 0
    ensures var st, d := LimitStep(rem, chunk, s), Drain(rem, s, chunk);
            var d' := Drain(st.remaining, st.next, chunk);
            && d.out == st.bytes + d'.out && d.remaining == d'.remaining
            && (d'.res.Err? ==> d.res == d'.res)
  {
    DrainUnfold(rem, s, chunk);
  }

  /** Reads the limiter to its end with a buffer of `chunk` bytes. */
  method ReadToEnd(limiter: LengthLimit, chunk: nat) returns (out: seq<byte>, res: IoResult)
    requires limiter.Valid()
    modifies limiter, limiter.reader
    ensures limiter.Valid()
    ensures var d := Drain(old(limiter.bytesRemaining), old(limiter.reader.State()), chunk);
            && out == d.out && res == d.res
            && limiter.bytesRemaining == d.remaining && limiter.reader.State() == d.next
  {
    var buf := new byte[chunk];
    out := [];
    ghost var total := Drain(limiter.bytesRemaining, limiter.reader.State(), chunk);
    while true
      invariant limiter.Valid()
      invariant var d := Drain(limiter.bytesRemaining, limiter.reader.State(), chunk);
                && out + d.out == total.out
                && d.remaining == total.remaining && d.next == total.next
                && (d.res.Ok? <==> total.res.Ok?)
                && (d.res.Err? ==> d.res == total.res)
      decreases limiter.reader.State().Rank()
    {
      ghost var rem0, s0 := limiter.bytesRemaining, limiter.reader.State();
      DrainUnfold(rem0, s0, chunk);
      var poll := limiter.Read(buf);
      match poll {
        case Pending =>
        case Ready(Err(e)) =>
          res := Err(e);
          return;
        case Ready(Ok(k)) =>
          if k == 0 {
            res := Ok(|out|);
            return;
          }
          ghost var st := LimitStep(rem0, chunk, s0);
          ConcatAssoc(out, st.bytes, Drain(limiter.bytesRemaining, limiter.reader.State(), chunk).out);
          out := out + buf[..k];
      }
    }
  }

  /** All interruptions still to come are not-ready outcomes. */
  predicate OnlyStalls(s: CursorState) {
    forall i :: 0 <= i < |s.script| ==> s.script[i].Stall?
  }

  lemma OnlyStallsTail(s: CursorState)
    requires OnlyStalls(s) && s.script != []
    ensures OnlyStalls(s.(script := s.script[1..]))
  {
    var t := s.(script := s.script[1..]);
    forall i | 0 <= i < |t.script| ensures t.script[i].Stall? {
      assert t.script[i] == s.script[i + 1];
    }
  }

  /** The outcome of reading a cursor that never fails to its end, in
      positions: with fewer bytes left than the budget the read succeeds at
      the end of the data; otherwise it fails with the limit error once the
      budget is spent. */
  lemma {:induction false} StallsOutcome(rem: nat, s: CursorState, chunk: nat)
    requires s.Valid() && OnlyStalls(s) && chunk > 0
    ensures var d := Drain(rem, s, chunk);
            if |s.data| - s.pos < rem then d.res.Ok? && d.next.pos == |s.data|
            else d.res == Err(Exceeded()) && d.remaining == 0
    decreases s.Rank()
  {
    if rem > 0 {
      var st := LimitStep(rem, chunk, s);
      DrainUnfold(rem, s, chunk);
      if s.Due() {
        assert s.script[0].Stall?;
        OnlyStallsTail(s);
        StallsOutcome(rem, st.next, chunk);
      } else if |st.bytes| > 0 {
        StallsOutcome(st.remaining, st.next, chunk);
      }
    }
  }

  /** Reading to the end of a cursor that never fails, wherever its
      not-ready outcomes fall: if fewer bytes are left than the budget
      allows, all of them are read and the read succeeds; otherwise exactly
      `rem` of them are read and the read fails with the limit error. */
  lemma DrainThroughStalls(rem: nat, s: CursorState, chunk: nat)
    requires s.Valid() && OnlyStalls(s) && chunk > 0
    ensures var d := Drain(rem, s, chunk);
            if |s.data| - s.pos < rem then
              d.out == s.data[s.pos..] && d.res == Ok(|s.data| - s.pos)
            else
              d.out == s.data[s.pos..s.pos + rem] && d.res == Err(Exceeded())
  {
    var d := Drain(rem, s, chunk);
    StallsOutcome(rem, s, chunk);
    if |s.data| - s.pos < rem {
      assert s.data[s.pos..] == s.data[s.pos..d.next.pos];
    } else {
      assert d.next.pos == s.pos + rem;
    }
  }

  /** For a source that never fails, polling with an empty buffer ends at
      once with `Ok(0)` and nothing read, once the not-ready outcomes due are
      used up; or with the limit error when the budget is spent. */
  lemma {:induction false} DrainEmptyBuffer(rem: nat, s: CursorState)
    requires s.Valid() && OnlyStalls(s)
    ensures var d := Drain(rem, s, 0);
            && d.out == [] && d.remaining == rem
            && d.res == if rem == 0 then Err(Exceeded()) else Ok(0)
    decreases s.Rank()
  {
    if rem > 0 && s.Due() {
      var st := LimitStep(rem, 0, s);
      DrainUnfold(rem, s, 0);
      OnlyStallsTail(s);
      DrainEmptyBuffer(rem, st.next);
    }
  }

  /** An input shorter than the limit is read whole, and the read succeeds. */
  lemma {:induction false} UnderLimit(input: seq<byte>, maxBytes: nat, chunk: nat)
    requires |input| < maxBytes && chunk > 0
    ensures var d := Drain(maxBytes, CursorState(input, 0, []), chunk);
            d.out == input && d.res == Ok(|input|)
  {
    DrainThroughStalls(maxBytes, CursorState(input, 0, []), chunk);
    assert input[0..] == input;
  }

  /** An input at least as long as the limit fails with the limit error,
      an `InvalidData` I/O error, after exactly the first `maxBytes` bytes. */
  lemma {:induction false} AtOrOverLimit(input: seq<byte>, maxBytes: nat, chunk: nat)
    requires maxBytes <= |input| && chunk > 0
    ensures var d := Drain(maxBytes, CursorState(input, 0, []), chunk);
            && d.out == input[..maxBytes]
            && d.res == Err(Exceeded())
            && d.res.error.kind == InvalidData
            && DowncastLimit(d.res.error) == Some(LengthLimitExceeded)
  {
    DrainThroughStalls(maxBytes, CursorState(input, 0, []), chunk);
    assert input[0..maxBytes] == input[..maxBytes];
  }

  /** The boundary case: an input of exactly the limit's length, the empty
      input under a zero limit included, is produced whole and still fails. */
  lemma {:induction false} ExactLimit(input: seq<byte>, chunk: nat)
    requires chunk > 0
    ensures var d := Drain(|input|, CursorState(input, 0, []), chunk);
            d.out == input && d.res == Err(Exceeded())
  {
    AtOrOverLimit(input, |input|, chunk);
    assert input[..|input|] == input;
  }

  /** For a source that never fails, not-ready outcomes before, between or
      after its data reads lead to the same bytes, result and budget as
      a source that is always ready. */
  lemma {:induction false} StallsAreTransparent(rem: nat, s: CursorState, chunk: nat)
    requires s.Valid() && OnlyStalls(s)
    ensures var d, d' := Drain(rem, s, chunk), Drain(rem, s.(script := []), chunk);
            && d.out == d'.out && d.res == d'.res
            && d.remaining == d'.remaining && d.next.pos == d'.next.pos
  {
    var t := s.(script := []);
    assert t.data == s.data && t.pos == s.pos;
    var d, d' := Drain(rem, s, chunk), Drain(rem, t, chunk);
    if chunk > 0 {
      StallsOutcome(rem, s, chunk);
      StallsOutcome(rem, t, chunk);
      assert d.next.pos == d'.next.pos;
    } else {
      DrainEmptyBuffer(rem, s);
      DrainEmptyBuffer(rem, t);
    }
  }

  /** The script of a source that fails with its own error `e` at position
      `at`, which it reaches from the current position after not-ready
      outcomes placed no later. */
  predicate FailsAt(s: CursorState, j: nat, at: nat, e: IoError) {
    && s.pos <= at <= |s.data|
    && j < |s.script| && s.script[j] == Fail(at, e)
    && forall i :: 0 <= i < j ==> s.script[i].Stall? && s.script[i].at <= at
  }

  /** One poll of a source that will fail at `at` keeps it failing there:
      a due not-ready outcome moves the failure one place up the script, and
      otherwise at least one byte, and no byte past `at`, is read. */
  lemma FailsAtStep(rem: nat, s: CursorState, chunk: nat, j: nat, at: nat, e: IoError)
    requires s.Valid() && chunk > 0 && rem > 0 && FailsAt(s, j, at, e)
    ensures var st := LimitStep(rem, chunk, s);
            if s.Due() then
              j == 0 ==> st.poll == Ready(Err(e)) && s.pos == at
            else
              && st.poll == Ready(Ok(|st.bytes|)) && 0 < |st.bytes| && st.next.pos <= at
              && FailsAt(st.next, j, at, e)
    ensures s.Due() && j > 0 ==>
              (LimitStep(rem, chunk, s).poll.Pending? && FailsAt(LimitStep(rem, chunk, s).next, j - 1, at, e))
  {
    var st := LimitStep(rem, chunk, s);
    if s.Due() {
      if j > 0 {
        var t := st.next;
        assert t == s.(script := s.script[1..]);
        forall i | 0 <= i < j - 1 ensures t.script[i].Stall? && t.script[i].at <= at {
          assert t.script[i] == s.script[i + 1];
        }
      }
    } else {
      assert s.pos < s.script[0].at <= at;
      assert s.pos < s.Horizon();
    }
  }

  /** The outcome of a read that reaches the source's failure at `at`: that
      very error, with the source stopped at `at`. */
  lemma {:induction false} SourceErrorOutcome(rem: nat, s: CursorState, chunk: nat, j: nat, at: nat, e: IoError)
    requires s.Valid() && chunk > 0 && FailsAt(s, j, at, e)
    requires at - s.pos < rem
    ensures var d := Drain(rem, s, chunk);
            d.res == Err(e) && d.next.pos == at
    decreases s.Rank()
  {
    var st := LimitStep(rem, chunk, s);
    FailsAtStep(rem, s, chunk, j, at, e);
    if s.Due() {
      DrainUnfold(rem, s, chunk);
      if j > 0 {
        SourceErrorOutcome(rem, st.next, chunk, j - 1, at, e);
      }
    } else {
      assert st.remaining + |st.bytes| == rem;
      DrainAfterBytes(rem, s, chunk);
      SourceErrorOutcome(st.remaining, st.next, chunk, j, at, e);
    }
  }

  /** A source that fails with its own error `e` once it has delivered the
      bytes up to position `at`, after not-ready outcomes placed no later:
      when the budget outlasts those bytes, reading to the end keeps them and
      returns that very error, with the budget lowered by exactly their
      number; an error whose cause is the source's own is never taken for
      the limit error. */
  lemma SourceErrorForwarded(rem: nat, s: CursorState, chunk: nat, j: nat, at: nat, e: IoError)
    requires s.Valid() && chunk > 0 && FailsAt(s, j, at, e)
    requires at - s.pos < rem
    ensures var d := Drain(rem, s, chunk);
            && d.out == s.data[s.pos..at] && d.res == Err(e)
            && d.remaining == rem - (at - s.pos)
            && (e.cause.SourceCause? ==> DowncastLimit(d.res.error) == None)
  {
    SourceErrorOutcome(rem, s, chunk, j, at, e);
  }

  /** The outcome of a read whose budget runs out no later than the bytes
      before the source's failure: the limit error, with the whole budget
      spent. */
  lemma {:induction false} BudgetOutcome(rem: nat, s: CursorState, chunk: nat, j: nat, at: nat, e: IoError)
    requires s.Valid() && chunk > 0 && FailsAt(s, j, at, e)
    requires rem <= at - s.pos
    ensures var d := Drain(rem, s, chunk);
            d.res == Err(Exceeded()) && d.remaining == 0
    decreases s.Rank()
  {
    if rem > 0 {
      var st := LimitStep(rem, chunk, s);
      FailsAtStep(rem, s, chunk, j, at, e);
      if s.Due() {
        DrainUnfold(rem, s, chunk);
        BudgetOutcome(rem, st.next, chunk, j - 1, at, e);
      } else {
        assert st.remaining + |st.bytes| == rem;
        DrainAfterBytes(rem, s, chunk);
        BudgetOutcome(st.remaining, st.next, chunk, j, at, e);
      }
    }
  }

  /** When the budget runs out no later than the bytes before the source's
      failure, the failure is never reached: the read ends with the limit
      error after exactly `rem` bytes, and the whole budget is spent. */
  lemma BudgetBeforeSourceError(rem: nat, s: CursorState, chunk: nat, j: nat, at: nat, e: IoError)
    requires s.Valid() && chunk > 0 && FailsAt(s, j, at, e)
    requires rem <= at - s.pos
    ensures var d := Drain(rem, s, chunk);
            && d.out == s.data[s.pos..s.pos + rem] && d.res == Err(Exceeded())
            && d.remaining == 0
  {
    var d := Drain(rem, s, chunk);
    BudgetOutcome(rem, s, chunk, j, at, e);
    assert d.next.pos == s.pos + rem;
  }

  /** Wraps a fresh cursor over `input` in a limit of `maxBytes` bytes and
      reads it to the end: the whole input when it is shorter than the
      limit, otherwise its first `maxBytes` bytes and the limit error. */
  method LimitedReadToEnd(input: seq<byte>, maxBytes: nat, chunk: nat) returns (out: seq<byte>, res: IoResult)
    requires maxBytes <= UsizeMax && chunk > 0
    ensures |input| < maxBytes ==> out == input && res == Ok(|input|)
    ensures maxBytes <= |input| ==> out == input[..maxBytes] && res.Err? && res.error.kind == InvalidData
  {
    var cursor := new Cursor(input, []);
    var limiter := LimitBytes(cursor, maxBytes);
    out, res := ReadToEnd(limiter, chunk);
    if |input| < maxBytes {
      UnderLimit(input, maxBytes, chunk);
    } else {
      AtOrOverLimit(input, maxBytes, chunk);
    }
  }

  /** The bytes of an ASCII string. */
  function Ascii(s: string): (b: seq<byte>)
    requires forall i :: 0 <= i < |s| ==> s[i] as int < 256
    ensures |b| == |s| && forall i :: 0 <= i < |s| ==> b[i] as int == s[i] as int
  {
    seq(|s|, i requires 0 <= i < |s| => s[i] as int as byte)
  }

  /** The first five bytes of the example's input spell "these". */
  lemma ExamplePrefix()
    ensures Ascii("these are the input data")[..5] == Ascii("these")
  {
  }

  /** The documented example: the 24-byte input "these are the input data"
      under a limit of 5 bytes yields "these" and an `InvalidData` error;
      under a limit of one kilobyte it is read whole. The buffer size of 32
      bytes is arbitrary: the lemmas used hold for any nonempty buffer. */
  method DocExample() returns (shortOut: seq<byte>, shortRes: IoResult, longOut: seq<byte>, longRes: IoResult)
    ensures shortOut == Ascii("these") && shortRes.Err? && shortRes.error.kind == InvalidData
    ensures longOut == Ascii("these are the input data") && longRes == Ok(24)
  {
    var input := Ascii("these are the input data");
    var c1 := new Cursor(input, []);
    var l1 := LimitBytes(c1, 5);
    shortOut, shortRes := ReadToEnd(l1, 32);
    AtOrOverLimit(input, 5, 32);
    ExamplePrefix();
    var c2 := new Cursor(input, []);
    var l2 := LimitKb(c2, 1);
    longOut, longRes := ReadToEnd(l2, 32);
    UnderLimit(input, 1024, 32);
  }
}
