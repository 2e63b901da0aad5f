/** The source wrapped by the limiter: an in-memory cursor over a byte
    sequence, in the manner of an in-memory reader, extended with a script of
    interruptions placed at byte positions, so that a source which is not
    ready yet, or which fails, before, between or after data reads can be
    modelled too. */
module Cursors {
  import opened Io

  /** An outcome the source produces instead of data once its read position
      has reached `at`: it is not ready yet, or it fails with its own I/O
      error. Each one is consumed by one poll; reads of data stop at the
      position of the next one. */
  datatype Interrupt = Stall(at: nat) | Fail(at: nat, error: IoError)

  /** The abstract state of a cursor: its bytes, its read position and the
      interruptions still to come, the next one first. */
  datatype CursorState = CursorState(data: seq<byte>, pos: nat, script: seq<Interrupt>) {
    predicate Valid() {
      pos <= |data|
    }

    /** The next interruption is due: the next poll produces it. */
    predicate Due() {
      script != [] && script[0].at <= pos
    }

    /** How far reads of data may go before the next interruption. */
    function Horizon(): (h: nat)
      ensures h <= |data|
      ensures Valid() && !Due() ==> pos <= h
    {
      if script == [] then |data| else Min(|data|, script[0].at)
    }

    /** Bytes left plus interruptions left; every poll that is not an end of
        stream lowers it. */
    function Rank(): nat
      requires Valid()
    {
      |data| - pos + |script|
    }
  }

  /** What one poll of the source did: its new state, its outcome, and the
      bytes it wrote to the front of the caller's buffer. */
  datatype Pulled = Pulled(next: CursorState, poll: Poll, bytes: seq<byte>)

  /** One poll of the cursor with a request of `n` bytes. */
  function CursorStep(s: CursorState, n: nat): (p: Pulled)
    requires s.Valid()
    ensures p.next.Valid() && p.next.data == s.data
    // With no interruption due, the next bytes up to the request and the
    // next interruption are read; zero bytes means the end of the data.
    ensures !s.Due() ==>
              && p.poll == Ready(Ok(|p.bytes|))
              && |p.bytes| == Min(n, s.Horizon() - s.pos)
              && (n > 0 && |p.bytes| == 0 ==> s.pos == |s.data|)
    ensures p.poll.Ready? && p.poll.result.Ok? ==>
              && !s.Due()
              && p.poll.result.n == |p.bytes| <= n
              && s.pos + |p.bytes| <= |s.data|
              && p.bytes == s.data[s.pos..s.pos + |p.bytes|]
              && p.next == s.(pos := s.pos + |p.bytes|)
    // A due interruption is produced and consumed, and nothing else moves.
    ensures s.Due() ==>
              && p.bytes == []
              && p.next == s.(script := s.script[1..])
              && p.poll == (match s.script[0] case Stall(_) => Pending case Fail(_, e) => Ready(Err(e)))
  {
    if s.Due() then
      match s.script[0]
      case Stall(_) => Pulled(s.(script := s.script[1..]), Pending, [])
      case Fail(_, e) => Pulled(s.(script := s.script[1..]), Ready(Err(e)), [])
    else
      var k := Min(n, s.Horizon() - s.pos);
      Pulled(s.(pos := s.pos + k), Ready(Ok(k)), s.data[s.pos..s.pos + k])
  }

  class Cursor {
    const data: seq<byte>
    var pos: nat
    var script: seq<Interrupt>

    predicate Valid()
      reads this
    {
      pos <= |data|
    }

    function State(): CursorState
      reads this
    {
      CursorState(data, pos, script)
    }

    /** A cursor positioned at the start of `data`. */
    constructor (data: seq<byte>, script: seq<Interrupt>)
      ensures Valid() && State() == CursorState(data, 0, script)
    {
      this.data := data;
      this.pos := 0;
      this.script := script;
    }

    /** Polls a read into the first `n` positions of `buf`: the next
        interruption of the script if it is due, otherwise as many of the
        bytes before the next interruption as fit. Positions from `n` on are
        never written. */
    method PollRead(buf: array<byte>, n: nat) returns (poll: Poll)
      requires Valid() && n <= buf.Length
      modifies this, buf
      ensures Valid()
      ensures var p := CursorStep(old(State()), n);
              && State() == p.next
              && poll == p.poll
              && buf[..|p.bytes|] == p.bytes
              && buf[|p.bytes|..] == old(buf[|p.bytes|..])
    {
      ghost var s0 := State();
      if script != [] && script[0].at <= pos {
        match script[0] {
          case Stall(_) => poll := Pending;
          case Fail(_, e) => poll := Ready(Err(e));
        }
        script := script[1..];
        return;
      }
      var start := pos;
      var horizon := if script == [] then |data| else Min(|data|, script[0].at);
      var k := Min(n, horizon - start);
      for i := 0 to k
        modifies buf
        invariant forall j :: 0 <= j < i ==> buf[j] == data[start + j]
        invariant forall j :: i <= j < buf.Length ==> buf[j] == old(buf[j])
      {
        buf[i] := data[start + i];
      }
      assert buf[..k] == data[start..start + k] && buf[k..] == old(buf[k..]);
      pos := start + k;
      poll := Ready(Ok(k));
      assert CursorStep(s0, n) == Pulled(State(), poll, buf[..k]);
    }
  }
}
