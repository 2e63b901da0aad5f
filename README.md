# async-read-length-limit, modelled in Dafny

The crate wraps any asynchronous byte source in a `LengthLimit`. This guards
services that read streamed bodies against uploads of unbounded length. The
wrapper holds one counter, `bytes_remaining`, and every `poll_read` goes
through four steps:

1. If the counter is zero, fail at once with `LengthLimitExceeded`. That error
   has kind `InvalidData`, and the source is not touched.
2. Otherwise, narrow the caller's buffer to `min(buf.len, bytes_remaining)`.
3. Poll the source with the narrowed buffer.
4. Lower the counter by the number of bytes produced, using saturating
   subtraction.

The bound is exclusive. A source exactly as long as the limit ends in the
error and not in end of stream: the read after the last permitted byte finds
the counter at zero.

The model has four modules:

- `Io` (`io.dfy`) holds the I/O vocabulary of the host:
  - bytes, error kinds and I/O errors;
  - the information-free marker `LengthLimitExceeded`, as an I/O error's cause;
  - the result of a read, and the ready-or-pending outcome of a poll.
- `Cursors` (`cursor.dfy`) holds the source the limiter wraps. It is a cursor
  over a byte sequence with a read position. It also has a script of
  interruptions (not ready yet, or fail with an error of its own), each
  placed at a byte position. An interruption is produced once the cursor has
  reached its position, and reads of data stop there. So a source can be
  pending or fail before, between or after its data reads. The class `Cursor`
  writes into the caller's array, and the function `CursorStep` specifies one
  poll.
- `Limiter` (`limiter.dfy`) holds the crate itself:
  - the error conversion;
  - the budget update `Settle`, stated for any outcome of a source;
  - the specification of one read step, `LimitStep`, and of a series of steps,
    `ReadSeries`, with the lemmas about them;
  - the class `LengthLimit`, whose `Read` method works on an `array<byte>`;
  - the unit helpers.

  `LengthLimit.Valid()` keeps the invariant that the budget is the limit less
  the bytes produced since construction.
- `ReadToEnd` (`read_to_end.dfy`) is a driver that reads a limited cursor to
  the end, as the crate's tests do:
  - `Drain` is its specification, and `ReadToEnd` is the loop proved equal to it.
  - Lemmas cover the under-limit, at-or-over-limit, exact-limit, pending and
    source-error cases.
  - Two client methods model the tests and the documented example.

## Model

| member | source | states |
|---|---|---|
| `Limiter.IntoIoError` | src/lib.rs:112-116 | The limit marker becomes an I/O error of kind `InvalidData`. Downcasting that error gives back the marker. |
| `Limiter.SaturatingSub` | src/lib.rs:137 | The result never exceeds the minuend. It is `a - b` when `b <= a` and zero otherwise, so the value never wraps. |
| `Limiter.Settle` | src/lib.rs:136-138 | For any outcome of the source, the outcome reaches the caller unchanged and the budget never rises. Only `Ok(k)` lowers it, to `max(0, rem - k)`. Pending and errors leave it as it was. |
| `Limiter.LimitStep` | src/lib.rs:119-139 | With a zero budget, the step fails with the marker and leaves the source and the budget alone. Otherwise the source is asked for exactly `min(buf.len, rem)` bytes: with no interruption due it produces that many, or fewer only where its data or its next interruption comes first. On success the bytes are the source's next bytes, and the budget falls by exactly their count. A source error is forwarded verbatim and is never taken for the limit error. A due not-ready outcome surfaces as `Pending`, never as a success, consumes its script entry and leaves the budget unchanged. |
| `Limiter.ExhaustedIsPermanent` | src/lib.rs:128-130 | Once the budget is zero, every later read in any series fails with the marker. Neither the budget nor the source changes, and no bytes are produced. |
| `Limiter.BudgetAccounting` | src/lib.rs:132-138 | Over any series of reads, the budget falls by exactly the number of bytes produced and never goes below zero. The bytes produced are the source's next bytes, in order. |
| `Limiter.RemainingNonIncreasing` | src/lib.rs:136-137 | Across any series of reads, the budget after a longer prefix is at most the budget after a shorter one. |
| `Limiter.LengthLimit.constructor` | src/lib.rs:76-81 | The new limiter wraps the given cursor, unchanged. Its budget and its limit are `max_bytes`, and nothing has been produced yet. |
| `Limiter.LengthLimit.BytesRemaining` | src/lib.rs:83-86 | The reported count is the limit less the bytes produced so far. |
| `Limiter.LengthLimit.AsRef` | src/lib.rs:95-98 | Borrows exactly the wrapped source. |
| `Limiter.LengthLimit.IntoInner` | src/lib.rs:88-92 | Hands back the wrapped source just past the bytes produced. The unspent budget is forfeited. |
| `Limiter.LengthLimit.Read` | src/lib.rs:119-139 | One read on the array: the new budget, the new source state and the result are those of `LimitStep`. The first `k` positions of `buf` receive the produced bytes, and no position from `min(buf.len, rem)` on is written. The invariant "budget = limit - produced" is kept. |
| `Limiter.LimitBytes` | src/lib.rs:147-149 | Wraps the cursor with a budget of `max_bytes`. |
| `Limiter.LimitKb` | src/lib.rs:153-155 | Wraps the cursor with a budget of `max_kb * 1024`. |
| `Limiter.LimitMb` | src/lib.rs:159-161 | Wraps the cursor with a budget of `max_mb * 1048576`, going through `LimitKb`. |
| `Limiter.LimitGb` | src/lib.rs:165-167 | Wraps the cursor with a budget of `max_gb * 1073741824`, going through `LimitMb`. |
| `Cursors.CursorStep` | src/lib.rs:136 | Specifies the source the limiter polls. With no interruption due, it produces exactly `min(n, bytes before the next interruption or the end)`, and they are its next bytes. Zero bytes for a nonzero request means end of stream. A due interruption is produced, consumed and moves nothing else: pending for a not-ready outcome, the source's own error for a failure. |
| `Cursors.Cursor.PollRead` | src/lib.rs:136 | Implements `CursorStep` on an array. It writes only into the first `n` positions of the buffer, and only as many as it reports. |
| `Cursors.Cursor.constructor` | tests/tests.rs:15 | A cursor over the input, positioned at its start. |
| `ReadToEnd.Drain` | src/lib.rs:54-55 | Reading to the end collects exactly the source's next bytes. The budget falls by their number, and a success reports that number. |
| `ReadToEnd.ReadToEnd` | tests/tests.rs:17 | The loop that polls the limiter until end of stream or an error. Its bytes, result, final budget and source state are those of `Drain`. |
| `ReadToEnd.DrainThroughStalls` | src/lib.rs:54-55 | For a source that never fails, wherever its not-ready outcomes fall: fewer bytes left than the budget gives all of them and success with their count. Otherwise exactly `rem` bytes are produced, followed by the limit error. |
| `ReadToEnd.DrainEmptyBuffer` | src/lib.rs:128-138 | For a source that never fails, polling with an empty buffer collects nothing and spends nothing. It ends with `Ok(0)`, or with the limit error when the budget is zero. |
| `ReadToEnd.UnderLimit` | tests/tests.rs:8-21 | An input shorter than the limit is read whole, and the read returns `Ok(len)`. |
| `ReadToEnd.AtOrOverLimit` | tests/tests.rs:25-38 | An input at least as long as the limit fails with the limit error, an `InvalidData` error carrying the marker. Exactly the first `limit` bytes are produced. |
| `ReadToEnd.ExactLimit` | tests/tests.rs:42-55 | An input exactly as long as the limit, the empty input under limit 0 included, is produced whole and still fails with the limit error. |
| `ReadToEnd.StallsAreTransparent` | src/lib.rs:136 | For a source that never fails, not-ready outcomes before, between or after the data reads, for any buffer size, change neither the bytes collected, nor the result, nor the final budget, nor where the source stops. |
| `ReadToEnd.SourceErrorForwarded` | src/lib.rs:59-61 | A source that fails once it has delivered the bytes up to position `at`, with the budget outlasting them. Reading to the end keeps exactly those bytes and returns that very error. An error whose cause is the source's own does not downcast to the marker. The budget falls by exactly their number. |
| `ReadToEnd.BudgetBeforeSourceError` | src/lib.rs:59-61 | When the budget runs out no later than the bytes before the source's failure, the failure is never reached. Exactly `rem` bytes are produced, the limit error follows, and the whole budget is spent. |
| `ReadToEnd.LimitedReadToEnd` | tests/tests.rs:15-37 | Wraps a fresh cursor over the input with `limit_bytes` and reads it to the end. An input shorter than the limit comes back whole with `Ok(len)`. Any other input comes back as its first `limit` bytes with an `InvalidData` error. |
| `ReadToEnd.DocExample` | src/lib.rs:24-38 | Covers the documented example. The input "these are the input data" under 5 bytes gives "these" and an `InvalidData` error. Under `limit_kb(1)` it gives the whole input and `Ok(24)`. |

## Left out

- Pinning, the `pin_project_lite` projection, and `Context`/`Waker` are
  async plumbing. A not-ready source appears only as a scripted `Pending`
  outcome, which consumes the script entry and nothing else.
- The wrapper is generic over every `AsyncRead`. The model instantiates it
  with one source, the scripted cursor, which never reports more bytes than
  it was asked for. The saturating update is still stated for every outcome in
  `Settle`, but no modelled source reaches its zero branch.
- The async library's in-memory cursor and its `read_to_end` are foreign code,
  not part of this model. They are replaced by `Cursors.Cursor` and
  `ReadToEnd.ReadToEnd`. The real `read_to_end` grows its buffer between
  polls. The model polls with a fixed buffer of `chunk > 0` bytes, and the
  lemmas hold for every such chunk.
- The `Display` text and the `Error` trait implementation are not behavioural
  (src/lib.rs:106-111).
- `IntoInner` cannot consume the wrapper as the Rust `into_inner(self)` does,
  because Dafny has no moves. The wrapper stays usable afterwards.
- `usize` is modelled as `nat` bounded by a 64-bit `UsizeMax` only at
  construction. No arithmetic of the read step can overflow.
- LimitKb: requires `max_kb * 1024` to fit in `usize` instead of modelling the
  overflow, which panics in debug builds and wraps in release builds.
- LimitMb: requires `max_mb * 1048576` to fit in `usize`, for the same reason.
- LimitGb: requires `max_gb * 1073741824` to fit in `usize`, for the same
  reason.
- The wrapper holds a reference to its cursor and does not own it. Rust moves
  the reader into the wrapper (src/lib.rs:76). In the model two wrappers over
  one `Cursor` can both be valid, and a read through one breaks the other's
  invariant.
- StallsAreTransparent: covers sources that never fail. With a failure in the
  script, removing a not-ready outcome can move the point where data reads
  stop, so the lemma is not stated for such scripts.
- SourceErrorForwarded: covers a failure placed within the data, with the
  not-ready outcomes listed before it placed no later. A failure placed past
  the end of the data is never reached, and an interruption listed out of
  position order holds back those after it.
- BudgetBeforeSourceError: covers the same scripts as SourceErrorForwarded,
  for the same reason.
- Cancelling an in-flight read, concurrent use, randomised test inputs and
  `block_on` are left out.
- The documented example's input "these are the input data" is 24 bytes long.
  The model takes its length from the code's byte literal.
