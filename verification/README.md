# Verified models of Go standard library algorithms

This project models the hardest parts of a Go source tree in Dafny and proves what their documentation
promises: integer-only floating point, the context cancellation tree, `io.Pipe`, buffered readers and
writers, UTF-8 decoders, in-place HTML unescaping, searching and splitting of byte strings, integer
formatting, and a stream filter. `dafny verify dfyconfig.toml` checks all of it.

## How it is organised

- **Floating point** (`Powers`, `Words`, `Float64`, `Rounding`, `Sticky`, `FloatOps`, then `Fma`, `Sqrt`,
  `FrexpLdexp`, `Mod`, `Remainder`, `Round`). A float64 is its 64 bits; `Mag` is its magnitude as a whole
  number of units 2^-1074. `Rounding.RoundsTo` is IEEE 754-2008 section 4.3.1, round to nearest, ties to
  even: no float is nearer to the real value, and of two equally near ones the even one is taken; overflow
  goes to infinity. The integer-only algorithms work on explicit uint64 words with Go's shifts (by any
  count), wrap-around and carries; the int64 sum in `Ldexp` wraps. Where the source uses the hardware's
  `+`, `-` and `*`, these are `FloatOps.FAdd`, `FSub` and `FMul`, which are proved to be the correctly
  rounded operations. All NaN results are one canonical NaN.
- **Context** (`ContextTree`, `ContextProtocol`, `ContextInvariant`, `ContextSteps`, `ContextRuns`,
  `ContextSafety`, `ContextCalls`, `ContextCauses`, `ContextCleanup`). Any number of goroutines create
  contexts (cancel, timer and AfterFunc kinds, under values and WithoutCancel), cancel them, and call Done and
  AfterFunc's stop. An atomic step is one lock operation, one atomic load or store, or one guarded access;
  Done loads its channel without the lock first, and may then have to wait for it. A goroutine inside the
  package is a stack of `cancel` frames over a `propagateCancel` call. A timer that fires is a cancel call at
  any moment. One invariant holds in every reachable state; the safety theorems are read off it. The last
  three modules say what a call has done by the time it returns, which call an outcome comes from, and what a
  cancelled context lets go of.
- **Pipe** (`Pipe`, `PipeCalls`). Readers, writers and closers as threads; channel rendezvous, the write
  mutex, the once-stored errors and the done channel are steps. The state keeps the history of Writes in lock
  order and of the chunks handed to readers.
- **Streams** (`Stream` and `Sinks` are the adversaries: an `io.Reader` that delivers its bytes in any
  chunks, with empty reads and errors anywhere, and an `io.Writer` that may fall short or fail). `Failure` is
  the first error of a script and what comes after it, `UpTo` the bytes before. A source is lively (`Lively`)
  when it never makes as many empty reads in a row as a reader puts up with, and ErrNoProgress is then ruled
  out. `BufReader`, `BufScanner`, `BufWriter`, `ByteBuffer`, `ReadRune` and `ExitCodeFilter` are classes with
  the source's fields over arrays. Each contract says what happens to the abstract stream (what is unread,
  accepted, queued or held back), for every script.
- **UTF-8** (`Utf8`, RFC 3629 sections 3 and 4), **HTML** (`Html`), **byte strings** (`ByteSearch`, `Chunks`,
  `LineText`, `Numerals`, `RabinKarp`, `ByteOps`, `ByteSplit`, `ByteJoin`) and **integer formatting** (`FmtInteger`).

## What the proofs found

- `Ldexp` adds exponents in an int that wraps: `Ldexp(2, math.MaxInt64)` is 0. It is correctly rounded if
  and only if the exponent sum fits an int64 (`FrexpLdexp.LdexpRoundsIff`, `FrexpLdexp.LdexpWraps`).
- Numeric HTML references differ from the HTML Living Standard in three ways, each with an input: a single
  decimal digit without a semicolon is left alone (`&#9` and `&#9 `, `Html.OneDigitDiffers`), `&#x;` becomes
  U+FFFD (`Html.NoDigitsDiffers`), and the number wraps in a rune, so `&#x100000041;` unescapes to `A`
  (`Html.NumericWraps`). They are all: a numeric reference is taken as the standard takes it if and only if
  none of the three applies (`Html.NumericIsStandardIff`).
- `readRune.UnreadRune` before any ReadRune succeeds and supplies a NUL that was never read
  (`ReadRune.PhantomRune`); otherwise the runes given and the runes to come are always those of the whole
  input. A put-back U+FFFD that stood for one bad byte is then reported with size 3. ReadRune returns an error
  of the source if and only if the bytes before it are no full rune, and those bytes are then lost: none
  exactly when there are none, and otherwise all of them (`ReadRune.RuneReader.ReadRune`; an input is
  `ReadRune.LosesByte`).
- After `Scanner` reports ErrTooLong, a further Scan returns the buffered part of the long line as a token,
  although the documentation calls the stop unrecoverable (`BufScanner.TokenAfterTooLong`). This is the only
  case: after a false Scan the next one is true if and only if the first was the one to report ErrTooLong
  and the buffer is not empty (`BufScanner.Scanner.ScanOn`).
- After `Reader.ReadLine` has put a `\r` back, UnreadByte puts another `\r` in front instead of the last
  byte of the fragment, although the documentation says it always unreads the last byte read
  (`BufReader.UnreadAfterFragment`). After a fragment the promise holds if and only if nothing was put back or
  the byte before is a `\r` too; after a whole line it always holds (`BufReader.Reader.ReadLine`).
- `Reader.Discard(0)` and a Peek or Discard with a negative count return before they forget the last byte, so
  UnreadByte succeeds after them, although the documentation says neither is a read
  (`BufReader.UnreadAfterDiscard`).
- `Reader.Discard` does not look whether an error waits when its buffer is empty: it then skips bytes the source
  gave after the error before anyone hears of it, or loses the error to the next one
  (`BufReader.ErrorOvertaken`). It keeps errors and bytes in order if and only if nothing is asked for or no
  error waits there, not counting an EOF at the very end (`BufReader.Reader.Discard`).
- After `bytes.Buffer.Grow` has moved the queue, UnreadByte reports no error and does nothing. The byte comes
  back if and only if the queue was not empty and had room (`ByteBuffer.Buffer.UnreadAfterGrow`; an input is
  `ByteBuffer.UnreadLost`).
- `bytes.Replace` computes the length of its result in an int that wraps. It is right if and only if the result
  is no longer than an int can say; otherwise it panics or returns a beginning of the result
  (`ByteJoin.Replace`; an input is `ByteJoin.ReplaceWraps`, where 2^64 bytes become none).

## Model

| member | source | states |
|---|---|---|
| `Fma.ShrCompressIsJam` | src/math/fma.go:43-63 | for every shift count, also 64 and above: the two-word value shifted right, with its lowest bit set when any bit shifted out was one |
| `Fma.ShlPairExact` | src/math/fma.go:27-31 | the two-word left shift loses nothing when the value fits, for every count including 64 and above |
| `Fma.LzSpec` | src/math/fma.go:65-71 | lz brackets the two-word value between consecutive powers of two |
| `Fma.Product` | src/math/fma.go:121-135 | the product of two significands, exactly, in two words with its leading one at bit 126 |
| `Fma.AddWords` | src/math/fma.go:152-157 | the sum of the aligned words, cut to one word without losing what rounding needs |
| `Fma.SubtractWords` | src/math/fma.go:158-166 | the difference, normalized; after cancellation nothing is lost, and otherwise the sticky bit survives |
| `Fma.Combine` | src/math/fma.go:147-167 | the one word left over is the exact x*y+z with all lower bits jammed into its last bit |
| `Fma.RoundAndPack` | src/math/fma.go:169-181 | from the jammed word to the correctly rounded bits: ties to even, carries into the exponent, subnormal results and overflow |
| `Fma.FMA` | src/math/fma.go:95-182 | for all x, y and z: the result is the correctly rounded exact x*y+z, and the IEEE result for zeros, exact cancellation, infinities and NaN |
| `Sqrt.RootBits` | src/math/sqrt.go:125-138 | the bit-by-bit loop leaves the floor of the root of the radicand, and ix is zero exactly when the root is exact |
| `Sqrt.RootIsNearest` | src/math/sqrt.go:139-143 | rounding by the extra bit gives the float nearest to the real root |
| `Sqrt.RootStraddles` | src/math/sqrt.go:139-143 | in integers alone: the radicand lies strictly between the squares of the two midpoints around the result, so a tie cannot occur |
| `Sqrt.Normalize` | src/math/sqrt.go:108-120 | exponent and significand of every positive finite input, subnormals included, with the leading one at bit 52 |
| `Sqrt.Sqrt` | src/math/sqrt.go:93-145 | correctly rounded for every positive finite argument, and the special cases for the others |
| `FrexpLdexp.NormalizeSpec` | src/math/bits.go:56-62 | a normal number and an exponent with exactly the value of x |
| `FrexpLdexp.FrexpSpec` | src/math/frexp.go:24-39 | a fraction in [1/2, 1) with the sign of f, and an exponent, that multiply to exactly f |
| `FrexpLdexp.AssembleRounds` | src/math/ldexp.go:34-50 | underflow, overflow, the denormal path and the plain path round once |
| `FrexpLdexp.LdexpRoundsIff` | src/math/ldexp.go:22-51 | frac * 2^exp correctly rounded, if and only if the exponent sum fits an int |
| `FrexpLdexp.LdexpWraps` | src/math/ldexp.go:31-36 | an input where the sum wraps and the result is wrong |
| `FrexpLdexp.LdexpOfFrexp` | src/math/ldexp.go:22-51 | Ldexp of Frexp gives back the bits of every float64 |
| `FrexpLdexp.FrexpOfLdexp` | src/math/frexp.go:24-39 | Frexp of Ldexp gives back every fraction in [1/2, 1) and exponent of the normal range |
| `Mod.Sterbenz` | src/math/mod.go:46 | the subtraction loses no bits when the operands are within a factor of two |
| `Mod.ModStep` | src/math/mod.go:41-47 | one pass subtracts the largest y * 2^k that fits, exactly, and leaves less than it |
| `Mod.Mod` | src/math/mod.go:29-52 | the exact remainder: 0 <= r < abs y, abs x - r a whole multiple of abs y, sign of x; the loop ends because the scale strictly decreases |
| `Remainder.ReduceModulo` | src/math/remainder.go:72-74 | a multiple of 2y is gone, and what is left is below 2y, or y is huge |
| `Remainder.ReduceTiny` | src/math/remainder.go:75-81 | the branch for tiny y picks the nearest multiple, ties to even, by exact doubling |
| `Remainder.ReduceNormal` | src/math/remainder.go:82-90 | the other branch does, by exact halving |
| `Remainder.Remainder` | src/math/remainder.go:45-95 | x - n*y exactly, for the n nearest to x/y, ties to even; a zero has the sign of x; special cases |
| `Round.RoundIsAway` | src/math/floor.go:83-112 | add-then-mask is the nearest integer, halves away from zero, on every float64 |
| `Round.RoundToEvenIsRne` | src/math/floor.go:121-151 | add-then-mask is the nearest integer, halves to even, on every float64 |
| `ContextTree.FindValue` | src/context/context.go:773-804 | the loop of value finds what the Value methods of the chain define |
| `ContextTree.DoneOwnerIsLookup` | src/context/context.go:382-396 | the cancelCtx found by Value is the one whose channel Done returns, so parentCancelCtx does not reject it |
| `ContextTree.LookupIsInnermost` | src/context/context.go:766-804 | Value finds what the innermost context that answers for the key holds, for a user key also through WithoutCancel, and nothing where none answers |
| `ContextSteps.FrameStepInv` | src/context/context.go:547-577 | every atomic step of cancel, removeChild, and the afterFunc and timer wrappers keeps the invariant and only moves every context forward |
| `ContextRuns.BaseStepInv` | src/context/context.go:473-503 | so does every step of propagateCancel, racing with anything |
| `ContextRuns.CallStepInv` | src/context/context.go:448-462 | so does the locked part of Done, where the first load found no channel |
| `ContextRuns.StepInv` | src/context/context.go:448-577 | so does every step of any goroutine |
| `ContextRuns.RunInv` | src/context/context.go:448-577 | the invariant holds in every state of every run |
| `ContextSafety.CancelReachesSubtree` | src/context/context.go:547-577 | a cancelled, unlocked context has every registered descendant cancelled, with error, cause and closed Done, unless WithoutCancel is between |
| `ContextSafety.OutcomeOfOrigin` | src/context/context.go:566-570 | every cancelled context carries the error and cause of one ancestor or itself that was cancelled on its own |
| `ContextSafety.OriginsBelow` | src/context/context.go:554-566 | no cancellation from further up gets past a context that was cancelled on its own |
| `ContextSafety.OriginIsNearest` | src/context/context.go:554-570 | a cancelled descendant has the outcome of n if and only if no context strictly below n on the way to it, itself included, was cancelled on its own |
| `ContextSafety.CancelFillsTheRest` | src/context/context.go:547-577 | over any stretch of a run: descendants cancelled before keep their outcome, all others get that of the cancelled context, or of one below it that was cancelled meanwhile |
| `ContextSafety.WriteOnce` | src/context/context.go:554-566 | over any stretch of a run error, cause, Done channel and AfterFunc decisions never change once set |
| `ContextSafety.ClosedMeansCause` | src/context/context.go:559-566 | a closed Done implies error and cause are set, and the missing-error panic is unreachable |
| `ContextSafety.AfterFuncDecidedOnce` | src/context/context.go:325-360 | f starts at most once, stop returns true at most once, never both; exactly one of them after cancellation |
| `ContextSafety.LocksTakenDownwards` | src/context/context.go:568-570 | a lock needed while others are held belongs to a proper descendant of each |
| `ContextSafety.OnlyLocksBlock` | src/context/context.go:491 | a goroutine inside the package waits for nothing but a lock that another one holds |
| `ContextSafety.NoDeadlock` | src/context/context.go:547-577 | while a goroutine is inside the package, some goroutine can step |
| `ContextSafety.RunNeverDeadlocks` | src/context/context.go:547-577 | the same, in every state of every run |
| `ContextCalls.CancelReturns` | src/context/context.go:547-577 | when a cancel call has returned, the context has its error, cause and closed Done, whatever it raced with |
| `ContextCalls.StopReturns` | src/context/context.go:330-340 | the first stop before f has started takes it for good, and its context is cancelled when the call has returned; any other stop changes nothing |
| `ContextCalls.NewReturns` | src/context/context.go:473-503 | a context has the kind and parent it was made with, and is registered when its constructor has returned |
| `ContextCalls.DoneReturns` | src/context/context.go:448-462 | Done has a channel when it returns |
| `ContextCalls.ArmReturns` | src/context/context.go:647-653 | the timer is set when WithDeadline returns, unless the context was cancelled before |
| `ContextCauses.OutcomeWasOrdered` | src/context/context.go:547-570 | every error and cause goes back to an earlier cancel call on the origin with just these, where a missing cause is the error, or to the stop that took an AfterFunc there |
| `ContextCauses.CancelPassesOn` | src/context/context.go:240-270 | when a cancel call has returned, the context and all ready ones below are cancelled, with that error and cause unless another call on one of them or above it was made |
| `ContextCleanup.CancelledIsReleased` | src/context/context.go:399-413 | a cancelled context that no call works on has no timer and is not among the children of its parent, unless the parent is locked, in every run where, as in the package, clients cancel without removing only what is cancelled already |
| `Pipe.StepInv` | src/io/pipe.go:50-123 | every step of every interleaving of readers, writers and closers keeps the pipe's invariant |
| `Pipe.Conservation` | src/io/pipe.go:50-96 | the chunks received, in order, are the taken prefixes of the Writes in lock order; each finished Write returned exactly the bytes taken from it, and nil only for all of them |
| `Pipe.WaitingWriterIsServed` | src/io/pipe.go:58-60 | at most one acknowledgement is outstanding, and a writer waiting for one has its reader ready, so that receive cannot hang even when the pipe closes |
| `Pipe.WriteReturns` | src/io/pipe.go:85-95 | a Write returns nil exactly by its last acknowledgement, after everything was taken, and otherwise the number of bytes taken; one that saw the pipe closed before it had the lock returns 0 and leaves no trace |
| `Pipe.WriteError` | src/io/pipe.go:117-123 | a Write only fails once the pipe is closed: with the error the reader closed with if the writer did not close, with ErrClosedPipe if the reader did not or the writer closed first |
| `Pipe.ReadReturns` | src/io/pipe.go:50-65 | a Read without error returns the chunk just received; with one it returns nothing: the error the writer closed with if the reader did not close, ErrClosedPipe if the writer did not or the reader closed first |
| `Pipe.CloseOnce` | src/io/pipe.go:21-28 | stored errors and the closed done channel never change over a run |
| `Pipe.DoneMeansError` | src/io/pipe.go:67-74 | done is closed only after an error was stored |
| `Pipe.ClosedProgress` | src/io/pipe.go:50-95 | once done is closed, every goroutine inside can step, or its partner or the holder of the lock it waits for can |
| `Pipe.CloseReleases` | src/io/pipe.go:67-95 | a close releases everyone: without new calls every interleaving ends, after a bounded number of steps, and only when every Read, Write and Close has returned |
| `PipeCalls.InCall` | src/io/pipe.go:50-105 | every goroutine inside is in a call that it made, and reads into, writes or stores what that call says |
| `PipeCalls.ReturnsServe` | src/io/pipe.go:50-96 | a Read returns at most what it asked for; a Write returns nil only with all its bytes |
| `PipeCalls.RecordsAreCalls` | src/io/pipe.go:76-96 | what is written are the bytes of Write calls |
| `PipeCalls.RendezvousTakes` | src/io/pipe.go:57-60 | a reader takes as much as it asked for, or all that is left of the Write |
| `PipeCalls.WriteErrorStored` | src/io/pipe.go:98-105 | the error of the writer is that of the CloseWithError that stored first, or EOF where it gave none |
| `PipeCalls.ReadErrorStored` | src/io/pipe.go:67-74 | the error of the reader likewise, or ErrClosedPipe |
| `PipeCalls.ReadSeesClose` | src/io/pipe.go:98-114 | if only the writer closes, every failing Read ends with its error, or EOF |
| `PipeCalls.WriteSeesClose` | src/io/pipe.go:67-123 | if only the reader closes, every failing Write ends with its error, or ErrClosedPipe |
| `PipeCalls.CloseReturns` | src/io/pipe.go:67-105 | when a close has returned, done is closed and an error of that side stored |
| `BufReader.Reader.Fill` | src/bufio/bufio.go:99-127 | fill keeps the unread stream, adds bytes or an error, and never meets its full-buffer panic; the error is the next one of the source, unless it loses patience |
| `BufReader.Reader.TakenFirst` | src/bufio/bufio.go:99-135 | an operation that reports an error of the source has taken all bytes before it and nothing after, for every source; what it takes otherwise comes from before that error |
| `BufReader.Reader.Peek` | src/bufio/bufio.go:143-170 | the first n bytes of the stream without taking them; shorter only with an error, and then all that comes before the next error of the source, which is the one reported; UnreadByte works afterwards exactly when it did before and n is negative |
| `BufReader.Reader.Discard` | src/bufio/bufio.go:177-207 | takes exactly the bytes it counts, and does not touch the source when they are buffered; the errors of the source stay in order exactly when none waits with an empty buffer; UnreadByte works afterwards exactly when it did before and nothing was asked for |
| `BufReader.ErrorOvertaken` | src/bufio/bufio.go:186-206 | an input where Discard takes a byte from behind an error that nobody has heard of |
| `BufReader.Reader.Read` | src/bufio/bufio.go:216-263 | takes exactly the bytes it returns, through the buffer or around it, as many as are buffered and fit; nothing without an error only after an empty read of the source; the error is the next one of the source; makes the last byte unreadable again |
| `BufReader.Reader.ReadByte` | src/bufio/bufio.go:267-279 | takes the first byte of the stream, or reports the next error of the source, which no byte comes before |
| `BufReader.Reader.UnreadByte` | src/bufio/bufio.go:286-301 | puts the last byte in front of the stream again, also after a read that bypassed the buffer; each other operation says when it can be done after it and which byte comes back, exactly |
| `BufReader.UnreadAfterDiscard` | src/bufio/bufio.go:281-287 | an input where it succeeds after Discard(0), which the documentation says is no read |
| `BufReader.Reader.ReadRune` | src/bufio/bufio.go:306-322 | decodes as if all bytes before the next error of the source were there, for every source and whatever the chunks, unless it makes 100 empty reads in a row; UnreadByte then puts back the last byte of the rune |
| `BufReader.Reader.UnreadRune` | src/bufio/bufio.go:328-336 | puts back exactly the bytes of the rune just read |
| `BufReader.Reader.ReadSlice` | src/bufio/bufio.go:351-390 | takes the bytes through the first delimiter, or reports why it cannot: error if and only if the line does not end in the delimiter, and then the next error of the source with all bytes before it, or a full buffer |
| `BufReader.Reader.ReadLine` | src/bufio/bufio.go:408-441 | one line without its line end, or a fragment that never ends inside a \r\n; an error that comes with a last line is dropped; UnreadByte then restores the last byte taken, for a fragment exactly when no \r was put back or another stands before it |
| `BufReader.UnreadAfterFragment` | src/bufio/bufio.go:404-424 | an input where it does not |
| `BufReader.Reader.JoinLine` | src/bufio/bufio.go:408-441 | the fragments of a newline-terminated line join to that line without \n or \r\n, for every buffer size, chunking and pattern of empty reads; only ErrNoProgress can come between, not from a lively source, and then nothing is lost |
| `BufReader.Reader.CollectFragments` | src/bufio/bufio.go:450-472 | full buffers and last fragment are the stream through the first delimiter |
| `BufReader.Reader.ReadBytes` | src/bufio/bufio.go:481-492 | the prefix of the stream through the first delimiter, if and only if there is one before the next error of the source; otherwise exactly the bytes before that error, and that error; for every source, unless ErrNoProgress comes, which a lively one rules out |
| `BufScanner.TokenIsFirstLine` | src/bufio/scan.go:358-372 | a token ScanLines finds in a part of the input is the first line of all of it |
| `BufScanner.Scanner.Grow` | src/bufio/scan.go:197-214 | the buffer doubles up to the limit and keeps its bytes; otherwise the token is too long |
| `BufScanner.Scanner.ReadMore` | src/bufio/scan.go:215-238 | reads without losing bytes, records the next error of the source, and gives up on a source that gives nothing more than 100 times in a row, never on a lively one |
| `BufScanner.Scanner.Scan` | src/bufio/scan.go:139-240 | the tokens so far and the lines to come are the lines of all bytes before the first error of the source, which is the one recorded at the end, if each line fits the limit, for every source and whatever empty reads it makes, until ErrNoProgress, which a lively source rules out; too long only with a full buffer at its limit and no newline in it; when Scan is false for good |
| `BufScanner.Scanner.ScanOn` | src/bufio/scan.go:139-240 | after a false Scan the next is true exactly when the first reported a token too long, with a buffer that is not empty |
| `BufScanner.TokenAfterTooLong` | src/bufio/scan.go:21-24 | an input where a Scan after ErrTooLong returns a token |
| `LineText.DropsOneCR` | src/bufio/scan.go:344-349 | a line loses at most one \r |
| `LineText.LinesRebuild` | src/bufio/scan.go:358-372 | every text is its lines with a \n or \r\n after each, which the last may lack, and no line has a newline or an undropped \r |
| `BufWriter.Writer.Flush` | src/bufio/bufio.go:638-659 | keeps every accepted byte in order, whatever part the sink takes; the error is the one the sink reported, or ErrShortWrite if it took less and reported none |
| `BufWriter.Writer.Write` | src/bufio/bufio.go:679-701 | forwarded plus buffered bytes are all accepted ones in order; all of p is accepted unless an error is returned, which is the first the sink reported or its falling short; after an error nothing is accepted or forwarded |
| `BufWriter.Writer.WriteByte` | src/bufio/bufio.go:704-714 | the same for one byte |
| `ByteBuffer.Buffer.MakeRoom` | src/bytes/buffer.go:132-163 | reslicing, sliding and reallocating keep the queue and give room for n bytes behind it; it panics exactly when there is no room even by sliding and twice the capacity plus n is no int |
| `ByteBuffer.Buffer.Grow` | src/bytes/buffer.go:170-176 | room for n more bytes, the queue unchanged; where the queue starts afterwards |
| `ByteBuffer.Buffer.Write` | src/bytes/buffer.go:181-188 | appends to the queue, without allocating when there is room |
| `ByteBuffer.Buffer.Read` | src/bytes/buffer.go:324-340 | takes from the front of the queue, and keeps the bytes just behind it for Unread |
| `ByteBuffer.Buffer.Next` | src/bytes/buffer.go:346-358 | takes the next n bytes, or all there are |
| `ByteBuffer.Buffer.ReadByte` | src/bytes/buffer.go:362-372 | takes the first byte; EOF if and only if the queue is empty |
| `ByteBuffer.Buffer.ReadRune` | src/bytes/buffer.go:379-395 | takes the first rune of the queue |
| `ByteBuffer.Buffer.UnreadRune` | src/bytes/buffer.go:402-411 | restores the queue after a ReadRune, an error after anything else |
| `ByteBuffer.Buffer.UnreadByte` | src/bytes/buffer.go:419-428 | restores the last byte of a read that took any, an error otherwise |
| `ByteBuffer.Buffer.UnreadAfterGrow` | src/bytes/buffer.go:414-428 | with a Grow between, the byte comes back exactly when the queue was not empty and Grow had room; otherwise nothing happens |
| `ByteBuffer.UnreadLost` | src/bytes/buffer.go:132-163 | an input where it does not come back |
| `Utf8.DecodeOfEncode` | src/unicode/utf8/utf8.go:157-195 | decoding gives back every scalar value and the length of its encoding, whatever follows |
| `Utf8.EncodeOfDecode` | src/unicode/utf8/utf8.go:392-404 | what is decoded was encoded: a valid result's bytes are its encoding |
| `Utf8.DecodeIsLongestMatch` | src/unicode/utf8/utf8.go:149-195 | a text begins with the encoding of r if and only if r and that width are decoded |
| `Utf8.FullRuneMeaning` | src/unicode/utf8/utf8.go:108-127 | FullRune holds if and only if no later byte can change what is decoded |
| `Utf8.RunesOfEncodeAll` | src/unicode/utf8/utf8.go:384-404 | any sequence of scalar values survives encoding and decoding |
| `Utf8.EncodeOrder` | src/unicode/utf8/utf8.go:351-373 | encodings are ordered byte by byte as their code points are |
| `Utf8.EncodeOfInvalid` | src/unicode/utf8/utf8.go:374-380 | whatever is no scalar value is encoded as the error rune |
| `ReadRune.RuneReader.ReadByte` | src/fmt/scan.go:314-326 | the next byte of leftovers and source, in order |
| `ReadRune.RuneReader.FillRune` | src/fmt/scan.go:348-358 | reads on only while the rune is not full, and never past four bytes |
| `ReadRune.RuneReader.ReadRune` | src/fmt/scan.go:330-367 | decodes as if it had the whole input, valid or not: runes given and runes to come are those of the input; an error comes exactly when the bytes before it are no full rune, and exactly those bytes are lost |
| `ReadRune.LosesByte` | src/fmt/scan.go:348-358 | an input where one is |
| `ReadRune.RuneReader.UnreadRune` | src/fmt/scan.go:369-376 | puts the last rune back, and exactly when it supplies one that was never read |
| `ReadRune.PhantomRune` | src/fmt/scan.go:369-376 | on every source the first UnreadRune does |
| `Html.ReferenceFits` | src/html/escape.go:53-164 | no reference is replaced by more bytes than it has, given the table's length property: dst <= src always |
| `Html.UnescapeEntity` | src/html/escape.go:56-164 | rewriting in place writes what the out-of-place rewrite of the reference would, and leaves the rest of the input alone |
| `Html.UnescapeString` | src/html/escape.go:187-214 | the in-place result is the out-of-place rewrite of the whole text |
| `Html.PrefixIsLongest` | src/html/escape.go:149-159 | the prefix found is the longest entity that begins the name: the cap of six bytes loses nothing |
| `Html.NamedIsLongest` | src/html/escape.go:124-163 | a named reference is the longest entity the text behind the ampersand begins with, in a table whose names are letters and digits and perhaps a semicolon; without one it stays text |
| `Html.NumericIsStandardIff` | src/html/escape.go:82-118 | a numeric reference is replaced as the standard says, text and length, if and only if: without digits, it is not hexadecimal with a semicolon; with digits, it is hexadecimal or has two of them or a semicolon, and its number does not wrap or wraps to an invalid one |
| `Html.OneDigitDiffers` | src/html/escape.go:68-110 | two inputs where it is not, for want of a semicolon |
| `Html.NoDigitsDiffers` | src/html/escape.go:103-118 | an input where it is not, for want of digits |
| `Html.NumericWraps` | src/html/escape.go:82-105 | an input where it is not, because the number wraps |
| `Html.ReplacementsAreStandard` | src/html/escape.go:15-51 | the replacement table is that of the HTML Living Standard |
| `Html.ReferenceOfNumber` | src/html/escape.go:82-120 | the number of any character, written in decimal or in hexadecimal of either case, is replaced by the character |
| `Html.UnescapeOfEscape` | src/html/escape.go:166-180 | unescaping undoes escaping for every text |
| `Html.EscapedIsSafe` | src/html/escape.go:166-172 | escaped text has no quote, apostrophe, less-than or greater-than, and every ampersand begins one of the five escapes |
| `Html.PlainIsUnchanged` | src/html/escape.go:174-180 | text without these five bytes is unchanged |
| `RabinKarp.HashRolls` | src/internal/bytealg/bytealg.go:80-84 | one rolling step modulo 2^32 gives the hash of the next window |
| `RabinKarp.HashStr` | src/internal/bytealg/bytealg.go:35-48 | the hash, and the prime to the power of the length by repeated squaring, modulo 2^32 |
| `RabinKarp.IndexRabinKarp` | src/internal/bytealg/bytealg.go:69-90 | the first occurrence, or -1 if there is none |
| `ByteOps.Index` | src/bytes/bytes.go:1312-1397 | the first occurrence, or -1, on whichever path for the machine, the lengths and the failures so far |
| `ByteSplit.Count` | src/bytes/bytes.go:57-74 | one less than the pieces; for an empty separator one more than the runes |
| `ByteSplit.GenSplit` | src/bytes/bytes.go:381-409 | the pieces between occurrences, up to n of them, without writing outside the array made from Count |
| `ByteSplit.Explode` | src/bytes/bytes.go:34-53 | the UTF-8 sequences, up to n of them |
| `ByteSplit.PiecesHaveNoSep` | src/bytes/bytes.go:398-407 | splitting misses no separator |
| `ByteSplit.JoinOfPieces` | src/bytes/bytes.go:381-409 | joining what was split gives the text back |
| `ByteSplit.JoinOfPiecesN` | src/bytes/bytes.go:398-408 | joining gives the text back for every limit |
| `ByteSplit.PiecesNCount` | src/bytes/bytes.go:381-409 | there are as many pieces as the limit and the occurrences allow |
| `ByteSplit.PiecesNHaveNoSep` | src/bytes/bytes.go:398-408 | no piece has a separator in it, but a last one cut off by the limit |
| `ByteSplit.PiecesNSave` | src/bytes/bytes.go:404-405 | every piece but the last keeps the first bytes of the separator behind it, and is otherwise as without |
| `ByteSplit.ConcatOfPiecesN` | src/bytes/bytes.go:429-431 | with all of the separator kept, the pieces are the text, cut up |
| `ByteSplit.JoinOfSequences` | src/bytes/bytes.go:34-53 | also when split into UTF-8 sequences |
| `ByteSplit.SequencesLimited` | src/bytes/bytes.go:34-53 | as many sequences as the limit and the runes allow, each one rune, but a last one cut off |
| `ByteSplit.ReplaceIsJoin` | src/bytes/bytes.go:1195-1201 | replacing all is splitting at the old and joining with the new |
| `ByteSplit.ReplaceIsJoinN` | src/bytes/bytes.go:1195-1201 | replacing n is cutting at the first n and joining with the new |
| `ByteSplit.ReplaceLength` | src/bytes/bytes.go:1192 | the length Replace computes from Count is that of the result |
| `ByteJoin.Join` | src/bytes/bytes.go:565-595 | the pieces with the separator between them, filling exactly the array made; it panics exactly when the length check fails |
| `ByteJoin.BetweenIsJoin` | src/bytes/bytes.go:1203-1210 | an empty old puts the new after every rune |
| `ByteJoin.Replace` | src/bytes/bytes.go:1177-1214 | the first n occurrences replaced, exactly when an int can hold the length of the result; otherwise a panic or a beginning of it, by the wrapped length |
| `ByteJoin.ReplacedIsJoin` | src/bytes/bytes.go:1195-1201 | for every limit the result is cutting at the first occurrences and joining with the new; for an empty old the new stands in front of as many sequences, and at the end if there is still one to put |
| `ByteJoin.ReplaceWraps` | src/bytes/bytes.go:1192 | an input whose result is 2^64 bytes long and for which an empty one is returned |
| `FmtInteger.TextFits` | src/fmt/format.go:197-316 | digits, zeros, prefixes and sign fit the buffer, for every number, base, flag set, width and precision: no write below index 0 |
| `FmtInteger.OutputReadsBack` | src/fmt/format.go:197-324 | the output reads back as the number, unless precision and value are zero |
| `FmtInteger.IntegerReadsBack` | src/fmt/format.go:197-201 | every int64 and uint64 reads back as itself |
| `FmtInteger.ZeroPrintsNothing` | src/fmt/format.go:222-230 | zero with precision zero is nothing but padding |
| `FmtInteger.OutputLayout` | src/fmt/format.go:197-324 | the output is spaces, the sign and mark the flags ask for, zeros, the digits of the number in the case asked for, and spaces; how many zeros a precision or the zero flag puts in, and on which side the spaces stand |
| `FmtInteger.PutText` | src/fmt/format.go:236-316 | the backwards writes produce sign, prefixes, zeros and digits |
| `FmtInteger.Formatter.FmtInteger` | src/fmt/format.go:197-324 | appends that text padded to the width, never with zeros here, and restores the zero flag |
| `FmtInteger.Formatter.Pad` | src/fmt/format.go:93-108 | any bytes widened to the left or right by their number of runes |
| `FmtInteger.PaddedWidth` | src/fmt/format.go:93-108 | what is padded is exactly as many runes wide as asked, or wider already, whatever bytes it has |
| `FmtInteger.PaddedSide` | src/fmt/format.go:67-108 | on which side the padding stands, and of what |
| `FmtInteger.OutputWidth` | src/fmt/format.go:197-324 | a formatted number is exactly as many bytes wide as asked, or wider already |
| `ExitCodeFilter.HeldIncremental` | misc/go_android_exec/main.go:243-257 | looking only at what was held back and what is new finds the same trailer as looking at everything |
| `ExitCodeFilter.HeldCode` | misc/go_android_exec/main.go:228-236 | a text that ends in exitcode= and digits holds back exactly that |
| `ExitCodeFilter.ValueOfText` | misc/go_android_exec/main.go:279 | the digits of a number have its value |
| `ExitCodeFilter.Filter.Write` | misc/go_android_exec/main.go:241-263 | output plus held bytes are all input, and the longest possible trailer is what is held, for any chunks |
| `ExitCodeFilter.Filter.Finish` | misc/go_android_exec/main.go:265-289 | finds a code if and only if all input ends in exitcode= and digits in range; otherwise everything reaches the sink |

## Left out

- Approximated functions (exp, log, trigonometry and so on), the assembly stubs, and NaN payloads.
- The hardware's float operations are specified by `FloatOps`, not modelled as circuits.
- Custom `Context` implementations, the afterFuncer branch and the goroutine fallback of propagateCancel, and
  `WithDeadline`'s choice to reuse an earlier parent deadline; real time and timer handles.
- Client calls of `Err`, `Cause` and `Deadline`, which change nothing, are not steps of the context protocol.
- The context and pipe protocols are state machines over the source's atomic steps; Go's memory model below
  that level is not modelled.
- In `Pipe`, a select that has several ready cases may take any of them; fairness is not modelled.
- `bufio.Reader.WriteTo`, `Reset`, `ReadString`, and `bufio.Writer`'s ReadFrom, WriteRune, WriteString and Reset.
- Returned slices are values: that `Peek`, `ReadSlice`, `Next` and `Bytes` alias the buffer is not modelled, and
  `Read` into the reader's own buffer is excluded.
- Readers and writers that break the io contract with negative or oversized counts.
- `BufScanner.Scanner.Scan`: models ScanLines only; other split functions and the empty-token panic they can cause
  are left out. A last line without newline of exactly the limit may or may not fit, depending on whether EOF
  comes with its last byte, so the condition asks for one byte less.
- `bytes.Buffer`'s ReadFrom, WriteTo, Truncate, WriteRune and ReadBytes; the allocator's rounding is any capacity
  large enough.
- `bytealg.Index` and `IndexByte` in assembly are taken as their definitions; `ByteOps.Arch` stands for the
  machine-dependent limits.
- `bytes.Repeat`, `Map`, `Fields`, `EqualFold` and the other helpers of the package.
- `Html.EscapeString` is the per-byte meaning of the replacer; `strings.NewReplacer` itself is not modelled. The
  entity table is any table with the length property that the repository checks of it.
- The regular expression of `exitCodeFilter` is its meaning, the leftmost match up to the end of the text, and
  strconv.Atoi is the value of the digits with its range check.
- fmt's argument dispatch, fmtUnicode, floats, and the growth of the output buffer in writePadding.
