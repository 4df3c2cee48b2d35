# Verified models of the hard parts of the Go library

This project models, in Dafny, the parts of the annotated Go standard library whose
correctness is discrete and hard to see by reading, and proves what their comments and
the standards behind them promise. Each module stands for one or two source files:

| module | source |
|---|---|
| `Words`, `Float64` | 64-bit words with their bit operators; binary64 patterns, their exact values, and rounding to nearest with ties to even, defined without reference to any code |
| `Sqrt` | `go/src/math/sqrt.go` |
| `Fma` | `go/src/math/fma.go` |
| `Floor` | `go/src/math/floor.go` |
| `FloatOps`, `Scaling`, `Mod` | `go/src/math/frexp.go`, `ldexp.go`, `mod.go`, `remainder.go`, over correctly rounded `+`, `-`, `*` |
| `Pipe` | `go/src/io/pipe.go` |
| `Context`, `ContextCalls`, `ContextRemoval` | `go/src/context/context.go`: the steps and their invariants; what calls return; timers and the lists of children |
| `Scanner`, `WordScanner` | `go/src/bufio/scan.go` |
| `BufioReader`, `BufioWriter` | `go/src/bufio/bufio.go` |
| `Buffer` | `go/src/bytes/buffer.go` |
| `Search`, `Split` | `go/src/bytes/bytes.go`, `go/src/internal/bytealg/bytealg.go` |
| `MediaType`, `MediaParse`, `MediaSyntax` | `go/src/mime/mediatype.go`, `grammar.go`: formatting; parsing and the round trip; what any text of the grammar means |
| `EncodedWord`, `BEncoding`, `HeaderSyntax`, `Base64` | `go/src/mime/encodedword.go`, over `go/src/encoding/base64/base64.go`: both encodings; what any header decodes to |
| `Html` | `go/src/html/escape.go` |
| `Expvar` | `go/src/expvar/expvar.go` |
| `Linkcheck` | `go/misc/linkcheck/linkcheck.go` |
| `RefTable` | `go/misc/wasm/wasm_exec.js` |
| `Common`, `Utf8`, `Order` | shared: bytes and slices, UTF-8 (section 3 of RFC 3629), strings in byte order |

Numbers. A float64 is its bit pattern, a natural number below 2^64; its magnitude is an
exact integer in units of 2^-1074, infinity counting as 2^1024, so that overflow is part
of rounding to nearest (section 4.3.1 of IEEE 754-2008). Every word operation of the
source is a function on naturals below 2^64, and every method proves that its words stay
there. Where the source uses hardware `+`, `-`, `*` on float64 (`Mod`, `Remainder`,
`Ldexp`), these are the correctly rounded operations of section 5.4.1.

Concurrency. `Pipe`, `Context`, `Expvar` and `Linkcheck` are state machines: a goroutine
is its position inside a call, a step is one atomic action (a lock, a channel operation, a
critical section where nothing inside it can be observed), and a run is any sequence of
enabled steps.
Invariants are proved for every step and then for every run.

Objects. `Scanner`, `Buffer`, the two halves of `bufio` and the reference table are classes
with the fields of the source and arrays that they slide, fill and grow in place. Under them
is any reader, as the sequence of answers it is going to give, or any sink that may fail at
any point; nothing is assumed of them beyond the contract of io.Reader and io.Writer, and
that only where a contract says so.

## Results that differ from the documentation

- `math.Ldexp` is not frac * 2^exp for every `int`: the exponent sum wraps around.
  `Scaling.LdexpCorrectIff` gives the exact condition, `Scaling.LdexpWrapExample` an input.
- `math.FMA` gives an exactly cancelling sum the sign of the product instead of +0
  (section 6.3 of IEEE 754-2008): the contract of `Fma.FMA` says that the zero is + if and
  only if x and y have the same sign, `Fma.CancelledSignFails` gives an input.
- `mime.FormatMediaType` accepts parameter names that `mime.ParseMediaType` does not give
  back (a name with a star is written and then lost, one in upper case comes back in lower
  case): `MediaParse.RoundTrip` is an equivalence, so it also says that nothing else is lost.
- `mime.ParseMediaType` says that it ignores a trailing semicolon, but returns before putting
  together the parameters whose names have a star, so that these are lost:
  `MediaSyntax.TrailingHarmlessIff` says exactly when the semicolon makes no difference,
  `MediaSyntax.TrailingExample` gives an input.
- `mime.WordEncoder.Encode` returns ASCII text unchanged even if it looks like an encoded
  word, which `DecodeHeader` then decodes: `EncodedWord.DefaultRoundTrip` says exactly when
  the text comes back, `EncodedWord.EncodeNotInverse` gives an input.
- `html.UnescapeString` adds up the digits of a numeric reference in int32, so that a value
  far beyond U+10FFFF can wrap around to a character instead of becoming U+FFFD:
  `Html.NumericCorrectIff` and `Html.NumericWraps`. The test that is to find out whether there
  were digits counts other characters, too: `Html.NumericTakenIff` says for which references
  it is right ("&#1" followed by a space is left alone, "&#x;" is replaced).
- `expvar.Map.Do` does not visit every entry: a key that `Delete` removes after a `Set` has
  found it and before that `Set` stores it stays in the map but is never listed again.
  `Expvar.QuietIff` says that runs with such an overlap of calls are exactly those that leave
  the list incomplete, `Expvar.LateExample` is one.
- `bytes.Buffer.UnreadByte` and `UnreadRune` do not always do what their comments say: they
  can report success without putting anything back after a `Grow`, and `UnreadByte` also
  succeeds after a `ReadBytes` that ended in an error. The contracts of
  `Buffer.Buffer.UnreadByte` and `Buffer.Buffer.UnreadRune` say exactly when they do;
  `Buffer.ReadThenUnread`, `Buffer.ReadGrowUnread` and `Buffer.RuneGrowUnread` say it of the
  calls made. Inputs: `Buffer.UnreadAfterGrow`, `Buffer.UnreadAfterError`,
  `Buffer.UnreadAfterEmpty`.

## Model

| member | source | states |
|---|---|---|
| `Float64.NearestFromMidpoints` | go/src/math/fma.go:157-169 | comparing with the two neighbouring midpoints decides rounding to nearest, ties to even, among all patterns, overflow included |
| `Float64.NearestUnique` | go/src/math/fma.go:93-95 | an exact value has only one correctly rounded pattern |
| `Sqrt.Sqrt` | go/src/math/sqrt.go:104-149 | every positive finite pattern, normal or subnormal, gives the pattern nearest to the real root, no tie being possible; the special cases give what the source documents |
| `Sqrt.Digits` | go/src/math/sqrt.go:129-142 | the loop ends with the integer square root of the 108-bit radicand and twice its remainder, and no word leaves 64 bits |
| `Sqrt.NextDigit` | go/src/math/sqrt.go:133-142 | one turn keeps ix * r = n - q^2, s = 2q and the interval around the root |
| `Sqrt.Normalize` | go/src/math/sqrt.go:112-124 | the significand gets its leading bit at position 52 and the exponent that keeps the value, subnormals included |
| `Sqrt.RoundRoot` | go/src/math/sqrt.go:143-147 | rounding the 54-bit root by its last bit gives the nearest 53-bit root |
| `Sqrt.NearestRootUnique` | go/src/math/sqrt.go:87-92 | there is only one correctly rounded root |
| `Sqrt.SqrtOfSquare` | go/src/math/sqrt.go:104-149 | the root of the square of a representable number is that number |
| `Fma.FMA` | go/src/math/fma.go:95-170 | for finite nonzero x, y, z with an exact sum other than zero the result is that sum rounded once, to nearest with ties to even, with its sign, subnormal results and overflow included; if the exact sum is zero so is the result, and it is +0 if and only if x and y have the same sign; an infinite or NaN z is returned |
| `Fma.FmaRegular` | go/src/math/fma.go:108-170 | the same for the part after the special cases |
| `Fma.ShrCompressValue` | go/src/math/fma.go:39-63 | shrcompress is, for every n, a shift whose lowest bit collects the bits dropped |
| `Fma.SoundSticky` | go/src/math/fma.go:39-63 | such a shift keeps a significand sound: equal to the exact value or odd and strictly between its even neighbours |
| `Fma.SoundAdd` | go/src/math/fma.go:140-143 | adding a number with an even significand keeps the sticky bit sound |
| `Fma.SoundSub` | go/src/math/fma.go:146-150 | so does subtracting, and the sign of the difference is that of the exact one |
| `Fma.SplitFloatValue` | go/src/math/fma.go:73-91 | split gives a 53-bit significand and exponent with the exact value, subnormals included |
| `Fma.Product` | go/src/math/fma.go:114-128 | the product is exact and normalized |
| `Fma.Align` | go/src/math/fma.go:130-136 | the smaller operand is aligned with a sound sticky bit and stays below the larger |
| `Fma.AddAligned` | go/src/math/fma.go:140-145 | the sum of the aligned operands is sound, the carry out of the top included |
| `Fma.SubAligned` | go/src/math/fma.go:146-155 | the difference is sound however many leading bits cancel, and zero exactly if the operands are equal |
| `Fma.RoundSound` | go/src/math/fma.go:167 | rounding off ten bits of a sound significand is rounding the exact value: the sticky bit keeps it off a tie |
| `Fma.CorrectlyRoundedIsRound` | go/src/math/fma.go:93-95 | the result equals the reference rounding function of the exact sum |
| `Fma.CancelledSignFails` | go/src/math/fma.go:157-169 | (-1) * 1 + 1 gives -0 |
| `Floor.RoundCorrect` | go/src/math/floor.go:73-108 | Round gives the nearest integer, of two the one away from zero, with the sign of x, for every finite x |
| `Floor.RoundToEvenCorrect` | go/src/math/floor.go:110-146 | RoundToEven gives the nearest integer, of two the even one, with the sign of x, for every finite x |
| `Floor.ParityBit` | go/src/math/floor.go:129-137 | the bit of the pattern that is read is the parity of the integer part, for 1 <= x < 2 through the odd bias |
| `Floor.AddAndClear` | go/src/math/floor.go:102-105 | adding to the raw bits and clearing the fraction adds to the significand and cuts it off, a carry into the exponent included |
| `FloatOps.CloseDifference` | go/src/math/mod.go:45 | numbers within a factor of two of each other have a representable difference |
| `FloatOps.RemainderRepresentable` | go/src/math/mod.go:28-51 | the remainder of two representable numbers is representable |
| `Scaling.FrexpSpec` | go/src/math/frexp.go:7-16 | the fraction lies in [1/2, 1) and fraction * 2^exp is the argument, subnormals included |
| `Scaling.LdexpCorrectIff` | go/src/math/ldexp.go:21-50 | Ldexp is frac * 2^exp rounded once, denormal results and overflow included, exactly if the exponent adjusted by that of frac is an int |
| `Scaling.LdexpWrapExample` | go/src/math/ldexp.go:29-32 | 2 * 2^MaxInt gives 0 |
| `Scaling.DenormalProduct` | go/src/math/ldexp.go:42-49 | the final multiplication by 2^-53 rounds a denormal result once |
| `Scaling.SpecialUnchanged` | go/src/math/frexp.go:12-15 | zeros, infinities and NaNs are returned as they are, with exponent 0 by Frexp |
| `Mod.Mod` | go/src/math/mod.go:28-51 | the loop terminates and computes the specification function |
| `Mod.Reduce` | go/src/math/mod.go:34-46 | repeated scaled subtraction leaves exactly the remainder of the magnitudes and keeps the sign |
| `Mod.LoopStep` | go/src/math/mod.go:41-45 | each subtraction is exact, makes r smaller and keeps the remainder |
| `Mod.StepExponent` | go/src/math/mod.go:41-45 | the exponent chosen gives the largest power of two times y that is not above r |
| `Mod.LdexpExact` | go/src/math/mod.go:45 | scaling y by it is exact |
| `Mod.ModExact` | go/src/math/mod.go:17-21 | the result is exactly x - trunc(x/y) * y, smaller than y in magnitude, with the sign of x even if it is zero |
| `Mod.RemainderCorrect` | go/src/math/remainder.go:29-94 | the result is exactly x - n * y with n the integer nearest to x/y, the even one of two, a zero result having the sign of x |
| `Mod.RemainderUnique` | go/src/math/remainder.go:29-36 | this n and the remainder are unique |
| `Mod.ModSpecial` | go/src/math/mod.go:15-20 | Mod is NaN exactly for a NaN, an infinite x or a zero y, and x for an infinite y |
| `Mod.RemainderSpecial` | go/src/math/remainder.go:31-36 | Remainder is NaN for a NaN, an infinite x or a zero y, and x for an infinite y |
| `Mod.ReducedValue` | go/src/math/remainder.go:71-73 | reducing modulo 2y first, where 2y is finite, takes off an even number of copies |
| `Mod.BranchCorrect` | go/src/math/remainder.go:74-89 | both branches take off the number of copies that leaves at most half of y, the even one at a tie |
| `Pipe.StepInv` | go/src/io/pipe.go:52-141 | every atomic action keeps the lock, transfer, log, delivery and close invariants |
| `Pipe.RunInv` | go/src/io/pipe.go:52-141 | they hold after every run of any number of goroutines |
| `Pipe.Delivered` | go/src/io/pipe.go:63-78 | with no transfer in flight, the bytes handed to readers in hand-off order are, in lock order, the first n bytes of every Write, n being its acknowledged count; how many these are say ReadFills and WriteReturns |
| `Pipe.ReadFills` | go/src/io/pipe.go:72-74 | a Read that gets a slice fills its buffer or takes all of the slice: what it returns and what is left of the Write are the slice that was sent |
| `Pipe.WriteReturns` | go/src/io/pipe.go:106-122 | every finished Write that got the lock returned as many bytes as the Reads that answered it had room for, at most all, and no error if and only if some Read answered and there was room for all |
| `Pipe.WriteCompletes` | go/src/io/pipe.go:106-122 | once there is room for all, the next step of the Write returns all its bytes and no error, closed or not |
| `Pipe.WriteResult` | go/src/io/pipe.go:97-123 | a Write returns for the argument it was called with, with the count of its record in lock order, or 0 and an error if it never got the lock |
| `Pipe.PairProceeds` | go/src/io/pipe.go:70-78 | a Read and a Write never wait for each other: some step inside a call is possible while there is one of each |
| `Pipe.CountAnswersSlice` | go/src/io/pipe.go:114-117 | a count received on rdCh answers the slice that same Write has just sent, and is at most its length |
| `Pipe.WriterNotStuck` | go/src/io/pipe.go:114-119 | a Write waiting for its count can always get it, closed or not: its reader is the one that owes it and does nothing else |
| `Pipe.CloseSemantics` | go/src/io/pipe.go:80-95 | done is closed at most once, and a call that failed returns the error of the other side or ErrClosedPipe as documented |
| `Pipe.CallKept` | go/src/io/pipe.go:63-68 | a call keeps its arguments to its end, and one that begins on a closed pipe transfers nothing and returns an error |
| `Pipe.CloseReturns` | go/src/io/pipe.go:88-95 | when a close has returned, the pipe is closed and an error of its side is stored |
| `Pipe.ErrorsGiven` | go/src/io/pipe.go:88-95 | the error stored for a side is one that a close of that side was given, with EOF and ErrClosedPipe for none |
| `Pipe.StepsShrink` | go/src/io/pipe.go:97-123 | every step that does not start a call brings the pending calls nearer to their end |
| `Pipe.RunsEnd` | go/src/io/pipe.go:52-141 | a run has at most ten steps for each Read, six for each Write and three for each close in it, however long the slices and whatever the interleaving |
| `Pipe.ClosedNeverBlocks` | go/src/io/pipe.go:63-78 | once the pipe is closed, a pending call never waits for a new one |
| `Context.StepInv` | go/src/context/context.go:287-530 | every step of WithCancel, WithDeadline, Done, cancel, a timer or a race between them keeps the invariant of the tree |
| `Context.RunInv` | go/src/context/context.go:287-530 | so does every run |
| `Context.CancelReachesDescendants` | go/src/context/context.go:450-455 | whenever the lock of a cancelled context is free, every descendant whose propagateCancel has finished has an error and a closed channel |
| `Context.ClosedAtMostOnce` | go/src/context/context.go:443-449 | no channel is closed twice, closedchan included |
| `Context.DoneAndErrStable` | go/src/context/context.go:395-408 | over every further run Done keeps returning the same channel and err never changes once set |
| `Context.ParentBeforeChild` | go/src/context/context.go:450-453 | whoever waits for a context's lock holds only locks of its proper ancestors |
| `Context.NoDeadlock` | go/src/context/context.go:301-312 | as long as some goroutine is inside a call, some goroutine can take a step |
| `Context.CallsReturn` | go/src/context/context.go:287-530 | every call returns: a run has at most 24 steps for each context made, 7 for each cancel call or timer and 3 for each Done, however many descendants the cancel calls go through |
| `Context.StepChosen` | go/src/context/context.go:450-453 | a cancel call is always busy with a child it still has to deal with, whoever else runs |
| `Context.GoShrinks` | go/src/context/context.go:287-530 | every step inside a call takes one off what the calls and the contexts not yet cancelled may still cost, a child registered with its parent included |
| `Context.NeverForeign` | go/src/context/context.go:313-322 | between contexts of this package the goroutine for foreign contexts is never started |
| `Context.FreeMeansSettled` | go/src/context/context.go:434-455 | a context whose lock is free is untouched or completely cancelled |
| `Context.HeldAreAncestors` | go/src/context/context.go:434-455 | the locks a call holds belong to ancestors of the context it works on |
| `Context.MarkEdit` | go/src/context/context.go:443-449 | marking a context cancelled closes its own channel once, or shares the closed one, and leaves every other context as it was |
| `ContextCalls.CancelCompletes` | go/src/context/context.go:434-460 | when a CancelFunc or the function of a timer has returned, whatever the other goroutines did meanwhile, its context has an error and a closed channel, and so have all its descendants that have been made |
| `ContextCalls.CancelError` | go/src/context/context.go:487-496 | such a call leaves Canceled, or DeadlineExceeded if it is a timer's, unless the other error was asked for the context or an ancestor |
| `ContextCalls.ErrorIsAskedOrInherited` | go/src/context/context.go:443 | the error of a context was asked for that very context by a CancelFunc, its timer or its deadline, or is its parent's |
| `ContextCalls.ErrorWasAsked` | go/src/context/context.go:443 | so every error was asked for the context or one of its ancestors |
| `ContextCalls.NewContextReturns` | go/src/context/context.go:287-323 | when WithCancel or WithDeadline has returned, the new context is attached to the parent asked for, and cancelled if the parent was |
| `ContextCalls.DoneReturns` | go/src/context/context.go:395-408 | when Done has returned, the context has a channel |
| `ContextCalls.DeadlineArmed` | go/src/context/context.go:487-496 | a context with a deadline that is not cancelled has its timer running, or a goroutine is about to see to it |
| `ContextRemoval.RemovedFromParent` | go/src/context/context.go:349-361 | a cancelled context is no longer among the children of a parent that is not, unless a cancel call is about to take it off |
| `ContextRemoval.TimerStopped` | go/src/context/context.go:519-530 | nor has it a timer, unless a cancel call is about to stop it |
| `ContextRemoval.AtRest` | go/src/context/context.go:434-530 | with no call in progress, a context has its timer running if and only if it has a deadline and is not cancelled, and is among the children of a parent that is not cancelled if and only if it is not either |
| `Scanner.Scanner.Scan` | go/src/bufio/scan.go:144-244 | for a coherent split function and a reader that keeps to its contract, Scan gives the answer of the split function on all the input that is left, or says in which of the documented ways it stopped; for any reader it terminates and stays in order, panics only after a hundred tokens without progress, and returns no token behind them; after a final token nothing changes any more |
| `Scanner.Scanner.MakeRoom` | go/src/bufio/scan.go:190-218 | sliding and growing keep the buffered bytes, and fail only for a full buffer of the maximal size |
| `Scanner.Scanner.Fill` | go/src/bufio/scan.go:219-242 | reading appends what the reader gave, gives up on impossible counts, and terminates |
| `Scanner.Scanner.SplitOnce` | go/src/bufio/scan.go:154-187 | an answer on the buffered bytes is the answer on all the input if more cannot change it |
| `Scanner.Scanner.Advance` | go/src/bufio/scan.go:246-258 | consumes n bytes, or records why n is illegal |
| `Scanner.Scanner.SetErr` | go/src/bufio/scan.go:260-265 | the first error other than EOF stays |
| `Scanner.Decided` | go/src/bufio/scan.go:144-182 | what an answer on a prefix says about the whole input |
| `Scanner.ScanAll` | go/src/bufio/scan.go:135-144 | for every such reader, however it chops up the input, and every coherent split function that always moves on, scanning to the end yields exactly the tokens of the whole input and the reader's error, and terminates |
| `Scanner.ScanLinesCoherent` | go/src/bufio/scan.go:366-380 | ScanLines never changes an answer when more input arrives |
| `Scanner.ScanAllLines` | go/src/bufio/scan.go:135-144 | for every reader that keeps to its contract and every input of lines shorter than the limit, scanning yields exactly its lines and the reader's error |
| `Scanner.ShortLinesFit` | go/src/bufio/scan.go:199-205 | lines shorter than the limit never fill the buffer |
| `Scanner.LinesOfWritten` | go/src/bufio/scan.go:347-380 | writing lines with "\n" or "\r\n" and reading them back gives the lines, and a last one without terminator |
| `WordScanner.SplitWords` | go/src/bufio/scan.go:413-440 | the two loops compute the specification of ScanWords |
| `WordScanner.ScanWordsCoherent` | go/src/bufio/scan.go:413-440 | ScanWords never changes an answer when more input arrives, even if what it has ends in the middle of a character, and skipping white space first makes no difference |
| `WordScanner.FrontOrCut` | go/src/bufio/scan.go:417-431 | the character at the front is read the same when more arrives, or it is cut off and no white space is in sight |
| `WordScanner.ScanAllWords` | go/src/bufio/scan.go:408-413 | for every reader that keeps to its contract, scanning yields exactly the words: the text cut at every white space character, empty pieces left out |
| `WordScanner.ShortWordsFit` | go/src/bufio/scan.go:199-205 | words short enough for the widest white space behind them never fill the buffer |
| `WordScanner.WordsOfWritten` | go/src/bufio/scan.go:408-413 | words of any bytes other than white space, written with any white space between them, are read back |
| `WordScanner.WordsClean` | go/src/bufio/scan.go:408-411 | no word is empty or has white space in it |
| `MediaType.FormatMediaType` | go/src/mime/mediatype.go:20-102 | writes the type and, in ascending order of names, the parameters as the specification function says; the result is empty if and only if the type is neither a token nor two tokens with a slash between them, or some name is no token |
| `MediaType.ParamsInOrder` | go/src/mime/mediatype.go:37-99 | every parameter is written once, in the given order |
| `Order.AscendingUnique` | go/src/mime/mediatype.go:37-41 | the order is unique, so the result does not depend on the order of the map |
| `MediaType.WriteEncoded` | go/src/mime/mediatype.go:62-79 | copying unescaped stretches whole is percent-encoding byte by byte |
| `MediaType.WriteQuoted` | go/src/mime/mediatype.go:88-99 | likewise for quoting |
| `MediaType.ConsumeValue` | go/src/mime/mediatype.go:287-324 | the loop reads a token or a quoted string as specified, the rest untouched on failure |
| `MediaType.QuotedOfBody` | go/src/mime/mediatype.go:297-321 | reading a quoted string undoes quoting, whatever follows it |
| `MediaType.PercentHexUnescape` | go/src/mime/mediatype.go:354-391 | the two loops decode as specified: the count of the first makes the array of the second exactly fit |
| `MediaType.UnescapedOfEncoded` | go/src/mime/mediatype.go:354-391 | decoding undoes percent-encoding for every byte string |
| `MediaType.ValueReadBack` | go/src/mime/mediatype.go:52-99 | whichever of the three forms a value is written in, consumeValue reads it back up to the next parameter |
| `MediaType.ParamReadBack` | go/src/mime/mediatype.go:326-352 | a written parameter is consumed whole, under its name or its name and a star |
| `MediaParse.ParseMediaType` | go/src/mime/mediatype.go:140-238 | computes the specification function, continuations in any order of the map, and terminates; what that function gives say the rows of MediaSyntax |
| `MediaParse.LaterShrinks` | go/src/mime/mediatype.go:210-231 | no number names two continuation pieces, so the unbounded loop over them ends |
| `MediaParse.StitchPieces` | go/src/mime/mediatype.go:200-234 | joins the pieces of one name as the specification function says, which MediaSyntax.StitchIff ties to what was written |
| `MediaParse.Decode2231OfEncoded` | go/src/mime/mediatype.go:240-261 | decode2231Enc gives back every byte string written in the extended form |
| `MediaParse.CollectReadBack` | go/src/mime/mediatype.go:160-194 | written parameters are collected one for one, in any order |
| `MediaParse.ParsedNames` | go/src/mime/mediatype.go:137-139 | whatever is parsed, every name in the result is in lower case and without a star |
| `MediaParse.RoundTrip` | go/src/mime/mediatype.go:15-20 | parsing what was formatted gives the lower-cased type and exactly the parameters, without error, if and only if the type is a token or two tokens with a slash between them and every name is a lower-case token without a star; values are arbitrary bytes |
| `MediaParse.RoundTripLowered` | go/src/mime/mediatype.go:15-20 | valid names that stay distinct in lower case come back in lower case with their values |
| `MediaSyntax.ParsedItems` | go/src/mime/mediatype.go:140-238 | on any text of the grammar, with white space, quoted strings and the parameters in any order, names different in lower case: the type in lower case, and under every name what its pieces say or else what was written for the name itself, and nothing else |
| `MediaSyntax.ContinuationRead` | go/src/mime/mediatype.go:208-234 | pieces written in any order, plain, quoted or encoded, are put together by their numbers up to the first that is missing; without piece 0 only what was written for the name itself is stored |
| `MediaSyntax.StitchIff` | go/src/mime/mediatype.go:196-235 | what is stored under a base name is exactly what base*=, or else its numbered pieces, say |
| `MediaSyntax.ParsedClash` | go/src/mime/mediatype.go:188-191 | a name that is repeated, in whatever case, is an error |
| `MediaSyntax.ParsedFlaw` | go/src/mime/mediatype.go:165-174 | so is anything that cannot be read as a parameter: no semicolon, name, equals sign or value, or a quoted string that is not closed; the type is still returned |
| `MediaSyntax.ParsedTrailing` | go/src/mime/mediatype.go:167-171 | a trailing semicolon is no error; the parameters without a star are returned as written and those with one are lost |
| `MediaSyntax.TrailingHarmlessIff` | go/src/mime/mediatype.go:167-171 | the semicolon makes no difference if and only if all that the names with a star say is also written without |
| `MediaSyntax.TrailingExample` | go/src/mime/mediatype.go:167-171 | "a;b*=utf-8''c" has the parameter b, and "a;b*=utf-8''c;" has none |
| `MediaSyntax.ItemRead` | go/src/mime/mediatype.go:326-352 | one parameter is read, with its name in lower case, up to the next |
| `MediaSyntax.AddedLookup` | go/src/mime/mediatype.go:176-192 | storing fails exactly for a name that is there, and otherwise adds it and changes no other |
| `MediaSyntax.DispositionIff` | go/src/mime/mediatype.go:104-124 | the type is accepted if and only if it is a token or two tokens with a slash between them |
| `MediaSyntax.DispositionErrors` | go/src/mime/mediatype.go:104-124 | and the error tells what is wrong with it |
| `MediaSyntax.UnescapedIff` | go/src/mime/mediatype.go:354-391 | percent-decoding gives d for exactly the encodings of d, and fails for what encodes nothing |
| `MediaSyntax.Decode2231Iff` | go/src/mime/mediatype.go:240-261 | decode2231Enc gives d for exactly charset'language'encoding of d in a charset it knows |
| `MediaSyntax.DecimalIs` | go/src/mime/mediatype.go:211 | a piece is numbered in decimal without leading zeros |
| `EncodedWord.EncodeWord` | go/src/mime/encodedword.go:52-68 | the loop writes the words of the specification function: a piece that does not fit starts the next word |
| `EncodedWord.WordsSplit` | go/src/mime/encodedword.go:121-140 | the words of a text, put together, are the text, and the encoding of each has at most 63 characters |
| `EncodedWord.WordLength` | go/src/mime/encodedword.go:70-77 | with its header and footer no encoded word has more than 75 characters |
| `EncodedWord.WordsFull` | go/src/mime/encodedword.go:121-140 | the character that a word begins with would not have fitted into the one before |
| `EncodedWord.QPrintable` | go/src/mime/encodedword.go:143-157 | encoded text is printable ASCII without spaces and question marks |
| `EncodedWord.WordsValid` | go/src/mime/encodedword.go:124-132 | if the text is valid UTF-8, so is every word: no character is split |
| `EncodedWord.QDecode` | go/src/mime/encodedword.go:371-398 | filling the array from the front computes the specification of Q decoding, errors included |
| `EncodedWord.QDecodedOfEncoded` | go/src/mime/encodedword.go:143-157 | Q decoding undoes Q encoding for every byte string |
| `EncodedWord.CandidateIs` | go/src/mime/encodedword.go:254-283 | a written word is found whole, whatever follows it: nothing in its text can end it early |
| `EncodedWord.DecodeHeader` | go/src/mime/encodedword.go:238-312 | the loop computes the specification function, with white space between words dropped |
| `Base64.DecodedOfEncoded` | go/src/encoding/base64/base64.go:471-539 | base64 decoding undoes encoding for every byte string |
| `Base64.QuantaIff` | go/src/encoding/base64/base64.go:471-539 | decoding gives d for exactly the padded encodings of d, and fails for what encodes nothing |
| `Base64.Alphabet` | go/src/encoding/base64/base64.go:35 | the alphabet of section 4 of RFC 4648 |
| `Base64.StrippedIs` | go/src/encoding/base64/base64.go:285-350 | line breaks make no difference wherever they stand, and nothing else is left out |
| `EncodedWord.RoundTrip` | go/src/mime/encodedword.go:52-68 | decoding the encoded words of any byte string gives it back, for every decoder and every spelling of the charset |
| `EncodedWord.EncodeRoundTrip` | go/src/mime/encodedword.go:32-40 | what Encode returns decodes to its argument if and only if the argument was encoded or no part of it can be taken for an encoded word, for every decoder whose CharsetReader, if it has one, gives no ASCII text longer than what it was given |
| `EncodedWord.DefaultRoundTrip` | go/src/mime/encodedword.go:187-191 | the same for the default decoder, in all charsets and encodings it knows and without any condition |
| `EncodedWord.DecodedShorter` | go/src/mime/encodedword.go:325-355 | a header in which a word is decoded never comes out as ASCII text of the same length: base64 and Q shorten the word, and the conversions of iso-8859-1 and us-ascii lengthen only what is not ASCII |
| `EncodedWord.EncodeNotInverse` | go/src/mime/encodedword.go:35-38 | "=?utf-8?q?a?=" is returned unchanged and decodes to "a" |
| `BEncoding.BEncode` | go/src/mime/encodedword.go:82-111 | the loop writes the words of the specification function in base64 |
| `BEncoding.BWordsAre` | go/src/mime/encodedword.go:92-110 | the words add up to the text, each has at most 45 bytes, and the character that a word begins with would not have fitted into the one before |
| `BEncoding.BWordsValid` | go/src/mime/encodedword.go:93-106 | if the text is valid UTF-8, so is every word: no character is split |
| `BEncoding.BWordLength` | go/src/mime/encodedword.go:70-79 | with its header and footer no encoded word has more than 75 characters |
| `BEncoding.BRoundTrip` | go/src/mime/encodedword.go:82-111 | decoding what the B encoding wrote for any byte string gives it back, for every decoder |
| `BEncoding.BEncodeRoundTrip` | go/src/mime/encodedword.go:32-40 | what Encode returns decodes to its argument under the same condition as for the Q encoding |
| `HeaderSyntax.DecodedHeader` | go/src/mime/encodedword.go:238-312 | in any header made of text, words that can be decoded and words that cannot, the first kind of words is decoded, the rest stays as it is, and of the text only what is all spaces, tabs and line breaks between two decoded words is dropped |
| `HeaderSyntax.HeaderErrorIff` | go/src/mime/encodedword.go:238-240 | there is an error if and only if the charset of some word cannot be converted |
| `HeaderSyntax.Unterminated` | go/src/mime/encodedword.go:260-281 | what begins like a word but has no charset, no encoding or no end is text, with everything behind it |
| `HeaderSyntax.ConvertIs` | go/src/mime/encodedword.go:325-354 | utf-8, iso-8859-1 and us-ascii are converted in whatever case they are written, and every other charset by the client's reader, asked in lower case |
| `HeaderSyntax.Latin1Runes` | go/src/mime/encodedword.go:329-332 | from iso-8859-1 every byte becomes the character of that number |
| `HeaderSyntax.ReplacedRunes` | go/src/mime/encodedword.go:333-340 | from us-ascii a byte beyond ASCII becomes U+FFFD |
| `HeaderSyntax.QDecodedIff` | go/src/mime/encodedword.go:371-398 | qDecode gives d for exactly the encodings of d, and fails for what encodes nothing |
| `EncodedWord.WordFound` | go/src/mime/encodedword.go:254-283 | a word is found with its charset, encoding and text behind any text in which none begins, whatever follows it |
| `Utf8.DecodeOfEncode` | go/src/unicode/utf8/utf8.go:342-372 | decoding the encoding of a character gives the character and its width, whatever follows |
| `Utf8.EncodeOfDecode` | go/src/unicode/utf8/utf8.go:199-245 | encoding what was decoded gives the bytes back |
| `Utf8.DecodeInvalid` | go/src/unicode/utf8/utf8.go:193-198 | what begins with the encoding of no character decodes as U+FFFD of width 1 |
| `Html.UnescapeEntity` | go/src/html/escape.go:53-164 | replaces one reference in place as specified, writing no further than it has read, and leaves what is still to be read alone |
| `Html.UnescapeString` | go/src/html/escape.go:187-214 | overwriting its own buffer computes the pure left-to-right unescaping |
| `Html.RoundTrip` | go/src/html/escape.go:176-185 | unescaping an escaped string gives the string, for all strings |
| `Html.EscapedSafe` | go/src/html/escape.go:166-180 | escaped text has none of <, >, ' and " left, and text without them and & is not changed |
| `Html.NamedReference` | go/src/html/escape.go:139-163 | a name is replaced by the one or two characters that the tables have for the whole of it, or else for its longest front of at most six characters, and stays as it is if there is none |
| `Html.NoReference` | go/src/html/escape.go:140-163 | an ampersand before anything else stays |
| `Html.NumericReference` | go/src/html/escape.go:69-121 | a numeric reference of more than three characters is replaced by the character of its number, as far as int32 goes, with its semicolon |
| `Html.NumericTakenIff` | go/src/html/escape.go:106-110 | references with digits are taken and those without are left alone, except a single decimal digit without a semicolon, and "x" with a semicolon but no digits |
| `Html.NumericCorrectIff` | go/src/html/escape.go:82-118 | a numeric reference becomes the character or U+FFFD as promised if and only if its value is at most 10FFFF hex or, modulo 2^32, is no character other than U+FFFD |
| `Html.NumericWraps` | go/src/html/escape.go:82-118 | "&#x100000041;" becomes "A" |
| `Expvar.StepInv` | go/src/expvar/expvar.go:141-229 | every atomic action of Set, Add, AddFloat, Delete and Do keeps the list sorted and each key of the map in exactly one place |
| `Expvar.ListedArePresent` | go/src/expvar/expvar.go:209-217 | in every interleaving the list is sorted without duplicates and every listed key is in the map, inside Delete's critical section too |
| `Expvar.DoVisits` | go/src/expvar/expvar.go:219-229 | Do meets no missing entry and visits the listed keys in order, each once |
| `Expvar.CallReturns` | go/src/expvar/expvar.go:160-229 | when Set has returned the map had the value at some moment of the call and the key was in the map before or was listed; the same for Add with a key that is in the map; Delete has unlisted and removed the key or found it unlisted; Do has visited all keys that were listed |
| `Expvar.ValueKept` | go/src/expvar/expvar.go:160-217 | no step but a store or a removal of the same key changes what the map has under it |
| `Expvar.DoExcludes` | go/src/expvar/expvar.go:219-222 | the list stands still while a Do is running |
| `Expvar.QuietIff` | go/src/expvar/expvar.go:160-172 | a run that ends with no call in progress leaves list and map with the same keys if and only if none of its steps stores a key that some Delete removed after the same call had looked it up |
| `Expvar.CompleteWithoutDelete` | go/src/expvar/expvar.go:219-229 | so Do visits every entry after every run without Delete |
| `Expvar.LateForever` | go/src/expvar/expvar.go:209-217 | such a key is never listed or deleted again |
| `Expvar.LateExample` | go/src/expvar/expvar.go:160-172 | a run that ends with such a key |
| `Expvar.NoDeadlock` | go/src/expvar/expvar.go:141-143 | while some call is in progress, some goroutine can take a step |
| `Order.SearchFinds` | go/src/expvar/expvar.go:145-151 | the search finds a key exactly if it is listed, and otherwise where inserting it keeps the list sorted |
| `Order.LessIff` | go/src/expvar/expvar.go:145 | texts are ordered by the first bytes that differ, a text coming before its extensions |
| `Linkcheck.StepInv` | go/misc/linkcheck/linkcheck.go:77-193 | every step keeps the WaitGroup equal to the URLs outstanding, every page crawled once, and every finished page completely noted |
| `Linkcheck.CrawledIsReachable` | go/misc/linkcheck/linkcheck.go:173-180 | when Wait returns, nothing is outstanding and the pages fetched are exactly those reachable from the root, each once |
| `Linkcheck.MissingFragments` | go/misc/linkcheck/linkcheck.go:181-185 | the fragments then reported are exactly those that the root or a reachable page asks for and no reachable page has |
| `Linkcheck.ClosedUnderLinks` | go/misc/linkcheck/linkcheck.go:156-163 | a fetched page has all its links crawled |
| `Linkcheck.UrlParts` | go/misc/linkcheck/linkcheck.go:84-92 | a URL is a page and the fragment behind its first "#" |
| `Linkcheck.TargetsAre` | go/misc/linkcheck/linkcheck.go:131-163 | what a page leads to are its links below the root, or its redirect if it stays below the root |
| `Linkcheck.NoDeadlock` | go/misc/linkcheck/linkcheck.go:98-101 | until Wait returns some step is possible |
| `Linkcheck.AddSafe` | go/misc/linkcheck/linkcheck.go:95-101 | wg.Add is not called on a counter of zero once main may be waiting: while a page is crawled the counter is positive |
| `Linkcheck.StepCount` | go/misc/linkcheck/linkcheck.go:112-118 | a run has exactly the steps its fetched pages call for, up to what is left of the current one |
| `Linkcheck.Stops` | go/misc/linkcheck/linkcheck.go:112-118 | over a finite set of pages with at most so many links each, every run has at most 2 + pages * (links + 2) steps |
| `Buffer.Buffer.Write` | go/src/bytes/buffer.go:203-215 | appends to the queue, whichever way room is made, or panics with the queue unchanged |
| `Buffer.Buffer.MakeRoom` | go/src/bytes/buffer.go:130-187 | keeps the unread bytes and makes room for n more, and keeps copying linear |
| `Buffer.SlidePays` | go/src/bytes/buffer.go:166-173 | when the bytes are slid down, more than as many have been read, so that bytes moved stay within bytes consumed plus capacity |
| `Buffer.LargerPays` | go/src/bytes/buffer.go:176-182 | a new slice pays for the move, and is at most five times what is needed |
| `Buffer.Buffer.Read` | go/src/bytes/buffer.go:347-370 | takes the front off the queue |
| `Buffer.Buffer.ReadBytes` | go/src/bytes/buffer.go:473-505 | takes the queue up to the first delimiter, or all of it with io.EOF exactly if there is none |
| `Buffer.Buffer.UnreadByte` | go/src/bytes/buffer.go:456-471 | keeps its promise, the last byte of a successful read put back or an error, if and only if a byte that is due is still remembered and in front of the unread bytes, or none is due and no read is remembered |
| `Buffer.Buffer.UnreadRune` | go/src/bytes/buffer.go:435-452 | the same for the rune of the last ReadRune |
| `Buffer.ReadThenUnread` | go/src/bytes/buffer.go:456-471 | straight after a read the promise is kept if and only if that was not a ReadBytes or ReadString that ended in an error |
| `Buffer.ReadGrowUnread` | go/src/bytes/buffer.go:189-201 | with a Grow(n) in between the byte comes back if and only if something is left to be read and n fits behind it as it is |
| `Buffer.RuneGrowUnread` | go/src/bytes/buffer.go:189-201 | the same for ReadRune and UnreadRune |
| `Buffer.ReadUnreadRune` | go/src/bytes/buffer.go:435-452 | UnreadRune after ReadRune restores the queue |
| `Buffer.UnreadAfterGrow` | go/src/bytes/buffer.go:195-201 | UnreadByte reports success but the byte stays gone |
| `Buffer.UnreadAfterError` | go/src/bytes/buffer.go:456-471 | UnreadByte reports success after a ReadBytes that returned io.EOF |
| `Buffer.UnreadAfterEmpty` | go/src/bytes/buffer.go:490-505 | UnreadByte reports success after a read that returned nothing |
| `Buffer.Buffer.Truncate` | go/src/bytes/buffer.go:90-107 | keeps the first n unread bytes, or panics with the queue unchanged |
| `Buffer.Perform` | go/src/bytes/buffer.go:18-20 | over any sequence of writes, reads and Grow what was there and what was written comes out in order or is still there, and growing moves at most as many bytes as were read plus five times the most that had to fit at once |
| `Search.Index` | go/src/bytes/bytes.go:1216-1308 | returns the first occurrence, whatever the processor's limits and whichever strategy it switches to |
| `Search.LastIndex` | go/src/bytes/bytes.go:116-153 | returns the last occurrence |
| `Search.RollLeft` | go/src/bytes/bytes.go:144-147 | a step to the left keeps the rolling hash equal to the reversed hash of the window modulo 2^32 |
| `Search.RollRight` | go/src/internal/bytealg/bytealg.go:116-119 | a step to the right likewise |
| `Search.PowerBySquaring` | go/src/internal/bytealg/bytealg.go:76-82 | computes the power of the base modulo 2^32 |
| `Search.IndexRabinKarp` | go/src/internal/bytealg/bytealg.go:103-126 | returns the first occurrence |
| `Split.GenSplit` | go/src/bytes/bytes.go:366-393 | splits into at most n pieces as specified, for every n and separator |
| `Split.NoSeparatorLeft` | go/src/bytes/bytes.go:375-392 | splitting everywhere leaves no separator in a piece |
| `Split.SplitIs` | go/src/bytes/bytes.go:366-393 | for every n other than 0: the text is cut from the left at the first places where the separator is, into at most n pieces, and at all places if n < 0 or there are fewer; then Count is the number of cuts |
| `Split.SplitUnique` | go/src/bytes/bytes.go:366-393 | there is only one such way to cut |
| `Split.PiecesKept` | go/src/bytes/bytes.go:387 | SplitAfter leaves the separator at the end of every piece but the last |
| `Split.ExplodedAre` | go/src/bytes/bytes.go:39-60 | the empty separator cuts after every character, the n-th piece having the rest |
| `Split.Join` | go/src/bytes/bytes.go:572-594 | fills its slice exactly |
| `Split.JoinOfSplit` | go/src/bytes/bytes.go:366-393 | joining the pieces with the separator gives the text back, for every n and every separator, the empty one included; only n = 0 gives nothing to join |
| `Split.SplitAfterKeepsAll` | go/src/bytes/bytes.go:387 | pieces that keep their separators add up to the text, for every n and every separator |
| `Split.Replace` | go/src/bytes/bytes.go:1092-1136 | replaces the first n places as specified, empty separators included, filling its slice exactly |
| `Split.ReplacedLen` | go/src/bytes/bytes.go:1116-1117 | the size allocated is the size needed |
| `Split.ReplaceIsJoinOfSplit` | go/src/bytes/bytes.go:1100-1136 | replacing is splitting and joining with the new separator |
| `Split.ReplaceIs` | go/src/bytes/bytes.go:1091-1136 | the same for Replace with every n, negative ones included |
| `Split.ReplaceNothing` | go/src/bytes/bytes.go:1119-1124 | an empty old text is found before every character and at the end |
| `Split.ReplaceByItself` | go/src/bytes/bytes.go:1091-1100 | replacing something by itself changes nothing |
| `BufioWriter.Writer.Flush` | go/src/bufio/bufio.go:627-649 | keeps sink and buffer together the same stream after a partial write too, and the error sticks |
| `BufioWriter.Writer.Write` | go/src/bufio/bufio.go:657-683 | the stream grows by exactly the nn bytes reported, fewer than given only with an error; after an error nothing is accepted and the sink does not grow |
| `BufioWriter.Writer.WriteString` | go/src/bufio/bufio.go:728-748 | the same |
| `BufioWriter.Writer.WriteRune` | go/src/bufio/bufio.go:698-726 | the same for the UTF-8 encoding of a rune |
| `BufioWriter.Writer.ReadFrom` | go/src/bufio/bufio.go:750-797 | the stream grows by exactly what was read, and by all the reader's data if there is no error |
| `BufioWriter.Perform` | go/src/bufio/bufio.go:580-591 | over any sequence of calls, ReadFrom and Reset included, and any failures of the sinks: what was reported as accepted since the last Reset is, in order, the sink followed by the buffer, and an earlier sink has the beginning of what was accepted for it |
| `BufioReader.Reader.Fill` | go/src/bufio/bufio.go:99-136 | reading more keeps the unread stream and its final error, and its panic is not reached |
| `BufioReader.Reader.ReadSlice` | go/src/bufio/bufio.go:350-398 | returns the stream up to the first delimiter, a full buffer without it, or the rest with the error |
| `BufioReader.Reader.ReadBytes` | go/src/bufio/bufio.go:483-501 | for every buffer size and chunking, the stream up to and including the first delimiter or the rest with the error, which is nil exactly if the data ends in the delimiter |
| `BufioReader.Reader.ReadLine` | go/src/bufio/bufio.go:400-449 | one fragment of a line; its panic is not reached, and a carriage return at the end of a full buffer stays unread |
| `BufioReader.JoinLine` | go/src/bufio/bufio.go:400-415 | joining the fragments gives each line without one "\n" or "\r\n", even if these two are in different fills; only a reader that returns nothing a hundred times in a row can end it within a line, and then the stream goes on where it stopped |
| `RefTable.Table.Store` | go/misc/wasm/wasm_exec.js:185-233 | loading the word that was written gives the value, live references keep their values, and a reused id aliases none |
| `RefTable.Table.Finalize` | go/misc/wasm/wasm_exec.js:341-352 | gives one reference back and keeps the values of the others |
| `RefTable.StoreOk` | go/misc/wasm/wasm_exec.js:203-213 | storing keeps the bijection between ids and values and the counts exact |
| `RefTable.FinalizeOk` | go/misc/wasm/wasm_exec.js:344-351 | so does finalizing |
| `RefTable.Bijective` | go/misc/wasm/wasm_exec.js:524-532 | different values have different ids, and an id in the pool belongs to no live reference |
| `RefTable.Perform` | go/misc/wasm/wasm_exec.js:172-233 | after any run in which no reference is finalized twice, every live reference loads the value it was stored for |

## Left out

- Transcendental functions, and the architecture-specific versions of `Sqrt`, `FMA`, `Mod`, `Remainder`, `Frexp`, `Ldexp`, `Round`: only the portable code is modelled.
- Fma.FMA: the result of the early path for zero or non-finite operands (go/src/math/fma.go:98-101) is the hardware's and is a parameter of the model.
- Scaling.LdexpCorrectIff: `int` is taken to have 64 bits.
- Custom implementations of `Context`, and the goroutine that serves them (go/src/context/context.go:313-322), except that it is never started without them. Values carried by contexts are left out: the parent in the model is the nearest enclosing cancelCtx or timerCtx.
- Real time: a timer may fire at any step, and whether a deadline has passed is chosen freely.
- Strings, reflection and logging of contexts; `Deadline` lookups.
- `PipeReader` and `PipeWriter`, which only forward to the pipe.
- Scanner.Scanner.Scan: a token is returned as a value; that it aliases the buffer until the next call is not modelled. A split function is a pure function of its arguments.
- Scanner: a call of Scan after it returned false; ScanBytes and ScanRunes; `Buffer` and `Split`, which only set fields before scanning starts.
- MediaParse.ParseMediaType: what the unicode tables say of text that is not ASCII (its lower-case form, and spaces at its ends) is a parameter, and every result holds for all of them.
- The text of error messages.
- EncodedWord: `WordDecoder.Decode`, which takes a single word instead of a header.
- HeaderSyntax.ConvertIs: the name of a charset beyond ASCII is given to a `CharsetReader` as it is, not in lower case.
- EncodedWord.EncodeRoundTrip: a `CharsetReader` of the client's own is any function of the charset and the bytes; one that gives ASCII text longer than what it was given is excluded, because then a decoded word can be as long as its header and equal to it. Nothing is asked of the default decoder.
- Html.UnescapeString: the entity tables are any tables in which no replacement is wider than its reference (go/src/html/entity.go:2170-2172); Html.RoundTrip also needs their entries for "amp;", "lt;" and "gt;". `strings.NewReplacer` is its meaning for single bytes.
- Expvar: `Init` running at the same time, what `Add` and `AddFloat` add to a number that is stored, and `String`; `sort.SearchStrings` is its meaning, and sync.Map operations are atomic.
- Linkcheck: fetching a page is a function of its URL; the regular expressions, the texts of problems and `log.Fatalf` are left out.
- Buffer: `ReadFrom`, `WriteTo`, and running out of memory; `Next` and `Bytes` return values, so that they alias the buffer is not modelled.
- Search.Index: the assembly searches are the naive search; `IndexAny`, `IndexFunc` and the like are left out.
- BufioWriter.Writer.ReadFrom: sinks with a `ReadFrom` of their own; a reader that returns impossible counts (also in `BufioWriter.Perform`).
- BufioReader: `Read`, `Peek`, `Discard`, `ReadRune`, `WriteTo` and the `Unread` operations. A reader that returns impossible counts is excluded.
- RefTable.Table.Store: a JavaScript array has fewer than 2^32 elements, so that ids fit into 32 bits.
- Utf8: `FullRune`, decoding from the end.
- The other files of the repository, among them `go/src/fmt/scan.go`, `go/src/net/addrselect.go` and `go/src/image/ycbcr.go`: easier members, which add nothing to the results above.
