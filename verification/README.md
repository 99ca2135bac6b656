# Proofs about the native code of the AirPlay receiver

The files here model the self-contained algorithms under `app/src/main/cpp/lib` and prove what they are for:
multi-precision arithmetic, Curve25519 and Ed25519 arithmetic, the request parser, binary property lists, two
AES codes and the streams built on them, ALAC decoding, the audio reorder buffer, and the ownership of audio
and mirror sessions. `dafny verify dfyconfig.toml` checks the whole project.

Code that changes things step by step is modelled by methods on arrays and class fields, each proved against a
function; what the code is for is then proved about that function. Machine integers are unbounded integers with
their range stated (`Machine.Int32`, `Machine.Int64`, `Digits.Comp`), so that an overflow is an error of the
verification unless the C code wraps on purpose, where the wrap is written out.

| area | files | main results |
|---|---|---|
| `crypto/bigint.c` | Digits, Bigint, Multiplication, Squaring, LongDivision, Barrett, ModPower | long division, Barrett reduction, modular power |
| `ed25519/fe.c` | FieldLimbs, FieldMul, FieldPower, FieldBytes, FieldDecode | no overflow, products modulo 2^255 - 19, canonical encoding |
| `curve25519/curve25519-donna.c` | Donna, WordBits, Contract, Montgomery, Ladder | the whole of `curve25519_donna`, given the curve's group law |
| `ed25519/ge.c` | Groups, Recoding, ScalarMult | both scalar multiplications in any commutative group |
| `http_parser.c`, `http_request.c` | Folds, HttpParser, HttpRun, HttpRequest, HttpExecute, HttpSync, HttpConnection, HttpSplit, HttpExample, HttpBody | split invariance and exactly when it fails, exact lengths, chunked bodies |
| `plist.c` | PlistFormat, PlistLayout, PlistWriter, PlistFile, PlistReader, PlistDepth, PlistRoundTrip, PlistTheorem | the round trip, exactly when it holds |
| `aes.c`, `crypto/aes.c` | AesSbox, AesField, AesSpec, TinyAes, WordAes, AesContext, AesCbc, AesKeys | decryption inverts encryption, the two codes agree |
| `aes_ctr.c`, `mirror_buffer.c` | Octets, CtrStream, CtrContext, MirrorBuffer, AesStreams | one continuous keystream over packets of any sizes |
| `alac/` | Predictor, UnpcBlock, BitStream, Golomb, DynDecomp, DynComp, BitBuffer, Stereo | unrolled loops equal the general one, lossless prediction, round trip of a coded block |
| `raop_buffer.c` | Playout, RaopBuffer | every run delivers packets once and in order |
| `raop.c`, `raop_handlers.h` | Sessions, RaopServer | every session is destroyed exactly once |

Arith, Bytes and Machine hold arithmetic, byte strings and machine integers that several areas share. A function
with a last parameter `fold := 3` is the definition it names; the parameter only keeps the definition folded in
proofs that need it by name, and a lemma called after it opens it.

## What the code does where its documentation says otherwise

- `bi_barrett` subtracts the modulus at most once. Its result is always below 3m, and below m exactly when the
  estimate of the quotient is at most one too small. `Barrett.OneSubtractionCanFallShort` is a modulus and an
  operand for which it is not. `bi_mod_power` therefore promises a congruent result, not a reduced one.
- A property list comes back from its own file if and only if it fits (`PlistTheorem.RoundTrip`). Longer lengths
  are written but cannot be read, because `1 << lentype & 0x0f` shifts before it masks, and a dictionary of 8 to 14
  entries is counted with a longer header than it is written with, so that the reader looks for the trailer in the
  wrong place.
- The skip over a header value checks one byte per entry into the state, so a byte that is no header character is
  refused or not depending on where a buffer starts (`HttpExample.CheckDependsOnSplit`). All divisions of a request
  leave the same if and only if no such byte comes directly behind a byte that was read in a value which is not
  being matched (`HttpSplit.SplitExactly`, `HttpSplit.OpenMeans`). The first byte of a value is never checked, under
  any division, and a byte inside a value that is being matched always is. A NUL passes as a first byte, and
  the request code then ends the fragment there (`HttpRequest.ValueTwiceExactly`).
- `mirror_buffer_decrypt` on a packet shorter than the pending remainder takes the whole remainder. The stream stays
  in step if and only if that never happens (`CtrStream.InStepExactly`).
- `raop_buffer_queue` takes the slot before it knows that a decoder exists. When none does, the buffer stays
  consistent if and only if the packet lies inside the window (`RaopBuffer.StoreWithoutLast`).
- After a flush without a next number a resend request can name the emptied range, packets that had arrived among
  them (`RaopBuffer.StaleRequest`). The request is right if and only if the buffer is in use or its old numbers span at
  most one packet (`RaopBuffer.RequestExactly`).
- The comment before `fe_tobytes` takes the carry estimate to be at most 1 in magnitude. The input bounds also allow
  -2, and the encoding is exact there as well (`FieldBytes.Quotient`). In the packing `h4 << 6` leaves 32 bits; only
  its low byte is used.
- The comment in `fcontract` says that limb 9 borrows at most one and limb 0 stays at least -19. Limb 9 can borrow
  up to three, so limb 0 can reach -57; the passes suffice all the same (`Contract.BorrowPasses`).
- `slide` and `ge_scalarmult_base` need a bounded scalar: 2^255 at most for the former, a[31] at most 127 for the
  latter.

## Model

| member | source | states |
|---|---|---|
| Bigint.Bigint.MoreComps | app/src/main/cpp/lib/crypto/bigint.c:1067-1081 | the components become zero-extended to n, or are cut when n is smaller: `more_comps` truncates |
| Bigint.Bigint.Trim | app/src/main/cpp/lib/crypto/bigint.c:1193-1203 | leading zero components are dropped, one component is kept |
| Bigint.Clone | app/src/main/cpp/lib/crypto/bigint.c:261-267 | the copy is a new object with the same components |
| Bigint.Compare | app/src/main/cpp/lib/crypto/bigint.c:1025-1062 | the result is the sign of the difference of the two numbers, for trimmed operands of any lengths |
| Bigint.TrimmedUnique | app/src/main/cpp/lib/crypto/bigint.c:1193-1203 | two trimmed component sequences with equal values are equal |
| Bigint.Add | app/src/main/cpp/lib/crypto/bigint.c:276-304 | a becomes a + b, trimmed; the second operand keeps its value but is padded to the common length |
| Bigint.Subtract | app/src/main/cpp/lib/crypto/bigint.c:315-345 | a becomes a - b modulo B^n for its own length n, and the flag says whether it wrapped; a longer b counts only with its low n components |
| Bigint.IntMultiply | app/src/main/cpp/lib/crypto/bigint.c:350-373 | a fresh object holds a * b; no step of the 64-bit accumulation overflows |
| Bigint.IntDivide | app/src/main/cpp/lib/crypto/bigint.c:509-524 | the number becomes its quotient by denom, rounded down |
| Multiplication.RegularMultiply | app/src/main/cpp/lib/crypto/bigint.c:811-859 | without truncation the product; with an outer truncation the product less exactly the skipped columns; with an inner one the low components agree with the product modulo B^inner |
| Multiplication.SkippedBound | app/src/main/cpp/lib/crypto/bigint.c:811-859 | the columns an outer-truncated multiply leaves out add up to less than outer * B^outer |
| Multiplication.RightShift | app/src/main/cpp/lib/crypto/bigint.c:561-583 | whole components are dropped from the low end; a shift by all of them leaves zero |
| Multiplication.LeftShift | app/src/main/cpp/lib/crypto/bigint.c:588-612 | the number is multiplied by B^numShifts |
| Squaring.OneFlagSuffices | app/src/main/cpp/lib/crypto/bigint.c:962-984 | at most one of the three overflow tests of a column fires, and then the wrapped 64-bit sum is short by exactly 2^64: one flag is enough |
| Squaring.RegularSquare | app/src/main/cpp/lib/crypto/bigint.c:946-994 | the result is x * x for every length, whatever the overflows of the columns |
| LongDivision.GuessAtMostTwoAbove | app/src/main/cpp/lib/crypto/bigint.c:438-459 | with a normalised divisor the two-by-one guess is at most two too large |
| LongDivision.TestSound | app/src/main/cpp/lib/crypto/bigint.c:446-457 | the correction test fires only on a guess that is too large |
| LongDivision.TestComplete | app/src/main/cpp/lib/crypto/bigint.c:446-457 | a guess that passes the test is at most one too large |
| LongDivision.TestAsCoded | app/src/main/cpp/lib/crypto/bigint.c:446-457 | the coded test, with its wrapped intermediate, decides as the test on unbounded numbers does |
| LongDivision.EstimateWithinOne | app/src/main/cpp/lib/crypto/bigint.c:438-459 | the digit after the single test is the right one or one more, for every window and divisor, the saturated guess and one-component divisors included |
| LongDivision.AddBack | app/src/main/cpp/lib/crypto/bigint.c:471-479 | adding v back after a wrapped subtraction and dropping the carry gives the window plus v, less the power that wrapped |
| LongDivision.DivideWindow | app/src/main/cpp/lib/crypto/bigint.c:433-489 | one turn of the loop: window == v * digit + remainder, with the remainder below v; at most one add-back |
| LongDivision.NormalisedDivisor | app/src/main/cpp/lib/crypto/bigint.c:408-426 | scaling by B / (v1 + 1) keeps the divisor's length and puts its top component in the upper half |
| LongDivision.Unscale | app/src/main/cpp/lib/crypto/bigint.c:494-503 | dividing scaled operands gives the quotient of the originals, and their remainder once scaled down: un-normalising is exact |
| LongDivision.Divide | app/src/main/cpp/lib/crypto/bigint.c:386-504 | floor(u / v), or u mod v in modulus mode, for trimmed operands whose top divisor component is neither 0 nor B - 1; the divisor and the stored modulus come out unchanged |
| Barrett.Context.SetMod | app/src/main/cpp/lib/crypto/bigint.c:748-779 | the context holds the modulus, its normalised multiple and floor(B^(2k) / m) |
| Barrett.EstimateWithinThree | app/src/main/cpp/lib/crypto/bigint.c:1267-1301 | for operands of at most 2k components the truncated estimate q3 lies between floor(x / m) - 3 and floor(x / m) |
| Barrett.EstimateWithinOneWhenRoom | app/src/main/cpp/lib/crypto/bigint.c:1267-1301 | when the two high parts and the skipped columns leave room below B^(k+1), the estimate is at most one too small |
| Barrett.DifferenceRecovered | app/src/main/cpp/lib/crypto/bigint.c:1288-1293 | a difference below B^(k+1) is recovered from its low components and the borrow |
| Barrett.BarrettShort | app/src/main/cpp/lib/crypto/bigint.c:1267-1301 | the result is congruent to x and below 3m; it is below m exactly when x < (q3 + 2) * m, since the code subtracts once |
| Barrett.BarrettReduce | app/src/main/cpp/lib/crypto/bigint.c:1267-1301 | the same for every operand: longer ones take the classical reduction and come out below m |
| Barrett.ClassicalReduce | app/src/main/cpp/lib/crypto/bigint.c:386-504 | `bi_mod`: the operand modulo m |
| Barrett.OneSubtractionCanFallShort | app/src/main/cpp/lib/crypto/bigint.c:1267-1301 | a modulus and an operand for which the estimate is two too small, so that one subtraction does not reduce fully |
| ModPower.FindMaxExpIndex | app/src/main/cpp/lib/crypto/bigint.c:1127-1146 | the index of the highest set bit, or -1 for exponent zero |
| ModPower.ExpBitIsOne | app/src/main/cpp/lib/crypto/bigint.c:1152-1167 | the bit at the offset; at offset -1 C's truncating division reads bit 0 |
| ModPower.TopBitsOfWords | app/src/main/cpp/lib/crypto/bigint.c:1152-1167 | the bits read from the top, word by word, have the value of the words |
| ModPower.PowerStep | app/src/main/cpp/lib/crypto/bigint.c:1380-1415 | one turn takes base^(e >> (i + 1)) to base^(e >> i), modulo m |
| ModPower.ModPower | app/src/main/cpp/lib/crypto/bigint.c:1345-1432 | the result is congruent to base^exponent modulo m and below 3m, for every base and every exponent, zero included |
| HttpRun.NextGood | app/src/main/cpp/lib/http_parser.c:632-2058 | in every reachable state every byte keeps the invariant (so the asserts on nread, flags and content_length hold), and continues, ends or starts at most one kind of data |
| HttpRun.RunSound | app/src/main/cpp/lib/http_parser.c:632-2058 | whatever bytes a new parser gets, the state they lead to satisfies that invariant |
| HttpRun.UrlStates | app/src/main/cpp/lib/http_parser.c:484-630 | `parse_url_char` leads to a state inside the URL or to the error state, and never accepts NUL |
| HttpRun.ContentDigitExact | app/src/main/cpp/lib/http_parser.c:1515-1543 | a Content-Length digit is accepted exactly while the length so far is at most (ULLONG_MAX - 10) / 10, and the new length stays below the ULLONG_MAX sentinel |
| HttpBody.LengthRead | app/src/main/cpp/lib/http_parser.c:1410-1424 | an accepted Content-Length equals its digits' value; it is refused exactly when all digits but the last exceed the bound |
| HttpBody.SizeRead | app/src/main/cpp/lib/http_parser.c:1901-1956 | an accepted chunk size equals its hexadecimal digits' value; it is refused exactly when all digits but the last leave no room |
| HttpBody.OneChunk | app/src/main/cpp/lib/http_parser.c:1901-2019 | size line, data and line end deliver the data and leave the parser ready for the next size with a count of zero |
| HttpBody.ChunkedBody | app/src/main/cpp/lib/http_parser.c:1901-2019 | any number of chunks, then the zero chunk: the body is the concatenation of their data and the request is complete |
| HttpBody.IdentityBody | app/src/main/cpp/lib/http_parser.c:1849-1883 | body bytes delivered plus content_length remaining equals the declared length, and the request completes with the last byte and not before |
| HttpExecute.FindLineEnd | app/src/main/cpp/lib/http_parser.c:1461-1490 | memchr for CR and LF over the bounded stretch: the nearer of the two, or the end of the buffer |
| HttpExecute.Skip | app/src/main/cpp/lib/http_parser.c:1461-1495 | skipping the rest of a value does what reading it byte by byte does, or the header is over the limit |
| HttpExecute.FieldLoop | app/src/main/cpp/lib/http_parser.c:1270-1369 | the inner loop over a header name does what the byte-at-a-time machine does on the same bytes |
| HttpExecute.ValueLoop | app/src/main/cpp/lib/http_parser.c:1451-1654 | the inner loop over a header value, with its skip, does what the byte-at-a-time machine does |
| HttpSync.FragmentGrows | app/src/main/cpp/lib/http_parser.c:632-2058 | a mark that stays open over a byte and a callback at its end deliver what the machine delivers byte by byte |
| HttpConnection.RequestParser.constructor | app/src/main/cpp/lib/http_request.c:136-155 | a parser at its start with an empty request |
| HttpConnection.RequestParser.CountHeaderSize | app/src/main/cpp/lib/http_parser.c:150-160 | the counter grows by the given number, and the parser fails when it passes the header limit |
| HttpConnection.RequestParser.FieldSection | app/src/main/cpp/lib/http_parser.c:1242-1369 | the section for header names, callbacks and header count included, agrees with the machine |
| HttpConnection.RequestParser.ValueSection | app/src/main/cpp/lib/http_parser.c:1451-1654 | the section for header values agrees with the machine |
| HttpConnection.RequestParser.BodySection | app/src/main/cpp/lib/http_parser.c:1849-1883 | as much of the body as the buffer holds is delivered at once and counted off, as the machine does byte by byte |
| HttpConnection.RequestParser.Loop | app/src/main/cpp/lib/http_parser.c:675-2037 | the byte loop on one buffer leaves fields, open fragments and errors as the machine does |
| HttpConnection.RequestParser.FlushAll | app/src/main/cpp/lib/http_parser.c:2038-2050 | the callbacks for fragments that the buffer ended in complete the delivery |
| HttpConnection.RequestParser.Consume | app/src/main/cpp/lib/http_parser.c:632-2058 | `http_parser_execute` on a nonempty buffer ends as the byte-at-a-time machine does |
| HttpConnection.RequestParser.AddData | app/src/main/cpp/lib/http_request.c:173-184 | the same for `http_request_add_data`; an empty buffer is an error exactly inside a message, and after an error nothing changes |
| HttpConnection.RequestParser.AddPieces | app/src/main/cpp/lib/http_parser.c:632-2058 | a request delivered in nonempty pieces leaves fields, error and request contents that depend on the joined bytes only |
| HttpSplit.RunRoom | app/src/main/cpp/lib/http_parser.c:632-700 | a smaller header limit changes nothing but whether a header is too long |
| HttpSplit.MeaningRoom | app/src/main/cpp/lib/http_parser.c:632-700 | so the bound on the number of pieces changes nothing but whether headers are too close to the limit |
| HttpSplit.Deliver | app/src/main/cpp/lib/http_parser.c:632-2058 | delivering a division of a request leaves what its verdict says: the meaning of the joined bytes, or, where the last byte is one that only some divisions check, whether this one refuses it |
| HttpSplit.TwoSplits | app/src/main/cpp/lib/http_parser.c:632-2058 | split invariance: unless some byte is one that only some divisions check, the same bytes in any two divisions leave the same error, or the same parser fields, url, headers, body and completion |
| HttpSplit.OpenMeans | app/src/main/cpp/lib/http_parser.c:1451-1495 | such a byte exists if and only if some byte that is no header character comes directly behind a byte that was read in a value not being matched |
| HttpSplit.SplitExactly | app/src/main/cpp/lib/http_parser.c:632-2058 | all divisions of all prefixes of a request leave the same if and only if it has no such byte |
| HttpSplit.Disagree | app/src/main/cpp/lib/http_parser.c:1451-1495 | at every such byte one division takes the request and another refuses it |
| HttpExample.CheckDependsOnSplit | app/src/main/cpp/lib/http_parser.c:1451-1495 | a GET request from the start whose header value xy is followed by byte 1: taken in one piece, refused when cut before byte 1 |
| HttpRequest.DeliverTwice | app/src/main/cpp/lib/http_request.c:39-124 | two fragments of one datum delivered one after the other leave what the joined fragment leaves |
| HttpRequest.ValueTwiceExactly | app/src/main/cpp/lib/http_request.c:88-111 | two fragments of a header value leave what the joined one leaves if and only if the first has no NUL or the second is empty as a C string |
| HttpRequest.Request.OnUrl | app/src/main/cpp/lib/http_request.c:39-51 | the fragment, read as a C string, is appended to the url |
| HttpRequest.Request.OnHeaderField | app/src/main/cpp/lib/http_request.c:53-86 | a fragment after a value opens a new pair; otherwise it extends the name |
| HttpRequest.Request.OnHeaderValue | app/src/main/cpp/lib/http_request.c:88-111 | the fragment extends the value of the newest pair |
| HttpRequest.Request.OnBody | app/src/main/cpp/lib/http_request.c:113-124 | the bytes are appended to the body, NULs included |
| HttpRequest.Request.OnMessageComplete | app/src/main/cpp/lib/http_request.c:126-134 | the method is recorded and the request marked complete |
| PlistWriter.Writer.PutInteger | app/src/main/cpp/lib/plist.c:75-106 | the low bytes of the value, big-endian, replace exactly the given stretch of the buffer |
| PlistWriter.Writer.SerializeString | app/src/main/cpp/lib/plist.c:211-232 | the string object's bytes at the write position and its offset in the table |
| PlistWriter.Writer.SerializeObject | app/src/main/cpp/lib/plist.c:234-322 | the object's encoding at the write position and the offsets of everything below it in the table; nothing else in the buffer changes |
| PlistLayout.OneReferenceEach | app/src/main/cpp/lib/plist.c:148-209 | a tree has one reference fewer than objects |
| PlistLayout.WrittenSize | app/src/main/cpp/lib/plist.c:148-322 | bytes written plus the exact slack is the size `bplist_analyze` counts: it is never exceeded |
| PlistFile.Analyze | app/src/main/cpp/lib/plist.c:148-209 | the three accumulated totals are the numbers of objects, bytes and references of the tree |
| PlistFile.ToBplist | app/src/main/cpp/lib/plist.c:892-952 | the file for every tree but a null one: magic, objects, offset table and trailer, each where the reader looks |
| PlistReader.ParseObject | app/src/main/cpp/lib/plist.c:324-545 | what the reading function defines, errors and the shift before the mask at line 355 included |
| PlistDepth.FuelSuffices | app/src/main/cpp/lib/plist.c:324-545 | the bound on the recursion changes nothing: for every buffer, cyclic references included, no depth reads anything but what as many levels as there are objects read |
| PlistRoundTrip.ShiftedOut | app/src/main/cpp/lib/plist.c:350-360 | a length of 15 or more cannot be read: the shift leaves nothing under the mask |
| PlistRoundTrip.ObjectRead | app/src/main/cpp/lib/plist.c:324-545 | a fitting tree that lies written in memory with its offsets in the table is read back, at every depth |
| PlistTheorem.FitsIsExact | app/src/main/cpp/lib/plist.c:148-209 | trees with short lengths fit exactly when their counted size is exact; otherwise the count is too large by an even number |
| PlistTheorem.OffsetsInside | app/src/main/cpp/lib/plist.c:234-322 | every object's offset lies inside the bytes written |
| PlistTheorem.ReferencesSuffice | app/src/main/cpp/lib/plist.c:122-133 | references of the chosen width can number every object |
| PlistTheorem.TableComesBack | app/src/main/cpp/lib/plist.c:846-890 | the reader rebuilds the offset table of a file whose size was exact |
| PlistTheorem.OverestimateRefused | app/src/main/cpp/lib/plist.c:846-890 | a file whose size was overestimated is refused: its trailer is not found where the reader looks |
| PlistTheorem.RoundTrip | app/src/main/cpp/lib/plist.c:846-952 | for every tree whose file length fits 32 bits, reading its own file gives the tree back if and only if it fits: NUL-free strings and keys, data and arrays under 15, dictionaries under 8, no null node |
| Recoding.BitsValue | app/src/main/cpp/lib/ed25519/ge.c:30-32 | the bits of a little-endian scalar have its value |
| Recoding.CarryEnds | app/src/main/cpp/lib/ed25519/ge.c:44-51 | the carry of a subtraction cannot run off the end of the digits |
| Recoding.Slide | app/src/main/cpp/lib/ed25519/ge.c:25-58 | 256 digits, each zero or odd and of magnitude at most 15, that sum to the scalar, for every scalar up to 2^255 |
| ScalarMult.OddTable | app/src/main/cpp/lib/ed25519/ge.c:77-98 | entry i is (2i + 1) times A |
| ScalarMult.DoubleScalarMult | app/src/main/cpp/lib/ed25519/ge.c:67-130 | the result is a * A + b * B in every commutative group, for scalars up to 2^255 |
| ScalarMult.Balance | app/src/main/cpp/lib/ed25519/ge.c:401-410 | the recoded digits lie in -8..8 and keep the total, when the last nibble is at most 7 |
| ScalarMult.NibblesValue | app/src/main/cpp/lib/ed25519/ge.c:394-397 | the 64 nibbles of a scalar have its value |
| ScalarMult.Select | app/src/main/cpp/lib/ed25519/ge.c:356-375 | the constant-time lookup returns b * 256^pos times the base point, for every b in -8..8 |
| ScalarMult.TwoPasses | app/src/main/cpp/lib/ed25519/ge.c:411-433 | odd digits, a factor 16 and even digits together read all digits |
| ScalarMult.ScalarMultBase | app/src/main/cpp/lib/ed25519/ge.c:386-434 | the result is a times the base point when a[31] <= 127 and base[i][j] is (j + 1) * 256^i times it |
| FieldLimbs.ProductValue | app/src/main/cpp/lib/ed25519/fe.c:556-700 | the ten columns, with their factors 2, 19 and 38, stand for the product of the factors modulo 2^255 - 19 |
| FieldMul.CarryChain | app/src/main/cpp/lib/ed25519/fe.c:701-764 | from columns within the 64-bit bound the twelve carries leave limbs within 1.01 * 2^25 and 1.01 * 2^24, without overflow |
| FieldMul.ChainValue | app/src/main/cpp/lib/ed25519/fe.c:701-764 | carrying keeps the value modulo the prime |
| FieldMul.Mul | app/src/main/cpp/lib/ed25519/fe.c:523-765 | fe_mul: within the documented bounds no 32-bit or 64-bit step overflows, the output bounds hold, and the result is congruent to the product; h may be f or g |
| FieldMul.Square | app/src/main/cpp/lib/ed25519/fe.c:967-1127 | fe_sq leaves exactly the limbs that fe_mul leaves for f times f, under the same bounds |
| FieldMul.SquareTwice | app/src/main/cpp/lib/ed25519/fe.c:1130-1300 | fe_sq2 is congruent to twice the square, within the output bounds |
| FieldPower.Invert | app/src/main/cpp/lib/ed25519/fe.c:364-448 | the chain of squarings and products raises to the power p - 2 |
| FieldPower.Power22523 | app/src/main/cpp/lib/ed25519/fe.c:881-964 | the chain raises to the power (p - 5) / 8 |
| FieldDecode.Load4 | app/src/main/cpp/lib/ed25519/fe.c:18-27 | the or of four shifted bytes is the little-endian number |
| FieldDecode.FromBytes | app/src/main/cpp/lib/ed25519/fe.c:297-360 | the limbs that decoding defines, within the output bounds, without overflow |
| FieldDecode.DecodedValue | app/src/main/cpp/lib/ed25519/fe.c:297-360 | decoded limbs are congruent to the low 255 bits of the bytes |
| FieldDecode.DecodeEncode | app/src/main/cpp/lib/ed25519/fe.c:297-1491 | decoding and encoding give the canonical form of the low 255 bits |
| FieldDecode.RoundTrip | app/src/main/cpp/lib/ed25519/fe.c:297-1491 | the bytes come back unchanged if and only if they stand for a number below the prime |
| FieldBytes.EstimateExact | app/src/main/cpp/lib/ed25519/fe.c:1361-1384 | the carry estimate of the quotient by the prime is exact |
| FieldBytes.Quotient | app/src/main/cpp/lib/ed25519/fe.c:1399-1412 | q is floor(h / p) for every h within the bounds |
| FieldBytes.Complete | app/src/main/cpp/lib/ed25519/fe.c:1414-1450 | the limbs of h modulo p, each within its own bits |
| FieldBytes.Packed | app/src/main/cpp/lib/ed25519/fe.c:1459-1490 | the 32 bytes stand for the number of the limbs |
| FieldBytes.ToBytes | app/src/main/cpp/lib/ed25519/fe.c:1386-1491 | fe_tobytes writes the unique little-endian value in [0, 2^255 - 19) that is congruent to h |
| FieldBytes.DigitsOfNumber | app/src/main/cpp/lib/ed25519/fe.c:1386-1491 | bytes are determined by the number they stand for |
| Donna.FProduct | app/src/main/cpp/lib/curve25519/curve25519-donna.c:99-200 | the 19 columns of the product; no 64-bit step overflows for limbs below 2^27 |
| Donna.FSquareInner | app/src/main/cpp/lib/curve25519/curve25519-donna.c:345-401 | the same 19 columns, for a square |
| Donna.FReduceDegree | app/src/main/cpp/lib/curve25519/curve25519-donna.c:206-238 | the nine high columns join the low ones nineteen times |
| Donna.FoldedColumn | app/src/main/cpp/lib/curve25519/curve25519-donna.c:206-238 | folding the 19 columns gives the ten columns of fe_mul |
| Donna.DivBy26 | app/src/main/cpp/lib/curve25519/curve25519-donna.c:247-258 | the branch-free division truncates toward zero, for both signs |
| Donna.DivBy25 | app/src/main/cpp/lib/curve25519/curve25519-donna.c:263-274 | likewise for 2^25 |
| Donna.FReduceCoefficients | app/src/main/cpp/lib/curve25519/curve25519-donna.c:279-320 | every limb ends below 2^26 and the value modulo the prime is kept |
| Donna.FMul | app/src/main/cpp/lib/curve25519/curve25519-donna.c:328-337 | limbs below 2^27 give limbs below 2^26 of the product modulo the prime |
| Donna.FSquare | app/src/main/cpp/lib/curve25519/curve25519-donna.c:410-421 | likewise for a square |
| Donna.CRecip | app/src/main/cpp/lib/curve25519/curve25519-donna.c:776-841 | the chain raises to the power p - 2 |
| Contract.BorrowPasses | app/src/main/cpp/lib/curve25519/curve25519-donna.c:482-531 | two borrow passes and a last borrow leave no negative limb and keep the value modulo the prime |
| Contract.CarryPasses | app/src/main/cpp/lib/curve25519/curve25519-donna.c:533-558 | two carry passes leave every limb within its own bits |
| Contract.AboveTest | app/src/main/cpp/lib/curve25519/curve25519-donna.c:562-572 | settled limbs stand for the prime or more exactly when limbs 1 to 9 are full and limb 0 is at least 0x3ffffed |
| Contract.EqBitsIs | app/src/main/cpp/lib/curve25519/curve25519-donna.c:449-457 | s32_eq's folding of bits gives all ones exactly for equal words |
| Contract.EqualAsCoded | app/src/main/cpp/lib/curve25519/curve25519-donna.c:449-457 | on the two's-complement numbers of any two words it is the comparison that the reduction uses |
| Contract.AtLeast | app/src/main/cpp/lib/curve25519/curve25519-donna.c:461-465 | all ones exactly when a >= b, for words that are not negative |
| Contract.SubtractPrime | app/src/main/cpp/lib/curve25519/curve25519-donna.c:562-584 | the masked subtraction reduces completely |
| Contract.Pack | app/src/main/cpp/lib/curve25519/curve25519-donna.c:586-611 | the 32 bytes stand for the number of the limbs, though neighbours share bytes and are or-ed in |
| Contract.FContract | app/src/main/cpp/lib/curve25519/curve25519-donna.c:471-612 | the canonical bytes, the same as fe_tobytes for the same number, for limbs of either sign below 2^26 |
| Ladder.FExpand | app/src/main/cpp/lib/curve25519/curve25519-donna.c:424-442 | limbs below 2^26 that stand for the low 255 bits |
| Montgomery.FMonty | app/src/main/cpp/lib/curve25519/curve25519-donna.c:624-697 | the doubling and differential addition formulas of the curve v^2 = u^3 + 486662 u^2 + u modulo the prime, with every limb below 2^26 again |
| Montgomery.SwapConditional | app/src/main/cpp/lib/curve25519/curve25519-donna.c:709-719 | the limbs change places exactly when iswap is 1, through the masked exclusive or |
| Ladder.LadderStep | app/src/main/cpp/lib/curve25519/curve25519-donna.c:740-765 | from m and m + 1 times the point, in either order, to the double and the sum |
| Ladder.CMult | app/src/main/cpp/lib/curve25519/curve25519-donna.c:726-771 | given the curve's formulas, the result is the x-coordinate of n times the point, for every 32-byte n |
| Ladder.Curve25519Donna | app/src/main/cpp/lib/curve25519/curve25519-donna.c:843-860 | the output is the canonical encoding of x / z (as x * z^(p-2)) for the clamped scalar's multiple of the base point |
| AesSbox.SboxInverse | app/src/main/cpp/lib/crypto/aes.c:81-154 | the two tables are inverse to each other |
| AesField.AesXtime | app/src/main/cpp/lib/crypto/aes.c:170-173 | the doubling by a test of the top bit is the multiplication by x of `aes.c` |
| AesSpec.RowInverse | app/src/main/cpp/lib/aes.c:306-363 | the inverse mixing matrix undoes the mixing matrix, on every column |
| AesSpec.DecryptEncrypt | app/src/main/cpp/lib/aes.c:410-458 | decryption undoes encryption for every key schedule of any number of rounds |
| AesSpec.EqDecryptSame | app/src/main/cpp/lib/crypto/aes.c:253-267 | with converted keys the equivalent inverse cipher (section 5.3.5 of FIPS 197) is the inverse cipher |
| AesSpec.CbcRoundTrip | app/src/main/cpp/lib/aes.c:498-527 | CBC decryption undoes CBC encryption for every key, IV and number of blocks, with either decryption |
| TinyAes.ShiftRows | app/src/main/cpp/lib/aes.c:272-298 | row i moves i columns to the left, through the in-place rotations |
| TinyAes.MixColumns | app/src/main/cpp/lib/aes.c:306-319 | the Tmp/Tm computation is the matrix of MixColumns |
| TinyAes.InvMixColumns | app/src/main/cpp/lib/aes.c:326-363 | the products with 0e, 0b, 0d, 09 by repeated xtime are InvMixColumns |
| TinyAes.Cipher | app/src/main/cpp/lib/aes.c:410-433 | the state becomes its encryption; the rest of the buffer is unchanged |
| TinyAes.InvCipher | app/src/main/cpp/lib/aes.c:435-458 | the state becomes its decryption; the rest of the buffer is unchanged |
| TinyAes.CbcEncryptBuffer | app/src/main/cpp/lib/aes.c:498-512 | the blocks in place become their CBC encryption and the IV the last of them |
| TinyAes.CbcDecryptBuffer | app/src/main/cpp/lib/aes.c:514-527 | the blocks in place become their CBC decryption and the IV the last ciphertext block |
| TinyAes.BufferRoundTrip | app/src/main/cpp/lib/aes.c:498-527 | the one undoes the other |
| WordAes.PackedDouble | app/src/main/cpp/lib/crypto/aes.c:66-76 | the packed doubling of four bytes doubles each in the field, with no carry between bytes |
| WordAes.InvMixWordIs | app/src/main/cpp/lib/crypto/aes.c:66-76 | `inv_mix_col` is InvMixColumns on the column in the word |
| AesContext.AesCtx.ConvertKey | app/src/main/cpp/lib/crypto/aes.c:253-267 | the middle round keys go through InvMixColumns; the first and last stay |
| AesContext.AesCtx.EncryptBlock | app/src/main/cpp/lib/crypto/aes.c:354-399 | the four words become their encryption |
| AesContext.AesCtx.DecryptBlock | app/src/main/cpp/lib/crypto/aes.c:404-455 | the four words go through the equivalent inverse cipher |
| AesCbc.CbcEncryptWords | app/src/main/cpp/lib/crypto/aes.c:272-306 | the output is the CBC encryption of the whole blocks, also in place, and the IV its last block |
| AesCbc.CbcDecryptWords | app/src/main/cpp/lib/crypto/aes.c:311-349 | the output is the CBC decryption, also in place, and the IV the last ciphertext block |
| AesCbc.WordsRoundTrip | app/src/main/cpp/lib/crypto/aes.c:253-455 | with a converted key the decryption undoes the encryption with the plain key, for any number of blocks |
| AesKeys.RconIs | app/src/main/cpp/lib/crypto/aes.c:156-162 | the table holds the powers of x in the field |
| AesKeys.KeyExpansion | app/src/main/cpp/lib/aes.c:152-223 | the expanded bytes are the key schedule of section 5.2 of FIPS 197 for a 16-byte key |
| AesKeys.SetKey | app/src/main/cpp/lib/crypto/aes.c:178-248 | the words are that schedule for 16-byte and 32-byte keys, with 10 and 14 rounds |
| AesKeys.SameCipher | app/src/main/cpp/lib/crypto/aes.c:178-455 | for the same 128-bit key the two codes encrypt alike and each decryption undoes the other's encryption |
| CtrStream.IncrementNumber | app/src/main/cpp/lib/aes_ctr.c:20-31 | incrementing the counter adds one modulo 256^n |
| CtrContext.Ctr128Inc | app/src/main/cpp/lib/aes_ctr.c:20-31 | the accumulator loop is that increment |
| CtrContext.AesCtr.Encrypt | app/src/main/cpp/lib/aes_ctr.c:45-69 | the output is the message combined with the keystream from the stream's position on, whatever was left of the last block; it may be in place |
| CtrStream.CryptTwice | app/src/main/cpp/lib/aes_ctr.c:45-69 | the receiver's stream undoes the sender's |
| CtrStream.CtrSplitInvariant | app/src/main/cpp/lib/aes_ctr.c:45-69 | any division into messages gives the same bytes |
| AesStreams.OneBlockFromZero | app/src/main/cpp/lib/aes_ctr.c:45-69 | a CBC encryption of one block from a zero IV is the block cipher |
| MirrorBuffer.XcryptBuffer | app/src/main/cpp/lib/aes.c:536-567 | bytes in place are combined with the keystream of successive counters from a block boundary on |
| MirrorBuffer.MirrorBuffer.constructor | app/src/main/cpp/lib/mirror_buffer.c:28-90 | nothing pending, at the start of the stream |
| MirrorBuffer.MirrorBuffer.Decrypt | app/src/main/cpp/lib/mirror_buffer.c:92-120 | the output is the packet combined with the keystream from the current position on, and the position moves to the next block boundary when the packet is shorter than what is pending |
| CtrStream.DeliveredInStep | app/src/main/cpp/lib/mirror_buffer.c:92-120 | packets each at least as long as the pending remainder are decrypted as one continuous stream (section 6.5 of NIST SP 800-38A) |
| CtrStream.InStepExactly | app/src/main/cpp/lib/mirror_buffer.c:92-120 | the keystream position equals the bytes received if and only if every packet was long enough; otherwise it runs ahead |
| CtrStream.MirrorEqualsCtr | app/src/main/cpp/lib/mirror_buffer.c:92-120 | such packets decrypt to what `AES_ctr_encrypt` gives on the same bytes under any split |
| AesStreams.SameStream | app/src/main/cpp/lib/mirror_buffer.c:92-120 | the same across the two AES codes with the same key and IV |
| UnpcBlock.SignOfInt | app/src/main/cpp/lib/alac/dp_dec.c:47-53 | the bit computation is the sign |
| UnpcBlock.FourTaps | app/src/main/cpp/lib/alac/dp_dec.c:105-188 | the 4-tap loop gives the samples and coefficients of the general predictor |
| UnpcBlock.EightTaps | app/src/main/cpp/lib/alac/dp_dec.c:189-334 | the 8-tap loop gives the samples and coefficients of the general predictor |
| UnpcBlock.GeneralTaps | app/src/main/cpp/lib/alac/dp_dec.c:335-380 | so does the general loop, for every number of taps |
| UnpcBlock.FirstOrder | app/src/main/cpp/lib/alac/dp_dec.c:73-95 | the 31-tap code is plain first-order prediction |
| UnpcBlock.WarmUp | app/src/main/cpp/lib/alac/dp_dec.c:97-101 | the warm-up fills the window with first-order prediction |
| UnpcBlock.Unpc | app/src/main/cpp/lib/alac/dp_dec.c:55-381 | whichever branch runs, samples and adapted coefficients are those of the predictor, also when the two buffers are the same; for denshift >= 1 |
| Predictor.ShiftPair | app/src/main/cpp/lib/alac/dp_dec.c:55-381 | shifting left and back by 32 - chanbits keeps the low chanbits bits, signed |
| Predictor.DecodeEncode | app/src/main/cpp/lib/alac/dp_dec.c:55-381 | decoding what an encoder with the same predictor sends gives the samples back and leaves both with the same coefficients |
| Predictor.EncodeDecode | app/src/main/cpp/lib/alac/dp_dec.c:55-381 | and the other way round: for fixed parameters a bijection between residuals and samples in chanbits range, so the adaptive predictor is lossless |
| BitStream.Read32Bit | app/src/main/cpp/lib/alac/ag_dec.c:117-126 | the big-endian word at a byte |
| BitStream.LoadedWindow | app/src/main/cpp/lib/alac/ag_dec.c:171-190 | a word loaded at a bit position and shifted holds at least 25 bits of the stream |
| Golomb.Lead | app/src/main/cpp/lib/alac/ag_dec.c:91-103 | the number of leading zeros |
| Golomb.CodewordDecodes | app/src/main/cpp/lib/alac/ag_dec.c:171-270 | the decoding of the word an encoder writes for n is n and its length, whatever follows, for every divisor that fits the remainder width |
| Golomb.DynGet | app/src/main/cpp/lib/alac/ag_dec.c:171-217 | every bit it uses lies in the valid part of the loaded word: it reads the code at the position, or its 16-bit escape |
| Golomb.DynGet32 | app/src/main/cpp/lib/alac/ag_dec.c:220-270 | likewise with parameters up to 14 and escapes up to 32 bits, parameter 1 included |
| Golomb.GetStreamBits | app/src/main/cpp/lib/alac/ag_dec.c:135-168 | up to 32 bits at any bit offset, also over a fifth byte |
| DynDecomp.CodeWidth | app/src/main/cpp/lib/alac/ag_dec.c:107-115 | the remainder width is the bit length of the scaled mean, limited to kb |
| DynDecomp.MeanWraps | app/src/main/cpp/lib/alac/ag_dec.c:325-329 | the 32-bit computation of the mean wraps only where the clamp replaces it |
| DynDecomp.UnfoldFold | app/src/main/cpp/lib/alac/ag_dec.c:312-319 | folding signs into numbers and back is the identity |
| DynDecomp.UnfoldRange | app/src/main/cpp/lib/alac/ag_dec.c:312-319 | every 32-bit number has a code but the least one, which has none |
| DynDecomp.Decomp | app/src/main/cpp/lib/alac/ag_dec.c:272-362 | a run decodes at most num samples, exactly num when it succeeds, and never goes back in the stream |
| DynDecomp.Decode | app/src/main/cpp/lib/alac/ag_dec.c:272-362 | dyn_decomp terminates, writes the decoding of the stream, at most num samples, and nothing beyond |
| DynComp.BlockDecodes | app/src/main/cpp/lib/alac/ag_dec.c:272-362 | a whole block round-trips: from a stream with the words of an encoder that keeps the same running mean and codes the same runs of zeros, the decoder gives back exactly the samples and stops where the words end |
| DynComp.DecodeBlock | app/src/main/cpp/lib/alac/ag_dec.c:272-362 | so dyn_decomp succeeds on every such block, fills the output with the samples and consumes exactly the words |
| BitBuffer.BitBuffer.Read | app/src/main/cpp/lib/alac/ALACBitUtilities.c:42-62 | the next bits of the buffer, and the cursor moves past them |
| BitBuffer.BitBuffer.ReadSmall | app/src/main/cpp/lib/alac/ALACBitUtilities.c:67-86 | the same for up to eight bits, although the shift drops bits past 16 |
| BitBuffer.BitBuffer.ReadOne | app/src/main/cpp/lib/alac/ALACBitUtilities.c:91-105 | the next bit |
| BitBuffer.BitBuffer.Peek | app/src/main/cpp/lib/alac/ALACBitUtilities.c:109-113 | the next bits; nothing moves |
| BitBuffer.BitBuffer.Advance | app/src/main/cpp/lib/alac/ALACBitUtilities.c:162-170 | the position grows by the number of bits |
| BitBuffer.BitBuffer.Rewind | app/src/main/cpp/lib/alac/ALACBitUtilities.c:174-208 | the position goes back by the number of bits, but not before the start |
| BitBuffer.BitBuffer.Write | app/src/main/cpp/lib/alac/ALACBitUtilities.c:212-249 | exactly the bits after the cursor change, to the low bits of the value |
| BitBuffer.WriteThenRead | app/src/main/cpp/lib/alac/ALACBitUtilities.c:42-249 | writing, going back and reading gives the low bits of the value |
| Stereo.UnmixMix | app/src/main/cpp/lib/alac/matrix_dec.c:36-90 | unmixing undoes the mix, for every weight and shift |
| Stereo.MixUnmix | app/src/main/cpp/lib/alac/matrix_dec.c:36-90 | and mixing undoes the unmix |
| Stereo.StoredMix | app/src/main/cpp/lib/alac/matrix_dec.c:60-90 | 16-bit samples mixed with an 8-bit weight come back exactly through the 16-bit stores |
| Stereo.Unmix16 | app/src/main/cpp/lib/alac/matrix_dec.c:60-90 | the interleaved output holds the unmixed pairs, and every place that belongs to no pair is unchanged |
| Playout.SeqCmpIs | app/src/main/cpp/lib/raop_buffer.c:316-320 | within half the number space the comparison of wrapped numbers is the difference of positions (section 3.2 of RFC 1982) |
| RaopBuffer.SlotFree | app/src/main/cpp/lib/raop_buffer.c:392-425 | an available slot holds the packet of the one position in the window that belongs to it: a pending packet is never overwritten |
| RaopBuffer.Buffer.constructor | app/src/main/cpp/lib/raop_buffer.c:249-287 | an empty buffer |
| RaopBuffer.Buffer.Queue | app/src/main/cpp/lib/raop_buffer.c:359-502 | the return code and the new state for every packet: too short, late, a copy, stored, or stored without a decoder; in the last case the buffer stays consistent exactly when the packet lies inside the window |
| RaopBuffer.StoreWithoutLast | app/src/main/cpp/lib/raop_buffer.c:398-470 | a slot taken without moving the last number keeps the buffer consistent if and only if the packet lies inside the window |
| RaopBuffer.Buffer.Dequeue | app/src/main/cpp/lib/raop_buffer.c:504-546 | the first packet when it is there; a gap is played as silence when resends are off or the window is full; otherwise nothing |
| RaopBuffer.Buffer.HandleResends | app/src/main/cpp/lib/raop_buffer.c:548-571 | the request that goes out, or none; it names the gap at the front if and only if the buffer is in use or its old numbers span at most one packet |
| RaopBuffer.RequestExactly | app/src/main/cpp/lib/raop_buffer.c:548-571 | the same condition on every consistent state: exactly the missing packets before the first one that waits, or no request when none is missing |
| RaopBuffer.StaleRequest | app/src/main/cpp/lib/raop_buffer.c:359-588 | packets 5 and 7 arrive and the buffer is flushed without a next number: the request names the two packets from 5 on |
| Playout.MissingIsGap | app/src/main/cpp/lib/raop_buffer.c:548-571 | on a buffer in use the request names exactly the missing packets before the first one that waits |
| RaopBuffer.Buffer.Flush | app/src/main/cpp/lib/raop_buffer.c:573-588 | every entry becomes unavailable and the next number is the given one, if any |
| Playout.StoredOnce | app/src/main/cpp/lib/raop_buffer.c:359-502 | a position that has been stored is never stored again before a flush |
| Playout.RunFaithful | app/src/main/cpp/lib/raop_buffer.c:359-588 | in every run of arrivals, takes and flushes the outputs follow consecutive positions across the wrap, each the stored packet or a gap, and the window never passes 64 slots |
| Playout.FreshRun | app/src/main/cpp/lib/raop_buffer.c:249-588 | in particular every run of a buffer as raop_buffer_init leaves it |
| Playout.CompleteStream | app/src/main/cpp/lib/raop_buffer.c:359-588 | when no position was skipped the outputs are exactly the stored packets in order, whatever order they arrived in |
| RaopServer.Pool.HasActive | app/src/main/cpp/lib/raop.c:83-103 | whether the session is in the table |
| RaopServer.Pool.AddActive | app/src/main/cpp/lib/raop.c:105-131 | a session is entered once, in the first free slot, and not at all when the table is full |
| RaopServer.Pool.RemoveActive | app/src/main/cpp/lib/raop.c:133-151 | every slot that holds the session becomes free |
| RaopServer.Pool.DestroyActive | app/src/main/cpp/lib/raop.c:236-252 | each session in the table is destroyed and its slot cleared |
| RaopServer.Raop.ConnInit | app/src/main/cpp/lib/raop.c:254-323 | a connection without sessions |
| RaopServer.Raop.HandleSetup | app/src/main/cpp/lib/raop_handlers.h:444-712 | the step of the session model for a SETUP: which sessions are created, reused, started or refused, and the setup counter |
| RaopServer.Raop.HandleTeardown | app/src/main/cpp/lib/raop.c:388-424 | the step for a TEARDOWN of either stream or both |
| RaopServer.Raop.ConnDestroy | app/src/main/cpp/lib/raop.c:436-458 | the step for a closed connection: a session in the table outlives it, any other is destroyed |
| RaopServer.Raop.RaopDestroy | app/src/main/cpp/lib/raop.c:517-532 | the remaining connections close and then the tables are emptied |
| Sessions.CreateOwned | app/src/main/cpp/lib/raop_handlers.h:507-558 | a connection without a session gets a new one, in the table or, when that is full, only its own |
| Sessions.DropOwned | app/src/main/cpp/lib/raop.c:388-424 | a session given up at TEARDOWN is destroyed once and leaves the table |
| Sessions.LeaveOwned | app/src/main/cpp/lib/raop.c:436-458 | a closing connection's session ends unless a slot keeps it |
| Sessions.DrainEnds | app/src/main/cpp/lib/raop.c:236-252 | without connections, emptying the table ends every session exactly once |
| Sessions.StepValid | app/src/main/cpp/lib/raop.c:254-458 | every event keeps every session owned: by a slot, by one connection, or ended once |
| Sessions.RunValid | app/src/main/cpp/lib/raop.c:254-458 | the same for every run |
| Sessions.NoDangling | app/src/main/cpp/lib/raop.c:254-458 | in every reachable state every slot and every connection refers to a session that has not been destroyed |
| Sessions.RunEndsClean | app/src/main/cpp/lib/raop.c:517-532 | in every run ending with the server, each audio and mirror session ever created is destroyed exactly once, also when the 16-slot tables were full |

## Left out

- DynDecomp.Decode: assumes pb at most 127, so that the adaptive mean stays within 32 bits between clamps, kb between 1 and 14, and 16 readable bytes behind the stream, which the decoder reads without checking.
- UnpcBlock.Unpc: assumes denshift at least 1, because with 0 the code shifts by -1, which C leaves undefined; a left shift of a negative number is taken as the multiplication that compilers make of it.
- Barrett.EstimateWithinOneWhenRoom: one direction only, a condition a caller can compute for the estimate to be at most one too small; the exact condition is in Barrett.BarrettReduce.
- HttpSplit.TwoSplits: the header byte count itself may differ by the number of pieces, so headers that come within that number of the size limit are left open, as are requests that switch protocol; a value that begins with NUL is left to HttpRequest.ValueTwiceExactly.
- HttpSplit.SplitExactly: under the same conditions, and for requests delivered in at least two pieces.
- PlistReader.ParseObject: None stands for a failure of the source and for references that it would follow for ever.
- Ladder.CMult: that the Montgomery formulas describe the group law is an assumption on the curve and the base point (Ladder.Formulas); buffers that the code reuses by swapping pointers are values.
- ScalarMult.DoubleScalarMult: the point formulas stand for a commutative group, and the precomputed tables for the multiples they are documented to hold.
- FieldPower.Invert: states the power p - 2; that this is the inverse (Fermat's little theorem, and that p is prime) is not proved.
- Donna.CRecip: likewise.
- RaopServer.Raop.RaopDestroy: threads are not modelled, so connections close one after another before the tables are emptied.
- AesKeys.KeyExpansion: `aes.c` as compiled, for 128-bit keys.
- bigint.c: reference counts, the free list and permanent objects; bi_crt, import and export; the code that config.h compiles out (Karatsuba, Montgomery, sliding windows).
- fe.c and ge.c: the limb-wise fe_add, fe_sub, fe_neg, fe_cmov and fe_cswap; point formulas; the values of precomp_data.h; sc_reduce and sc_muladd.
- curve25519-donna.c: limbs are values in straight-line code, arrays where a loop works in place.
- http_parser.c: that the method recognised is the one spelled; response states, upgrade and CONNECT, the URL and host splitter, pausing, and settings that the request code does not use.
- http_request.c: allocation; header lookup by name; the interface to the HTTP server.
- plist.c: reals, beyond the bytes they share with integers; accessors and constructors; allocation failure.
- aes.c and crypto/aes.c: ECB entry points, which call the block functions modelled here; key material is not cleared in the model.
- mirror_buffer.c: the derivation of key and IV by SHA-512; the hash functions as such.
- alac: unmix20, unmix24, unmix32 and the copying routines, which repeat unmix16 for other sample widths; the codec's frame headers; zero padding and BER sizes in the bit buffer.
- raop_buffer.c: RTP flags, type and source are stored but never read; the ALAC and AAC decoders are an uninterpreted result of decoding; timestamps pass through.
- raop.c and raop_handlers.h: sessions and connections are named by numbers instead of pointers; pairing, FairPlay, property lists of the requests, notifications and addresses.
- Sockets, select loops, service discovery, logging, JNI and the Java layer; constant-time behaviour and secrecy of keys.
