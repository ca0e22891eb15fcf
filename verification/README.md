# STREAM framing, PFE1 envelopes and atomic file publication: a Dafny model

This project models the parts of pqforge_ffi that carry its wire-format and atomicity
promises, and proves those promises for every input, every run and every disk failure.

* **Two engines for one wire format.** `PushStream` is the Dart layer: run objects that keep
  `counter`, `pending`, `carry` and `sawAnyByte` between events of arbitrary size. `PullStream`
  is the Rust layer: it reads one block ahead from a file whose reads may be short. Both are
  imperative, on arrays and class fields, and both are proved equal to one pure description of
  the format (`Chunking`, `Framing`): the canonical chunks of the plaintext, frame k sealed
  under nonce k, the last-flag on the final frame alone. `Steps` holds what one round of each
  loop does to what was released and what is left.
* **Nonces** (`Channels`). The Dart digit loop and the Rust `stream_nonce` are proved against
  big-endian encodings, with Dart's 64-bit wrap-around and Rust's checked u64 written out.
  `NonceContents`, `WireFormat` and `WireOpens` spell the format out in bytes and numbers.
* **Integrity** (`Integrity`). The AEAD is a pair of arbitrary functions. Its integrity is a
  hypothesis, `Authentic`: the tuples that open are exactly the frames of the streams that were
  sealed, one stream per key. From it follow the whole-stream theorems. The hypothesis can be met
  for exactly the unambiguous sets of streams (`SatisfiableIff`). Unconditional correctness (`Correct`: whatever is
  sealed opens) is never assumed beside it, since no AEAD could satisfy both: it is used in round
  trips, and to show the hypotheses consistent.
* **File pipeline** (`Disk`, `FilePipeline`, `FileCipher`). Every disk operation may fail, reads
  and writes may be short, and a ghost history records every state the disk passes through, so
  that a crash between any two steps is a state in that history. On a disk marked `reliable`
  nothing fails, and then the runs are proved to succeed.
* **Envelope** (`Envelope`). Header printer and parser on byte arrays, and the KEM-DEM
  composition with ML-KEM, HKDF and AES-GCM as arbitrary functions.
* `Layers` and `Interop` compose the two layers; `Divergence` and `LongStreams` say what happens
  past the counter ranges, and so that the bounds in the other results are exact.

Where the code and its documentation differ, the model follows the code:

* `stream.dart` speaks of an 88-bit counter space. The counter is a Dart `int`; it wraps after
  2^63 frames, and the digit loop then writes zeros. `DartNoncesDistinctIff` gives the exact
  bound on distinct nonces, `NoncesAgreeIff` and the module `Divergence` the exact bounds on
  agreement with Rust, `IntegrityIff` the exact bound on integrity, and `PrefixSafetyIff` and
  `PlaintextSafetyIff` the exact condition for what is released early to be genuine.
* `file_cipher.dart` says that the reader's chunk size must match. `AcceptedIff` gives the exact
  set of sizes a stream can be read with: a stream of one short frame is readable with others.
* `file_cipher.dart` says that the output is published atomically. That holds always, but what is
  published is the seal of the input only if the input is not the file `<output>.pqforge-tmp`,
  under whatever path: creating that file truncates it before it is read
  (`SealPublishesInputIff`). Which file a path names is an arbitrary function, `resolve`.

## Model

| member | source | states |
|---|---|---|
| Channels.DartNonceBytes | lib/src/api/stream.dart:159-168 | for every nonce length k the last byte is 1 for the final frame and 0 for any other, and the bytes before it are the big-endian counter modulo 256^(k-1), zeros once the counter has wrapped |
| Channels.StreamNonce | rust/crates/pqforge_core/src/crypto/stream_file.rs:40-45 | three zero bytes, the big-endian u64, and 1 for the final frame, 0 for any other |
| Channels.NonceContents | rust/crates/pqforge_core/src/crypto/stream_file.rs:38-45 | for frame number i of either layer: twelve bytes, of which the first eleven denote i (0 for a Dart number from 2^63 on) and the last is the flag, 1 or 0 |
| Channels.DartNonceInjective | lib/src/api/stream.dart:157-168 | for every nonce length k the Dart nonce determines counter and flag, for counters below 256^(k-1) |
| Channels.NoncesAgreeIff | rust/crates/pqforge_core/src/crypto/stream_file.rs:38-45 | the two 12-byte encoders agree on frame number i exactly when i < 2^63 |
| Channels.NonceIdentifiesFrame | lib/src/api/stream.dart:12-16 | below the layers' common limit equal nonces mean equal frame number and equal flag, across layers |
| Channels.DartNoncesDistinctIff | lib/src/api/stream.dart:22-25 | the nonces of an n-frame Dart run are pairwise distinct if and only if n <= 2^63 + 1 |
| Chunking.ChunksCanonicalIff | lib/src/api/stream.dart:46-77 | a list is the chunking of p if and only if it concatenates to p, all chunks but the last are full, and the last is non-empty unless p is empty |
| Chunking.ChunkCount | lib/src/api/stream.dart:52-77 | there are max(1, ceil(n/c)) chunks |
| Framing.SealFromMapsChunks | lib/src/api/stream.dart:10-16 | a sealed stream maps the AEAD over the canonical chunks, frame k under number k, flag on the final frame only |
| Framing.OpenMapsBlocks | lib/src/api/stream.dart:103-124 | opening takes the canonical blocks of c + 16 bytes in order; accepted exactly if all open, otherwise it stops at the first of at least 16 bytes that fails, an authentication failure, or at a shorter final one, a format error |
| Framing.SealProgress | lib/src/api/stream.dart:52-65 | after n bytes a sealer has released max(0, n/c - 1) frames |
| Framing.OpenProgress | lib/src/api/stream.dart:99-116 | after n > 0 bytes without failure an opener has released (n-1)/(c+16) frames |
| Framing.SealSoFarAppend | lib/src/api/stream.dart:52-65 | splitting the input at any point changes neither what is released nor what is held |
| Framing.SealSoFarIsPrefix | lib/src/api/stream.dart:47-49 | what was released early is a prefix of the sealed stream of every longer input |
| Framing.OpenSoFarIsSound | lib/src/api/stream.dart:103-116 | what was released early is released on every continuation, and an early rejection is final |
| Framing.SealedLengthAndReframing | rust/crates/pqforge_core/src/crypto/stream_file.rs:191-207 | the stream has n + 16*max(1, ceil(n/c)) bytes and cutting it at c+16 bytes recovers the sealer's frames |
| Framing.SealedLengthStrict | rust/crates/pqforge_core/src/crypto/stream_file.rs:191-207 | longer plaintexts have longer streams and conversely, so stream length determines plaintext length |
| Layers.WireFormat | lib/src/api/stream.dart:10-16 | the wire format in numbers: frame k is the AEAD output, under key and associated data, for plaintext bytes k*c to k*c + c, under the twelve-byte nonce of which eleven bytes denote k and the last is 1 exactly if nothing follows |
| Layers.WireOpens | rust/crates/pqforge_core/src/crypto/stream_file.rs:191-222 | the same for opening: block k is bytes k*(c+16) to (k+1)*(c+16), opened under that nonce; if it is the first not to open, the verdict is malformed if it has less than 16 bytes and unauthentic otherwise |
| PushStream.Concat | lib/src/api/stream.dart:170-177 | concatenation; the event buffer itself when nothing is carried, a fresh buffer otherwise |
| PushStream.SealRun.HoldChunk | lib/src/api/stream.dart:55-63 | one inner round: the held chunk goes out unflagged, the next is held as a fresh copy |
| PushStream.SealRun.OnData | lib/src/api/stream.dart:52-65 | after any event, released frames and retained bytes are functions of the bytes received, max(0, n/c - 1) frames are out, less than 2c bytes are retained, and no retained buffer aliases the event's |
| PushStream.SealRun.OnDone | lib/src/api/stream.dart:67-77 | the frames emitted are exactly the sealed stream, under nonces 0..n-1 with the flag on the last |
| PushStream.OpenRun.Release | lib/src/api/stream.dart:142-155 | a frame that does not open ends the run and contributes nothing |
| PushStream.OpenRun.OnData | lib/src/api/stream.dart:99-116 | after any event, failing ones included, what was released is a function of the bytes received; (n-1)/(c+16) frames are out and 1 to c+16 bytes retained |
| PushStream.OpenRun.OnDone | lib/src/api/stream.dart:118-124 | released frames and verdict are those of opening the whole input |
| PushStream.Seal | lib/src/api/stream.dart:35-78 | for every split into events the output is the sealed stream, under the caller's associated data or, without any, the empty one; nonce k holds k, and 1 for the final frame only; a non-positive chunk size is an argument error |
| PushStream.OpenStream | lib/src/api/stream.dart:83-125 | for every split into events, valid input or not, the frames and verdict are those of opening the concatenation under the caller's associated data or, without any, the empty one |
| Disk.Reader.Read | rust/crates/pqforge_core/src/crypto/stream_file.rs:61-71 | a read returns any number of bytes, zero only at the end of the file, and the end of the file is sticky |
| PullStream.ReadBlock | rust/crates/pqforge_core/src/crypto/stream_file.rs:60-77 | for every schedule of short reads the result is the next up-to-size bytes, None exactly at the end, and the reader advances by exactly those bytes |
| PullStream.SealHeld | rust/crates/pqforge_core/src/crypto/stream_file.rs:130-140 | one round: the held chunk is sealed, flagged exactly if nothing could be read after it, and the counter moves on or the run ends with an overflow |
| PullStream.SealLoop | rust/crates/pqforge_core/src/crypto/stream_file.rs:124-143 | what is written is the whole sealed stream on success, a prefix of it on failure, 2^64 frames on counter overflow; frame k uses nonce k |
| PullStream.OpenHeld | rust/crates/pqforge_core/src/crypto/stream_file.rs:200-221 | one round; a short frame implies that nothing follows, so data after the final frame cannot occur |
| PullStream.OpenLoop | rust/crates/pqforge_core/src/crypto/stream_file.rs:195-223 | status by status, how the plaintext written relates to opening the whole file |
| PullStream.NumberedIsDistinct | rust/crates/pqforge_core/src/crypto/stream_file.rs:124-141 | no nonce is used twice in a Rust sealing run, whichever way it ends |
| FilePipeline.OpenBoth | rust/crates/pqforge_core/src/crypto/stream_file.rs:121-122 | input opened, then output truncated; a missing input leaves the disk untouched; a run onto its own input reads an empty file |
| FilePipeline.SealFile | rust/crates/pqforge_core/src/crypto/stream_file.rs:85-145 | status by status, how the frames sealed relate to the whole stream; frame k is sealed under nonce k and no nonce twice, however the run ends; at every moment only the output differs and holds a prefix of the stream, all of it on success; on a reliable disk it succeeds below 2^64 frames, and never reports an I/O error for an input that exists |
| FilePipeline.OpenFile | rust/crates/pqforge_core/src/crypto/stream_file.rs:147-225 | Ok, InvalidCiphertext and AuthFailed are returned for exactly the accepted, malformed and unauthentic inputs; at every moment only the output differs and holds a prefix of the released plaintext, at the end on a reliable disk all of it |
| Layers.SealersAgree | rust/crates/pqforge_core/src/crypto/stream_file.rs:3-7 | within one layer always, and across layers up to 2^63 frames, every plaintext is sealed to the same bytes |
| Divergence.SealersDiverge | lib/src/api/stream.dart:157-168 | the bound is sharp: on every longer plaintext there is a correct AEAD under which the two layers seal differently |
| Layers.OpenersAgree | rust/crates/pqforge_core/src/crypto/stream_file.rs:195-221 | for an arbitrary AEAD and every byte string with up to 2^63 blocks long enough to hold a tag, both layers release the same frames and give the same verdict |
| Divergence.OpenersDiverge | lib/src/api/stream.dart:157-168 | the bound is sharp: on every byte string with more such blocks there is an AEAD under which the two openers differ |
| Layers.RoundTrip | lib/src/api/stream.dart:18-20 | each layer opens what it sealed, for every plaintext and chunk size, and what the other sealed up to 2^63 frames |
| Divergence.RoundTripFails | lib/src/api/stream.dart:18-20 | the bound is sharp: on every longer plaintext there is a correct AEAD under which neither layer opens what the other sealed |
| Integrity.AuthenticIsGenuine | lib/src/api/stream.dart:12-16 | at frame number k an opener accepts only the genuine frame k, with the genuine flag, for streams within the counter range of both layers |
| LongStreams.GenuineIff | lib/src/api/stream.dart:12-16 | and for no other stream that can be produced: that control is had if and only if the stream is within the counter range of both layers |
| Integrity.AcceptedIff | lib/src/api/stream.dart:10-16 | for a stream within its sealer's counter range (2^63 frames for Dart, 2^64 for Rust): a byte string is accepted if and only if it is exactly the stream sealed under that key and associated data, read with the sealer's chunk size or as a single frame short enough for both sizes, by the same layer or, up to 2^63 frames, the other one |
| Integrity.LongRustStreamRejected | lib/src/api/stream.dart:80-82 | a Rust stream of more than 2^63 and up to 2^64 frames is not accepted by the Dart layer, nor is anything else under its key |
| LongStreams.LongDartStreamTruncates | lib/src/api/stream.dart:12-16 | once the Dart counter has wrapped, either layer accepts a truncated stream, which yields a truncated plaintext |
| LongStreams.IntegrityIff | lib/src/api/stream.dart:10-16 | nothing but the genuine stream is accepted if and only if it is within its sealer's counter range; and it is accepted itself besides if and only if it is within the opener's too |
| LongStreams.SpliceOpens | lib/src/api/stream.dart:157-168 | either layer releases frame m of a Dart stream of any length at the position of m's wrapped number, given the genuine frames up to there, and takes the final frame for the end there |
| LongStreams.ReplayOpens | lib/src/api/stream.dart:157-168 | a Dart opener releases the frames of a stream of more than 2^63 frames, of either layer, as often as they are presented by their wrapped numbers |
| Integrity.AcceptedYieldsPlaintext | lib/src/api/stream.dart:80-82 | for a stream within its sealer's counter range, acceptance yields exactly the plaintext that was sealed |
| Integrity.OtherAadOpensNothing | lib/src/api/stream.dart:87-125 | associated data is bound: presented with any other than the stream was sealed with (null and empty are the same), no input releases anything; it is malformed below 16 bytes and unauthentic otherwise |
| Integrity.ReleasedPrefixSafety | lib/src/api/stream.dart:99-124 | for a stream within the counter range of both layers: finished or not, accepted or not, at any chunk size, what is released is a whole-frame prefix of the genuine plaintext; under a wrong key or associated data it is nothing |
| LongStreams.PrefixSafetyIff | lib/src/api/stream.dart:99-124 | for every stream that can be produced: whatever the input, finished or not, only a prefix of the genuine chunks is released if and only if, for a Dart opener, the stream has at most 2^63 frames, and, for a Rust opener of a Dart stream, every chunk equals the chunk of its wrapped number; for a Rust opener of a Rust stream always; and then at every chunk size |
| LongStreams.PlaintextSafetyIff | rust/crates/pqforge_core/src/crypto/stream_file.rs:150-151 | the released plaintext, as bytes, is a prefix of the genuine one under the same conditions, but that a final chunk need only start the chunk of its wrapped number |
| Integrity.AuthenticIsSatisfiable | lib/src/api/stream.dart:22-25 | for every sealing function and every set of streams under distinct keys in which no two frames of a stream share nonce and ciphertext but not the chunk, some opener meets the hypothesis |
| Integrity.AuthenticIsUnambiguous | lib/src/api/stream.dart:22-25 | whenever an opener meets the hypothesis for a set of streams, no two frames of one of them share nonce and ciphertext but not the chunk |
| Integrity.SatisfiableIff | lib/src/api/stream.dart:22-25 | for every sealing function, some opener meets the hypothesis if and only if no two frames of a stream do |
| Integrity.InRangeIsUnambiguous | lib/src/api/stream.dart:22-25 | streams within their sealer's counter range are such a set, whatever seals them |
| Integrity.CorrectIsUnambiguous | lib/src/api/stream.dart:22-25 | streams of any length are such a set under every correct suite |
| FileCipher.DeleteQuiet | lib/src/api/file_cipher.dart:179-186 | only the temporary file changes: it is gone, or, on a disk that can fail, a deletion was attempted and failed |
| FileCipher.Publish | lib/src/api/file_cipher.dart:156-161 | after the rename the output is the complete result and the temporary file is gone; if the rename fails the output is as before, and removing the temporary file is attempted |
| FileCipher.CallNative | lib/src/api/file_cipher.dart:126-150 | only the temporary file changes; on success it holds the complete result, and in every state what it did before or a prefix of that result; after opening on a reliable disk all that was released. The status fits the input: for sealing success below 2^64 frames, a counter overflow from there on, or an I/O error on a disk that can fail; for opening besides these exactly the verdict |
| FileCipher.Run | lib/src/api/file_cipher.dart:112-210 | for every way of naming files by paths: in every state of the disk, crash or failure anywhere, the output holds its old contents or the complete new ones (if the temporary path, the output path with .pqforge-tmp appended, names another file), the temporary file its old contents or a prefix of the new ones, and no other file differs; after a failure the temporary file is gone or its deletion was attempted and failed; a renaming is attempted exactly once if the native call succeeds, and its failure is reported as such; a sealing run throws nothing but I/O errors and counter overflow, an opening run authentication and format errors only for inputs that have one; I/O errors only on disks that can fail or for missing inputs; success on a reliable disk exactly when a complete result exists |
| FileCipher.SealPublishesInputIff | lib/src/api/file_cipher.dart:126-157 | what is published is the seal of the input if and only if the input path names another file than the temporary path or its file is empty |
| FileCipher.SealOverOwnInputExample | lib/src/api/file_cipher.dart:126-157 | a concrete input on which it is not, whose path is spelled differently |
| FileCipher.OpenOverOwnInput | lib/src/api/file_cipher.dart:126-157 | opening from the temporary file never publishes |
| FileCipher.OpenPublishesGenuine | rust/crates/pqforge_core/src/crypto/stream_file.rs:147-151 | for a stream within its sealer's counter range, all an opening run can publish is the full plaintext of the stream sealed under its key, and its input was that stream |
| FileCipher.TemporaryHoldsGenuinePrefix | rust/crates/pqforge_core/src/crypto/stream_file.rs:150-151 | for every Rust stream, and every Dart stream whose chunks start the chunks of their wrapped numbers (all up to 2^63 frames): in every state of which Run ensures atomicity the temporary file holds what it did before, nothing, or a prefix of the genuine plaintext |
| FileCipher.TemporaryPrefixIff | rust/crates/pqforge_core/src/crypto/stream_file.rs:150-151 | the condition is exact: what an opening run writes for its input file is a prefix of the genuine plaintext for every input if and only if it holds |
| FileCipher.RoundTripFiles | test/file_cipher_test.dart:71-96 | sealing a file and opening the result publishes the original contents, if neither run reads its own temporary file; on a reliable disk both succeed below 2^64 frames |
| Interop.NativeSealStreamOpen | test/file_cipher_test.dart:98-128 | a file of at most 2^63 frames, not the run's own temporary file, sealed natively opens through the Dart stream, for every piece size |
| Interop.StreamSealNativeOpen | test/file_cipher_test.dart:130-155 | a stream of at most 2^63 frames sealed by the Dart layer, for every split into events, and stored in a file other than the run's own temporary one opens through the native pipeline |
| Interop.OpenBothWays | rust/crates/pqforge_core/src/crypto/stream_file.rs:3-7 | for an arbitrary AEAD and every byte string of at most 2^63 openable blocks, genuine or not: a status other than an I/O error fits the verdict the Dart stream ends with, an output reported complete is the plaintext of the stream, and on a reliable disk the output is always that plaintext |
| Envelope.WriteU32 | lib/src/api/envelope.dart:178-183 | writes the big-endian u32 at the offset and nothing else |
| Envelope.ReadU32 | lib/src/api/envelope.dart:185-186 | reads the number those four bytes denote |
| Envelope.EncodeHeader | lib/src/api/envelope.dart:111-132 | the cursor writes the wire format field by field |
| Envelope.Decode | lib/src/api/envelope.dart:134-176 | total, every index in bounds; accepts e if and only if it has at least 39 bytes, starts 50 46 45 31 01 k 00 with k from 0 to 2, holds 768, 1088 or 1568 in bytes 35 to 38 for k = 0, 1, 2, and has that many bytes more; returns the KEM named by k and the fields at their places; anything else is rejected for the first check it fails |
| Envelope.AcceptedBytes | lib/src/api/envelope.dart:17-21 | the byte-level acceptance condition and the fields of accepted strings |
| Envelope.DecodeAfterEncodeIff | lib/src/api/envelope.dart:111-176 | parsing a printed header followed by anything gives back the header and the rest if and only if the KEM ciphertext has its algorithm's length |
| Envelope.EncodeAfterDecode | lib/src/api/envelope.dart:134-176 | whatever is accepted is a well-formed header, printed, followed by the body |
| Envelope.ParseAcceptsIff | lib/src/api/envelope.dart:134-176 | the parser accepts exactly the strings that start with a printed well-formed header |
| Envelope.AuthDataUnique | lib/src/api/envelope.dart:103-109 | header and associated data can be told apart in their concatenation |
| Envelope.AuthData | lib/src/api/envelope.dart:103-109 | header followed by the caller's associated data if there is any; the header itself, uncopied, if it is null or empty |
| Envelope.Seal | lib/src/api/envelope.dart:45-72 | the envelope is the printed header followed by what the AEAD seals under the key derived from the encapsulated secret and the salt, and the nonce, with header and the caller's associated data authenticated |
| Envelope.Open | lib/src/api/envelope.dart:77-101 | malformed exactly for the strings the parser rejects; otherwise KEM failure if decapsulation fails, and if not, authentication failure or plaintext as the AEAD decides under the key derived from the secret and bytes 7 to 22, the nonce in bytes 23 to 34, and header and the caller's associated data |
| Envelope.OpenByCases | lib/src/api/envelope.dart:77-101 | the outcome for every printed well-formed header and body, case by case, through the primitives alone |
| Envelope.MalformedIff | lib/src/api/envelope.dart:74-76 | a format error is reported if and only if the string does not start with a printed well-formed header |
| Envelope.OpenIff | lib/src/api/envelope.dart:22-24 | under AEAD integrity an envelope opens to p if and only if it is byte for byte one that was sealed, with the same associated data, to a recipient whose KEM recovers its key, and p is its plaintext |
| Envelope.TamperedIsRejected | lib/src/api/envelope.dart:22-24 | with one envelope sealed, every other pair of envelope and associated data is rejected |
| Envelope.UnauthenticIff | lib/src/api/envelope.dart:74-101 | under AEAD integrity a well-formed header whose KEM ciphertext decapsulates is reported as an authentication failure if and only if no sealed envelope matches |
| Envelope.AlteredIsRejected | test/envelope_test.dart:38-65 | under AEAD integrity, for every pair of optional associated data: an envelope made by seal, altered anywhere or presented with other associated data, is never opened, and with its header intact it is an authentication failure |
| Envelope.AuthenticIsSatisfiable | lib/src/api/envelope.dart:13-14 | for every sealing function and every set of envelopes of which no two share key, nonce, associated data and body but not the plaintext, some opener meets the integrity hypothesis |
| Envelope.AuthenticIsUnambiguous | lib/src/api/envelope.dart:13-14 | whenever an opener meets the hypothesis for a set of envelopes, no two of them do |
| Envelope.SatisfiableIff | lib/src/api/envelope.dart:13-14 | for every sealing function, some opener meets the hypothesis if and only if no two envelopes do and all headers have fields that fit the format |
| Envelope.CorrectIsUnambiguous | lib/src/api/envelope.dart:13-14 | every set of envelopes is such a set under every correct suite |
| Envelope.EnvelopeRoundTrip | lib/src/api/envelope.dart:42-101 | an untouched envelope opens to its plaintext, with null and empty associated data identified |

## Left out

- The internals of the AEADs, ML-KEM and HKDF-SHA256: arbitrary functions with the laws stated above; both backends of one suite are taken to be the same function.
- Key-length and algorithm-id checks, null pointers, FFI marshalling, the status-code tables and their mapping to exceptions: a valid key and algorithm are fixed.
- Errors of the AEAD sealing call, panics and allocation failure; overflow of chunk size plus tag at the top of the machine integer range.
- Zeroization, memory locking and timing.
- Async scheduling: an event is handled to the end before its producer touches the buffer again; cancellation and errors of the source stream only cut a run short, and every such prefix is covered by the contracts of OnData.
- Event elements outside 0..255, which Dart truncates on copying.
- Envelope views: `sublistView` results are values here, so their sharing memory with the envelope is not modelled.
- The optional associated data of the file cipher: its runs take the bytes, null having become the empty string (lib/src/api/file_cipher.dart:125).
- Random draws (salt, nonce, encapsulation coins) are parameters.
- Integrity.AcceptedIff: assumes a stream within its sealer's counter range; beyond it the equivalence is false, because the final frame's wrapped nonce is that of an earlier frame number (LongStreams.LongDartStreamTruncates; LongStreams.IntegrityIff is the exact condition). Rust streams of more than 2^64 frames are not considered: no run completes one (FilePipeline.SealFile).
- Integrity.AuthenticIsGenuine: assumes a stream within the counter range of both layers, because beyond it the statement is false (LongStreams.GenuineIff is the exact condition).
- Integrity.ReleasedPrefixSafety: assumes a stream within the counter range of both layers; the exact condition is LongStreams.PrefixSafetyIff. Beyond the range a Dart opener can always be made to release more chunks than were sealed (LongStreams.ReplayOpens), and a Rust opener of a Dart stream releases chunks out of place unless they equal those they replace (LongStreams.SpliceOpens).
- Layers.RoundTrip: across layers assumes at most 2^63 frames, because beyond that it is false (Divergence.RoundTripFails).
- The file system is a map from files to contents, and a path names one file throughout a run: renaming onto a link replaces the file it names here and the link in reality. A path with an embedded NUL, which the native call cuts short (lib/src/api/file_cipher.dart:170-176) and the rename does not, permissions, concurrent runs on one file and durability after a power loss are not modelled.
- FileCipher.Run: says nothing about the output being old or complete if its temporary path names the same file, because the run then writes that file in place.
- Backend selection, signatures and the classical and lattice providers: delegation only.
