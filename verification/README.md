# Verified model of the Sovereign hardware-wallet application

This Dafny project models four parts of the Sovereign Ledger application and proves properties of them.

1. **The signing session** (`SessionSpec`, `SessionTraces`, `SessionReplies`, `Session`, `Buffering`, `TxView`,
   `Paging`, `ReviewDisplay`). A client sends a derivation path, then message chunks, then a last chunk; the user
   reviews the message; the application signs it. `SessionSpec` gives the session as a state machine, `SessionTraces`
   proves what every run of it keeps, and `Session.SigningApp` is the application itself, with its exchange buffer,
   flag, path, two-tier buffer, parsed view and pending review. Every method of the class is proved to take exactly the
   specified step, and its `Valid()` says that the object is in the state that its own ghost trace leads to. The main
   results: the signing call is reached exactly for the path of one accepted start and the concatenation of the chunks
   sent since, a condition on the trace of commands alone (`SignedIff`), and the client gets exactly what that call
   returns (`ApprovalReply`); the bytes signed are the bytes the review has been showing (`SigningApp.Approve`); exactly
   the nonempty messages within the buffer can be brought to be signed (`SignableIff`), and a device shows all of them
   in full exactly when its buffer holds no more than 255 pages (`EverySignedMessageShownIff`). `SessionReplies` states
   the meaning of every command frame and the outcome of every step on the bytes themselves: a locked device, for one,
   answers nothing but its version (`GateReplies`).
2. **Address derivation** (`BitGroups`, `Bech32m`, `Gf32`, `Powers`, `Gf1024`, `CheckField`, `Substitutions`,
   `Bech32Text`, `Address`, `PublishedAddress`). Bech32m, prefix `sov`, over the first 28 bytes of a SHA-256 digest. The
   main results: strict decoding accepts exactly the encoder's output; the checksum is the only one that verifies; no
   change confined to six consecutive characters of an address decodes, and six cannot be seven; no change of at most
   three characters decodes, wherever they are; two keys share an address exactly when their truncated digests agree.
   The three characters come from the algebra of the checksum: `CheckField` shows that its steps are polynomial
   arithmetic over the field of 32 elements, and `Substitutions` that the generator polynomial has three roots in
   geometric progression in the field of 1024, with a ratio of order 1023. `PublishedAddress` computes the repository's
   first test vector symbol by symbol, which fixes the checksum constant, the generator, the alphabet, the prefix and
   the bit order from outside.
3. **Public-key encoding** (`Modular`, `Ed25519`). The byte-reversing loop with its sign-bit patch is RFC 8032's point
   encoding exactly when the bit it patches is free or unused, and that encoding determines the curve point.
4. **The two-phase sr25519 signer** (`Groups`, `Sr25519`, `SchnorrVerification`). For every secret, nonce, context and
   message the pipeline's output passes Schnorr verification, although neither the secret nor the nonce is a reduced
   scalar; and for a given nonce point it is the only output that does. The nonce is drawn from a transcript that
   determines context, message, key, seed and random bytes (`NonceCommits`).

`Bytes` holds the shared byte, word and endianness facts.

## Assumptions

- A command is handled only while no review is pending, and review outcomes arrive only while one is; the reply starts at
  the beginning of the exchange buffer (`*tx` is zero on entry); at most 260 bytes are received.
- `APDU_MIN_LENGTH` is 5, the data offset is 5, the exchange buffer has 260 bytes, and the instruction, payload-type and
  status codes are those of the repository's command documentation. The PIN gate answers "command not allowed". The headers
  that define these are not part of this model.
- The buffering library is not part of this model: its append goes to RAM until a chunk does not fit, then moves
  everything to flash, and takes a chunk whole or not at all.
- `pageString` and `pageStringHex` are not part of this model: a page holds as many characters, or whole bytes, as fit
  before the terminator, the last page may be shorter, pages from the announced count on are empty, and the count is
  stored in one byte.
- Key generation, EdDSA signing, SHA-256, Merlin output, random bytes, the build's version, the lock state and the text
  encoder's own failures are parameters: arbitrary functions or values. The text encoder itself is written from BIP-350,
  section "Bech32m", and BIP-173, section "Bech32".
- The first published address is proved from the number of its truncated digest; that SHA-256 of the published key gives
  this digest is not proved.
- The verifier's transcript is that of the schnorrkel library, which is not part of this model.
- Scalar multiplication and addition reduce modulo the group order, and `from_bits` clears the top bit without reducing.
- The sr25519 results hold for any abelian group whose base point is killed by the order. `OnlyResponseAccepted` also
  takes the order to be exact and point compression to be injective.
- `CompressDeterminesPoint` takes two facts from RFC 8032, section 5.1: the field modulus is prime, and the curve constant
  is not a square. Everything else, inverses and Euclid's lemma included, is proved.

## Where the code and its documentation differ

- The command documentation gives a 65-byte signature; the code (app/src/common/actions.h:53-54) replies 64 bytes and the
  status word, and so does the model.
- app/src/apdu_handler.c:97-100 cannot be reached, since `app_fill_address` either throws or succeeds;
  app/src/crypto.c:111-114 cannot either, since the address array is no longer than the room left.

## Where a promise fails, and exactly when it holds

What is signed is not always shown in full: the page count of the message item is a `uint8_t` (app/src/parser.c:93), and a
display of `n` bytes per page announces all pages of a message only up to `255 * n` bytes. `SignedIsShownIff` gives the
condition for one signing request, `SigningApp.ReviewMessage` gives it for the loop that fetches every announced page, and
`EverySignedMessageShownIff` gives it for a device: the condition is on the buffer size and the display alone, and where it
fails, a run exists that gets a message signed of which the review never shows the end.

## Model

| member | source | states |
|---|---|---|
| SessionTraces.SignedIff | app/src/common/actions.h:43-47 | in every run, the signing call happens only on an approval, and exactly for the path of one accepted start and the in-order concatenation of the ADD and LAST payloads since, with only neutral commands in between, nonempty and within the buffer |
| SessionTraces.OpenIff | app/src/apdu_handler.c:33-90 | in every run, the session is open with a path and content exactly when the trace has an accepted start of that path followed only by neutral commands and chunks that concatenate to the content and fit |
| SessionTraces.PendingIff | app/src/apdu_handler.c:75-129 | in every run, a signature review is pending for a path and message exactly when the trace just ended in the last chunk of that message |
| SessionTraces.LastChunkOutcome | app/src/apdu_handler.c:111-129 | in every reachable state the last chunk starts a review iff a session is open, the chunk fits and the message is nonempty; each other reply occurs exactly for its own reason |
| SessionTraces.ExchangeIff | app/src/apdu_handler.c:51-129 | from any reachable idle state, an accepted start, any chunks and a last chunk lead to the review of exactly their concatenation iff it is nonempty and fits, whatever the chunk boundaries and the history |
| SessionTraces.ReachableBounded | app/src/apdu_handler.c:65-86 | in every run the content is within the flash size and no session is open while a review is pending |
| SessionTraces.SameAddressReply | app/src/apdu_handler.c:92-109 | in every run, two address requests that differ in the confirmation byte alone have the same outcome: the confirmed one, when reviewed and approved, gives the reply bytes and the state of the direct one, and otherwise both fail alike |
| SessionTraces.ReplyHasStatus | app/src/apdu_handler.c:204-218 | every reply of every run ends in a big-endian status word of class 6 or 9 |
| SessionReplies.FrameMeaning | app/src/apdu_handler.c:35-90 | which bytes make a frame the start of a session for a path, a chunk, the last chunk, or an address request, iff in each case |
| SessionReplies.GateReplies | app/src/apdu_handler.c:168-203 | a wrong class, a short frame, an unknown instruction, a locked device and an unknown payload type get 6e00, 6700, 6d00, 6986 and 6b00 in this order, and none of them changes the state |
| SessionReplies.VersionReply | app/src/apdu_handler.c:131-156 | the version is answered by a locked device too: fourteen bytes in which flags, version numbers, lock state and target are read back |
| SessionReplies.StartReply | app/src/apdu_handler.c:59-64 | a start always empties the buffer; it opens the session and answers 9000 iff the path has the prefix, and answers 6984 or 6700 otherwise |
| SessionReplies.ChunkReply | app/src/apdu_handler.c:65-74 | a chunk is appended and answered with 9000 iff a session is open and the chunk fits; otherwise 6987 without effect, or 6983 with the session closed |
| SessionReplies.LastReply | app/src/apdu_handler.c:75-129 | the last chunk puts the whole message under review iff a session is open, it fits and is nonempty; every other outcome byte for byte |
| SessionReplies.AddressReply | app/src/apdu_handler.c:92-109 | an address request closes the session and keeps the buffer; a short one answers 6700 and one without the prefix 6984 |
| SessionReplies.KeyReply | app/src/crypto.c:92-119 | an address request answers, at once or after review, the compressed key of exactly the requested path and the address of that key, or 6400 when the key or the encoding fails |
| SessionReplies.ApprovalReply | app/src/common/actions.h:43-56 | in every run, approving a complete trace replies what the signing call returns for its path and message, unchanged, and 9000, or 6f01 when signing fails |
| SessionReplies.AddressApproval | app/src/common/actions.h:64-67 | approving an address replies exactly the body under review and 9000 |
| SessionReplies.RejectionReply | app/src/common/actions.h:58-62 | a rejection replies 6986, signs nothing and only ends the review |
| SessionSpec.StatusIdempotent | app/src/apdu_handler.c:205-214 | the exception-to-status mapping lands in class 6 or 9, is idempotent, and keeps exactly the codes already there; any other code keeps its low eleven bits under 6800 |
| Session.SigningApp.constructor | app/src/apdu_handler.c:33 | a fresh session is valid, with the empty trace |
| Session.SigningApp.ExtractHdPath | app/src/apdu_handler.c:35-49 | closes the session, overwrites the path unless the data is too short, then checks the prefix; the length test is 32-bit wrapping arithmetic |
| Session.SigningApp.StartSession | app/src/apdu_handler.c:59-64 | INIT takes the specified step: empty buffer, then the path outcome |
| Session.SigningApp.AddChunk | app/src/apdu_handler.c:65-74 | ADD appends in the open session, or refuses, or closes the session on overflow |
| Session.SigningApp.LastChunk | app/src/apdu_handler.c:75-86 | LAST completes the message and closes the session, or fails with the specified code |
| Session.SigningApp.ProcessChunk | app/src/apdu_handler.c:51-90 | one chunk of any payload type takes the specified step or completes the message |
| Session.SigningApp.HandleSign | app/src/apdu_handler.c:111-129 | a signing command takes the specified step; a pending review shows exactly the transaction buffer |
| Session.SigningApp.FillAddressReply | app/src/common/actions.h:29-41 | the exchange buffer holds the address body and zeros, or only zeros with the execution error |
| Session.SigningApp.HandleGetAddr | app/src/apdu_handler.c:92-109 | an address request takes the specified step, reply bytes included |
| Session.SigningApp.SendAddress | app/src/apdu_handler.c:95-108 | with the path accepted, the address is sent at once or put under review, or the execution error is reported |
| Session.SigningApp.HandleGetVersion | app/src/apdu_handler.c:131-156 | replies the twelve version bytes of the build and the lock state, with the success code |
| SessionSpec.VersionLayout | app/src/apdu_handler.c:132-152 | a client reads the test flag, the three version numbers, the lock flag and the target back from the reply, as big-endian numbers |
| Session.SigningApp.Dispatch | app/src/apdu_handler.c:167-203 | the gates in their order, then the handler: together the step of the classified command; a locked device asked for an address or a signature answers 6986 and keeps its state |
| Session.SigningApp.HandleApdu | app/src/apdu_handler.c:162-222 | one command extends the run by one legal step and returns the reply of that step, status word included; a locked device gets 6986 for anything but the version, with nothing changed |
| Session.SigningApp.CryptoSign | app/src/crypto.c:61-90 | asks for a signature with the key of the current path and returns what it asked for; refuses the empty message, with the buffer untouched; clears the output when signing fails |
| Session.SigningApp.ApproveSignature | app/src/common/actions.h:43-56 | signs the whole content despite the 16-bit length, and leaves the 64 signature bytes of that very call and 9000 in the reply, or the signing error |
| Session.SigningApp.ApproveAddress | app/src/common/actions.h:64-67 | sends the prepared address body with the success code |
| Session.SigningApp.Approve | app/src/common/actions.h:43-67 | takes the approval step; what is signed is the path and message of a complete trace and exactly the bytes the review showed; the reply is the signature of that path and message and 9000, or 6f01, or the key of the path, its address and 9000 |
| Session.SigningApp.Reject | app/src/common/actions.h:58-62 | takes the rejection step: the reply is 6986, nothing is signed |
| Session.SigningApp.ReviewItem | app/src/common/tx.c:95-115 | the items of a pending signature review are those of the message that approving would sign |
| Session.SigningApp.ReviewMessage | tests/utils/common.cpp:36-41 | reading every announced page of a pending signature review gives the message that approving would sign, in hexadecimal, iff it fits in 255 pages |
| ReviewDisplay.ReadMessage | fuzz/parser_parse.cpp:46-62 | the loop over the pages, whose count starts at one and is updated by every fetch, collects the viewed message whole iff it fits in 255 pages |
| ReviewDisplay.SignedIsShownIff | app/src/parser.c:109-114 | in every run, approving a complete trace signs its message whole, and its announced pages show it whole iff it fits in 255 pages |
| ReviewDisplay.SignableIff | app/src/apdu_handler.c:51-129 | a run that gets a message signed for a path exists iff the path starts with 44'/1551' and the message is nonempty and at most 8192 or 16384 bytes long, by device |
| ReviewDisplay.EverySignedMessageShownIff | app/src/parser.c:93 | a device shows in full every message that any run gets signed iff its 8192 or 16384 bytes are no more than 255 pages |
| ReviewDisplay.AddressShownIff | app/src/addr.c:41-45 | the announced pages of the address item are the whole address iff the display has room for a character |
| Session.SigningApp.ReviewAddressItem | app/src/addr.c:36-60 | a pending address review pages the address of the key in the pending reply, which is the compressed key of the current path; the path is shown in expert mode only, and nothing else |
| Buffering.Buffer.constructor | app/src/common/tx.c:34-45 | static storage starts out empty |
| Buffering.Buffer.Content | app/src/common/tx.c:58-60 | the bytes and length that the buffer accessors deliver, never more than the flash size |
| Buffering.Buffer.Reset | app/src/common/tx.c:50-54 | initialisation and reset leave RAM in use and no content |
| Buffering.Buffer.Migrate | app/src/common/tx.c:56 | moving from RAM to flash loses nothing |
| Buffering.Buffer.Append | app/src/common/tx.c:56 | the two tiers refine one bounded byte string with all-or-nothing append, whichever tier is in use |
| Buffering.KeptWholeIff | app/src/common/tx.c:26-56 | over any list of chunks the content is their whole concatenation iff the total length is within the limit |
| TxView.View.InitContext | app/src/parser.c:29-42 | empty input is an error that clears the context |
| TxView.View.Parse | app/src/parser.c:44-50 | the view points at the data with the length narrowed to 16 bits; an empty narrowed length is an error |
| TxView.View.GetItem | app/src/parser.c:92-120 | exactly the two announced items can be fetched: the warning, and the paged message |
| TxView.View.Validate | app/src/parser.c:52-65 | every announced item can be fetched |
| TxView.View.TxParse | app/src/common/tx.c:62-81 | parsing fails iff the transaction buffer is empty; otherwise the view shows exactly its content |
| TxView.View.TxGetItem | app/src/common/tx.c:95-115 | a signed display index yields an item iff it is one of the announced two |
| TxView.ItemsFit | app/src/parser.c:105-114 | every text of an item fits the buffer it is printed into, with its terminator |
| Paging.AllPagesShowEverything | app/src/parser.c:109-114 | for any data and page width, the announced pages together are the whole hexadecimal text iff it fits in 255 pages |
| Paging.CountCoversIff | app/src/parser.c:93 | the page count stored in one byte reaches the end of the data iff the data fits in 255 pages |
| Paging.HexReadsBack | app/src/parser.c:109-114 | the hexadecimal text read back, two digits at a time, is the message |
| Paging.HexDetermines | app/src/parser.c:109-114 | two messages have the same hexadecimal text iff they are equal, so what the review shows determines what is signed |
| Address.ComputeSha256 | app/src/crypto_helper.c:27-47 | the digest followed by zeros, or an error that leaves the output alone |
| Address.ComputeAddress | app/src/crypto_helper.c:49-67 | the address text of the truncated digest followed by zeros, readable as a C string, or the specified error |
| Address.AddressPrintable | tests/address_encoding.h:32-73 | every address has 55 characters, all nonzero seven-bit |
| Address.SameAddressIff | app/src/crypto_helper.c:49-67 | two keys have the same address iff the first 28 bytes of their digests agree |
| Address.ExtractPublicKey | app/src/crypto.c:25-59 | the compressed key, or a zeroed buffer, or a refusal that leaves it alone |
| Address.PlaceAddress | app/src/crypto.c:104-118 | the address follows the key and the rest stays zero |
| Address.FillAddress | app/src/crypto.c:92-119 | all or nothing: the compressed key of exactly this path, the address of that key and zeros with length 87, or zeros with the length untouched |
| Address.BodyIff | app/src/crypto.c:92-119 | a path has an address body iff its key is generated and the encoder takes its truncated digest; the body is the compressed key of the path and the address of that key |
| Address.BodyKey | app/src/crypto.c:35-48 | the first 32 bytes of a body are the compressed key of exactly this path |
| Address.ShownAddress | app/src/addr.c:41-45 | the C string behind the key is exactly the address part of the reply |
| Address.ReplyAddressDecodes | app/src/crypto.c:104-117 | among all printable strings, the address in a reply is the only one that decodes to the truncated digest of the key in the same reply |
| Address.ThreeTyposRejected | app/src/crypto_helper.c:49-67 | no string that differs from an address in one, two or three characters, wherever they are, decodes |
| PublishedAddress.FirstVector | tests/address_encoding.h:32-33 | the 28 bytes of the first published address encode to its published text |
| PublishedAddress.FirstAddress | tests/address_encoding.h:32-33 | a key with this truncated digest gets the first published address |
| BitGroups.RegroupingRoundTrip | app/src/crypto_helper.c:63-64 | strict five-to-eight regrouping yields given bytes iff the symbols are their padded eight-to-five regrouping |
| BitGroups.ToSymbolsLength | app/src/crypto_helper.c:63-64 | the number of symbols is the number of bits over five, rounded up |
| Bech32m.FoldLinear | app/src/crypto_helper.c:63-64 | the checksum register is linear over exclusive or, for any start values and symbol strings |
| Bech32m.FoldInjective | app/src/crypto_helper.c:63-64 | equal symbols cannot hide a difference already in the register |
| Bech32m.ChecksumUnique | app/src/crypto_helper.c:63-64 | for any data, exactly one six-symbol checksum verifies: the computed one |
| Bech32m.BurstChangesFold | app/src/crypto_helper.c:63-64 | a difference confined to six symbols always changes the checksum, for strings of any length |
| Bech32m.SevenSymbolsEscape | app/src/crypto_helper.c:63-64 | any window of seven symbols can be changed without changing the checksum |
| CheckField.StepRegisters | app/src/crypto_helper.c:63-64 | a step on the 30-bit register is a step on six elements of the field of 32 |
| CheckField.StepIsProduct | app/src/crypto_helper.c:63-64 | such a step multiplies a polynomial by its variable, adds the symbol and reduces modulo the generator polynomial |
| Gf1024.AlphaOrder | app/src/crypto_helper.c:63-64 | the ratio of the roots has no period below 1023 |
| Substitutions.RootsAreRoots | app/src/crypto_helper.c:63-64 | the generator polynomial has the three stated roots in the field of 1024 |
| Substitutions.ThreeChangesShow | app/src/crypto_helper.c:63-64 | two different strings of at most 1023 symbols that differ in at most three places have different checksums, from any register |
| Bech32Text.EncodingRoundTrip | app/src/crypto_helper.c:63-64 | strict decoding of a string yields given bytes iff the string is their encoding |
| Bech32Text.EncodeInjective | app/src/crypto_helper.c:63-64 | two encodings are equal iff the data is |
| Bech32Text.BurstRejected | app/src/crypto_helper.c:58-64 | a string differing from a valid one only within six consecutive data characters does not decode |
| Bech32Text.SubstitutionsRejected | app/src/crypto_helper.c:58-64 | a string differing from a valid one in at most three characters, wherever they are, does not decode |
| Ed25519.CompressKey | app/src/crypto.c:42-48 | the loop and the patch fill the first 32 bytes with the compressed key and touch nothing else |
| Ed25519.CompressValue | app/src/crypto.c:42-48 | the bytes as a number: Y, with its top bit set when X is odd |
| Ed25519.CompressIsEncodePoint | app/src/crypto.c:42-48 | the loop computes the encoding of RFC 8032, section 5.1.2, iff Y is below two to the 255 or X is even |
| Ed25519.CurveConstant | app/src/crypto.c:39-41 | the modulus is two to the 255 minus 19, and the constant of the curve equation is the number d with 121666 times d congruent to -121665 modulo it |
| Ed25519.CompressDeterminesPoint | app/src/crypto.c:42-48 | for two keys on the curve, the bytes the loop writes are equal iff both coordinates are |
| Sr25519.MultWithSecret | app/rust/src/lib.rs:50-55 | a reduced scalar congruent, modulo the order, to the integer product with the secret, which enters unreduced |
| Sr25519.AddWitness | app/rust/src/lib.rs:58-62 | 32 bytes below the order, top bit clear, congruent to the integer sum with the nonce, which enters unreduced |
| Sr25519.GetChallengeScalar | app/rust/src/lib.rs:65-69 | adds a number below the order congruent to the 64-byte challenge of the transcript so far |
| Sr25519.GetWitnessBytes | app/rust/src/lib.rs:72-89 | the nonce is drawn after all seeds and the random bytes, in that order, and the transcript is wiped |
| Sr25519.SignPhase1 | app/rust/src/lib.rs:92-118 | parks the nonce in the second half and leaves the first half alone |
| Sr25519.SignPhase2 | app/rust/src/lib.rs:121-155 | replaces the nonce by the marked response to the challenge over the first half, which it leaves alone |
| Sr25519.StoreMarked | app/rust/src/lib.rs:153-154 | stores the response and sets the marker bit in place |
| Sr25519.MarkedResponse | app/rust/src/lib.rs:146-154 | a reduced scalar leaves the marker bit free, so clearing it recovers the scalar |
| Sr25519.ChallengeCommits | app/rust/src/lib.rs:139-150 | the challenge transcript determines context, message, key and nonce point, and is never a nonce transcript |
| Sr25519.NonceCommits | app/rust/src/lib.rs:72-118 | two nonce transcripts are equal iff context, message, key, secret seed and random bytes all are |
| Sr25519.PhasesAgree | app/rust/src/lib.rs:92-140 | the transcripts of both phases start with the same entries for context, message and key |
| Sr25519.OrderValue | app/rust/src/lib.rs:50-62 | the scalars are reduced by the order of RFC 8032, section 5.1: two to the 252 plus its published remainder |
| SchnorrVerification.SchnorrEquation | app/rust/src/lib.rs:146-154 | response times base equals nonce point plus challenge times public point |
| SchnorrVerification.StoreNoncePoint | app/rust/src/lib.rs:224-227 | the first half becomes the compressed nonce point |
| SchnorrVerification.SameTranscript | app/rust/src/lib.rs:247-252 | the transcript the signer builds for its challenge is the one the verifier builds on its own |
| SchnorrVerification.Sign | app/rust/src/lib.rs:214-237 | the whole pipeline writes an accepted signature with the prescribed nonce and response |
| SchnorrVerification.ResponseAccepted | app/rust/src/lib.rs:249-252 | what the signer writes passes verification, for every secret, nonce, context and message |
| SchnorrVerification.OnlyResponseAccepted | app/rust/src/lib.rs:249-252 | with a given nonce point, a signature verifies iff it is the one the signer writes |

## Left out

- User-interface glue, logging, canary checks and the event loop: only "review pending", "approve" and "reject" remain.
- The test instruction of test builds and the re-throw of the reset exception.
- The random source and the expansion of the secret key: the bytes they deliver are parameters.
- Key derivation, EdDSA, SHA-256, Merlin and curve point arithmetic as computations; key erasure and timing.
- The textual form of the derivation path and the setting of expert mode: both are parameters.
- The parser's other error codes and the error-code tables: only the codes that the modelled paths can produce are kept.
- Null-pointer checks: references in the model are never null.
- The derivation path and the scalar accumulators are values that the methods replace, where the sources overwrite a global
  array and `&mut` parameters; aliasing between the caller's buffers is not modelled.
- Detection of four or more scattered substitutions: the generator polynomial's three roots in progression do not give it.
- Bech32Text.EncodingRoundTrip: the decoder accepts lower case only; BIP-173 also allows all-upper-case strings.
- Ed25519.CompressDeterminesPoint: does not prove that the modulus is prime or that the curve constant is not a square.
