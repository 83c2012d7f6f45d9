# XuanYu: crypto provider, chip client and queue transport

A Dafny model of the parts of XuanYu that hold state, and proofs of what they guarantee.

- **The software crypto provider** (`src/crypto/CryptoSoftware.cpp`): four SM2 key slots, six SM4 key slots, four ID
  slots, and an SM3 stream kept in a side table. `Provider.dfy` says what one call does (`Step`) and where a history of
  calls leads (`Run`); `CryptoSoftware.dfy` is the object itself, whose methods update slots and callers' buffers in
  place and are proved against `Step`; `ProviderCalls.dfy` says of each call what it accepts, returns and leaves, with
  the numbers written out; `History.dfy`, `Streaming.dfy` and `Reset.dfy` prove properties of every history; `Ciphers.dfy`, `CipherLaws.dfy`, `Collisions.dfy` and `Bits.dfy` hold the placeholder algorithms and their
  laws.
- **The chip client** (`mvp/client/src`): `Hex.dfy` has the hexadecimal printers and the two parsers, `Hardware.dfy` the
  SDK, what the adapter does with each request, and the adapter with its buffers; `AuthClient.dfy` has what each command
  does and the client object; `ClientCalls.dfy` says of each command what it asks of any chip and makes of the answers;
  `Sessions.dfy` proves session safety over all runs, `RoundTrips.dfy` what commands do to
  each other's results, and `KeyPairs.dfy` what becomes of messages and keys when the two halves of an SM2 key pair are
  told apart; `ExampleChip.dfy` is a chip that meets everything assumed there, with runs on it in which something does
  not come back.
- **The queue transport** (`tests/mocks/MockTransportAdapter.cpp`): `Transport.dfy`, with the conservation of bytes over
  all runs.

## How the outside world enters

- `std::hash` is a parameter, an arbitrary function from bytes to 64 bits. Random bytes are parameters of the calls that
  draw them.
- The chip is an arbitrary function from everything that happened before and the present call to a return code and the
  bytes it writes; so it may fail at any point and remember anything. It is taken not to write past the end of a buffer
  it is given.
- What comes back from a chip is shown under assumptions on its ciphers. `RoundTrips.IsEcbChip`: whole blocks, no
  padding, as section 6.1 of NIST SP 800-38A has it and `FuncLib.h` documents; the SM4 key is whatever the calls that
  change it have made of it. `KeyPairs.IsSM2Chip`: as `FuncLib.h` documents, encryption uses the public key of a slot
  and adds 96 bytes, decryption uses its private key, generation sets both and an import the public key only; a call
  that the chip refuses sets nothing. Where it is said exactly when something comes back, the results name what they
  need in addition: `RefusesForeign`, `IsReliable`, `ExportsKeys`. `ExampleChip` meets all of them.
- Locked calls are atomic steps. A null pointer is a null reference in the object and `None` or `false` in `Op`.
- Lengths passed as `uint16_t`, `unsigned short` or `int` wrap as in the source (`UInt16`, `Int32`), and the sums of
  `size_t` counters are taken modulo 2^64.

## Where code and documentation disagree

The model follows the code.

- `ICryptoProvider.h` limits IDs to 254 bytes in slots 2 and 3; the code takes 1 to 65535 bytes in slots 0 to 3
  (`History.IdTakenExact`).
- `ICryptoProvider.h` asks for SM4 lengths in whole blocks and distinguishes modes and IVs; the code takes any length and
  ignores direction, mode and IV. Pieces that are not whole blocks change the result (`CipherLaws.XorKeySplitExact`).
- The tests expect a fresh signature to be accepted. It is not when the data start with zero and all random bytes are
  zero (`CipherLaws.FreshSignatureRejected`); it is whatever bytes are drawn exactly when the data do not start with zero
  (`CipherLaws.FreshSignatureExact`).
- The tests expect different data to have different digests. Digests show only fifteen bits of the hash
  (`CipherLaws.DigestsEqualExact`), so whatever the hash, some two messages of two bytes share one
  (`Collisions.ShortDataCollide`); given data must collide exactly when there are more than 2^15 of them
  (`Collisions.CollisionExact`).
- `cleanup` says that it clears resources. It leaves an SM3 stream open with its data, whose digest can still be taken
  (`Reset.StreamOutlivesCleanup`), and it takes the provider back to a new one exactly when no stream is open
  (`Reset.CleanupIsResetExact`).
- The comment in `HardwareAdapter::SM2_Verify` speaks of a temporary index. The public key imported there stays in slot
  3 whenever the chip takes it, also when the verification fails (`RoundTrips.VerificationRekeysExact`). What was
  encrypted before under a pair generated in slot 3 still comes back (`KeyPairs.SM2RoundTrip`). But what is encrypted
  there afterwards is meant for whoever's key was verified with, and if that is not the key of the slot's own pair, a
  chip that refuses what was meant for others refuses to decrypt it (`KeyPairs.VerificationTakesOverSlot3`, with
  `ExampleChip.VerificationSpoilsSlot3` for a run). With such a chip, if it does not fail of itself, messages come back
  exactly when the public key of the slot was last set, before the encryption, by generating the pair or to the key of
  the pair (`KeyPairs.SM2ComesBackExact`).

## Model

| member | source | states |
|---|---|---|
| `Software.CryptoSoftware.constructor` | src/crypto/CryptoSoftware.cpp:9-25 | a new provider is in the initial state, with every slot clear and the error code 0, has an empty history, and slots of its own |
| `Software.SM2KeyPair.Clear` | include/crypto/CryptoSoftware.h:85-90 | both keys become zero and both flags false |
| `Software.SM4Key.Clear` | include/crypto/CryptoSoftware.h:101-105 | the key becomes zero, the type 1, the flag false |
| `Software.UserID.Clear` | include/crypto/CryptoSoftware.h:115-118 | the ID becomes empty and the flag false |
| `Software.CryptoSoftware.KeepsFollowing` | src/crypto/CryptoSoftware.cpp:195-645 | whichever slot-interface method runs, the object stays in the state its recorded history leads to |
| `Software.CryptoSoftware.CellsFollow` | src/crypto/CryptoSoftware.cpp:195-645 | every cell of a live object holds what its history says, and its flags agree with its bytes |
| `Software.CryptoSoftware.Open` | src/crypto/CryptoSoftware.cpp:195-200 | sets the open flag, which no call consults, and nothing else |
| `Software.CryptoSoftware.Close` | src/crypto/CryptoSoftware.cpp:202-207 | clears the open flag and leaves all slots |
| `Software.CryptoSoftware.Cleanup` | src/crypto/CryptoSoftware.cpp:629-645 | three loops clear all key and ID slots; the side table and the SM3 stream stay |
| `Software.CryptoSoftware.GetRandom` | src/crypto/CryptoSoftware.cpp:209-227 | fills exactly the requested bytes of the buffer with the drawn ones, or rejects and writes nothing |
| `Software.CryptoSoftware.Fill` | src/crypto/CryptoSoftware.cpp:221-223 | the fill loop overwrites the start of the buffer with the drawn bytes and leaves the rest |
| `Software.CryptoSoftware.Redrawn` | src/crypto/CryptoSoftware.cpp:248-254 | the loop over a key replaces its bytes by those that the generator yields from there on |
| `Software.CryptoSoftware.GenerateSM2KeyPair` | src/crypto/CryptoSoftware.cpp:234-261 | the first 65 drawn bytes become the public key of one slot and the next 32 its private key; a bad index changes only the error code |
| `Software.CryptoSoftware.DeleteSM2KeyPair` | src/crypto/CryptoSoftware.cpp:263-274 | clears one slot |
| `Software.CryptoSoftware.ImportSM2KeyPair` | src/crypto/CryptoSoftware.cpp:276-291 | stores both keys and flags, or rejects if either pointer is null or the index is out of range |
| `Software.CryptoSoftware.ImportSM2PubKey` | src/crypto/CryptoSoftware.cpp:293-305 | stores the public half and keeps the private half |
| `Software.CryptoSoftware.ImportSM2PriKey` | src/crypto/CryptoSoftware.cpp:307-319 | stores the private half and keeps the public half |
| `Software.CryptoSoftware.ExportSM2PubKey` | src/crypto/CryptoSoftware.cpp:321-332 | writes the 65 bytes of the slot whether or not its flag is set |
| `Software.CryptoSoftware.SM2Encrypt` | src/crypto/CryptoSoftware.cpp:334-354 | writes 96 drawn bytes and then the message, or drawn bytes again when one buffer is both, and changes no slot |
| `Software.CryptoSoftware.SM2Decrypt` | src/crypto/CryptoSoftware.cpp:356-368 | writes what follows the first 96 bytes, or rejects shorter input |
| `Software.CryptoSoftware.ImportID` | src/crypto/CryptoSoftware.cpp:438-453 | replaces the ID by the given bytes, or rejects null, empty and out of range |
| `Software.CryptoSoftware.ExportID` | src/crypto/CryptoSoftware.cpp:455-472 | writes the ID and its length when set, only a zero length when unset, and nothing at all when rejecting |
| `Software.CryptoSoftware.SM3HashVector` | src/crypto/CryptoSoftware.cpp:173-192 | the loop fills the digest window by window; empty data are rejected and the output is left |
| `Software.CryptoSoftware.SM3Init` | src/crypto/CryptoSoftware.cpp:474-480 | opens an empty stream, dropping what an unfinished one had gathered |
| `Software.CryptoSoftware.SM3Update` | src/crypto/CryptoSoftware.cpp:482-494 | appends the chunk to an open stream, or rejects |
| `Software.CryptoSoftware.SM3Final` | src/crypto/CryptoSoftware.cpp:496-515 | writes the digest of the gathered data and closes the stream, or rejects when none is open |
| `Software.CryptoSoftware.SM3Hash` | src/crypto/CryptoSoftware.cpp:517-532 | writes the digest of the message and leaves a stream in progress alone |
| `Software.CryptoSoftware.SetSM4Key` | src/crypto/CryptoSoftware.cpp:534-546 | stores the key and keeps its type |
| `Software.CryptoSoftware.SM4Init` | src/crypto/CryptoSoftware.cpp:548-560 | records the key index in the side table and touches neither keys nor stream |
| `Software.CryptoSoftware.XorLoop` | src/crypto/CryptoSoftware.cpp:571-573 | the loop with a 16-bit counter ends for every length and is right also when input and output are one buffer |
| `Software.CryptoSoftware.SM4Update` | src/crypto/CryptoSoftware.cpp:562-577 | writes the encryption under the slot key and nothing past the message length |
| `Software.CryptoSoftware.SM4Crypto` | src/crypto/CryptoSoftware.cpp:592-612 | the same for the one-shot call |
| `Software.CryptoSoftware.VectorLoop` | src/crypto/CryptoSoftware.cpp:145-148 | the loop combines each byte with key and IV bytes of period 16 |
| `Software.CryptoSoftware.SM4EncryptVector` | src/crypto/CryptoSoftware.cpp:135-152 | succeeds exactly for non-empty text with 16-byte key and IV; otherwise the output stays; only the error code changes |
| `Software.CryptoSoftware.SM4DecryptVector` | src/crypto/CryptoSoftware.cpp:154-171 | the same for decryption |
| `Software.CryptoSoftware.SM2SignVector` | src/crypto/CryptoSoftware.cpp:80-103 | 63 drawn bytes and the first data byte, or rejects and leaves the output |
| `Software.CryptoSoftware.SM2VerifyVector` | src/crypto/CryptoSoftware.cpp:105-133 | accepts exactly a well-sized signature that is not all zero and ends in the first data byte; a refusal is not an error |
| `ProviderCalls.InitialExact` | include/crypto/CryptoSoftware.h:79-119 | a new provider has four clear key pairs, six clear SM4 keys of type 1 and four clear IDs, is not open and has no error |
| `ProviderCalls.OpenCloseExact` | src/crypto/CryptoSoftware.cpp:195-207 | opening and closing set and clear the open flag and the error code, and nothing else |
| `ProviderCalls.CleanupExact` | src/crypto/CryptoSoftware.cpp:629-645 | all key and ID slots become clear, and nothing else but the error code changes |
| `ProviderCalls.GetRandomExact` | src/crypto/CryptoSoftware.cpp:209-227 | the bytes written are those drawn; a null buffer or zero length is rejected |
| `ProviderCalls.GenerateExact` | src/crypto/CryptoSoftware.cpp:234-261 | one of four slots gets both keys and both flags; other indices are rejected |
| `ProviderCalls.DeleteExact` | src/crypto/CryptoSoftware.cpp:263-274 | one of four slots gets 32 and 65 zeros and no flags |
| `ProviderCalls.ImportPairExact` | src/crypto/CryptoSoftware.cpp:276-291 | one of four slots gets both keys if both are given |
| `ProviderCalls.ImportPublicExact` | src/crypto/CryptoSoftware.cpp:293-305 | the private half and its flag stay |
| `ProviderCalls.ImportPrivateExact` | src/crypto/CryptoSoftware.cpp:307-319 | the public half and its flag stay |
| `ProviderCalls.ExportPublicExact` | src/crypto/CryptoSoftware.cpp:321-332 | the public key of one of four slots is written whatever its flag |
| `ProviderCalls.SM2EncryptExact` | src/crypto/CryptoSoftware.cpp:334-354 | the first 96 bytes written are the drawn ones and the rest is the message; empty messages and indices from 4 on are rejected |
| `ProviderCalls.SM2DecryptExact` | src/crypto/CryptoSoftware.cpp:356-368 | what is written follows the first 96 bytes; less than 96 bytes and indices from 4 on are rejected |
| `ProviderCalls.SM2SignExact` | src/crypto/CryptoSoftware.cpp:370-436 | signing by slot writes the 64 bytes drawn, and verification by slot accepts whatever it is given |
| `ProviderCalls.ImportIdExact` | src/crypto/CryptoSoftware.cpp:438-453 | one of four slots gets the ID if it is not empty |
| `ProviderCalls.ExportIdExact` | src/crypto/CryptoSoftware.cpp:455-472 | a set ID is written at its length modulo 2^16, an unset one as no bytes |
| `ProviderCalls.SM3InitExact` | src/crypto/CryptoSoftware.cpp:474-480 | the data under 255 in the side table become empty and the stream open |
| `ProviderCalls.SM3UpdateExact` | src/crypto/CryptoSoftware.cpp:482-494 | the data are appended there if a stream is open and they are not empty |
| `ProviderCalls.SM3FinalExact` | src/crypto/CryptoSoftware.cpp:496-515 | the digest of the data there is written, and the stream closed and emptied |
| `ProviderCalls.SM3HashExact` | src/crypto/CryptoSoftware.cpp:517-532 | the digest of the message is written if that is not empty |
| `ProviderCalls.SetSM4KeyExact` | src/crypto/CryptoSoftware.cpp:534-546 | one of six slots gets the key and the flag and keeps its type |
| `ProviderCalls.SM4InitExact` | src/crypto/CryptoSoftware.cpp:548-590 | the index is recorded under 254 in the side table; finishing only checks the index |
| `ProviderCalls.SM4CipherExact` | src/crypto/CryptoSoftware.cpp:562-612 | byte k of what sm4Update and sm4Crypto write is byte k of the message combined with byte k % 16 of the slot's key |
| `ProviderCalls.SetKeySeals` | src/crypto/CryptoSoftware.cpp:534-612 | after setSM4Key, that is byte k % 16 of the key just set |
| `History.Projection` | src/crypto/CryptoSoftware.cpp:195-645 | after any history, each cell is as if only the calls addressed to it had been made |
| `History.Interleaving` | src/crypto/CryptoSoftware.cpp:195-645 | two histories with the same calls in the same order on every cell end in the same cells, and any next call returns the same code and writes the same bytes |
| `History.ThreadIsolation` | src/crypto/CryptoSoftware.cpp:195-645 | however the locked calls of any number of threads are mixed, a call that shares no cell with other threads gets the answer it would get without them |
| `History.ThreadHearsItself` | src/crypto/CryptoSoftware.cpp:195-645 | a thread that keeps to cells of its own hears, call by call, what it would hear alone |
| `History.MergeProjects` | src/crypto/CryptoSoftware.cpp:195-645 | on a cell the other threads do not address, a mixed history has exactly the one thread's calls |
| `History.StepFrame` | src/crypto/CryptoSoftware.cpp:195-645 | a call leaves every cell it does not address |
| `History.StepLocal` | src/crypto/CryptoSoftware.cpp:195-645 | what a call does to a cell depends on that cell alone |
| `History.AnswerLocal` | src/crypto/CryptoSoftware.cpp:195-645 | code and written bytes depend only on the cells addressed, so never on the open flag or the error code |
| `History.FailureChangesNothing` | src/crypto/CryptoSoftware.cpp:195-645 | the error code always equals the returned code, and a failing call changes nothing else and writes nothing |
| `History.ErrorCodeUnread` | src/crypto/CryptoSoftware.cpp:195-645 | no call behaves differently because of the error code |
| `History.StepWrites` | src/crypto/CryptoSoftware.cpp:234-332 | a call either gives a slot a value of its own, readable off the call, or leaves it |
| `History.StepStream` | src/crypto/CryptoSoftware.cpp:474-515 | what each call makes of the SM3 stream |
| `History.LastWriterWins` | src/crypto/CryptoSoftware.cpp:234-319 | after any history, a slot holds the value of its most recent successful writer, delete and cleanup included |
| `History.LastWriterAnswers` | src/crypto/CryptoSoftware.cpp:321-332 | so exportSM2PubKey and exportID return, and sm4Crypto uses, what that writer left |
| `History.Unwritten` | src/crypto/CryptoSoftware.cpp:9-25 | a slot that nobody wrote is clear |
| `History.ReachableFlags` | include/crypto/CryptoSoftware.h:79-119 | in every reachable state an unset flag means zero bytes, a set ID has 1 to 65535 bytes, and a closed stream is empty |
| `History.UnsetKeyIsIdentity` | src/crypto/CryptoSoftware.cpp:592-612 | encryption under an unset key returns its input |
| `History.UnsetPublicKeyIsZero` | src/crypto/CryptoSoftware.cpp:321-332 | exporting an unset public key yields 65 zeros |
| `History.IdTakenExact` | src/crypto/CryptoSoftware.cpp:438-472 | importID succeeds if and only if data are given and the index is below 4, and exportID then returns them |
| `History.ExportedIdIsWhole` | src/crypto/CryptoSoftware.cpp:455-472 | the 16-bit cast loses nothing, and no bytes are exported exactly when the slot is unset |
| `Streaming.FinalIsOneShot` | src/crypto/CryptoSoftware.cpp:474-532 | sm3Final returns the digest of all chunks accepted since the latest sm3Init, whatever is called in between, and the one-shot call returns the same |
| `Streaming.FinalSucceedsExact` | src/crypto/CryptoSoftware.cpp:496-502 | unless a stream is open with no data fed in, sm3Final succeeds if and only if some sm3Init has not been finished |
| `Streaming.StreamHoldsChunks` | src/crypto/CryptoSoftware.cpp:482-494 | an open stream holds exactly the accepted chunks in call order |
| `Streaming.StreamClosed` | src/crypto/CryptoSoftware.cpp:509-511 | without an unfinished sm3Init the stream is closed |
| `Streaming.GatheredExact` | src/crypto/CryptoSoftware.cpp:504-507 | there is a digest to copy if and only if a chunk was accepted since the latest sm3Init |
| `Streaming.ChunkedIsWhole` | src/crypto/CryptoSoftware.cpp:562-577 | sm4Update calls in whole blocks, the last of any length, with any other calls between that leave the key, emit the encryption of everything fed |
| `Streaming.ChunkedIsOneShot` | src/crypto/CryptoSoftware.cpp:592-612 | that is what one sm4Crypto call writes, and for any length what vector sm4Encrypt with a zero IV gives |
| `Reset.CleanupIsResetExact` | src/crypto/CryptoSoftware.cpp:629-645 | after cleanup, the next call and all histories of calls are answered as by a new provider if and only if no sm3Init is left unfinished |
| `Reset.CleanupKeepsOnlyStream` | src/crypto/CryptoSoftware.cpp:629-645 | in any case they are answered as by a new provider on which only the calls on the SM3 stream had been made |
| `Reset.StreamOutlivesCleanup` | src/crypto/CryptoSoftware.cpp:496-515 | a concrete digest begun before a cleanup and taken after it |
| `Streaming.SM2FramingRoundTrip` | src/crypto/CryptoSoftware.cpp:334-368 | decryption restores every message of at most 65439 bytes, exactly those whose ciphertext fits 16 bits, and no slot changes |
| `CipherLaws.XorKeyAt` | src/crypto/CryptoSoftware.cpp:571-573 | byte i is combined with key byte i % 16 |
| `CipherLaws.ZerosShowKey` | src/crypto/CryptoSoftware.cpp:606-608 | sixteen zeros are encrypted to the key, so all of it is used |
| `CipherLaws.VectorCipherAt` | src/crypto/CryptoSoftware.cpp:145-148 | the vector cipher combines byte i with bytes i % 16 of key and IV |
| `CipherLaws.XorKeySplitExact` | src/crypto/CryptoSoftware.cpp:571-573 | two pieces encrypted apart agree with the whole if and only if the key looks the same from where the second starts |
| `CipherLaws.MisalignedPieceDiffers` | src/crypto/CryptoSoftware.cpp:571-573 | a concrete key and one-byte pieces for which they differ |
| `CipherLaws.XorKeySplitAligned` | src/crypto/CryptoSoftware.cpp:571-573 | whole-block pieces always agree |
| `CipherLaws.XorKeyInverts` | src/crypto/CryptoSoftware.cpp:606-608 | the slot cipher undoes itself |
| `CipherLaws.VectorCipherIsSlotCipher` | src/crypto/CryptoSoftware.cpp:144-148 | vector encryption is the slot cipher under the key combined with the IV |
| `CipherLaws.ZeroIv` | src/crypto/CryptoSoftware.cpp:144-148 | a zero IV leaves the key |
| `CipherLaws.VectorCipherInverts` | src/crypto/CryptoSoftware.cpp:135-171 | vector decryption undoes vector encryption for every length |
| `CipherLaws.DigestBits` | src/crypto/CryptoSoftware.cpp:184-188 | bit j of digest byte i is bit i % 8 + j of the hash |
| `CipherLaws.DigestsEqualExact` | src/crypto/CryptoSoftware.cpp:173-192 | two digests are equal if and only if the hashes agree modulo 2^15 |
| `Collisions.CollisionExact` | src/crypto/CryptoSoftware.cpp:173-192 | two of the given different data share a digest under every hash if and only if there are more than 2^15 of them |
| `Collisions.DigestsCollide` | src/crypto/CryptoSoftware.cpp:173-192 | among more than 2^15 data, two share a digest |
| `Collisions.SomeHashTellsApart` | src/crypto/CryptoSoftware.cpp:173-192 | for fewer, there is a hash under which all digests differ |
| `Collisions.ShortDataCollide` | src/crypto/CryptoSoftware.cpp:173-192 | under every hash, two different messages of two bytes share a digest |
| `CipherLaws.SignLayout` | src/crypto/CryptoSoftware.cpp:92-97 | a signature is 63 drawn bytes and then the first data byte |
| `CipherLaws.VerifyExact` | src/crypto/CryptoSoftware.cpp:113-129 | any 64 bytes are accepted if and only if they are not all zero and end in the first data byte |
| `CipherLaws.SignVerifyExact` | src/crypto/CryptoSoftware.cpp:80-133 | a signature is accepted for other data if and only if the first bytes agree and it is not all zero |
| `CipherLaws.FreshSignatureExact` | src/crypto/CryptoSoftware.cpp:80-133 | a fresh signature is accepted whatever bytes are drawn if and only if the data do not start with zero |
| `CipherLaws.FreshSignatureRejected` | src/crypto/CryptoSoftware.cpp:113-125 | a concrete fresh signature that is refused |
| `Hex.HexToBytes` | mvp/client/src/AuthClient.cpp:40-55 | succeeds exactly on hexadecimal strings of twice the length; the buffer gets the leading good pairs even on failure |
| `Hex.HexToBytesVec` | mvp/client/src/AuthClient.cpp:195-212 | succeeds exactly on even-length hexadecimal strings, with the same bytes as the other parser |
| `Hex.PrintHex` | mvp/client/src/AuthClient.cpp:214-219 | prints two digits a byte |
| `Hex.PairsCompleteExact` | mvp/client/src/AuthClient.cpp:48-53 | the pairs use up the string if and only if it is an even number of hexadecimal digits |
| `Hex.PairsAt` | mvp/client/src/AuthClient.cpp:205-210 | byte k is read off characters 2k and 2k+1 |
| `Hex.PairsStop` | mvp/client/src/AuthClient.cpp:205-210 | reading stops only at a bad pair or at the end |
| `Hex.ToHexAt` | mvp/client/src/AuthClient.cpp:214-219 | byte k is printed as the digit for its sixteens and then the one for its units |
| `Hex.ReadAt` | mvp/client/src/AuthClient.cpp:205-210 | byte k is read as 16 times the value of character 2k plus that of character 2k+1 |
| `Nibbles.DigitExact` | mvp/client/src/AuthClient.cpp:214-219 | the digits are 0 to 9 and a to f, or A to F in upper case |
| `Nibbles.HexValExact` | mvp/client/src/AuthClient.cpp:40-47 | a character has the value n if and only if it is digit n of either case |
| `Hex.PrintThenParse` | mvp/client/src/AuthClient.cpp:195-219 | parsing what was printed, in either case, gives the bytes back |
| `Hex.ParseThenPrint` | mvp/client/src/AuthClient.cpp:195-219 | printing what was parsed gives the string in lower case |
| `Hex.SizeMatchesExact` | mvp/client/src/AuthClient.cpp:150-157 | a negative length cast to size_t matches no string |
| `AdapterSpec.TrimmedLengthLeast` | mvp/client/src/HardwareAdapter.cpp:86-92 | the scan finds the least length after which all is zero |
| `AdapterSpec.NoKeyLengthExact` | mvp/client/src/HardwareAdapter.cpp:80-97 | no length is found, and the export fails, if and only if all 512 bytes are zero |
| `AdapterSpec.ExportThenImportExact` | mvp/client/src/HardwareAdapter.cpp:72-112 | an exported key is imported as the very buffer the SDK filled if and only if all is zero past the chosen length |
| `AdapterSpec.SeenExact` | mvp/client/src/HardwareAdapter.cpp:146 | the SDK sees the whole of a message if and only if its length fits 16 bits |
| `Hardware.HardwareAdapter.Scan` | mvp/client/src/HardwareAdapter.cpp:87-92 | the backward loop computes the trimmed length |
| `Hardware.HardwareAdapter.Open` | mvp/client/src/HardwareAdapter.cpp:13-15 | one SDK opening, whose code is passed on |
| `Hardware.HardwareAdapter.Close` | mvp/client/src/HardwareAdapter.cpp:17-19 | one SDK closing, whose code is dropped |
| `Hardware.HardwareAdapter.Authenticate` | mvp/client/src/HardwareAdapter.cpp:32-34 | one SDK authentication |
| `Hardware.HardwareAdapter.ImportSM4Key` | mvp/client/src/HardwareAdapter.cpp:36-44 | hands the 16 bytes to the SDK at index 0 |
| `Hardware.HardwareAdapter.SM4Crypto` | mvp/client/src/HardwareAdapter.cpp:53-64 | refuses more than 512 bytes without a call; otherwise passes exactly the input on and the output back |
| `Hardware.HardwareAdapter.SM2GenerateKey` | mvp/client/src/HardwareAdapter.cpp:67-70 | one SDK call for the slot |
| `Hardware.HardwareAdapter.SM2ExportPublicKey` | mvp/client/src/HardwareAdapter.cpp:72-101 | hands back 65, 33 or the trimmed number of bytes, or nothing on failure |
| `Hardware.HardwareAdapter.SM2ImportPublicKey` | mvp/client/src/HardwareAdapter.cpp:103-112 | pads the key to 512 bytes; empty and longer keys make no call |
| `Hardware.HardwareAdapter.SM2Encrypt` | mvp/client/src/HardwareAdapter.cpp:114-126 | refuses empty and over-long messages without a call; otherwise hands back 96 bytes more |
| `Hardware.HardwareAdapter.SM2Decrypt` | mvp/client/src/HardwareAdapter.cpp:128-139 | refuses less than 96 bytes; longer input reaches the SDK with its length cut to 16 bits |
| `Hardware.HardwareAdapter.SM2Sign` | mvp/client/src/HardwareAdapter.cpp:141-150 | hands back 64 bytes; the message length is cut to 16 bits |
| `Hardware.HardwareAdapter.SM2Verify` | mvp/client/src/HardwareAdapter.cpp:152-171 | imports the key into slot 3 before it looks at the signature's length, then verifies with it |
| `Client.AuthClient.constructor` | mvp/client/src/AuthClient.cpp:57-63 | a new client has made no call |
| `Client.AuthClient.Dispose` | mvp/client/src/AuthClient.cpp:65-67 | makes no call to the hardware, as the flag it looks at is never set |
| `Client.AuthClient.SM4Import` | mvp/client/src/AuthClient.cpp:69-105 | carries out the import command, with every early exit |
| `Client.AuthClient.SM4Encrypt` | mvp/client/src/AuthClient.cpp:107-142 | carries out the encryption command; nothing is printed unless it succeeds |
| `Client.AuthClient.HexToBytesInt` | mvp/client/src/AuthClient.cpp:150-157 | the parser called with an int length succeeds exactly on hexadecimal strings of twice that length; a negative one matches nothing; a string of that length leaves its leading good pairs in the buffer even on failure |
| `Client.AuthClient.SM4Decrypt` | mvp/client/src/AuthClient.cpp:144-192 | carries out the decryption command for every string that can exist; no buffer is overrun |
| `Client.AuthClient.SM2GenerateKey` | mvp/client/src/AuthClient.cpp:222-230 | carries out the command in an authenticated session |
| `Client.AuthClient.SM2ExportPublicKeyHex` | mvp/client/src/AuthClient.cpp:232-243 | the same; the output string is left alone unless it succeeds |
| `Client.AuthClient.SM2ImportPublicKeyHex` | mvp/client/src/AuthClient.cpp:245-255 | the same; a malformed string opens no session |
| `Client.AuthClient.SM2EncryptHex` | mvp/client/src/AuthClient.cpp:257-269 | the same; the output string is left alone unless it succeeds |
| `Client.AuthClient.SM2DecryptHex` | mvp/client/src/AuthClient.cpp:271-284 | the same; a malformed string opens no session |
| `Client.AuthClient.SM2SignHex` | mvp/client/src/AuthClient.cpp:286-298 | the same; the output string is left alone unless it succeeds |
| `Client.AuthClient.SM2VerifyHex` | mvp/client/src/AuthClient.cpp:300-307 | verifies without a session |
| `Client.AuthClient.KeepsFollowing` | mvp/client/src/AuthClient.cpp:69-307 | whichever command runs, the hardware log stays the one the recorded commands lead to |
| `Client.AuthClient.SessionsClosed` | mvp/client/src/AuthClient.cpp:69-307 | between commands no session of a live client is open |
| `ClientCalls.SM4ImportExact` | mvp/client/src/AuthClient.cpp:69-105 | exactly 32 hexadecimal digits are taken; in an authenticated session the 16 bytes that they stand for go to key index 0; 0 is returned if and only if the chip takes them, else -1 |
| `ClientCalls.SM4ImportKeys` | mvp/client/src/HardwareAdapter.cpp:36-44 | an import adds just its own call to those that make the SM4 key |
| `ClientCalls.ImportedKeyRoundTrip` | mvp/client/src/AuthClient.cpp:69-192 | import, encrypt, any commands that import no key, decrypt: the line printed is the encryption under the imported key, and decrypting it shows the text |
| `ClientCalls.SM4EncryptExact` | mvp/client/src/AuthClient.cpp:107-142 | for every chip: at most 256 bytes, filled up to whole blocks, are encrypted under index 0 in mode 0 without authentication, and as many bytes printed in upper case |
| `ClientCalls.SM4DecryptExact` | mvp/client/src/AuthClient.cpp:144-192 | for every chip: 2 to 512 digits are taken, decrypted likewise, and shown up to their length, 255 bytes or the first zero byte |
| `ClientCalls.CryptoRequestExact` | mvp/client/src/HardwareAdapter.cpp:53-64 | the adapter passes at most 512 bytes on, with the index cut to eight bits, and the chip's code and output back |
| `ClientCalls.SM2GenerateKeyExact` | mvp/client/src/AuthClient.cpp:222-230 | a pair is generated in the slot named, in an authenticated session, and the chip's code returned |
| `ClientCalls.SM2ExportExact` | mvp/client/src/AuthClient.cpp:232-243 | of the 512-byte buffer, 65 bytes are handed over after 0x04, 33 after 0x02 or 0x03, else all up to the last that is not zero; -1 if all are zero |
| `ClientCalls.KeyLengthExact` | mvp/client/src/HardwareAdapter.cpp:80-92 | the length chosen is 65, 33, or that of the buffer without its trailing zeros |
| `ClientCalls.NothingPastExact` | mvp/client/src/HardwareAdapter.cpp:80-92 | nothing lies past the key if and only if all is zero from byte 65 on after 0x04, and from byte 33 on after 0x02 or 0x03 |
| `ClientCalls.SM2ImportExact` | mvp/client/src/AuthClient.cpp:245-255 | 1 to 512 bytes are imported, filled up with zeros to 512, into the slot named |
| `ClientCalls.SM2EncryptExact` | mvp/client/src/AuthClient.cpp:257-269 | for every chip: 1 to 65439 bytes are encrypted whole, and 96 bytes more assigned in lower-case digits |
| `ClientCalls.SM2DecryptExact` | mvp/client/src/AuthClient.cpp:271-284 | for every chip: at least 96 bytes are decrypted at their length modulo 2^16, and 96 bytes less than given assigned |
| `ClientCalls.SM2SignExact` | mvp/client/src/AuthClient.cpp:286-298 | for every chip: data that are not empty are signed at their length modulo 2^16 in the slot named, and 64 bytes assigned; the code is the chip's |
| `ClientCalls.SM2VerifyExact` | mvp/client/src/AuthClient.cpp:300-307 | for every chip: the key is brought into slot 3, then the signature asked about; the code is the chip's for the signature, its code for the key if it refuses that, and -1 otherwise |
| `ClientCalls.VerifyCodeExact` | mvp/client/src/HardwareAdapter.cpp:152-171 | the same read off the log: the second response if there are two, the first if it is an error, else -1 |
| `ClientCalls.VerifiedExact` | mvp/client/src/HardwareAdapter.cpp:152-171 | a signature is reported good if and only if the arguments are in order and the chip took the key and said so |
| `Sessions.CommandCloses` | mvp/client/src/AuthClient.cpp:69-298 | whatever the chip answers, every command but the verification works only inside its own session, uses SM2 and imports keys only after a successful authentication in it, and closes it exactly once |
| `Sessions.VerifierCalls` | mvp/client/src/AuthClient.cpp:300-307 | outside any session, a verification first imports the caller's key into slot 3, if and only if its arguments pass the checks, and then, if and only if the chip took the key and the signature has at most 128 bytes, verifies with it |
| `Sessions.RunIsSafe` | mvp/client/src/AuthClient.cpp:69-307 | the discipline holds over every sequence of commands and every behaviour of the chip |
| `Sessions.RunIsStrict` | mvp/client/src/AuthClient.cpp:69-298 | over every sequence of commands without a verification, no call is made outside a session |
| `Sessions.OutsideIsVerification` | mvp/client/src/AuthClient.cpp:69-307 | in every run, a call outside a session is made by a verification command |
| `Sessions.RunClosesWhatItOpens` | mvp/client/src/AuthClient.cpp:69-307 | in every run there are as many closings as successful openings |
| `RoundTrips.CommandKeying` | mvp/client/src/AuthClient.cpp:69-307 | no command changes a key but the ones listed for it |
| `RoundTrips.RunKeying` | mvp/client/src/AuthClient.cpp:69-307 | so no run without them does |
| `RoundTrips.CommandResult` | mvp/client/src/AuthClient.cpp:69-298 | a command past its own checks succeeds if and only if the chip opens, authenticates if asked and carries the request out, and then returns what came of it |
| `RoundTrips.EcbInverts` | mvp/client/src/HardwareAdapter.cpp:46-48 | block by block, decryption undoes encryption and keeps the length |
| `RoundTrips.ShownText` | mvp/client/src/AuthClient.cpp:183-188 | what is shown of a padded plaintext is cut at 255 bytes and at the first zero |
| `RoundTrips.EncryptedText` | mvp/client/src/AuthClient.cpp:107-142 | the line printed is the hexadecimal form of the padded plaintext's encryption, a multiple of 16 and at most 256 bytes |
| `RoundTrips.DecryptedText` | mvp/client/src/AuthClient.cpp:144-192 | what a decryption of such a line shows; the empty line is turned away |
| `RoundTrips.SM4TextRoundTrip` | mvp/client/src/AuthClient.cpp:107-192 | after any commands that import no key, decrypting the printed line succeeds if and only if the text is not empty and the chip is willing, and shows the plaintext up to its first zero byte and 255 bytes |
| `RoundTrips.SM4TextWholeExact` | mvp/client/src/AuthClient.cpp:183-188 | that is the whole plaintext if and only if it has at most 255 bytes and no zero byte |
| `ExampleChip.TextWithNulIsCut` | mvp/client/src/AuthClient.cpp:188 | a run that encrypts and decrypts a concrete plaintext, which does not come back whole |
| `ExampleChip.IsEcb` | mvp/client/src/HardwareAdapter.cpp:46-48 | a chip whose cipher depends on the key meets the assumption of the SM4 text round trip |
| `ExampleChip.IsSM2` | mvp/client/include/FuncLib.h:215-235 | the same chip, which keeps the halves of key pairs apart, meets that of the SM2 round trip |
| `ExampleChip.IsExactSM2` | mvp/client/include/FuncLib.h:190-235 | it meets the further ones: it refuses what was meant for another key, fails for no other reason, and exports the public key |
| `ExampleChip.ShowsText` | mvp/client/src/AuthClient.cpp:107-192 | on it, every text of 1 to 256 bytes goes through both commands without an error |
| `RoundTrips.SM4TextTakenExact` | mvp/client/src/AuthClient.cpp:116-121 | a plaintext is taken whole if and only if it has at most 256 bytes |
| `KeyPairs.SM2RoundTrip` | mvp/client/src/AuthClient.cpp:257-284 | an encrypted message has 1 to 65439 bytes, its ciphertext 97 to 65535; if the public key was last set by generating the pair or to its key, then after any commands that generate no new pair in the slot, imports and verifications included, decryption succeeds if and only if the chip is willing, and yields the message |
| `KeyPairs.SM2ComesBackExact` | mvp/client/src/AuthClient.cpp:257-284 | with a reliable chip, the message comes back if and only if that was so |
| `KeyPairs.ForeignIsRefused` | mvp/client/src/AuthClient.cpp:271-284 | if it was not, decryption fails |
| `KeyPairs.OpenedExact` | mvp/client/src/AuthClient.cpp:257-284 | encrypted in one slot and decrypted at any time in another, the message comes back from a willing chip if the private key there belongs to the public key here, and is refused if not |
| `KeyPairs.MatchedExact` | mvp/client/include/FuncLib.h:182-198 | the halves in a slot belong together if and only if the last keying call carried out generated the pair or imported its key |
| `KeyPairs.AddedBytesDecrypted` | mvp/client/src/HardwareAdapter.cpp:128-139 | a multiple of 65536 bytes added to a ciphertext comes back as that many zeros after the message, with code 0 |
| `KeyPairs.VerificationTakesOverSlot3` | mvp/client/src/HardwareAdapter.cpp:152-171 | what is encrypted under slot 3 after a verification is opened by the private key of whoever was verified, and refused by the slot's own unless that is the same |
| `KeyPairs.HandedOnKeyExact` | mvp/client/src/AuthClient.cpp:232-284 | a message encrypted under a key that was exported from another slot and imported is decrypted in that slot if the exported buffer is zero past the chosen length, and refused if not, with any commands that generate no pair there in between |
| `RoundTrips.SM2LengthRejected` | mvp/client/src/HardwareAdapter.cpp:114-119 | all other lengths are rejected with -1 and the output string is left |
| `RoundTrips.KeyTransferExact` | mvp/client/src/AuthClient.cpp:232-255 | after an export and any other commands, an admitted import makes exactly one call of the SDK in its session, with the buffer the export had filled if and only if that is all zero past the chosen length; with no known prefix, always |
| `ExampleChip.KeyTailIsLost` | mvp/client/src/HardwareAdapter.cpp:81-82 | a chip and a run of both commands in which the buffer does not arrive |
| `RoundTrips.SignedPartExact` | mvp/client/src/HardwareAdapter.cpp:141-150 | the chip signs the whole message if and only if its length fits 16 bits |
| `RoundTrips.AddedBytesUnsigned` | mvp/client/src/AuthClient.cpp:286-298 | signing data with a multiple of 65536 bytes added does and returns the same as signing the data |
| `RoundTrips.AddedBytesUnverified` | mvp/client/src/AuthClient.cpp:300-307 | the same for verifying, so a signature accepted for the data is accepted for the longer data |
| `RoundTrips.VerificationRekeysExact` | mvp/client/src/HardwareAdapter.cpp:152-171 | after a verification, the key last put in slot 3 is the one given to it if and only if the arguments pass the checks and the chip takes the key, also when the signature is too long or refused; otherwise it is the one from before |
| `ExampleChip.VerificationSpoilsSlot3` | mvp/client/src/HardwareAdapter.cpp:152-171 | a chip and a run for every message: generate a pair in slot 3, verify, encrypt, all successfully; decryption is then refused |
| `ExampleChip.EarlierMessageComesBack` | mvp/client/src/HardwareAdapter.cpp:152-171 | with the verification after the encryption, the message comes back |
| `Transport.RecvExact` | tests/mocks/MockTransportAdapter.cpp:83-101 | the caller gets the first bytes of the front message, as many as there is room for, and their number as an int |
| `Transport.RecvVectorExact` | tests/mocks/MockTransportAdapter.cpp:103-111 | the same for the vector form, kept as far as that int says, and not at all if it is not positive |
| `Transport.CutForRoomOnly` | tests/mocks/MockTransportAdapter.cpp:83-111 | over every run, a delivered message that an int can count is cut only if its caller had less room, and then to just that |
| `Transport.SendExact` | tests/mocks/MockTransportAdapter.cpp:58-71 | data are recorded when connected and their size returned as an int; else -1 |
| `Transport.ConnectionExact` | tests/mocks/MockTransportAdapter.cpp:32-52 | what connecting, disconnecting and clearing leave |
| `Transport.SimulateExact` | tests/mocks/MockTransportAdapter.cpp:205-209 | the message is queued last and its size counted modulo 2^64 |
| `Transport.FirstInFirstOut` | tests/mocks/MockTransportAdapter.cpp:83-101 | over every run, messages leave in the order they were put in and none is lost track of |
| `Transport.DeliveriesArePrefixes` | tests/mocks/MockTransportAdapter.cpp:97-111 | every delivery is a prefix of its message |
| `Transport.Conservation` | tests/mocks/MockTransportAdapter.cpp:46-111 | bytes put in = bytes handed over + bytes cut + bytes thrown away by disconnections + bytes queued; the counter shows the first modulo 2^64 |
| `Transport.DeliveredIsHandedOver` | tests/mocks/MockTransportAdapter.cpp:83-111 | the delivered bytes are exactly those the callers received |
| `Transport.SentSinceClear` | tests/mocks/MockTransportAdapter.cpp:58-71 | the sent record is what was accepted since the latest clearing |
| `Transport.KeptExact` | tests/mocks/MockTransportAdapter.cpp:103-111 | the vector form hands over all it took if and only if an int can count it |
| `MockTransport.MockTransportAdapter.constructor` | tests/mocks/MockTransportAdapter.cpp:7-26 | a new transport is disconnected with nothing queued or sent |
| `MockTransport.MockTransportAdapter.Connect` | tests/mocks/MockTransportAdapter.cpp:32-38 | connects and keeps the queue |
| `MockTransport.MockTransportAdapter.Disconnect` | tests/mocks/MockTransportAdapter.cpp:46-52 | the loop empties the queue |
| `MockTransport.MockTransportAdapter.Send` | tests/mocks/MockTransportAdapter.cpp:58-71 | records the data when connected; the size returned is cast to int |
| `MockTransport.MockTransportAdapter.Recv` | tests/mocks/MockTransportAdapter.cpp:83-101 | takes one message and writes its start to the buffer, leaving the rest of the buffer |
| `MockTransport.MockTransportAdapter.RecvVector` | tests/mocks/MockTransportAdapter.cpp:103-111 | takes one message and returns its start |
| `MockTransport.MockTransportAdapter.SimulateReceiveData` | tests/mocks/MockTransportAdapter.cpp:205-209 | queues the message, connected or not |
| `MockTransport.MockTransportAdapter.ClearSentData` | tests/mocks/MockTransportAdapter.cpp:216-219 | forgets what was sent |
| `MockTransport.MockTransportAdapter.GetTotalBytesSent` | tests/mocks/MockTransportAdapter.cpp:191-198 | the loop sums the recorded sends modulo 2^64 |

## Left out

- Software.CryptoSoftware.SM3Final: requires gathered data when a stream is open, as `FuncLib.h` does of its callers,
  because the code otherwise copies 32 bytes out of an empty vector. When that is so is stated by
  `Streaming.GatheredExact`; histories that do it anyway are given the state the code sets and no bytes written.
- Client.AuthClient.SM4Encrypt: requires that the text's length does not turn negative when cast to int, because the
  code otherwise copies a huge number of bytes. Lengths that wrap to something else are modelled.
- Software.CryptoSoftware.SM2Encrypt: with one buffer for message and ciphertext, messages of more than 96 bytes are
  excluded, because `memcpy` is then given overlapping regions.
- Software.CryptoSoftware.SM2Decrypt: with one buffer for message and ciphertext and more than 192 bytes, the code gives
  `memcpy` overlapping regions; the model copies them as if they were apart.
- Software.SM2KeyPair.Clear: the fixed-size byte arrays inside slots are sequence-valued fields, so the model does not
  say in which order their bytes are overwritten. Callers' buffers are arrays, updated in place.
- Real SM2, SM3 and SM4: the provider does not implement them, and the library behind `FuncLib.h` is not part of this
  model.
- Slot sign, verify, digest sign and verify, sm4Final and initialize are in `Provider.Op` but have no method of their
  own: they draw bytes or return a constant. So do the vector-style random generators, and getLastError's texts.
- Implementations of `IHardware` other than the adapter: the client is modelled with the adapter it makes by default.
- Partially overlapping buffers, allocation failures, the mutex and the asynchronous forms of the transport.
- Console messages other than the hexadecimal line of SM4encrypt and the text of SM4decrypt.
- `SecureBase`, `SecureClient`, `SecureServer`, the handshake and framing of the design documents: no code does them.
- `TransportSocket`, `trans.c`, `main.cpp`, board files and build scripts: input, output and configuration.
