# Record protection, ECDSA signature forms, key derivation and hash contexts of rustls-wolfcrypt-provider

The crate connects rustls to wolfCrypt. The ciphers, curves and compression functions live in
wolfCrypt; what the crate itself owns is the code around them: buffers, layouts, nonces, lengths,
encodings and copies of state. This project models that code and proves what it is for. The
primitives are parameters: a keystream and a tag function (`Aead.Primitive`), a compression function
(`Sha.Core`), the curve library's sign and verify (`Ecdsa.Curves`). Everything below holds for
every choice of them.

Check it with `dafny verify dfyconfig.toml`.

## Main results

1. **In-order delivery over whole runs** (`Connection`). A sender, a network that may drop, reorder,
   repeat or replace everything in flight, and a receiver take any number of steps. If, at each
   receive, a tuple that opens is one the sender sealed at *some* position, then what is delivered is
   a prefix of what was sent, payloads and content types included, and every record accepted is the one
   sent at that position, octet for octet. TLS 1.2 GCM takes its nonce off the wire,
   so there the position is bound by the additional data alone; ChaCha20 TLS 1.2 and TLS 1.3 bind it
   by the nonce. Without network interference and with messages that fit, nothing is ever refused and
   no hypothesis is needed.
   `Endpoints.Drive` runs the encrypter and decrypter objects on mutable buffers and delivers the
   same messages as the step machine.
2. **Exact acceptance of every decrypter** (`RecordTheorems`): which records, out of all records,
   are accepted, and as what. The round trips follow. TLS 1.3 gives back payload and type *if and only
   if* the type is nonzero and payload plus padding stay within 2^14 octets; `Tls13ZeroTypeFails` shows
   what a zero type does.
3. **ECDSA forms are inverse** (`Der`, `Ecdsa`): the DER printer and a strict parser are inverse in
   both directions, the verifier's fixed-width conversion inverts the signer's, and the 141-octet buffer
   is exactly large enough for two 66-octet integers. (The comment at `sign/ecdsa.rs:235` calls 141 the
   P-521 maximum; for P-521's scalars below 2^521 the maximum is 139, and `P521SizeBound` says exactly
   when it is reached.)
4. **Hash contexts refine byte logs** (`HashContexts.Replay`): any interleaving of start, update, fork,
   fork_finish and finish over any number of live objects outputs the one-shot hashes of exactly the
   octets fed along each context's ancestry.
5. **HMAC, HKDF and PRF adapters** (`Hmac`, `KeyStreams`, `KeyStreamLaws`, `Hkdf`, `Prf`): outputs satisfy
   the recurrences of the standards on the octets themselves, chunk lists flatten in order,
   extraction is HMAC, the default salt is the empty salt, the length limit is the one-octet
   counter, and shorter outputs are prefixes of longer ones.

## How the model follows the source

| file | models |
|---|---|
| `Bytes`, `Aead` | octets, XOR, big-endian integers, chunk lists; AEAD as keystream and tag, with the library calls that fill caller's buffers |
| `Records`, `RecordTheorems` | nonce, additional data, the three layouts on values; theorems about them |
| `WireFormat` | the octets sent and the refusals, in terms of the primitives alone |
| `Buffers` | rustls's outbound `PrefixedPayload` and inbound borrowed payload, updated in place |
| `GcmTls12`, `ChaChaTls12`, `Tls13Cipher` | the encrypters and decrypters of `src/aead`; the two AES files differ only in key length and share one pair of classes |
| `Connection`, `Endpoints` | runs of a connection, on values and on objects |
| `Der`, `Ecdsa` | `sign/ecdsa.rs` and `verify/ecdsa.rs` |
| `Sha`, `ShaObjects`, `HashContexts` | `src/hash` over a SHA object with a block buffer |
| `Hmac`, `KeyStreams`, `KeyStreamLaws`, `Hkdf`, `Prf` | `hmac/mod.rs`, `hkdf.rs`, `prf.rs` |

The rustls helpers the ciphers call are not part of this repository; they are modelled from their
standards: `Nonce::new` (section 5.3 of RFC 8446), `make_tls12_aad` (section 6.2.3.3 of RFC 5246),
`make_tls13_aad` (section 5.2 of RFC 8446), `into_tls13_unpadded_message` (section 5.4 of RFC 8446,
with its 2^14 + 1 limit; the delivered version is TLS 1.3). The 16-bit length in the additional data
is truncated explicitly. SHA follows FIPS 180-4, HMAC RFC 2104, HKDF RFC 5869, P_hash RFC 5246, DER
X.690 and RFC 3279.

In the step machine a refused record leaves the receiver as it was and the run may go on. A
connection that stops at the first refusal has fewer runs, so the theorems cover it. Positions are
64-bit. A TLS 1.3 sender is taken to use nonzero content types, of any payload size, for in-order
delivery; for every message to arrive its payloads must also be at most 2^14 octets.
`Tls13RoundTripIff` shows that both together are exactly what arrival needs.

## Model

| member | source | states |
|---|---|---|
| Connection.InOrderDelivery | rustls-wolfcrypt-provider/src/aead/aes128gcm.rs:117-170 | for every layout and every run in which only sealed tuples open, the messages delivered are a prefix of those sent, whatever the network does and whatever the payload sizes; in TLS 1.3 content types are nonzero |
| Connection.DeliveryIsPrefix | rustls-wolfcrypt-provider/src/aead/chacha20.rs:229-264 | the same as an invariant kept from any state that has it |
| Connection.StepKeepsOrder | rustls-wolfcrypt-provider/src/aead/aes128gcm.rs:117-170 | every send, network and receive step keeps delivery in order |
| Connection.AcceptedIsNext | rustls-wolfcrypt-provider/src/aead/aes128gcm.rs:141-169 | under the hypothesis, a record that is accepted is the one sent next in order, octet for octet (in TLS 1.3 up to the ignored outer header), and brings its message |
| Connection.Gcm12PositionBound | rustls-wolfcrypt-provider/src/aead/aes128gcm.rs:132-147 | in TLS 1.2 GCM the additional data alone ties a presented tuple to its position and header, although the nonce comes off the wire |
| Connection.ChaCha12PositionBound | rustls-wolfcrypt-provider/src/aead/chacha20.rs:118-122 | in TLS 1.2 ChaCha20 the sequence-derived nonce ties a tuple to its position, the additional data to its header |
| Connection.Tls13PositionBound | rustls-wolfcrypt-provider/src/aead/aes128gcm.rs:260-264 | in TLS 1.3 the nonce ties a tuple to its position; the additional data carries none |
| Connection.SealedTupleIsNext | rustls-wolfcrypt-provider/src/aead/chacha20.rs:108-141 | a receiver presenting a tuple the sender sealed stands at its position and gets the message sealed there, or refuses it exactly for its size |
| Connection.SealedTupleIsTheRecord | rustls-wolfcrypt-provider/src/aead/aes128gcm.rs:132-151 | the record it was presented from is then the one sent, octet for octet |
| Connection.NextRecordDelivers | rustls-wolfcrypt-provider/src/aead/chacha20.rs:70-141 | the record of a position is accepted at that position and gives the message sent, exactly if the message fits |
| Connection.QuietNetworkDeliversAll | rustls-wolfcrypt-provider/src/aead/aes128gcm.rs:77-170 | without network interference, and with messages that fit, every receive delivers the next message, with no hypothesis |
| Connection.OuterHeader | rustls-wolfcrypt-provider/src/aead/aes128gcm.rs:237-241 | every record a TLS 1.3 connection sends shows type 23, version 0x0303 and a length; TLS 1.2 shows the type and version of the message |
| Connection.NoncesNeverRepeat | rustls-wolfcrypt-provider/src/aead/aes128gcm.rs:86-87 | two positions of one session never use the same nonce, whatever is sent |
| Connection.ReceiverRebuildsTuple | rustls-wolfcrypt-provider/src/aead/aes128gcm.rs:132-151 | the receiver rebuilds nonce, additional data, ciphertext and tag of the sender from wire lengths and what it holds |
| RecordTheorems.NonceInjective | rustls-wolfcrypt-provider/src/aead/aes128gcm.rs:20-30 | nonces coincide exactly when sequence numbers do, already in the explicit eight octets; the first four are the implicit IV |
| RecordTheorems.Tls12AadInjective | rustls-wolfcrypt-provider/src/aead/aes128gcm.rs:142-147 | additional data determines sequence number, type, version and the length modulo 2^16, and nothing else |
| RecordTheorems.Tls12AadFields | rustls-wolfcrypt-provider/src/aead/aes128gcm.rs:90 | every field of the additional data reads back, the length modulo 2^16 |
| RecordTheorems.Tls13AadFields | rustls-wolfcrypt-provider/src/aead/aes128gcm.rs:220 | type, legacy version and length read back; there is nothing else in it |
| RecordTheorems.UnpadIff | rustls-wolfcrypt-provider/src/aead/aes128gcm.rs:276-279 | padding removal yields payload and type exactly of the inner plaintexts made of them and any zeros, within the limit |
| RecordTheorems.Gcm12AcceptsIff | rustls-wolfcrypt-provider/src/aead/aes128gcm.rs:117-170 | the records a TLS 1.2 GCM decrypter accepts as m are exactly the sealings of m at this position, under any explicit nonce |
| RecordTheorems.ChaCha12AcceptsIff | rustls-wolfcrypt-provider/src/aead/chacha20.rs:108-141 | exactly one record is accepted as m at a position: the one the encrypter makes |
| RecordTheorems.Tls13AcceptsIff | rustls-wolfcrypt-provider/src/aead/aes128gcm.rs:250-280 | the payloads accepted as m are exactly the sealings of m with any padding within the limit; the outer header is ignored |
| RecordTheorems.Gcm12RoundTrip | rustls-wolfcrypt-provider/src/aead/aes128gcm.rs:77-170 | a decrypter holding only the first four IV octets gives back every message |
| RecordTheorems.Tls13RoundTripIff | rustls-wolfcrypt-provider/src/aead/aes128gcm.rs:206-280 | with any padding, payload and type come back if and only if the type is nonzero and the size is within the limit |
| RecordTheorems.Tls13ZeroTypeFails | rustls-wolfcrypt-provider/src/aead/aes128gcm.rs:216-224 | concrete messages of type zero: one is refused, one comes back as a different message |
| Bytes.XorBitsBit | rustls-wolfcrypt-provider/src/aead/aes128gcm.rs:86-87 | each bit of an exclusive-or is the sum modulo 2 of the two bits |
| Bytes.BitByDivision | rustls-wolfcrypt-provider/src/aead/aes128gcm.rs:86-87 | bit i is the quotient by 2^i, modulo 2 |
| Bytes.ToBEOctet | rustls-wolfcrypt-provider/src/aead/aes128gcm.rs:86-90 | each octet of a big-endian encoding is its base-256 digit, the most significant first |
| WireFormat.NonceBits | rustls-wolfcrypt-provider/src/aead/aes128gcm.rs:86-87 | each bit of each nonce octet is that of the padded sequence number exclusive-or that of the IV |
| WireFormat.Gcm12OnTheWire | rustls-wolfcrypt-provider/src/aead/aes128gcm.rs:86-108 | header, explicit nonce, enciphered payload and tag of a TLS 1.2 GCM record at their places, in terms of keystream and tag functions |
| WireFormat.ChaCha12OnTheWire | rustls-wolfcrypt-provider/src/aead/chacha20.rs:79-99 | header, enciphered payload and tag of a TLS 1.2 ChaCha20 record at their places |
| WireFormat.Tls13OnTheWire | rustls-wolfcrypt-provider/src/aead/aes128gcm.rs:216-241 | outer header, enciphered payload and type, and tag of a TLS 1.3 record at their places |
| WireFormat.Tls13HidesType | rustls-wolfcrypt-provider/src/aead/aes128gcm.rs:237-241 | messages of equal payload length leave with equal header and length, whatever their types |
| WireFormat.Gcm12RefusesIff | rustls-wolfcrypt-provider/src/aead/aes128gcm.rs:128-164 | refused for length exactly below 24 octets, for the tag exactly when it does not verify, otherwise accepted |
| WireFormat.ChaCha12RefusesIff | rustls-wolfcrypt-provider/src/aead/chacha20.rs:115-135 | refused for length exactly below 16 octets, for the tag exactly when it does not verify, otherwise accepted |
| WireFormat.Tls13RefusesIff | rustls-wolfcrypt-provider/src/aead/aes128gcm.rs:257-279 | the exact condition of each of the four refusals: length, tag, size, no nonzero octet |
| Aead.OpenIffSealed | rustls-wolfcrypt-provider/src/aead/aes128gcm.rs:102-103 | opening gives a plaintext exactly for the sealing of it |
| Aead.SealOctets | rustls-wolfcrypt-provider/src/aead/aes128gcm.rs:102-103 | bit by bit, the ciphertext is the plaintext exclusive-or the keystream octet of its place; the tag is over nonce, additional data and ciphertext |
| Aead.Encrypt | rustls-wolfcrypt-provider/src/aead/aes128gcm.rs:95-103 | the caller's ciphertext and tag buffers together hold the sealing |
| Aead.Decrypt | rustls-wolfcrypt-provider/src/aead/aes128gcm.rs:151-164 | succeeds exactly when the tag verifies, and then fills the plaintext buffer |
| Buffers.PrefixedPayload.ExtendFromChunks | rustls-wolfcrypt-provider/src/aead/aes128gcm.rs:88 | appends the chunks in order, as if they were one |
| Endpoints.CutsDoNotMatter | rustls-wolfcrypt-provider/src/aead/aes256gcm.rs:83-108 | equal headers and equal octets make the same record however they are cut into chunks; cutting a chunk in two or inserting an empty one changes no record |
| Buffers.PrefixedPayload.Overwrite | rustls-wolfcrypt-provider/src/aead/aes128gcm.rs:105 | replaces exactly the region and keeps every octet around it |
| Buffers.InboundOpaqueMessage.OverwriteFront | rustls-wolfcrypt-provider/src/aead/aes128gcm.rs:166 | replaces exactly the front and keeps every octet behind it |
| Buffers.InboundOpaqueMessage.PopContentType | rustls-wolfcrypt-provider/src/aead/chacha20.rs:262 | the backward loop leaves the content before the last nonzero octet and returns that octet, or empties the payload and returns zero |
| Buffers.InboundOpaqueMessage.IntoTls13UnpaddedMessage | rustls-wolfcrypt-provider/src/aead/aes128gcm.rs:279 | refuses oversized and all-zero inner plaintexts, otherwise sets type, version and payload of the message |
| GcmTls12.Encrypter.constructor | rustls-wolfcrypt-provider/src/aead/aes128gcm.rs:20-30 | the IV is the implicit part followed by the explicit part |
| GcmTls12.Encrypter.Encrypt | rustls-wolfcrypt-provider/src/aead/aes128gcm.rs:78-113 | growing, overwriting and extending one buffer gives explicit nonce, ciphertext and tag of the joined chunks, of the predicted length, under the header of the message; bit by bit, the explicit nonce is the sequence number exclusive-or the end of the IV |
| GcmTls12.Decrypter.constructor | rustls-wolfcrypt-provider/src/aead/aes128gcm.rs:32-41 | keeps only the implicit IV |
| GcmTls12.Decrypter.Decrypt | rustls-wolfcrypt-provider/src/aead/aes128gcm.rs:117-170 | in place: the plaintext moved down and cut off, octets behind it untouched; a refused record unchanged |
| ChaChaTls12.Cipher.constructor | rustls-wolfcrypt-provider/src/aead/chacha20.rs:20-38 | key and IV of exactly 32 and 12 octets are taken over |
| ChaChaTls12.Cipher.Encrypt | rustls-wolfcrypt-provider/src/aead/chacha20.rs:70-104 | a second buffer holds ciphertext and tag of the joined chunks, of the predicted length, under the header of the message |
| ChaChaTls12.Cipher.Decrypt | rustls-wolfcrypt-provider/src/aead/chacha20.rs:108-141 | in place, octets behind the plaintext untouched; a refused record unchanged |
| Tls13Cipher.Cipher.Encrypt | rustls-wolfcrypt-provider/src/aead/aes128gcm.rs:207-246 | payload and type sealed in place, the tag appended, of the predicted length, under outer type 23 and version 0x0303 for every message |
| Tls13Cipher.Cipher.OpenInPlace | rustls-wolfcrypt-provider/src/aead/aes128gcm.rs:255-277 | the inner plaintext, padding included, replaces the ciphertext in place, with everything behind it untouched; a refused record is unchanged |
| Tls13Cipher.Cipher.Decrypt | rustls-wolfcrypt-provider/src/aead/chacha20.rs:230-263 | opens and strips in place, never touching the tag and what lies behind it; a record that does not verify is unchanged |
| Endpoints.Transmit | rustls-wolfcrypt-provider/src/aead/aes128gcm.rs:174-186 | the sender's objects put on the wire what the step machine says |
| Endpoints.Accept | rustls-wolfcrypt-provider/src/aead/chacha20.rs:155-163 | the receiver's objects make of any record what the step machine says |
| Endpoints.LoopBack | rustls-wolfcrypt-provider/src/aead/aes128gcm.rs:77-280 | encrypter and decrypter objects back to back give the message back if and only if it is sendable and fits, for any chunks |
| Endpoints.Drive | rustls-wolfcrypt-provider/src/aead/aes128gcm.rs:77-280 | a whole run on the objects delivers what the step machine delivers, hence a prefix of what was sent |
| Der.DecodeIffEncoded | rustls-wolfcrypt-provider/src/verify/ecdsa.rs:48-49 | the parser accepts exactly the one encoding of each pair of integers |
| Der.ReadLengthIff | rustls-wolfcrypt-provider/src/verify/ecdsa.rs:48-49 | length octets are read exactly when they are the minimal ones |
| Der.ReadIntegerIff | rustls-wolfcrypt-provider/src/verify/ecdsa.rs:48-49 | an INTEGER is read exactly when it is the minimal non-negative encoding |
| Der.SigSizeBound | rustls-wolfcrypt-provider/src/sign/ecdsa.rs:235-239 | for every field size the largest encoding, reached exactly when both top bits are set; 141 octets at 66 |
| Der.P521SizeBound | rustls-wolfcrypt-provider/src/sign/ecdsa.rs:235-239 | integers below 2^521 need at most 139 octets, and all 139 exactly when both reach the top bit of the 65th octet |
| Der.SigOctets | rustls-wolfcrypt-provider/src/sign/ecdsa.rs:236-239 | the encoding in literal octets: tags, lengths, r before s, each minimal and non-negative |
| Der.PaddedMinBE | rustls-wolfcrypt-provider/src/verify/ecdsa.rs:58-61 | minimal octets right-aligned behind zeros are the fixed-width big-endian octets |
| Ecdsa.FixedRsIffSigDer | rustls-wolfcrypt-provider/src/verify/ecdsa.rs:39-63 | the verifier's conversion yields r and s exactly from the DER the signer makes of them, both directions, all field sizes |
| Ecdsa.FixedRsKeepsValues | rustls-wolfcrypt-provider/src/verify/ecdsa.rs:51-62 | each half of the output, read big-endian, is the integer decoded |
| Ecdsa.AlignRight | rustls-wolfcrypt-provider/src/verify/ecdsa.rs:58-61 | the two copies into a zeroed buffer stay in bounds, never overlap and right-align both halves |
| Ecdsa.DerSigToFixedRs | rustls-wolfcrypt-provider/src/verify/ecdsa.rs:39-63 | the buffer code computes the conversion, error cases included |
| Ecdsa.SigToRs | rustls-wolfcrypt-provider/src/verify/ecdsa.rs:43-49 | succeeds exactly on well-formed DER whose integers fit the capacities, and then fills both prefixes with their minimal octets |
| Ecdsa.VerifySignature | rustls-wolfcrypt-provider/src/verify/ecdsa.rs:84-123 | accepts exactly the DER of an r and s of the scheme's width that the curve library accepts, under a key of the right length |
| Ecdsa.Sign | rustls-wolfcrypt-provider/src/sign/ecdsa.rs:164-241 | the DER sent decodes to the pair r, s the library signed with; fails only for an unsupported scheme or ill-sized key parts, never for the buffer |
| Ecdsa.RsBinToSig | rustls-wolfcrypt-provider/src/sign/ecdsa.rs:236-239 | prints the DER of both integers into the buffer exactly when it fits |
| Ecdsa.SignThenVerify | rustls-wolfcrypt-provider/src/sign/ecdsa.rs:112-147 | keys from any export: signing fails exactly for an unknown curve or a scalar not filling its field, otherwise verification is the library's verdict on the fixed-width octets of its own r followed by its own s |
| Sha.FinishedIsHash | rustls-wolfcrypt-provider/src/hash/sha256.rs:48-52 | finishing the incremental state is the one-shot hash of the octets it stands for |
| Sha.FeedRepresents | rustls-wolfcrypt-provider/src/hash/sha256.rs:54-56 | feeding an octet, across block boundaries, extends the octets the state stands for |
| Sha.PaddingIsLeast | rustls-wolfcrypt-provider/src/hash/sha384.rs:48-52 | padding completes the last block with the least number of zeros, for both block sizes |
| Sha.PaddingOctets | rustls-wolfcrypt-provider/src/hash/sha256.rs:48-52 | padding in literal octets: 0x80, zeros, the length in bits, up to the end of a block and no further than needed |
| Sha.HashLinks | rustls-wolfcrypt-provider/src/hash/sha256.rs:16-20 | the digest is that of the last of the chaining values which compression links over the blocks of the padded message |
| Sha.DigestWord | rustls-wolfcrypt-provider/src/hash/sha384.rs:48-52 | each slice of the digest, read big-endian, is its word of the chaining value; SHA-384 takes the first six |
| ShaObjects.ShaObject.Update | rustls-wolfcrypt-provider/src/hash/sha256.rs:54-56 | the object in place stands for its old octets followed by the new |
| ShaObjects.ShaObject.Finalize | rustls-wolfcrypt-provider/src/hash/sha256.rs:48-52 | padding in the block buffer, over one block or two, yields the hash of the whole log |
| ShaObjects.ShaObject.Copy | rustls-wolfcrypt-provider/src/hash/sha256.rs:40-46 | a copied state, sharing no memory, stands for the same octets |
| HashContexts.HashOf | rustls-wolfcrypt-provider/src/hash/sha256.rs:16-20 | start, update, finish is the one-shot hash |
| HashContexts.StartContext | rustls-wolfcrypt-provider/src/hash/sha256.rs:8-14 | a new context shares nothing and stands for no octets |
| HashContexts.Context.Update | rustls-wolfcrypt-provider/src/hash/sha256.rs:54-56 | the context stands for its old octets followed by the new |
| HashContexts.Context.Finish | rustls-wolfcrypt-provider/src/hash/sha256.rs:48-52 | the hash of all octets fed |
| HashContexts.Context.Fork | rustls-wolfcrypt-provider/src/hash/sha256.rs:40-46 | a separate context for the same octets; the parent is only read |
| HashContexts.Context.ForkFinish | rustls-wolfcrypt-provider/src/hash/sha256.rs:36-38 | the hash so far, with nothing modified |
| HashContexts.Perform | rustls-wolfcrypt-provider/src/hash/sha256.rs:31-57 | one operation on many live contexts changes only its own and keeps them separate |
| HashContexts.Replay | rustls-wolfcrypt-provider/src/hash/sha256.rs:16-56 | any interleaving over any number of contexts outputs the one-shot hashes along each ancestry |
| Hmac.HmacKey.SignConcat | rustls-wolfcrypt-provider/src/hmac/mod.rs:46-74 | the accumulation loop flattens any chunk list in order; the tag is HMAC of the concatenation, spelled out as in RFC 2104 |
| Hmac.MacIgnoresTrailingZeros | rustls-wolfcrypt-provider/src/hkdf.rs:30-34 | zeros at the end of a key of at most one block do not change HMAC |
| Hmac.MacOfBlockKey | rustls-wolfcrypt-provider/src/hmac/mod.rs:71 | HMAC under a key of one block, in the hash alone |
| Hmac.MacHashesLongKey | rustls-wolfcrypt-provider/src/hmac/mod.rs:71 | a longer key acts as its hash |
| Hmac.MacIsHmac | rustls-wolfcrypt-provider/src/hkdf.rs:69 | the tag of any key and message is HMAC in the literal terms of section 2 of RFC 2104 |
| Hkdf.DefaultSaltIdentity | rustls-wolfcrypt-provider/src/hkdf.rs:22-41 | no salt, the empty salt and any all-zero salt up to a block give the same expander |
| Hkdf.Provider.ExtractFromSecret | rustls-wolfcrypt-provider/src/hkdf.rs:22-41 | the expander holds HMAC of the input under the salt, or under hash-length zeros |
| Hkdf.Provider.ExtractFromZeroIkm | rustls-wolfcrypt-provider/src/hkdf.rs:13-20 | the same with hash-length zeros as input |
| Hmac.HkdfExtract | rustls-wolfcrypt-provider/src/hkdf.rs:33-34 | HMAC under the salt, or under hash-length zeros, fills the caller's buffer |
| Hkdf.ResumeExtraction | rustls-wolfcrypt-provider/src/hkdf.rs:43-52 | signing and then taking the tag up as a block gives the expander of extraction: any expansion succeeds or fails on both alike, with the same octets |
| Hkdf.Provider.HmacSign | rustls-wolfcrypt-provider/src/hkdf.rs:54-72 | extraction with the key as salt is HMAC |
| Hkdf.SignBothWays | rustls-wolfcrypt-provider/src/hmac/mod.rs:50-58 | both adapters give the same HMAC on the parts and on the flattened message |
| Hkdf.Expander.ExpandSlice | rustls-wolfcrypt-provider/src/hkdf.rs:93-114 | succeeds exactly up to 255 hash lengths, where the counter fits one octet; the output is the beginning of any blocks that satisfy the recurrence of RFC 5869; refused buffers are unchanged |
| Hkdf.Expander.ExpandBlock | rustls-wolfcrypt-provider/src/hkdf.rs:116-121 | the first block, HMAC of info and counter one; never meets the limit |
| KeyStreams.ShorterIsPrefix | rustls-wolfcrypt-provider/src/hkdf.rs:93-114 | outputs of different lengths agree on their common prefix |
| KeyStreamLaws.HkdfRecurrence | rustls-wolfcrypt-provider/src/hkdf.rs:110-111 | output octets by the recurrence: each block HMAC of the block before, the info and its number |
| KeyStreamLaws.HkdfBlocksCover | rustls-wolfcrypt-provider/src/hkdf.rs:100-111 | such blocks exist for every length allowed |
| KeyStreamLaws.PHashRecurrence | rustls-wolfcrypt-provider/src/prf.rs:48-49 | output octets by the recurrence: each block HMAC of the next A value followed by the seed |
| KeyStreamLaws.PHashBlocksCover | rustls-wolfcrypt-provider/src/prf.rs:48-49 | such blocks exist for every length |
| KeyStreamLaws.PHash48 | rustls-wolfcrypt-provider/src/prf.rs:11-21 | the 48 octets of a master secret spelled out in HMAC |
| KeyStreams.ExpandInto | rustls-wolfcrypt-provider/src/hkdf.rs:104-111 | the block loop fills the output with the first octets of T(1), T(2), and so on |
| KeyStreams.PHashInto | rustls-wolfcrypt-provider/src/prf.rs:48-49 | the block loop fills the output with the first octets of P_hash |
| Prf.WcPrf | rustls-wolfcrypt-provider/src/prf.rs:31-51 | writes the beginning of any blocks that satisfy the P_hash recurrence for the secret over label and seed, as long as the output |
| Prf.ForKeyExchange | rustls-wolfcrypt-provider/src/prf.rs:11-21 | a failed exchange is passed on with the output untouched, otherwise the 48 octets spelled out in HMAC |
| Prf.PrfDependsOnConcatenation | rustls-wolfcrypt-provider/src/prf.rs:43-49 | calls whose label and seed concatenate alike agree as far as both go |

## Left out

- Ecdsa.SigToRs: parses strict DER as X.690 defines it; a laxer parser in the curve library is not modelled.
- Ecdsa.RsBinToSig: prints every pair of integers, zero included; a refusal of zero by the curve library is not modelled.
- Buffers.PrefixedPayload.ExtendFromChunks: a payload is a list of chunks; rustls's view of a window into such a list is taken as already cut to that list, and the reserved header octets in front of the payload are not modelled.
- Hmac.HkdfExtract: HMAC is computed through the hash as a function; the library's own HMAC object is not part of this model.
- Foreign calls are taken to succeed, except for a tag mismatch and malformed DER, so error texts and allocation failures are absent.
- Computational security: authenticity appears only as the stated hypothesis on runs.
- Keys: their zeroisation, `extract_keys`, and the import of private keys from PKCS#8 and SEC1, which is a dispatch over foreign parsers; signing starts from the exported point and scalar.
- Key exchange (`kx.rs`, `kx/*`), RSA and EdDSA signing and verification: dispatch around foreign calls.
- Cipher-suite tables, scheme mappings, error codes and random numbers: finite tables and wrappers.
- Threads, sockets and the `Send`/`Sync` markers.
