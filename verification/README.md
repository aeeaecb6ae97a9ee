# rPGP: framing, nesting and streaming

This project models the parts of rPGP, an OpenPGP library, that sit around the cryptographic primitives: the codecs,
the packet grammars, the chunked and streaming transformers, and the loops that feed hashes and ciphers. Block
ciphers, hashes, AEAD, HKDF, CRC-24 and Diffie-Hellman are function parameters. Where a proof needs a law of one of
them (an inverse, a digest size), the law is a precondition.

| group | modules |
|---|---|
| octets, MPIs, lengths, strings | `Bytes`, `Mpi`, `PacketLength`, `Utf8` |
| signature packets and what they sign | `SignatureTypes`, `SignatureSer`, `SignatureDe`, `SignatureRoundTrip`, `SignatureReparse`, `SignatureExact`, `SignatureHash`, `SignatureInput`, `SignatureReceived` |
| packet framing and the streaming parser | `PacketHeader`, `PacketParser`, `PacketStream` |
| session key transport | `ShiftRegisters`, `KeyWrap`, `KeyWrapExample`, `Checksum`, `KeyTransport`, `Pkesk` |
| ASCII armor | `LineWriter`, `Base64`, `Base64Reader`, `Base64Decoder`, `ArmorFooter`, `ArmorFooterShape`, `ArmorText`, `Dearmor` |
| chunked AEAD, line endings, cleartext messages, string-to-key | `Seipd`, `NormalizeLines`, `Cleartext`, `S2k` |
| messages and transferable keys | `PacketItems`, `Messages`, `MessageGrammar`, `SignedKeys`, `SignedKeyRoundTrip`, `SignedKeyParser`, `SignedKeySections` |
| all of it composed | `PacketOctets`, `ComposedRoundTrip` |

Code that the source writes as parser combinators and case expressions is functions over octet or packet sequences.
Code that updates a reader, a buffer or a counter is a class or a method with loops, proved equal to such a function
or to the property it is for. A buffered reader is the octets it has not consumed; what `fill_buf` shows of them, and
how much a short read returns, is left open. The streaming results hold for all of these choices; where the code looks
into the buffer only once, the condition on what it must show is part of the result. Errors, panics and requests for
more input are results and not preconditions. Arithmetic that overflows wraps, as in a build without overflow checks.

`dafny verify dfyconfig.toml` checks everything.

## What turned out not to hold, and exactly when it does

- A signature is not always read back from its own serialization: a key server outside ASCII, a fingerprint not of 20
  octets, an MPI with a leading zero, an area of 65536 octets and the like break it, at any nesting depth.
  `SignatureExact.SignatureIsExact` gives the exact condition, `SignatureExact.ParsePrintParse` the one for parsed
  signatures, `SignatureSer.BodyLenIsExact` the one for declared lengths.
- An old-format header with a tag of 16 or more is read as another header: `PacketHeader.HeaderRoundTrip`.
- Reading a two-octet length and writing it back can take more octets: `PacketLength.RewrittenLength`.
- The MPI parser accepts MPIs that cannot be written back: `Mpi.ParsedMpi`, `Mpi.MpiRoundTrip`.
- Verification hashes the hashed subpackets printed again, not the octets that were received. They are the same exactly
  for canonical areas (shortest lengths, flags of 0 or 1, nothing surplus or left over, key servers in ASCII, canonical
  embedded signatures): `SignatureReceived.VerifiesWhatWasReceived`. A primary user id flag of 2, which is read as false
  and hashed as 0, is an area for which they are not: `SignatureReceived.FlagOfTwo`.
- Signing a text that is not normalized hashes something else than verifying it: `SignatureHash.SignAndVerifyAgree`.
- The 16-bit length in front of a hashed key makes the input of any key ambiguous with that of a key that is longer by
  65536 octets: `SignatureHash.LongKeysAreAmbiguous`, `SignatureHash.LongCertifiedKeysAreAmbiguous`. Lengths that agree
  modulo 65536 are the only way: `SignatureHash.BindingInputIsUnique`, `SignatureHash.CertificationInputIsUnique`. Such
  keys can be built through the API; a key with the parameter sizes that the parser accepts stays far below.
- A parsed ECDH session key packet differs from the one written when the wrapped key started with zeros, though it
  still opens: `Pkesk.EcdhPacketParses`.
- The documentation of `LineWriter::finish` lets callers retry after any error; after a failure of its second write,
  the retry repeats the last line: `LineWriter.RetryFinish`.
- SEIPD decryption also accepts a plaintext that ends with an empty chunk: `Seipd.DecryptsExactlyTheSealed`. That is a
  different ciphertext exactly for whole numbers of chunks: `Seipd.ExtraOnlyAtBoundary`.
- A printed message comes back in front of every rest only if all its signatures are one-pass:
  `Messages.PrintRoundTrip`. With nothing behind it, signatures alone that read the same backwards come back as well:
  `Messages.PrintAlone`.
- Padding packets are skipped in front of every message, but between session keys and encrypted data or in front of the
  closing signature of a one-pass layer they are refused: `MessageGrammar.FindsExactlyTheSpelled`,
  `MessageGrammar.NoEncryptedData`, `MessageGrammar.NoClosingSignature`.
- A printed key comes back in front of exactly what does not continue it: `SignedKeyRoundTrip.Reparse`.
- A cleartext body is not found again when it is empty or ends with a carriage return (other than being one), or when
  a CRLF with five dashes comes anywhere later: `Cleartext.BodyRecovered`. The reader looks for its end in the buffer
  once and does not ask for more, so a buffer that ends before the five dashes is refused, and with it every written
  message whose body is longer than the buffer: `Cleartext.ShortBufferFails`, `Cleartext.BodyInBuffer`,
  `Cleartext.WrittenMessageVerifies`.
- After an invalid body, the packet parser goes on behind a fixed length and stops behind a partial one:
  `PacketStream.PartialEqualsFixed`.
- The base64 reader panics on an empty destination exactly in front of a character: `Base64Reader.Base64Reader.Read`.
- The number of string-to-key rounds is computed with 32-bit floats; it is right below 2^24 octets of key:
  `S2k.FloatRoundsAreExact`. At 2^24 + 1 octets and digests of 32 octets a round is missing: `S2k.FirstWrongSize`.
  `S2k.DeriveKey` says for every key size when it panics.
- After an armor footer that does not parse, the read that met it fails and every later one panics:
  `Dearmor.Dearmor.Read`.

## Model

| member | source | states |
|---|---|---|
| `Mpi.MpiRoundTrip` | src/types/mpi.rs:32-53 | A written MPI is read back in front of anything if and only if it has no leading zero octet and its bit count fits 16 bits |
| `Mpi.ParsedMpi` | src/types/mpi.rs:32-53 | What the parser returns is canonical except when all octets are zero or 8192 octets have the top bit set; writing it back never takes more octets than were read |
| `Mpi.StripRestores` | src/util.rs:76-81 | Stripping drops only leading zeros, and as many zeros in front restore the string |
| `Mpi.StripsZeros` | src/util.rs:76-81 | A leading zero is left only where all octets are zero |
| `Mpi.BitSizeIsLength` | src/util.rs:67-73 | The bit count of octets without a leading zero is that of the number they stand for |
| `Bytes.BeValues` | src/packet/sym_encrypted_protected_data.rs:196-200 | Numbers are written with their low 16, 32 or 64 bits, most significant octet first |
| `Utf8.CharCountIsLength` | src/packet/signature/ser.rs:159-159 | Counting characters counts octets exactly for ASCII |
| `Utf8.EncodedIsFound` | src/packet/signature/de.rs:195-199 | The encoding of every Unicode scalar value is accepted, whatever follows it |
| `Utf8.FoundIsEncoded` | src/packet/signature/de.rs:195-199 | Every character that is accepted is the encoding of a scalar value |
| `PacketLength.LengthParses` | src/util.rs:104-125 | Every 32-bit length is read back from its one, two or five octets |
| `PacketLength.RewrittenLength` | src/util.rs:104-125 | Writing a parsed length back takes more octets exactly when its first octet is 224 to 254 |
| `SignatureTypes.SubpacketTypeRoundTrip` | src/packet/signature/types.rs:689-765 | A subpacket type and its critical bit survive the octet if and only if a catch-all does not hold a code that has a name |
| `SignatureSer.BodyLenIsExact` | src/packet/signature/ser.rs:31-181 | The separately computed length equals the octets written, for every kind and nesting depth, if and only if a key server is ASCII and a fingerprint has 20 octets |
| `SignatureSer.WriteArea` | src/packet/signature/ser.rs:263-292 | The loop over subpackets writes their serializations one after the other, or fails if one of them does |
| `SignatureRoundTrip.DataParses` | src/packet/signature/de.rs:286-330 | The body of each well-formed subpacket is parsed back under its own type |
| `SignatureRoundTrip.AreaParses` | src/packet/signature/de.rs:332-340 | A well-formed subpacket area is parsed back in order |
| `SignatureRoundTrip.TwoValues` | src/packet/signature/de.rs:342-372 | Signatures of the algorithms 17, 19 and 22 are read with two values |
| `SignatureRoundTrip.OneValue` | src/packet/signature/de.rs:342-372 | Those of the algorithms 1, 3 and 100 to 110 with one |
| `SignatureRoundTrip.NoValues` | src/packet/signature/de.rs:342-372 | Those of all others with none, and everything is left |
| `SignatureRoundTrip.SignatureParses` | src/packet/signature/de.rs:376-480 | Every well-formed V2 to V5 signature, with as many values as its algorithm has and signatures embedded to any depth, is read back from its serialization followed by anything |
| `SignatureReparse.ParsedSignature` | src/packet/signature/de.rs:470-480 | A parsed signature is well-formed if and only if its key servers are ASCII, its MPIs canonical and its areas still fit 16 bits, at every depth |
| `SignatureExact.SignatureMore` | src/packet/signature/de.rs:470-480 | More input changes nothing of what has been parsed but the rest |
| `SignatureExact.SignatureIsExact` | src/packet/signature/ser.rs:297-326 | A signature is read back from its serialization, in front of any rest, if and only if it is well-formed; so every clause of well-formedness is needed, at every nesting depth |
| `SignatureExact.ParsePrintParse` | src/packet/signature/de.rs:376-480 | What was parsed survives printing and parsing, in front of any rest, if and only if its key servers are ASCII, its MPIs canonical and its areas below 65536 octets, at every depth |
| `SignatureHash.HashSignatureDataV4` | src/packet/signature/config.rs:231-264 | The hand-written hash path with its length filled in afterwards feeds the header and the counted hashed area, and refuses areas of 65536 octets |
| `SignatureHash.HashedDataIsSerializedPrefix` | src/packet/signature/config.rs:231-264 | What is hashed of a V4 or V5 signature is a prefix of what the serializer writes |
| `SignatureHash.SignAndVerifyAgree` | src/packet/signature/types.rs:109-140 | Signing and verifying a document hash the same octets if and only if it is not a text signature on text that is not normalized |
| `SignatureHash.EndingSplits` | src/packet/signature/config.rs:307-322 | Signature data and trailer can be read off the end of any hash input, whatever the configuration: equal inputs have equal front parts, equal signature data and equal covered versions, types, algorithm octets and hashed area octets, also across versions |
| `SignatureHash.CoveredSubpackets` | src/packet/signature/config.rs:247-257 | Configurations covered alike have the same canonical algorithm, and the same hashed subpackets as a well-formed one if and only if theirs are well formed too |
| `SignatureHash.EndingTellsVersion` | src/packet/signature/config.rs:214-230 | No V2 or V3 hash input equals a V4 or V5 one |
| `SignatureHash.DocumentInputIsUnique` | src/packet/signature/config.rs:272-305 | Equal document hash inputs mean the same document and covered octets of the configuration, well formed or not |
| `SignatureHash.CertificationInputIsUnique` | src/packet/signature/types.rs:153-220 | Equal certification hash inputs mean the same covered octets of the configuration and key lengths that agree modulo 65536; the same key, id and, from V4 on, kind of id if and only if the key lengths agree, in particular for any other key when this key and its id are below 65531 octets |
| `SignatureHash.BindingInputIsUnique` | src/packet/signature/types.rs:248-299 | Equal key binding hash inputs mean the same covered octets of the configuration and first keys whose lengths agree modulo 65536; the same two keys in the same order if and only if these lengths agree, in particular for any other keys when these are below 65533 octets |
| `SignatureHash.KeyFrameSplits` | src/packet/public_key_macro.rs:362-376 | Framed keys at the front of equal inputs have lengths that agree modulo 65536, and are equal if and only if their lengths are |
| `SignatureHash.LongKeysAreAmbiguous` | src/packet/public_key_macro.rs:362-376 | For any two keys and any start of a third there is a continuation of the first key by 65536 octets whose binding to the second hashes what the binding of the first to that third hashes |
| `SignatureHash.LongCertifiedKeysAreAmbiguous` | src/packet/signature/types.rs:153-220 | Likewise for certifications, for any key, any id and any start of another id of either kind |
| `SignatureInput.KeyHeader` | src/packet/public_key_macro.rs:362-376 | A hashed key starts with the old-style header of a packet with tag 6 and a length modulo 65536 |
| `SignatureInput.CertificationReads` | src/packet/signature/types.rs:153-220 | A decoder written from the packet tags 6, 13 and 17 and the trailer recovers key, kind of id, id and signature data from every V4 and V5 certification hash input of a key below 65536 octets |
| `SignatureInput.V3CertificationReads` | src/packet/signature/types.rs:153-220 | From a V2 or V3 one it recovers key, id, type octet and creation time |
| `SignatureInput.BindingReads` | src/packet/signature/types.rs:248-299 | From a key binding it recovers both keys in order and the signature data |
| `SignatureInput.DocumentReads` | src/packet/signature/config.rs:272-305 | Documents are hashed under types 0 and 1 as they are, under types 2 and 0x40 with their first octet, and under no other type; the trailer says where the signature data starts |
| `SignatureReceived.MpiReceived` | src/types/mpi.rs:32-53 | A parsed MPI is printed as it was received if and only if its bit count is that of its octets |
| `SignatureReceived.BodyReceived` | src/packet/signature/de.rs:286-330 | The data of a parsed subpacket of any type is printed as it was received, under the right length, if and only if the body is canonical for its type: nothing surplus, flags of 0 or 1, a notation flag of 0 or 128, ASCII key servers, canonical embedded signatures |
| `SignatureReceived.AreaReceived` | src/packet/signature/de.rs:332-340 | A received subpacket area is printed as it was received if and only if, frame by frame, its lengths are the shortest and its bodies canonical, and nothing is left over |
| `SignatureReceived.PrintsWhatWasReceived` | src/packet/signature/ser.rs:297-326 | A parsed V2 to V5 signature is printed as the octets it was parsed from if and only if its areas and MPIs are canonical, at every nesting depth, and nothing follows them |
| `SignatureReceived.VerifiesWhatWasReceived` | src/packet/signature/config.rs:231-264 | Verifying a parsed V4 or V5 signature hashes its received octets up to the end of the hashed area if and only if that area is canonical |
| `SignatureReceived.FlagValues` | src/packet/signature/de.rs:121-205 | Exportable, revocable and primary flags (types 4, 7 and 25) are true for the octet 1 alone |
| `SignatureReceived.FlagOfTwo` | src/packet/signature/config.rs:247-257 | An area with a primary user id flag of 2 is hashed with a flag of 0 |
| `PacketHeader.HeaderRoundTrip` | src/types/packet.rs:98-133 | A written header is read back in front of anything if and only if its tag fits its format and its length fits 32 bits |
| `PacketHeader.ParsedHeaderFits` | src/packet/single.rs:24-102 | Every parsed header consumes octets and has a tag and length that could be written |
| `PacketHeader.HeaderNeedsSix` | src/packet/single.rs:98-102 | Six octets decide every header: more input in the buffer changes nothing but the rest |
| `PacketParser.PacketParser.NextItem` | src/packet/many.rs:34-228 | Whatever prefix the reader's buffer shows, one call yields the item, the `done` flag and the position fixed by the whole remaining stream |
| `PacketParser.PacketParser.FixedBody` | src/packet/many.rs:108-128 | The buffer path for small bodies and the read-exact path for large ones return the same octets and stop at the same place |
| `PacketParser.PacketParser.Chunks` | src/packet/many.rs:175-214 | The loop over partial chunks returns their concatenation and stops behind the last one, for any buffering |
| `PacketParser.PacketParser.ReadToEnd` | src/packet/many.rs:76-98 | An indeterminate body is all that is left, in reads of any size, refused from 2^30 octets on |
| `PacketStream.AtMostOneItemPerOctet` | src/packet/many.rs:34-228 | A whole run yields at most one item per octet of input |
| `PacketStream.Drain` | src/packet/many.rs:34-228 | Driving the parser until it stops yields the same items for any buffering, and leaves it finished for good unless it panicked |
| `PacketStream.CompleteStream` | src/packet/many.rs:34-139 | Over any complete stream without partial packets the parser visits exactly the packets fixed by the encoded lengths, one item each, even when bodies fail to parse |
| `PacketStream.PrintedStream` | src/packet/packet_sum.rs:148-166 | A printed packet sequence is framed back in order with the same formats, tags and bodies |
| `PacketStream.PartialEqualsFixed` | src/packet/many.rs:140-227 | Any legal split of a packet with tag 8, 9, 11 or 18 into power-of-two chunks gives the same item and the same next header as the packet in one piece, however the lengths of the last chunk and of the whole are encoded; `done` differs exactly after an invalid body |
| `PacketStream.PartialBodies` | src/packet/many.rs:140-227 | A body in parts is read if and only if the tag is 8, 9, 11 or 18 and the first part has at least 512 octets; otherwise the stream ends with an error, whatever the parts and the rest |
| `PacketStream.WholeStep` | src/packet/many.rs:108-139 | What is yielded for a body of fixed length: the packet, an incomplete packet, or the parser's error; the stream goes on behind it |
| `PacketStream.TruncatedStep` | src/packet/many.rs:108-128 | A packet shorter than its length says panics up to a length of 1024 octets and ends the stream with an error beyond |
| `PacketStream.IndeterminateStep` | src/packet/many.rs:76-107 | A body without a length is all that is left, below 2^30 octets; the stream ends if it is not parsed |
| `PacketStream.NoPacket` | src/packet/many.rs:34-73 | An octet below 128 starts no packet and ends the stream with an error |
| `PacketStream.LengthEncodings` | src/packet/single.rs:56-73 | Each length can be encoded in up to two ways that the parser reads as that length |
| `ShiftRegisters.ShiftAllUndone` | src/crypto/aes_kw.rs:120-144 | Undoing the steps in reverse order restores the shift registers, for any number of registers and steps and any invertible step |
| `ShiftRegisters.UnshiftToRedone` | src/crypto/aes_kw.rs:120-144 | Redoing the undone steps restores them too |
| `ShiftRegisters.WrapInPlace` | src/crypto/aes_kw.rs:65-87 | The nested index loops that overwrite registers in place compute six rounds of the shift-register definition |
| `ShiftRegisters.UnwrapInPlace` | src/crypto/aes_kw.rs:120-144 | Likewise for the reverse loops |
| `KeyWrap.StepsAreInverse` | src/crypto/aes_kw.rs:73-85 | With inverse block ciphers, the masked wrap and unwrap steps undo each other |
| `KeyWrap.XorIsBitwise` | src/crypto/aes_kw.rs:73-85 | Each bit of the mask's result is the sum modulo 2 of the two bits |
| `KeyWrap.WrapLoop` | src/crypto/aes_kw.rs:42-94 | The wrap loop equals section 2.2.1 of RFC 3394 for every number of blocks and every block function |
| `KeyWrap.UnwrapLoop` | src/crypto/aes_kw.rs:97-156 | The unwrap loop equals section 2.2.2 of RFC 3394, including its errors |
| `KeyWrap.UnwrapWrap` | src/crypto/aes_kw.rs:42-156 | Unwrapping a wrapped key returns it, for every length that is a multiple of 8 |
| `KeyWrap.WrapUnwrap` | src/crypto/aes_kw.rs:42-156 | Whatever unwrapping accepts is the wrapping of what it returns |
| `KeyWrap.Refusals` | src/crypto/aes_kw.rs:10-40 | Data that is not a multiple of 8 octets is refused, then keys that do not have 16, 24 or 32 octets; unwrapping nothing panics |
| `KeyWrapExample.ExchangeWraps` | src/crypto/aes_kw.rs:42-94 | The result for one block under the block function that exchanges halves, octet by octet: it fixes the initial value, the number of steps and the step numbers |
| `Checksum.SimpleChecksum.Write` | src/crypto/checksum.rs:57-80 | After a write the 16-bit state is the sum, with wrap-around, of what it stood for and the octets written |
| `Checksum.ChecksumInPieces` | src/crypto/checksum.rs:33-80 | The checksum does not depend on how the data is cut into writes |
| `KeyTransport.UnpadAccepts` | src/crypto/ecdh.rs:231-263 | Unpadding succeeds if and only if the input is a nonempty text with uniform padding of the length its last octet says |
| `KeyTransport.UnpadPad` | src/crypto/ecdh.rs:390-423 | Padding is undone, and pads to 40 octets or to the next multiple of 8 |
| `KeyTransport.ParamReads` | src/crypto/ecdh.rs:345-372 | The key derivation parameters can be read back: counted curve identifier, algorithm 18, hash and cipher, the anonymous sender, the fingerprint |
| `KeyTransport.KdfReads` | src/crypto/ecdh.rs:376-386 | What is hashed for the key is the counter 1 in four octets, the shared secret and these parameters |
| `KeyTransport.KdfIsFront` | src/crypto/ecdh.rs:376-386 | The derived key is the front of the digest, never longer than the key size |
| `KeyTransport.BuildPlain` | src/packet/public_key_encrypted_session_key.rs:42-69 | The filled buffer is algorithm, key and checksum |
| `KeyTransport.OpenPlain` | src/types/secret_key_repr.rs:34-61 | Taking that buffer apart returns key and algorithm |
| `KeyTransport.OpensExactly` | src/types/secret_key_repr.rs:34-61 | A session key is opened if and only if it is an algorithm other than 0, the key and the key's checksum |
| `KeyTransport.EncryptSucceeds` | src/crypto/ecdh.rs:426-497 | Encryption succeeds if and only if the text has at most 239 octets and the derived key is an AES key; the wrapped key then has 48 to 248 octets |
| `KeyTransport.DecryptEncrypted` | src/crypto/ecdh.rs:201-264 | Decryption inverts encryption on any values that restore the sender's point, length and wrapped key |
| `KeyTransport.DecryptsOnlyWrapped` | src/crypto/ecdh.rs:201-264 | What decryption returns has been padded and wrapped under the key derived from the shared secret |
| `Pkesk.WriteWrapped` | src/packet/public_key_encrypted_session_key.rs:155-169 | The padding loop restores the stripped zeros |
| `Pkesk.EcdhPacketParses` | src/packet/public_key_encrypted_session_key.rs:84-135 | Any ECDH packet that can be written parses, in front of anything, to itself with leading zeros restored; it is the same packet if and only if it has three values, the second of one octet, and no zero was stripped from the third |
| `Pkesk.SessionKeySurvives` | src/packet/public_key_encrypted_session_key.rs:42-69 | Any session key of up to 236 octets with an algorithm other than plaintext survives checksum, padding, key wrap, zero stripping and decryption, directly and after serializing and parsing |
| `Pkesk.SealedHead` | src/packet/public_key_encrypted_session_key.rs:42-69 | A new packet is written as version 3, key id and algorithm 18, then the values |
| `Pkesk.OtherPacketsParse` | src/packet/public_key_encrypted_session_key.rs:84-135 | RSA packets (algorithms 1 to 3) with one value and Elgamal packets (16 and 20) with two are read back |
| `Pkesk.NoEncryption` | src/packet/public_key_encrypted_session_key.rs:84-113 | Of the other algorithms, 22 and 100 to 110 are refused, the rest has no values |
| `LineWriter.LineWriter.Write` | src/line_writer.rs:113-182 | A write accepts a nonempty part of its input and keeps the output a wrapping of what was accepted, or fails and leaves the logical state unchanged; buffers are never overrun |
| `LineWriter.LineWriter.Finish` | src/line_writer.rs:87-103 | What is in the output after success and after each kind of failure |
| `LineWriter.WriteAll` | src/util.rs:210-220 | Through interruptions of the inner writer the loop ends with everything accepted; it stops early only at a failure, with a part of the data accepted and the writer still valid |
| `LineWriter.WrapPieces` | src/line_writer.rs:87-182 | However the writes are cut, the finished output is the wrapping of all that was written |
| `LineWriter.NoEmptyLine` | src/line_writer.rs:113-182 | For every line break and all data the wrapping is a sequence of nonempty lines with a line break behind each, none longer than the width, all but the last exactly as long, which without the breaks are the data |
| `LineWriter.RetryFinish` | src/line_writer.rs:87-103 | Retrying `finish` gives the wrapping if and only if the second write had not failed or there was no last line |
| `Base64.DecodeEncode` | src/base64_decoder.rs:11-11 | The standard engine's decoding inverts its encoding |
| `Base64.DecodesExactlyTheEncoded` | src/base64_decoder.rs:11-11 | Exactly the encodings decode: no other padding, no stray bits, no other characters |
| `Base64.NothingLongerDecodes` | src/base64_decoder.rs:108-132 | No longer prefix of whole groups decodes than the one the retry loop settles on |
| `Base64.TryDecode` | src/base64_decoder.rs:108-132 | The retry loop finds the longest prefix of whole groups that decodes |
| `Base64.DecodableIsData` | src/base64_decoder.rs:108-132 | In front of nothing or of a padding character, what it finds is exactly the data in the slice |
| `Base64Reader.Base64Reader.Read` | src/base64_reader.rs:27-70 | For any refills and any destination, a read returns the next base64 characters without line endings, comes up short only at the first foreign octet, never consumes that octet and never stops among line endings; it panics exactly on an empty destination in front of a character |
| `Base64Reader.ReadInPieces` | src/base64_reader.rs:27-70 | Any sequence of reads concatenates to the newline-free base64 prefix of the stream, as much of it as they ask for, and stops neither behind the first foreign octet nor among line endings; it panics if and only if an empty read comes while characters are left |
| `Base64Decoder.Base64Decoder.Read` | src/base64_decoder.rs:53-104 | On any stream and for any destination sizes the reads concatenate to one and the same decoded string; nothing is delivered to a nonempty destination only at its end, and then buffer and stream hold exactly the characters that do not decode |
| `Base64Decoder.DecodesTheData` | src/base64_decoder.rs:53-132 | From any buffered state, characters that encode data in front of nothing or of a padding character decode to exactly that data and leave exactly what follows |
| `ArmorFooter.FooterParses` | src/armor/reader.rs:299-328 | A checksum and the footer of every block type, multi-part messages included, are read back in front of anything, with any line endings between them or none, and with a line feed, a CRLF or nothing behind them |
| `ArmorFooter.TypeParses` | src/armor/reader.rs:122-181 | No block type is taken for one that is tried earlier, the multi-part form and its numbers included |
| `ArmorFooter.ChecksumReads` | src/armor/reader.rs:275-288 | The four characters written for a 24-bit checksum are read back as that number |
| `ArmorFooter.OpenPgpNames` | src/armor/reader.rs:122-181 | The names of OpenPGP blocks are read as their types |
| `ArmorFooter.MultiPartName` | src/armor/reader.rs:122-181 | So is the name of a part of a multi-part message, with its numbers |
| `ArmorFooterShape.ParsedFooter` | src/armor/reader.rs:299-328 | Whatever the footer parser accepts is a checksum or padding characters, line endings, and a footer line with the name of the type it returns, with or without a line ending, and nothing more is consumed |
| `ArmorText.WriteArmor` | src/armor/writer.rs:59-109 | Body and footer are written as the 64-column wrapping of the encoding, the checksum line and the footer line, however the encoder cuts its writes |
| `ArmorText.WrittenLines` | src/armor/writer.rs:59-109 | What is written are lines of 64 characters, the encoded checksum behind a padding character, and the footer, each with a line feed |
| `ArmorText.Alphabet` | src/base64_decoder.rs:11-11 | The characters are those of section 4 of RFC 4648 |
| `ArmorText.TokensAre` | src/util.rs:35-37 | The reader stops at everything but these characters, padding and line endings |
| `ArmorText.ArmorTokens` | src/armor/writer.rs:59-109 | The base64 characters of a block, with line endings anywhere in its body, are the encoded data and the checksum, and its first foreign octet is the footer's first dash |
| `ArmorText.Boundary` | src/armor/reader.rs:472-486 | When the decoder is done, its buffer and the unread stream start at the checksum or at the footer, with all or none of the line endings in between |
| `ArmorText.ArmorIsBlock` | src/armor/reader.rs:418-507 | Every block, with any line lengths and line endings, decodes to its data, and however the buffer is topped up at its end, the footer found there is the block's and leaves exactly what follows |
| `ArmorText.WrittenIsValid` | src/armor/writer.rs:59-109 | What the writer writes is such a block, with anything behind it |
| `Dearmor.Dearmor.Read` | src/armor/reader.rs:459-507 | On every text and for any read sizes what decodes comes out octet for octet, as much as is asked for; the body is left exactly by a read that asks for more than is left; that read fails if and only if the footer does not parse, has another type or a wrong checksum; after a footer that parses the stream stands right behind it; after one that does not, every read panics |
| `Dearmor.Dearmor.ReadFooter` | src/armor/reader.rs:432-456 | Accepts the footer if and only if it parses and type and checksum are right, consumes exactly it if it parses, and leaves an unusable state otherwise |
| `Dearmor.ReadInPieces` | src/armor/reader.rs:459-507 | Reads of any sizes, empty ones included, deliver as much of the data as they ask for together; the end is reached and what follows left untouched if and only if they ask for more than there is |
| `Dearmor.WriteAndRead` | src/armor/reader.rs:418-507 | The same for written armor, with or without checksum and followed by anything |
| `Seipd.OpenAllSealed` | src/packet/sym_encrypted_protected_data.rs:177-223 | Opening inverts the chunked encryption of section 5.13.2 of RFC 9580, for every plaintext and chunk size |
| `Seipd.SealAllOpened` | src/packet/sym_encrypted_protected_data.rs:177-223 | Success means that the data is the sealing of what is returned: chunk i under nonce iv and i, the last tag under the chunk count and the total length |
| `Seipd.DecryptsExactlyTheSealed` | src/packet/sym_encrypted_protected_data.rs:130-224 | A packet decrypts to a plaintext if and only if it is its encryption, with or without an empty last chunk |
| `Seipd.ExtraOnlyAtBoundary` | src/packet/sym_encrypted_protected_data.rs:181-200 | The empty last chunk makes a different ciphertext if and only if the plaintext is a whole number of chunks |
| `Seipd.Derive` | src/packet/sym_encrypted_protected_data.rs:138-160 | Key and nonce of the right size are derived if and only if the AEAD algorithm is known, and the chunk size is never zero |
| `Seipd.DerivedPieces` | src/packet/sym_encrypted_protected_data.rs:142-160 | Message key and nonce prefix are cut one behind the other from HKDF of salt, session key and associated data, with the sizes of the algorithms; the associated data are the packet's header octet, version and codes |
| `Seipd.ChunkSizes` | src/packet/sym_encrypted_protected_data.rs:272-274 | The chunk size is 64 octets for code 0 and doubles with each code up to 25; beyond, the shift wraps around |
| `Seipd.NoncesDiffer` | src/packet/sym_encrypted_protected_data.rs:196-200 | No two of the first 2^64 chunks have the same nonce |
| `Seipd.LastTag` | src/packet/sym_encrypted_protected_data.rs:202-221 | Data that opens ends with a tag over the chunk count in the nonce and the length of the plaintext behind the associated data |
| `Seipd.TooShort` | src/packet/sym_encrypted_protected_data.rs:177-186 | Data too short for its tags panics |
| `Seipd.Decrypt` | src/packet/sym_encrypted_protected_data.rs:130-224 | The loop that updates the nonce in place returns, fails and panics as the chunk-by-chunk definition does |
| `NormalizeLines.Normalized.Next` | src/normalize_lines.rs:48-118 | One step delivers the first pending octet of the normal form, ends exactly when nothing is pending, and makes progress although it may consume nothing |
| `NormalizeLines.Normalized.Collect` | src/normalize_lines.rs:48-118 | The iterator ends and delivers the normal form of every input, in Crlf and Cr mode |
| `NormalizeLines.NormalAbsorbs` | src/normalize_lines.rs:48-118 | Normalizing to CRLF is idempotent and gives the same after normalizing to CR |
| `NormalizeLines.NormalReplacesEnds` | src/normalize_lines.rs:48-118 | Normalizing keeps the lines of a text and replaces the end of each, CRLF, LF or CR alike |
| `NormalizeLines.EveryTextHasLines` | src/normalize_lines.rs:48-118 | Every text is made of such lines |
| `Cleartext.DashEscape` | src/composed/cleartext.rs:298-308 | The loop escapes line by line |
| `Cleartext.DashUnescape` | src/composed/cleartext.rs:313-325 | The loop unescapes line by line |
| `Cleartext.UnescapeEscape` | src/composed/cleartext.rs:298-325 | Unescaping undoes escaping on every text |
| `Cleartext.LineByLine` | src/composed/cleartext.rs:298-325 | Escaping puts a dash and a space in front of exactly the dashes that start a line, unescaping leaves out exactly a dash and a space that start a line; all other octets are kept |
| `Cleartext.VerifiesWhatWasSigned` | src/composed/cleartext.rs:157-165 | What is verified is what was signed, for every text |
| `Cleartext.LineInitialDash` | src/composed/cleartext.rs:298-308 | In an escaped text a dash at the start of a line is followed by a space |
| `Cleartext.BodyRecovered` | src/composed/cleartext.rs:345-356 | The parser recovers the body and stops at the dashes if and only if the text is a lone carriage return, or is not empty, does not end with one, and no CRLF with dashes follows |
| `Cleartext.ReadFromBuf` | src/armor/reader.rs:509-538 | A parser sees only what the buffer shows; asking for more is as good as failing |
| `Cleartext.ShortBufferFails` | src/composed/cleartext.rs:345-356 | A buffer that ends before the fifth dash behind the text is refused, whatever the text |
| `Cleartext.BodyInBuffer` | src/composed/cleartext.rs:345-356 | For every shown prefix the body is found if and only if it reaches past the line feed and the five dashes and the conditions on the text hold for what it shows |
| `Cleartext.WrittenMessageVerifies` | src/composed/cleartext.rs:237-267 | From a written message the reader recovers a body that verifies as what was signed, and leaves exactly the signature's armor, if and only if its buffer shows the body, the line feed and five dashes, and the text is not empty and does not end with a carriage return unless it is one |
| `S2k.HashRepeated` | src/types/s2k.rs:226-258 | The counting loop and its partial last turn hash the first max(count, salt and passphrase) octets of salt and passphrase repeated forever |
| `S2k.HashRound` | src/types/s2k.rs:213-260 | Each round hashes as many zeros as its number, then what the specifier says |
| `S2k.StreamLength` | src/types/s2k.rs:213-260 | How many octets each round hashes |
| `S2k.StreamOctets` | src/types/s2k.rs:213-260 | Which octets: the zeros, then the passphrase, behind the salt if there is one; iterated, the two over and over again |
| `S2k.CountSteps` | src/types/s2k.rs:229-233 | The count is 1024 for code 0, grows by equal steps within 16 codes, and doubles over them |
| `S2k.CountGrows` | src/types/s2k.rs:229-233 | Larger codes mean larger counts |
| `S2k.CountRange` | src/types/s2k.rs:229-233 | Counts are between 1024 and 65011712 |
| `S2k.RoundsTile` | src/types/s2k.rs:262-269 | Each round's digest stands right behind those of the rounds before it |
| `S2k.FloatRoundsAreExact` | src/types/s2k.rs:207-207 | Below 2^24 octets of key the rounded float quotient is the exact number of rounds |
| `S2k.FirstWrongSize` | src/types/s2k.rs:207-207 | For 2^24 + 1 octets of key and digests of 32 octets the floats give one round too few |
| `S2k.DeriveKey` | src/types/s2k.rs:201-273 | The key is the concatenation of the digests cut to size, filled in place, if the rounds cover it, and a panic otherwise: never below 2^24 octets, always at 2^24 + 1 with digests of 32 octets; an unknown hash algorithm panics unless the key is empty |
| `Messages.Packets.Parse` | src/composed/message/parser.rs:15-150 | The recursive loop over the peekable iterator returns the message and leaves the packets that the grammar's definition says |
| `Messages.Packets.ParseEncrypted` | src/composed/message/parser.rs:39-83 | Session key packets are taken as long as there are any, then exactly one encrypted data packet |
| `Messages.Sound` | src/composed/message/parser.rs:15-150 | An accepted message accounts for exactly the packets consumed, in order, markers and padding aside; it is one of the grammar; the end is reached only through markers and padding |
| `Messages.Complete` | src/composed/message/parser.rs:15-150 | Every message of the grammar is found in its packets followed by anything (by nothing, if its innermost signature signs nothing) |
| `Messages.PrintRoundTrip` | src/composed/message/types.rs:245-277 | A printed message comes back in front of every rest if and only if all its signed layers are one-pass and sign something, and there is a session key packet |
| `Messages.PrintAlone` | src/composed/message/types.rs:245-277 | With nothing behind it, a printed message comes back if and only if it is such a message, or consists of signatures alone that are the same forwards and backwards |
| `MessageGrammar.FindsExactlyTheSpelled` | src/composed/message/parser.rs:15-150 | A message is found and a rest left if and only if the packets in front of the rest are the message's, with any number of markers and padding packets in front of it and of each message in it, and nothing follows a message that signs nothing |
| `MessageGrammar.EndIsFill` | src/composed/message/parser.rs:15-150 | There is no message if and only if there are only markers and padding |
| `MessageGrammar.EveryEncryption` | src/composed/message/parser.rs:39-83 | Both kinds of session key packets go with both kinds of encrypted data |
| `MessageGrammar.UnexpectedStart` | src/composed/message/parser.rs:15-150 | An error or any other packet where a message should begin, at any depth, is a failure right behind it |
| `MessageGrammar.NoEncryptedData` | src/composed/message/parser.rs:39-83 | Anything but encrypted data behind session keys, also a marker or padding, is a failure right behind it |
| `MessageGrammar.NoClosingSignature` | src/composed/message/parser.rs:101-137 | Anything but a signature behind the message of a one-pass layer, also a marker or padding, is a failure in front of it |
| `SignedKeys.Bundles` | src/composed/signed_key/key_parser_macros.rs:97-155 | A section's loop never stops in front of a packet of its own section, and stops where it started only if it took nothing |
| `SignedKeyParser.KeyParser.Next` | src/composed/signed_key/key_parser_macros.rs:29-217 | The successive loops over the peekable iterator return the key and leave the packets that the definition by sections says |
| `SignedKeyParser.KeyParser.TakeSection` | src/composed/signed_key/key_parser_macros.rs:97-205 | Pushing filtered packets to two lists and retaining the signed ones keeps, in order, what the constructors promise of each role |
| `SignedKeyParser.KeyParser.Sort` | src/composed/signed_key/key_parser_macros.rs:65-90 | Revocations and other signatures are separated in order |
| `SignedKeySections.KeyFromSections` | src/composed/signed_key/key_parser_macros.rs:29-217 | From any packets with the sections of a key: packets in front are skipped; signatures of type 0x20 revoke and others are direct; users keep types 0x10 to 0x13 and 0x30, subkeys 0x18 and 0x28, in order; what keeps none is dropped; what is behind the key is left |
| `SignedKeySections.OldKeyWithSubkey` | src/composed/signed_key/key_parser_macros.rs:161-180 | A subkey behind a primary key that is not of version 4 is an error right behind it |
| `SignedKeySections.ErrorFirst` | src/composed/signed_key/key_parser_macros.rs:39-57 | An error where a primary key should be is passed on |
| `SignedKeyRoundTrip.FoundIsWf` | src/composed/signed_key/shared.rs:24-54 | Every parsed key has only signed users, attributes and subkeys with signatures of the right types, and subkeys only in version 4 |
| `SignedKeyRoundTrip.KeyParses` | src/composed/signed_key/shared.rs:154-174 | Every such key comes back from its printed form in front of what does not continue it, and leaves that untouched |
| `SignedKeyRoundTrip.Reparse` | src/composed/signed_key/public.rs:148-158 | A parsed key comes back in front of a rest if and only if that does not start with a signature, a subkey, or, after a key without subkeys, a user packet |
| `SignedKeyRoundTrip.WfIsFixpoint` | src/composed/signed_key/key_parser_macros.rs:29-217 | The keys that survive printing and parsing are exactly those that the parser can make |
| `SignedKeyRoundTrip.StopsAt` | src/composed/signed_key/key_parser_macros.rs:29-217 | What a key leaves never starts with a signature or a subkey, and starts with a user packet only if a subkey was read |
| `SignedKeyRoundTrip.KeyringSplits` | src/composed/signed_key/key_parser_macros.rs:29-217 | A printed keyring of any number of keys splits into exactly these keys |
| `SignedKeyRoundTrip.PublicKeySurvives` | src/composed/signed_key/secret.rs:338-358 | The public key made from a secret one keeps every subkey with all its signatures, in order, and survives printing and parsing |
| `PacketOctets.PrintedAreReceived` | src/composed/shared.rs:166-202 | Printed packets come through the packet parser and the filter in order, and after them whatever the rest of the stream yields |
| `PacketOctets.FilteredItem` | src/composed/shared.rs:166-202 | Wherever it stands, a packet is passed on unless it is a marker, an error unless it can be ignored, and an incomplete packet never |
| `ComposedRoundTrip.MessageFromOctets` | src/composed/shared.rs:89-93 | A one-pass message whose packet bodies are parsed back comes back from its octets and leaves what the rest of the stream yields |
| `ComposedRoundTrip.ArmoredMessage` | src/composed/shared.rs:50-93 | The same through armor, read in pieces of any sizes, with and without checksum, if the block has a type for messages; every other block type is refused |
| `ComposedRoundTrip.KeyFromOctets` | src/composed/shared.rs:89-93 | A key with well-formed signatures, whose other packet bodies are parsed back, comes back from its octets and leaves what does not continue it |
| `ComposedRoundTrip.ArmoredKey` | src/composed/shared.rs:50-93 | The same through armor, read in pieces of any sizes, with and without checksum, if the block has a type for public or secret keys respectively; every other block type is refused |

## Left out

- Ciphers, hashes, CRC-24, AEAD, HKDF, curves, RSA, DSA, Argon2, deflate and CFB: external code, taken as functions.
- RSA and Elgamal session key packets: written and parsed here, but their encryption is external, so no session key
  round trip is stated for them.
- Version 1 of the integrity protected data packet, whose decryption is external, and the parsing of the packet body.
- Armor header lines and the search for the header; reading starts behind the header.
- Header lines of cleartext messages; the claim is about the body and what follows it.
- `Normalized` in Lf mode: nothing else in the library uses it.
- Secret key material, key generation, builders and verification of keys.
- I/O errors of readers; partial failures of the writer under `LineWriter`.
- UTF-8 decoding errors, except where characters are counted; dates, which are 32-bit seconds.
- Packet bodies other than those of signatures and session keys are opaque octets; where octets are parsed back, that
  they are is a precondition on the body parser.
- LineWriter.LineWriter.Write: writing after `finish` panics in the source and is excluded by a precondition.
- Builds with overflow checks panic where this model wraps: on a subpacket of length zero and on a chunk size octet
  above 25.
- Seipd.Decrypt: counters of chunks and octets are truncated to 64 bits; their overflow is not treated.
- Dearmor.Dearmor.Read: a block whose footer, from the checksum on, does not fit the 128 octets that the reader makes
  sure to have, because of many line endings, is read or refused depending on how much a read returns; that it is read
  is stated for the others (`ArmorText.ArmorIsBlock`).
