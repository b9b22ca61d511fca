# Verified model of the qURL conformance references

The repository publishes conformance vectors together with the reference code that
decides them: text codecs, ordered gates, framings, generators with independent
checkers, and three exchanges of authenticated packets. This project models that
code in Dafny 4.11 and proves what it is for. `dafny verify dfyconfig.toml` checks
everything.

## The parts

- `BitStream`, `OctetDigits`, `Base32`, `Base64`, `BigEndian`, `Hexadecimal`, `DigitNumbers`,
  `Decimal`, `Splitting`, `GoStrings`: octets and text. base32 and base64 are defined on the bit string
  of their input (sections 4 to 6 of RFC 4648), decoding as Go does it: base64 skips CR and LF, and its
  strict mode refuses set pad bits.
- `Crc32c`, `ReflectedCrc`, `CrcWords`, `Crid`: the CRC of section 12.1 of RFC 3720 as division of a bit string, the
  shifts by which software computes it, and the CRID v1 identifiers it protects. The main result is error detection: no
  single-character change of an accepted CRID is accepted.
- `Transport`, `IssuedLink`: the `qv2t1` outer transport with its inverse, and the textual comparison
  of a link with its origin, which is proved to decide what a URL parser would.
- `HubCookie`, `HubProtocol`, `HubCases`, `HubSafety`, `HubAgreement`, `HubReplies`: the Connector Hub exchange LST,
  COK, proof LST, LRT as steps of clients, Hub, clock, key slots and a network that loses, duplicates, reorders and
  injects. What one packet does is decided in every state; safety, injective agreement with honest clients, what of
  their address it covers, and what an LRT proves to a client hold in every run.
- `Json`, `SessionEnvelope`: the duplicate-key walker over a mutable token decoder, and the session classifier whose
  verdict on `sessId` comes before well-formedness.
- `TargetPath`, `UrlProcessing`: the target-path gate, and the proof that it accepts exactly the values whose path
  RFC 3986 processing leaves alone.
- `Framing`, `LowS`, `PrivateUpload`, `UploadPrecedence`: the length framing of the private-upload signatures, signing and
  low-S normalization over an abstract group, and the request gate with the published order of its rejections.
- `FenceCheck`, `FenceRejects`, `FenceAgreement`, `FenceLimits`: the checker of typed fence inputs, the generator
  of invalid ones, the exact condition under which the two agree on a whole file, and whole files on either side of it.
- `AgentSession`, `SessionFlows`, `SessionRun`: the validator of one session flow, the flows it accepts, spelled out, and
  a message-by-message client that closes on exactly these.
- `Utf8`, `LinkRequest`, `ResourceResult`, `X25519`: truncation at a byte limit, the canonical request bytes,
  the size bound of a resource result, and the reduced-coordinate test.

Code that updates variables, buffers or decoder state is a method with loops, proved equal to a function or to
a declarative statement; the laws are lemmas about those functions. A Go string is a string with one character per octet
where its octets matter. SHA-256, HMAC-SHA-256, DER, key parsing and signature verification are parameters or ideal.

## Model

| member | source | states |
|---|---|---|
| Base32.DecodeEncode | crid.go:468-483 | Decoding inverts the unpadded lowercase base32 encoding on every octet string. |
| Base32.EncodeDecode | crid.go:485-500 | Text survives decode and encode exactly when no trailing pad bit is set and no character is idle, which is the gate's canonicality test. |
| Crc32c.BurstDetected | crid.go:468-483 | Two octet strings of equal length that differ only inside four consecutive octets, and do differ, have different CRC32C values. |
| Crc32c.BitBurstDetected | crid.go:468-483 | So do two that differ only inside any 32 consecutive bits of the message as the CRC reads it, wherever those begin. |
| Crc32c.LowNibbleNeverFlipsOnlyTheEnd | crid.go:478-483 | Octets that differ only in their low four bits cannot lead from one register to two that differ in x^0 alone: the last payload octet cannot make up for the one checksum bit that shares its character in a 60-character CRID. |
| ReflectedCrc.ChecksumIsCrc | crid.go:474-478 | For every payload, the four octets a CRID carries spell, high octet first, the CRC32C as software computes it: start at all ones, add each octet at the low end, shift right eight times with 0x82F63B78, complement. |
| CrcWords.Residue | crid.go:474-478 | A payload with its checksum behind it, lowest octet first, has the CRC 0x48674BC7 whatever the payload. |
| CrcWords.ThirtyTwoZeros | crid.go:474-478 | The 32 octets of zeros of RFC 3720, B.4, have the CRC 0x8A9136AA. |
| DigitNumbers.Base32Number | crid.go:468-483 | Base32 text spells, digit by digit in base 32, the big-endian number of its octets with the pad bits behind it. |
| DigitNumbers.Base32Letters | crid.go:468-483 | The digits of base32 text are positions in the alphabet of RFC 4648, in lower case. |
| DigitNumbers.Base64Number | private_upload_v1.go:412-418 | And base64 text does so in base 64. |
| DigitNumbers.Base64Letters | private_upload_v1.go:412-418 | The digits of base64 text are positions in the two alphabets of RFC 4648. |
| Crid.DeriveCRID | crid.go:468-483 | The derivation, appending into one buffer, yields digest, sealed octets, big-endian CRC and the CRID of version and digest. |
| Crid.ValueExpectation | crid.go:485-510 | The looping gate equals the ordered specification: charset, length, canonicality, checksum, version. |
| Crid.DerivedIsAccepted | crid.go:468-510 | Every derived CRID with a nonzero version passes the gate; with version zero it is refused for its version. |
| Crid.AcceptedIsDerived | crid.go:485-510 | Every accepted string is the CRID of its own nonzero version and 32 or 24 octet digest. |
| Crid.GateExact | crid.go:485-510 | The accepted strings are exactly the CRIDs of a nonzero version and a 32 or 24 octet digest. |
| Crid.GateClassExact | crid.go:485-510 | Every string gets the class that, in this order, a character outside the alphabet, a length other than 60 or 47, a last character with pad bits, an unsound checksum or version zero decides. |
| Crid.CridInjective | crid.go:468-483 | Two CRIDs are equal only if version and digest are. |
| Crid.DerivedHasShape | crid.go:578-595 | Every CRID of a 32 or 24 octet digest satisfies the shape check: exact length, the zero-pad-bit final characters, and the first character its version dictates. |
| Crid.RequestGateExact | crid_link_knock.go:1086-1100 | A link request is accepted exactly for full-length CRIDs of the two active versions; other gate-accepted CRIDs are refused as version. |
| Crid.KeyMatchExact | crid.go:538-555 | A delivered key matches exactly when its domain-separated digest begins with the digest the CRID carries. |
| Crid.SingleCharacterDetected | crid.go:485-508 | Replacing any one character of an accepted CRID by any other, at any position, makes the gate reject: for its charset outside the alphabet, as non_canonical if it sets a pad bit of the last character, and everywhere else by the checksum. |
| Crid.Straddle | crid.go:474-478 | Whatever character 52 of a 60-character CRID becomes, the payload's checksum does not change in its first bit alone, the only checksum bit that character spells. |
| Crid.PayloadBurstDetected | crid.go:485-508 | Any other alphabet text of the same length whose decoded octets differ from an accepted CRID's only within four neighbouring payload octets is rejected. |
| Transport.ParseCount | schema.go:453-469 | The overflow-guarded parser returns n exactly for the canonical decimal spelling of a number from 1 to the maximum. |
| Transport.DecodeField | schema.go:424-449 | Collecting chunks returns a field exactly when the chunks are its canonical 240-wide cut, in the alphabet and within the cap. |
| Transport.DecodeTransport | schema.go:403-451 | The decoder accepts exactly the encodings of acceptable triples and returns the inner fragment of the same triple. |
| Transport.LengthGateNeverBinds | schema.go:403-406 | No encoding of a triple of nonempty fields within 6144, 512 and 128 is longer than 6826, so the length gate refuses nothing that the other checks would accept. |
| Transport.LengthGateAttained | schema.go:354-367 | Fields at their caps reach exactly 6826. |
| Transport.EncodingInjective | schema.go:403-451 | Two encodings are equal exactly when the triples are: each triple has one accepted body. |
| Transport.CanonicalInjective | schema.go:403-451 | Two reconstructed fragments are equal exactly when the triples are. |
| IssuedLink.SplitLinkIsParsing | crid_link_knock.go:1281-1299 | For every link, comparing text takes the decision that scheme, authority, path and query of the link, split by appendix B of RFC 3986, dictate, and returns the same fragment. |
| IssuedLink.OpenLink | crid_link_knock.go:1235-1250 | Opening reports origin and path faults first, then a fragment that encodes no triple, then a signature over claims that does not verify, and otherwise returns the canonical fragment. |
| IssuedLink.OpensExact | crid_link_knock.go:1281-1299 | Links that open are the origin, at most one slash, a hash and the transport of a signed triple, and no others. |
| HubCookie.BuildPreimage | connector_hub_lst_cookie.go:311-339 | Appending through one reused frame array yields the specified preimage, and none for a zone, a parse failure or a peer of another length. |
| HubCookie.UnmapExact | connector_hub_lst_cookie.go:311-339 | An IPv6 address stands for an IPv4 address exactly if it is that address behind ten zero octets and two of 0xFF; every other one stays as it is. |
| HubCookie.LayoutParts | connector_hub_lst_cookie.go:311-339 | The preimage is the domain and a NUL, the family, the address and the peer behind their 32-bit lengths, and the 64-bit window, each at its place. |
| HubCookie.PreimageInjective | connector_hub_lst_cookie.go:311-339 | Two preimages are equal exactly when the unmapped address, the peer and the window are. |
| HubCookie.DeriveCookieExact | connector_hub_lst_cookie.go:298-309 | A cookie is derived exactly for a zone-free address, a 32-octet peer and a 32-octet key, and equal cookies have equal inputs or exhibit a MAC collision. |
| HubCookie.ChallengeBodyInjective | connector_hub_lst_cookie.go:341-347 | A challenge body determines transaction and cookie. |
| HubCookie.ChallengePacketSize | connector_hub_lst_cookie.go:341-347 | The COK packet is 322 octets plus the decimal digits of the transaction, at most 342, which is attained. |
| HubProtocol.CandidatesExact | connector_hub_lst_cookie.go:687-725 | The verification order covers exactly the slot keys, beside an active key, in the current and previous window. |
| HubProtocol.ProvenExact | connector_hub_lst_cookie.go:298-339 | A proof made with a MAC minted for one address, peer, key and window verifies exactly for that unmapped address and peer while the key is in a slot and the window is current or previous. |
| HubProtocol.MintInjective | connector_hub_lst_cookie.go:298-339 | Equal cookies have equal key, unmapped address, peer and window. |
| HubSafety.AuthorityOnlyAfterChallenge | connector_hub_lst_cookie.go:398-435 | In every run, an Authority call carries an initial or refresh assignment under the proof flag, and comes after a COK minted for the same unmapped address and the same peer, under a key still in a slot, in the current or previous window. |
| HubCases.DeliveryExact | connector_hub_lst_cookie.go:62-78 | In every state, a delivered LST calls the Authority exactly if it is the first delivery of an assignment under flags 4 whose digest is sealed by a slot key in one of the two windows; is challenged exactly if admitted under flags 0 and longer than its challenge; and otherwise leaves nothing but its receipt. |
| HubCases.OtherBodiesDropped | connector_hub_lst_cookie.go:735-755 | Under any flags but zero a malformed body or one of another phase leaves nothing but the receipt: no call, no reply, no served entry. |
| HubCases.ChallengeExact | connector_hub_lst_cookie.go:80-95 | A client answers exactly the COK of the pinned Hub for its own peer, without flags, with its own transaction and a canonical cookie, and with exactly the proof of its first LST; any other COK stops it. |
| HubCases.ReplyExact | connector_hub_lst_cookie.go:80-95 | A client that sent its proof takes only the Hub's own LRT for its peer and counter, and stops at any further COK. |
| HubCases.DoneStays | connector_hub_lst_cookie.go:80-95 | No step makes a stopped or served client send or change again. |
| HubSafety.NoAmplificationBeforeProof | connector_hub_lst_cookie.go:598-636 | In every run, until a source has proven itself, what the Hub sent it is nothing or strictly less than what came from it. |
| HubSafety.ClientSendsTwice | connector_hub_lst_cookie.go:80-95 | In every run a client sends at most two LSTs; the second is the proof of the first, with the same body, another counter and the cookie of a challenge of that very peer that names the first. |
| HubAgreement.HonestCallAgrees | connector_hub_lst_cookie.go:398-435 | In every run, a call for an honest peer follows that peer's own first LST, a challenge that named it, and the proof made from both: one body throughout, and the address, key and window of that very challenge. That address is the client's own exactly if the proof reached the Hub under the address it was sent from. |
| HubAgreement.DirectCallAgrees | connector_hub_lst_cookie.go:398-435 | In every run in which nobody sends an honest LST on under another address, the call has the address of the client's own first LST, and its proof is the packet the client sent. |
| HubAgreement.DistinctExchanges | connector_hub_lst_cookie.go:62-78 | Two calls for honest peers come from proofs of different client exchanges, so replays and duplicates add no call. |
| HubAgreement.ChallengeElsewhere | connector_hub_lst_cookie.go:311-339 | For every honest assignment LST that the Hub answers and any other address without a zone there is a run in which LST and proof are both sent on under it and the Authority is called for that address instead of the client's: the source of an LST is not authenticated. |
| HubSafety.HonestExchangeServed | connector_hub_lst_cookie.go:551-596 | From any state, an exchange whose clock moves by at most one window and whose minting key stays in a slot ends in exactly the Authority call it asked for, and in a served client. |
| HubReplies.ServedWasCalled | connector_hub_lst_cookie.go:551-596 | In every run, a client that took an LRT had sent a proof, and the Authority was called for its peer under that proof's counter. |
| Json.WalkIsParseThenCheck | schema.go:3422-3475 | On every token stream the recursive walk does what parsing one value and then checking key uniqueness at every depth would. |
| Json.WalkExact | schema.go:3422-3475 | The walk succeeds exactly on the tokens of one value in which no object repeats a key, and leaves exactly the rest. |
| Json.WalkRender | schema.go:3422-3475 | Rendering a value and walking it succeeds exactly if no object in it repeats a key. |
| Json.Decoder.Next | schema.go:3422-3426 | Taking a token shortens the decoder's remaining tokens by exactly that token. |
| Json.WalkJSONValue | schema.go:3422-3475 | The loop over a mutable decoder with a set of seen keys equals the functional walk and leaves the decoder where it stops. |
| Json.RejectDuplicateJSONKeys | schema.go:3413-3420 | Duplicate rejection is the walk followed by the requirement of end of input. |
| Json.StrictExact | schema.go:3398-3420 | A document is accepted exactly if it is one value without repeated keys and nothing after it. |
| SessionEnvelope.TopLevelFieldValues | schema.go:3335-3396 | The scan collects every value of the field met before the object ended or stopped making sense. |
| SessionEnvelope.FencePrecedesStructure | schema.go:3268-3333 | After any number of readable members, a repeated, malformed, zero or overflowing sessId is classified as such whatever follows. |
| SessionEnvelope.AcceptedExact | schema.go:3268-3333 | A success is accepted exactly for a duplicate-free object with errCode "" or "0", one sessId in 1 to 2^64-1 and opnTime in 1 to 2^32-1. |
| SessionEnvelope.DeniedExact | schema.go:3268-3333 | A denial is accepted exactly with any other errCode, without sessId and with opnTime zero. |
| SessionEnvelope.SuccessBody | schema.go:3313-3333 | A strict success without sessId is refused as session_id, and one with it for opnTime zero as session_lifetime. |
| SessionEnvelope.DenialBody | schema.go:3303-3325 | A strict denial with a sessId is refused as session_id, and one without it for a nonzero opnTime as body_parse. |
| SessionEnvelope.UnreadBody | schema.go:3268-3315 | In a strict body an unreadable sessId is refused as session_id, and otherwise an unreadable errCode or opnTime as body_parse, unless a denial carries a sessId. |
| TargetPath.HasMalformedPercentEscape | target_path.go:260-271 | The index-skipping scanner finds a malformed percent sign exactly when some percent sign lacks two hex digits after it. |
| TargetPath.EscapesStayInPath | target_path.go:411-428 | In a value whose escapes are well formed, no escape begun before the first question mark reaches across it, so the short-escape branch is dead. |
| TargetPath.EmptySegmentIsDoubleSlash | target_path.go:429-441 | Splitting an absolute path has an interior empty segment exactly when two slashes are adjacent. |
| TargetPath.PathEscapes | target_path.go:411-428 | The path scan finds an encoded dot and any escape exactly where they stand. |
| TargetPath.Segments | target_path.go:429-441 | The segment loop finds a dot segment and an interior empty segment exactly when the split path has one. |
| TargetPath.DeriveExpectation | target_path.go:370-448 | The gate returns the first failing rule of the published order, stated declaratively. |
| UrlProcessing.AcceptedPathIsFixed | target_path.go:258 | Dot-segment removal (section 5.2.4 of RFC 3986) and percent-decoding leave the path of an accepted value alone. |
| UrlProcessing.AcceptedExact | target_path.go:370-448 | And conversely: an absolute value of allowed text is accepted exactly if dot-segment removal and percent-decoding fix its path and the path has no interior empty segment and none of the five excluded characters. |
| UrlProcessing.OutcomeExact | target_path.go:370-448 | Every value is given the class that absoluteness, its characters, its escapes, dot-segment removal, and percent-decoding with interior empty segments decide, in this order of precedence. |
| UrlProcessing.AllowedExact | target_path.go:370-448 | The allowed characters are the unreserved ones and the sub-delimiters of RFC 3986 without the apostrophe, and % : @ / ?. |
| UrlProcessing.QueryReplaced | target_path.go:407-448 | Any allowed text with well-formed escapes, within the cap, may replace the query of an accepted value. |
| UrlProcessing.AcceptedSplitsAsWritten | target_path.go:370-448 | Behind any origin an accepted value is parsed into exactly that origin, its path and its query. |
| Framing.BuildFrame | private_upload_v1.go:333-345 | The appending loop yields domain, NUL and length-prefixed fields, or fails exactly when a field is longer than 2^32-1. |
| Framing.UnframeInverts | private_upload_v1.go:333-345 | A decoder recovers the NUL-free domain and every field of any frame. |
| Framing.FrameInjective | private_upload_v1.go:333-345 | Two frames are equal exactly when domain and field list are, for any number of fields. |
| Framing.FrameInverts | private_upload_v1.go:333-345 | What the decoder accepts is the frame of what it returns. |
| Framing.FieldsAreNamed | private_upload_v1.go:60-79 | Each of the four forms frames exactly the members that its published list of names gives, in that order. |
| Framing.CanonicalInjective | private_upload_v1.go:347-382 | Upload, refresh and the two stable-request forms never collide: equal canonical bytes mean the same form and the same value of every member its list names. |
| PrivateUpload.ApplyReject | private_upload_v1.go:621-658 | The loop that mutates a candidate field by field equals the fold of its mutations, or fails on the first unknown one. |
| PrivateUpload.AcceptedIsGolden | private_upload_v1.go:660-717 | Under the golden signature the golden request is accepted, and any other accepted request exhibits the signature verifying for other octets or a second body of the golden digest. |
| PrivateUpload.SingleMutationClass | private_upload_v1.go:719-800 | Every single mutation of an accepted golden request is given exactly the class its value decides, grammar gates first, then signature mismatch, then body digest, unless it exhibits such a forgery or collision. |
| UploadPrecedence.PrecedenceExact | private_upload_v1.go:325 | Every candidate that can be framed belongs to the first class, in the published order, whose rule it breaks, each rule stated on its own, and is accepted if it breaks none. |
| PrivateUpload.MirroredGolden | private_upload_v1.go:733-734 | The golden request of either base under the mirror (r, n-s) of its own signature is classified signature_malleability by the whole gate. |
| PrivateUpload.SignedGoldenAccepted | private_upload_v1.go:660-717 | For every key somebody can sign with there is an accepted golden request of either base. |
| PrivateUpload.OnlyMismatch | private_upload_v1.go:536-562 | Signature text accepted for one digest is accepted or a mismatch for every other; encoding, scalar and malleability faults never depend on the digest. |
| Base64.StrictDecodeExact | private_upload_v1.go:412-418 | Strict decoding returns octets exactly for their one canonical encoding, though the decoder underneath skips line breaks. |
| Base64.EncodeGoDecode | private_upload_v1.go:412-418 | Whatever Go's strict decoder accepts encodes again to the same text without its line breaks. |
| Base64.StrictDecodeRefuses | private_upload_v1.go:412-418 | The comparison with the re-encoding refuses exactly the texts with a CR or LF among those the decoder accepts. |
| Base64.RequestNonceExact | request_nonce.go:23-29 | A nonce decodes exactly from the one 43-character spelling of its 32 octets. |
| LowS.LowFormPreserves | tools/gen/main.go:83-103 | Over a commutative group of the curve's order with x(P) = x(-P), the low form verifies exactly when the original does, and normalizing is idempotent. |
| LowS.InverseUnique | tools/gen/main.go:105-118 | The modular inverse that verification uses is determined by s. |
| LowS.ScalarIsCurve | tools/gen/main.go:105-118 | The integers modulo the order, with a number and its negative folded together as x-coordinate, are a group such as the signature laws assume. |
| LowS.ScalarSignature | tools/gen/main.go:105-118 | On it the scalar 3 and the nonce 1 sign the digest 2 as (1, 5), which verifies under a key other than the generator. |
| LowS.VerifiesExact | tools/gen/main.go:105-118 | Under the key of the scalar d, a signature verifies exactly if (z + r d) / s times the generator is a point whose x-coordinate is r. |
| LowS.SignedVerifies | tools/gen/main.go:60-81 | Every signature made with a scalar d and a nonce k, that is with r the x-coordinate of k times the generator and s k = z + r d, verifies under the key of d, whatever the digest. |
| LowS.SignedIsAccepted | tools/gen/main.go:83-118 | And normalized and encoded it is accepted by the raw verifier. |
| LowS.NormalizeDer | tools/gen/main.go:83-103 | Normalization emits r and the low form of s as two 32-octet numbers, and nothing for an unparsed or out-of-range pair. |
| LowS.NormalizedIsAccepted | tools/gen/main.go:83-118 | What normalization emits is accepted by the raw verifier exactly if the provider's signature verifies. |
| LowS.RawAcceptsExactlyOne | crid_link_knock.go:1303-1317 | Of (r, s) and (r, n-s) the raw verifiers accept exactly one if either verifies, and none otherwise. |
| LowS.MirrorIsMalleability | private_upload_v1.go:536-562 | A pair and its mirror are classified one as malleability and the other as accepted or mismatch, according to whether they verify. |
| LowS.AcceptedSpelling | private_upload_v1.go:536-562 | Accepted signature text is exactly the canonical encoding of the canonical DER of a verifying pair in the low half. |
| FenceCheck.FenceInputBoundary | tools/verify-assignment-ticket/fence_rejects.go:43-85 | The checking loop reports the first faulty part's boundary, then the scope list's. |
| FenceCheck.CheckScopes | tools/verify-assignment-ticket/fence_rejects.go:79-83 | The list loop accepts exactly nonempty, strictly increasing scopes. |
| FenceCheck.DisturbedScopes | tools/verify-assignment-ticket/fence_rejects.go:79-83 | In a canonical scope list, exchanging any two members or copying one over another breaks the strict byte order. |
| FenceRejects.FenceRejectInputs | assignment_ticket_fence_rejects.go:45-120 | The nested loops over cloned slices emit exactly the specified mutants, or the specified failure, and leave the vectors' own slices alone. |
| FenceRejects.MutateParts | assignment_ticket_fence_rejects.go:68-113 | Overwriting, swapping and deleting parts of a cloned slice in place yields the specified mutant and leaves the original slice alone. |
| FenceRejects.ValidateRejectInputs | assignment_ticket_fence_rejects.go:22-43 | The loader accepts exactly files whose inputs and kinds are the generated ones, and version 1 files without inputs. |
| FenceAgreement.NumberRejected | assignment_ticket_fence_rejects.go:48-60 | Either out-of-range number in any uint64 part of a positive list is stopped at boundary uint64. |
| FenceAgreement.HashRejected | assignment_ticket_fence_rejects.go:74-84 | A hash cut to 31 octets is stopped at key_length, for every positive list the recipe applies to. |
| FenceAgreement.ScopesRejected | assignment_ticket_fence_rejects.go:85-96 | Swapped or duplicated scopes are stopped at canonical_scopes if and only if both scope parts are UTF-8. |
| FenceAgreement.BoolRejected | assignment_ticket_fence_rejects.go:97-103 | A textual flag is stopped at encoding if and only if the positive flag is not text already. |
| FenceAgreement.MutationExact | assignment_ticket_fence_rejects.go:73-114 | For every recipe and positive list, the mutant is stopped at its declared boundary if and only if the list suits the recipe. |
| FenceAgreement.VerifyRejectInputs | tools/verify-assignment-ticket/fence_rejects.go:13-39 | The verifier's loops accept exactly files in which every input agrees with its base. |
| FenceAgreement.LoaderAndVerifierAgree | tools/verify-assignment-ticket/fence_rejects.go:13-39 | A loaded file of positive vectors of distinct kinds passes the independent verifier if and only if every vector fits every recipe aimed at it. |
| FenceLimits.FileExact | tools/verify-assignment-ticket/fence_rejects.go:13-39 | Credential vectors with any ordered scopes and any flag load, beside a cell and an existing vector, with all six recipes, and verify if and only if the scopes are UTF-8 and the flag is not. |
| FenceLimits.TextualBoolIsMissed | assignment_ticket_fence_rejects.go:97-103 | A whole file with a textual flag: positive vectors, all six recipes, accepted by the loader, refused by the verifier. |
| FenceLimits.Base64ScopesAreMissed | assignment_ticket_fence_rejects.go:85-96 | A whole file with base64url scopes: its disturbed scopes are never stopped at canonical_scopes, and the verifier refuses what the loader accepts. |
| FenceLimits.TextScopesVerify | tools/verify-assignment-ticket/fence_rejects.go:13-39 | A whole file that meets both conditions loads and verifies. |
| AgentSession.CookieExact | agent_session.go:583-617 | A cookie body is canonical for 32 octets exactly if it has the request's counter and the one padded spelling of them. |
| AgentSession.UnpaddedCookie | agent_session.go:600-606 | The unpadded spelling of 32 octets is classified cookie_canonical, whatever the counter. |
| AgentSession.CookieRefused | agent_session.go:583-617 | A canonical spelling is refused for its length before its counter, and for nothing else. |
| AgentSession.ValidateFlowBindings | agent_session.go:402-478 | The validator, zeroing header fields before it compares, accepts exactly the flows whose counters, cookie, knocks, receipts and denials are bound. |
| SessionFlows.AcceptedExact | agent_session.go:402-478 | The accepted flows are exactly those composed, with the published constants, from a run, three distinct counters, a 32-octet cookie, a grant, a close and two refusals. |
| SessionRun.RunExplained | agent_session.go:666-711 | In every run over arbitrary messages the client's state is explained by the messages it took. |
| SessionRun.ClosedRunBindings | agent_session.go:402-478 | In every run that closes, ACK, EXT and close ACK carry one receipt, bound to the run of both knocks; counters are distinct and echoed, and the COK names the KNK. |
| SessionRun.ClosedRunIsAccepted | agent_session.go:402-478 | Whatever was sent to the client, the six messages it took to close form a flow the validator accepts. |
| SessionRun.FlowAcceptedExact | agent_session.go:402-478 | The validator accepts a flow exactly if the client closes on it and accepts its denials, for any wire counter of the COK. |
| Utf8.TruncateUserAgent | crid_link_knock.go:1067-1076 | The descending loop returns the specified prefix. |
| Utf8.ValidEncodes | crid_link_knock.go:1065-1076 | Every valid string is the encoding, by section 3 of RFC 3629, of the code points it is decoded to, none of them a surrogate. |
| Utf8.EncodedIsValid | crid_link_knock.go:1065-1076 | Every encoding of code points is valid and is decoded to them. |
| Utf8.BoundaryExact | crid_link_knock.go:1072-1074 | A prefix of a valid string is valid exactly if the next octet starts a character. |
| Utf8.TruncatedIsLongest | crid_link_knock.go:1065-1076 | Truncation of a valid string is its longest valid prefix of at most 256 octets, at most three octets short of that. |
| Utf8.TruncatedTwice | crid_link_knock.go:1065-1076 | Truncation is idempotent on every octet string. |
| LinkRequest.SerializeRequest | crid_link_knock.go:1128-1158 | The builder applies request gate, invalid-sequence refusal, the leave-out rule on the whole agent and only then truncation, and emits the canonical bytes. |
| LinkRequest.SentExact | crid_link_knock.go:1103-1155 | For an accepted CRID, a request is refused exactly for an invalid agent or one with U+FFFD; an agent with a control character or line separator anywhere is not sent, and of any other the longest valid prefix of 256 octets is. |
| LinkRequest.ReadExact | crid_link_knock.go:1151-1157 | A reader accepts exactly the canonical bytes of printable members and recovers both. |
| LinkRequest.SerializedReadsBack | crid_link_knock.go:1128-1158 | What is serialized reads back as the CRID given and the agent reported as sent. |
| ResourceResult.AcceptedExact | connector_resource_lst_v1.go:949-987 | Accepted are exactly the version 1 results that echo the request's identities and expected CRID, and whose key of 91 octets has a digest that begins with the one in their CRID, with a routing identity of 32 octets and a knock identity of its own. |
| ResourceResult.IdentityExact | connector_resource_lst_v1.go:87-88 | The two identity checks accept exactly what the published patterns match. |
| ResourceResult.ClassExact | connector_resource_lst_v1.go:949-987 | Every result gets the class that, in this order, its discriminator, the request's identities, its field grammars, a shared identity, an unreadable CRID, a CRID of another key or another expected CRID decides. |
| ResourceResult.RefusedFor | connector_resource_lst_v1.go:949-987 | Other identities are refused as request_binding before any grammar, and another expected CRID as resource_binding after everything else. |
| ResourceResult.AcceptedSize | connector_resource_lst_v1.go:45-52 | The canonical body of every accepted result has at most 952 bytes, under the cap of 976, and exactly 952 in the one stated case. |
| ResourceResult.BoundAttained | connector_resource_lst_v1.go:45-52 | For every key the widest result is accepted, with no request known or one that it echoes, and its canonical body has exactly 952 bytes. |
| ResourceResult.OtherCrid | connector_resource_lst_v1.go:975-983 | Under another CRID an accepted result is still accepted if that carries a prefix of the same key digest, and is refused as crid_binding if not. |
| ResourceResult.CridBindsKey | connector_resource_lst_v1.go:975-987 | Two accepted results with one CRID deliver one key, or two keys whose digests agree on 192 bits. |
| X25519.IsCanonicalU | agent_credential_recovery.go:876-886 | The descending octet test is true exactly if the little-endian value is below 2^255-19 (section 5 of RFC 7748). |

## Left out

- SHA-256, HMAC-SHA-256, BLAKE2s, AEAD, DER, X.509 and curve arithmetic are parameters, ideal functions or an abstract group.
- HubProtocol transitions come from the contract and the closed case tables; the Hub and client programs are not in the repository.
- HubProtocol packets are already framed, decrypted and authenticated, which covers all of an honest peer's LST but its source address; a packet that fails there is one the network lost.
- HubProtocol at window zero has no previous window; wrap-around of the window index is not modelled.
- `encoding/json` lexing: documents start as tokens, with a flag saying whether lexing ends cleanly; bodies of sessions and results start decoded.
- `netip` and `net/url` parsing, the regular-expression engine and `time` parsing: addresses arrive parsed, patterns are character predicates.
- LinkRequest.SerializeRequest: escapes only what can reach it, the quote and the backslash; control characters and line separators are shut out before.
- IssuedLink.OpenLink: reading the claims after their signature verified is part of the `verify` parameter.
- ResourceResult.AcceptedSize: starts at the decoded list; object shape, member types and the error results are not modelled.
- SessionRun.FlowAcceptedExact: packets arrive with the right wire type and header digest; the flow cases that change those are not steps of the client.
- AgentSession.ValidateFlowBindings: counters arrive parsed, bodies arrive as canonical JSON or not at all, and packet bytes are not rebuilt.
- Receipt recovery, resource replay and OTP binding tables: the code checks mutation labels there and takes no step.
- LowS.SignedVerifies: takes the inverse of s as given; that the order of P-256 is prime, so that every s in range has one, is not proved.
- UploadPrecedence.PrecedenceExact: a candidate with a field longer than 2^32-1 octets cannot be framed; the code calls it a signature mismatch without looking at the signature text, where the published order would look for an encoding fault first.
- PrivateUpload.AcceptedIsGolden: the authority grammar is a parameter, because `net/url` parses it.
- `cridLinkKnockV1CompareMembers` compares members of fixture trees, and the link ACK interpreter selects among published codes: easy members.
- Fixture counts, duplicate names, contract drift and packet rebuilding: finite comparisons with constants.
- Assignment-ticket sizes: the vectors' documentation and the code give different constants, and neither enters a property here.
- File embedding, the npm and Python accessors and the generator's file output.
