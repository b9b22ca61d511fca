/**
  CRID v1: a version octet, a full or truncated key digest and a CRC32C, spelled
  in base32.  SHA-256 is a parameter of everything that hashes.
 */
module Crid {
  import opened BitStream
  import opened OctetDigits
  import opened Base32
  import Crc32c
  import opened Wrappers

  const FULL_DIGEST := 32
  const TRUNCATED_DIGEST := 24
  const FULL_CRID := 60
  const TRUNCATED_CRID := 47
  const CHECKSUM_OCTETS := 4
  const DOMAIN_PREFIX := "NHP-QURL-CRID-V1"

  type Hash = seq<byte> -> seq<byte>

  datatype RejectClass = Length | Charset | Checksum | NonCanonical | Version
  datatype Outcome = Accept | Reject(rejectClass: RejectClass)

  // ----- derivation

  function KeyMessage(spki: seq<byte>): seq<byte> {
    Ascii(DOMAIN_PREFIX) + [0] + spki
  }

  /** The big-endian CRC32C of a payload. */
  function ChecksumOctets(payload: seq<byte>): (crc: seq<byte>)
    ensures |crc| == CHECKSUM_OCTETS
  {
    Octets(Crc32c.Checksum(payload), 4)
  }

  function Seal(payload: seq<byte>): seq<byte> {
    payload + ChecksumOctets(payload)
  }

  function CridOf(version: byte, digest: seq<byte>): string {
    Encode(Seal([version] + digest))
  }

  /** Builds digest, sealed octets, checksum and CRID by appending to one buffer. */
  method DeriveCRID(sha256: Hash, version: byte, spki: seq<byte>, digestLength: nat)
    returns (digest: seq<byte>, encoded: seq<byte>, crc: seq<byte>, crid: string)
    requires forall m :: |sha256(m)| == 32
    requires digestLength <= 32
    ensures digest == sha256(Ascii("NHP-QURL-CRID-V1") + [0] + spki) == sha256(KeyMessage(spki))
    ensures IsText(crid) && Decode(crid) == encoded == [version] + digest[..digestLength] + crc
    ensures Stream(crc, 8) == Crc32c.Checksum([version] + digest[..digestLength])
    ensures crid == CridOf(version, digest[..digestLength])
  {
    var message := Ascii(DOMAIN_PREFIX);
    message := message + [0];
    message := message + spki;
    digest := sha256(message);
    var payload := [version] + digest[..digestLength];
    crc := ChecksumOctets(payload);
    encoded := payload + crc;
    crid := Encode(encoded);
    DecodeEncode(encoded);
    StreamOctets(Crc32c.Checksum(payload), 4);
  }

  // ----- the local gate

  function PayloadChecksum(octets: seq<byte>): seq<bool>
    requires |octets| >= CHECKSUM_OCTETS
  {
    Crc32c.Checksum(octets[..|octets| - CHECKSUM_OCTETS])
  }

  predicate ChecksumHolds(octets: seq<byte>)
    requires |octets| >= CHECKSUM_OCTETS
  {
    Stream(octets[|octets| - CHECKSUM_OCTETS..], 8) == PayloadChecksum(octets)
  }

  function Gate(value: string): Outcome {
    if !IsText(value) then Reject(Charset)
    else if |value| != FULL_CRID && |value| != TRUNCATED_CRID then Reject(Length)
    else if Encode(Decode(value)) != value then Reject(NonCanonical)
    else if !ChecksumHolds(Decode(value)) then Reject(Checksum)
    else if Decode(value)[0] == 0 then Reject(Version)
    else Accept
  }

  method ValueExpectation(value: string) returns (outcome: Outcome)
    ensures outcome == Gate(value)
  {
    hide Encode, Decode, Stream, Crc32c.Checksum;
    var i := 0;
    while i < |value|
      invariant 0 <= i <= |value|
      invariant forall j :: 0 <= j < i ==> InAlphabet(value[j])
    {
      if !InAlphabet(value[i]) {
        return Reject(Charset);
      }
      i := i + 1;
    }
    if |value| != FULL_CRID && |value| != TRUNCATED_CRID {
      return Reject(Length);
    }
    var decoded := Decode(value);
    if Encode(decoded) != value {
      return Reject(NonCanonical);
    }
    var payload, crc := decoded[..|decoded| - CHECKSUM_OCTETS], decoded[|decoded| - CHECKSUM_OCTETS..];
    if Stream(crc, 8) != Crc32c.Checksum(payload) {
      return Reject(Checksum);
    }
    if payload[0] == 0 {
      return Reject(Version);
    }
    return Accept;
  }

  ghost predicate IsDigest(digest: seq<byte>) {
    |digest| == FULL_DIGEST || |digest| == TRUNCATED_DIGEST
  }

  /** Every CRID with a nonzero version passes the gate. */
  lemma DerivedIsAccepted(version: byte, digest: seq<byte>)
    requires IsDigest(digest)
    ensures Gate(CridOf(version, digest)) == if version == 0 then Reject(Version) else Accept
  {
    hide Encode, Decode, Stream, Octets, Crc32c.Checksum;
    var payload := [version] + digest;
    var sealed := Seal(payload);
    DecodeEncode(sealed);
    StreamOctets(Crc32c.Checksum(payload), 4);
    assert sealed[..|sealed| - 4] == payload && sealed[|sealed| - 4..] == ChecksumOctets(payload);
  }

  /** What the gate accepts is the CRID of its own version and digest. */
  lemma AcceptedIsDerived(value: string) returns (version: byte, digest: seq<byte>)
    requires Gate(value) == Accept
    ensures 0 < version && IsDigest(digest) && value == CridOf(version, digest)
  {
    hide Decode, Encode, ChecksumHolds, CridOf;
    SoundIsSealed(value);
    version, digest := Decode(value)[0], Decode(value)[1..|Decode(value)| - 4];
  }

  /** The accepted strings are exactly the CRIDs of a nonzero version and a 32 or 24 octet digest. */
  lemma GateExact(value: string)
    ensures Gate(value) == Accept <==>
            exists version: byte, digest :: 0 < version && IsDigest(digest) && value == CridOf(version, digest)
  {
    if Gate(value) == Accept {
      var version, digest := AcceptedIsDerived(value);
    }
    forall version: byte, digest | 0 < version && IsDigest(digest) && value == CridOf(version, digest)
      ensures Gate(value) == Accept
    {
      DerivedIsAccepted(version, digest);
    }
  }

  /** One string per version and digest. */
  lemma CridInjective(v: byte, d: seq<byte>, w: byte, e: seq<byte>)
    requires CridOf(v, d) == CridOf(w, e)
    ensures v == w && d == e
  {
    var p, q := [v] + d, [w] + e;
    DecodeEncode(Seal(p));
    DecodeEncode(Seal(q));
    assert p == Seal(p)[..|Seal(p)| - 4] == Seal(q)[..|Seal(q)| - 4] == q;
    assert d == p[1..] == q[1..] == e;
  }

  lemma DecodedParts(version: byte, digest: seq<byte>)
    ensures IsText(CridOf(version, digest))
    ensures |Decode(CridOf(version, digest))| == |digest| + 5 && Decode(CridOf(version, digest))[0] == version
  {
    hide Encode, Decode, ChecksumOctets;
    DecodeEncode(Seal([version] + digest));
  }

  // ----- shape facts

  predicate CheckShape(crid: string, version: byte) {
    && (|crid| == FULL_CRID || |crid| == TRUNCATED_CRID)
    && (|crid| == FULL_CRID ==> crid[|crid| - 1] in {'a', 'q'})
    && (|crid| == TRUNCATED_CRID ==> crid[|crid| - 1] in {'a', 'i', 'q', 'y'})
    && crid[0] == ALPHABET[version / 8]
  }

  lemma DigitIsItsBits(t: string, i: nat)
    requires IsText(t) && i < |t|
    ensures TextBits(t)[5 * i..5 * i + 5] == BitsOf(Digit(t[i]), 5)
  {
    StreamAt(Digits(t), 5, i);
  }

  /** Every derived CRID has the first and last characters its version and length call for. */
  lemma DerivedHasShape(version: byte, digest: seq<byte>)
    requires IsDigest(digest)
    ensures CheckShape(CridOf(version, digest), version)
  {
    hide Encode, Char, Digit, ChecksumOctets, ALPHABET;
    var octets := Seal([version] + digest);
    FirstCharacter(octets);
    LastCharacter(octets, if |digest| == FULL_DIGEST then 4 else 3);
  }

  lemma FirstCharacter(octets: seq<byte>)
    requires octets != []
    ensures Encode(octets)[0] == ALPHABET[octets[0] / 8]
  {
    hide Encode, Char, Digit, ALPHABET;
    FirstDigit(octets);
    CharIsAlphabet(octets[0] / 8);
    CharOfDigit(Encode(octets)[0]);
  }

  lemma LastCharacter(octets: seq<byte>, pad: nat)
    requires |octets| > 0 && (pad == 3 || pad == 4) && 5 * DigitCount(|octets|, 5) - 8 * |octets| == pad
    ensures Encode(octets)[DigitCount(|octets|, 5) - 1] in if pad == 4 then {'a', 'q'} else {'a', 'i', 'q', 'y'}
  {
    hide Encode, Digit, DigitCount;
    PadBitsClear(octets, pad);
    CharacterOfDigit(Encode(octets)[DigitCount(|octets|, 5) - 1]);
  }

  /** The first character holds the top five bits of the first octet. */
  lemma FirstDigit(octets: seq<byte>)
    requires octets != []
    ensures Digit(Encode(octets)[0]) == octets[0] / 8
  {
    var text, first := Encode(octets), octets[0];
    EncodedBits(octets);
    DigitIsItsBits(text, 0);
    TopFive(first);
    assert TextBits(text)[..8] == BitsOf(first, 8);
    hide Encode, TextBits, BitsOf, Digit;
    assert TextBits(text)[0..5] == BitsOf(first, 8)[..5] == BitsOf(first / 8, 5);
    SameBits(Digit(text[0]), first / 8);
  }

  /** Bit `j` of the last character stands past the octets, so it is zero. */
  lemma LastBitClear(octets: seq<byte>, last: nat, j: nat)
    requires last + 1 == DigitCount(|octets|, 5) && j < 5 && 8 * |octets| <= 5 * last + j
    ensures !BitsOf(Digit(Encode(octets)[last]), 5)[j]
  {
    hide BitsOf, Digit, Encode, TextBits, PaddedBits, DigitCount;
    EncodedBits(octets);
    DigitIsItsBits(Encode(octets), last);
    PadBitIsZero(octets, 5, 5 * last + j);
    SliceAt(TextBits(Encode(octets)), 5 * last, j);
  }

  lemma SliceAt(bits: seq<bool>, from: nat, j: nat)
    requires from + 5 <= |bits| && j < 5
    ensures bits[from..from + 5][j] == bits[from + j]
  {
  }

  lemma PadBitsClear(octets: seq<byte>, pad: nat)
    requires |octets| > 0 && (pad == 3 || pad == 4) && 5 * DigitCount(|octets|, 5) - 8 * |octets| == pad
    ensures var v := Digit(Encode(octets)[DigitCount(|octets|, 5) - 1]);
            if pad == 4 then v == 0 || v == 16 else v == 0 || v == 8 || v == 16 || v == 24
  {
    hide Encode, BitsOf, Digit;
    var last := DigitCount(|octets|, 5) - 1;
    forall j | 5 - pad <= j < 5 ensures !BitsOf(Digit(Encode(octets)[last]), 5)[j] {
      LastBitClear(octets, last, j);
    }
    LastDigit(Digit(Encode(octets)[last]), pad);
  }

  lemma CharacterOfDigit(c: char)
    requires InAlphabet(c) && Digit(c) in {0, 8, 16, 24}
    ensures c == if Digit(c) == 0 then 'a' else if Digit(c) == 8 then 'i' else if Digit(c) == 16 then 'q' else 'y'
  {
  }

  lemma TopFive(v: byte)
    ensures BitsOf(v, 8)[..5] == BitsOf(v / 8, 5)
  {
    HighBits(v, 7);
    HighBits(v / 2, 6);
    HighBits(v / 4, 5);
    hide BitsOf;
    assert v / 2 / 2 == v / 4 && v / 4 / 2 == v / 8;
  }

  lemma HighBits(v: nat, w: nat)
    ensures BitsOf(v, w + 1) == BitsOf(v / 2, w) + [v % 2 == 1]
  {
  }

  lemma SameBits(a: nat, b: nat)
    requires a < 32 && b < 32 && BitsOf(a, 5) == BitsOf(b, 5)
    ensures a == b
  {
    assert Pow2(5) == 32;
    ValueOfBitsOf(a, 5);
    ValueOfBitsOf(b, 5);
  }

  lemma LastDigit(v: nat, pad: nat)
    requires v < 32 && (pad == 3 || pad == 4)
    requires forall j :: 5 - pad <= j < 5 ==> !BitsOf(v, 5)[j]
    ensures if pad == 4 then v == 0 || v == 16 else v == 0 || v == 8 || v == 16 || v == 24
  {
    hide BitsOf;
    var b := BitsOf(v, 5);
    assert !b[4] && !b[3] && !b[2] && (pad == 4 ==> !b[1]);
    LowBitClear(v, 4);
    assert BitsOf(v / 2, 4)[3] == b[3] && BitsOf(v / 2, 4)[2] == b[2] && BitsOf(v / 2, 4)[1] == b[1];
    LowBitClear(v / 2, 3);
    assert v / 2 / 2 == v / 4 && BitsOf(v / 4, 3)[2] == b[2] && BitsOf(v / 4, 3)[1] == b[1];
    LowBitClear(v / 4, 2);
    assert v / 4 / 2 == v / 8 && BitsOf(v / 8, 2)[1] == b[1];
    if pad == 4 {
      LowBitClear(v / 8, 1);
    }
  }

  lemma LowBitClear(v: nat, w: nat)
    requires !BitsOf(v, w + 1)[w]
    ensures v % 2 == 0 && BitsOf(v / 2, w) == BitsOf(v, w + 1)[..w]
  {
  }

  // ----- version registry

  datatype Environment = Production | Test | Unknown
  datatype Status = Active | Reserved
  datatype VersionRow = VersionRow(version: byte, digestLength: nat, environment: Environment, status: Status)
  datatype VersionReport =
    | VersionReport(version: byte, known: bool, environment: Environment, digestLength: nat)
    | NoReport

  const REGISTRY := [
    VersionRow(0x01, FULL_DIGEST, Production, Active),
    VersionRow(0x81, FULL_DIGEST, Test, Active),
    VersionRow(0x02, TRUNCATED_DIGEST, Production, Reserved),
    VersionRow(0x82, TRUNCATED_DIGEST, Test, Reserved)
  ]

  function Report(rows: seq<VersionRow>, version: byte, digestLength: nat): VersionReport {
    if rows == [] then VersionReport(version, false, Unknown, digestLength)
    else if rows[0].version != version then Report(rows[1..], version, digestLength)
    else if rows[0].digestLength != digestLength then NoReport
    else VersionReport(version, true, rows[0].environment, rows[0].digestLength)
  }

  function VersionExpectation(value: string): VersionReport {
    if Gate(value) != Accept then NoReport
    else Report(REGISTRY, Decode(value)[0], |Decode(value)| - CHECKSUM_OCTETS - 1)
  }

  predicate ActiveRow(rows: seq<VersionRow>, version: byte) {
    exists i :: 0 <= i < |rows| && rows[i].version == version && rows[i].status == Active
  }

  function RequestExpectation(crid: string): Outcome {
    if Gate(crid) != Accept then Gate(crid)
    else
      var report := VersionExpectation(crid);
      if report.VersionReport? && ActiveRow(REGISTRY, report.version) then Accept else Reject(Version)
  }

  /** A link may be requested exactly for the full CRIDs of the two active versions. */
  lemma RequestGateExact(value: string)
    ensures RequestExpectation(value) == Accept <==>
            exists version: byte, digest ::
              (version == 0x01 || version == 0x81) && |digest| == FULL_DIGEST && value == CridOf(version, digest)
    ensures RequestExpectation(value) != Accept && Gate(value) == Accept
            ==> RequestExpectation(value) == Reject(Version)
  {
    hide Gate, Encode, Decode, Report, ActiveRow, CridOf;
    if Gate(value) == Accept {
      var version, digest := AcceptedIsDerived(value);
      DecodedParts(version, digest);
      ReportOf(version, |digest|);
      ActiveVersions(version);
    }
    forall version: byte, digest |
      (version == 0x01 || version == 0x81) && |digest| == FULL_DIGEST && value == CridOf(version, digest)
      ensures RequestExpectation(value) == Accept
    {
      DerivedIsAccepted(version, digest);
      DecodedParts(version, digest);
      ReportOf(version, |digest|);
      ActiveVersions(version);
    }
  }

  lemma ReportOf(version: byte, digestLength: nat)
    ensures Report(REGISTRY, version, digestLength) ==
            (if version == 0x01 then
               if digestLength == FULL_DIGEST then VersionReport(version, true, Production, digestLength) else NoReport
             else if version == 0x81 then
               if digestLength == FULL_DIGEST then VersionReport(version, true, Test, digestLength) else NoReport
             else if version == 0x02 then
               if digestLength != TRUNCATED_DIGEST then NoReport
               else VersionReport(version, true, Production, digestLength)
             else if version == 0x82 then
               if digestLength == TRUNCATED_DIGEST then VersionReport(version, true, Test, digestLength) else NoReport
             else VersionReport(version, false, Unknown, digestLength))
  {
    var r1, r2, r3, r4 := REGISTRY[1..], REGISTRY[2..], REGISTRY[3..], REGISTRY[4..];
    assert r1[1..] == r2 && r2[1..] == r3 && r3[1..] == r4 == [];
    assert Report(r4, version, digestLength) == VersionReport(version, false, Unknown, digestLength);
    assert Report(r3, version, digestLength) == if 0x82 != version then Report(r4, version, digestLength)
      else if TRUNCATED_DIGEST != digestLength then NoReport else VersionReport(version, true, Test, digestLength);
    assert Report(r2, version, digestLength) == if 0x02 != version then Report(r3, version, digestLength)
      else if TRUNCATED_DIGEST != digestLength then NoReport
          else VersionReport(version, true, Production, digestLength);
  }

  lemma ActiveVersions(version: byte)
    ensures ActiveRow(REGISTRY, version) <==> version == 0x01 || version == 0x81
  {
    assert REGISTRY[0].version == 0x01 && REGISTRY[1].version == 0x81;
  }

  // ----- delivered keys

  datatype KeyMatch = Match | Mismatch | Unusable

  /** `der` is what strict base64url decoding made of the delivered key, if it succeeded. */
  function KeyMatchExpectation(sha256: Hash, crid: string, der: Option<seq<byte>>): KeyMatch
    requires forall m :: |sha256(m)| == 32
  {
    if Gate(crid) != Accept || der.None? then Unusable
    else
      var decoded := Decode(crid);
      var digestLength := |decoded| - CHECKSUM_OCTETS - 1;
      if CridOf(decoded[0], sha256(KeyMessage(der.value))[..digestLength]) == crid then Match else Mismatch
  }

  /** A key may be used exactly when its digest begins with the digest the CRID carries. */
  lemma KeyMatchExact(sha256: Hash, version: byte, digest: seq<byte>, spki: seq<byte>)
    requires forall m :: |sha256(m)| == 32
    requires 0 < version && IsDigest(digest)
    ensures KeyMatchExpectation(sha256, CridOf(version, digest), Some(spki)) ==
            if digest <= sha256(KeyMessage(spki)) then Match else Mismatch
  {
    hide Gate, Encode, Decode, CridOf;
    DerivedIsAccepted(version, digest);
    DecodedParts(version, digest);
    var prefix := sha256(KeyMessage(spki))[..|digest|];
    if CridOf(version, prefix) == CridOf(version, digest) {
      CridInjective(version, prefix, version, digest);
    }
    assert digest <= sha256(KeyMessage(spki)) <==> prefix == digest;
  }

  // ----- which class wins

  /** No CRID of any version and digest. */
  ghost predicate Unsealed(value: string) {
    !exists version: byte, digest :: IsDigest(digest) && value == CridOf(version, digest)
  }

  /** The class of every string: its characters, its length, its last character, its checksum, its version. */
  lemma GateClassExact(value: string)
    ensures Gate(value)
            == if exists i :: 0 <= i < |value| && value[i] !in ALPHABET then Reject(Charset)
               else if |value| != 60 && |value| != 47 then Reject(Length)
               else if value[|value| - 1] !in (if |value| == 60 then {'a', 'q'} else {'a', 'i', 'q', 'y'}) then
                 Reject(NonCanonical)
               else if Unsealed(value) then Reject(Checksum)
               else if exists digest :: IsDigest(digest) && value == CridOf(0, digest) then Reject(Version)
               else Accept
  {
    CharsetExact(value);
    hide Encode, Decode, ChecksumHolds, CridOf, Digit, ALPHABET, InAlphabet;
    if IsText(value) && (|value| == FULL_CRID || |value| == TRUNCATED_CRID) {
      PadExact(value);
      PadCharacters(value[|value| - 1]);
      if Encode(Decode(value)) == value {
        SealExact(value);
      }
    }
  }

  lemma PadCharacters(c: char)
    requires InAlphabet(c)
    ensures Digit(c) % 16 == 0 <==> c in {'a', 'q'}
    ensures Digit(c) % 8 == 0 <==> c in {'a', 'i', 'q', 'y'}
  {
  }

  lemma CharsetExact(value: string)
    ensures IsText(value) <==> forall i :: 0 <= i < |value| ==> value[i] in ALPHABET
  {
    forall i | 0 <= i < |value| ensures InAlphabet(value[i]) <==> value[i] in ALPHABET {
      AlphabetExact(value[i]);
    }
    hide InAlphabet, ALPHABET;
  }

  /** Canonical text has a sound checksum exactly if it is a CRID, then of the version in its first octet. */
  lemma SealExact(value: string)
    requires IsText(value) && (|value| == FULL_CRID || |value| == TRUNCATED_CRID) && Encode(Decode(value)) == value
    ensures ChecksumHolds(Decode(value)) <==> !Unsealed(value)
    ensures ChecksumHolds(Decode(value)) ==>
              (Decode(value)[0] == 0 <==> exists digest :: IsDigest(digest) && value == CridOf(0, digest))
  {
    hide Encode, Decode, CridOf, ChecksumHolds;
    if ChecksumHolds(Decode(value)) {
      SoundIsSealed(value);
    }
    forall version: byte, digest | IsDigest(digest) && value == CridOf(version, digest)
      ensures ChecksumHolds(Decode(value)) && Decode(value)[0] == version
    {
      SealedIsSound(version, digest);
    }
  }

  lemma SoundIsSealed(value: string)
    requires IsText(value) && (|value| == FULL_CRID || |value| == TRUNCATED_CRID) && Encode(Decode(value)) == value
    requires ChecksumHolds(Decode(value))
    ensures var octets := Decode(value); IsDigest(octets[1..|octets| - 4])
                                          && value == CridOf(octets[0], octets[1..|octets| - 4])
  {
    hide Decode, Encode, ChecksumHolds, Seal;
    SoundSplits(Decode(value));
  }

  lemma SoundSplits(octets: seq<byte>)
    requires |octets| >= 5 && ChecksumHolds(octets)
    ensures octets == Seal([octets[0]] + octets[1..|octets| - 4])
  {
    hide Stream, Octets, Crc32c.Checksum;
    var cut := |octets| - 4;
    OctetsStream(octets[cut..]);
    assert octets[..cut] == [octets[0]] + octets[1..cut];
    assert octets == octets[..cut] + octets[cut..];
  }

  lemma SealedIsSound(version: byte, digest: seq<byte>)
    requires IsDigest(digest)
    ensures var value := CridOf(version, digest);
            IsText(value) && |Decode(value)| >= 4 && ChecksumHolds(Decode(value)) && Decode(value)[0] == version
  {
    hide Encode, Decode, ChecksumHolds, CridOf;
    DerivedIsAccepted(version, digest);
    DecodedParts(version, digest);
  }

  // ----- error detection

  ghost predicate DifferAt(v: string, w: string, i: nat) {
    i < |v| == |w| && v[i] != w[i] && forall j :: 0 <= j < |v| && j != i ==> v[j] == w[j]
  }

  /** Text of either length in which no pad bit is set. */
  ghost predicate Plausible(t: string) {
    IsText(t) && (|t| == FULL_CRID || |t| == TRUNCATED_CRID) && Encode(Decode(t)) == t
  }

  /** What the pad bits of the last character leave of its value. */
  function PadModulus(length: nat): (m: nat)
    ensures m > 0
  {
    if length == FULL_CRID then 16 else 8
  }

  /**
    Replacing any one character of an accepted CRID by any other makes the gate
    reject it: outside the alphabet for its charset, with a pad bit set as not
    canonical, and everywhere else by the checksum.
   */
  lemma SingleCharacterDetected(v: string, w: string, i: nat)
    requires Gate(v) == Accept && DifferAt(v, w, i)
    ensures Gate(w) == if !InAlphabet(w[i]) then Reject(Charset)
                       else if i == |w| - 1 && Digit(w[i]) % PadModulus(|w|) != 0 then Reject(NonCanonical)
                       else Reject(Checksum)
  {
    AcceptedOctets(v);
    hide Decode, Encode, ChecksumHolds, Digit, IsText, InAlphabet, PadModulus;
    OthersInAlphabet(v, w, i);
    if InAlphabet(w[i]) {
      PadExact(v);
      PadExact(w);
      if Encode(Decode(w)) == w {
        ChangeBreaksChecksum(v, w, i);
      }
    }
  }

  lemma OthersInAlphabet(v: string, w: string, i: nat)
    requires IsText(v) && DifferAt(v, w, i)
    ensures IsText(w) <==> InAlphabet(w[i])
  {
    hide InAlphabet;
    forall j | 0 <= j < |w| && j != i ensures InAlphabet(w[j]) {
      assert InAlphabet(v[j]);
    }
  }

  /** Of two canonical texts that differ in one character at most one has a sound checksum. */
  lemma ChangeBreaksChecksum(v: string, w: string, i: nat)
    requires Plausible(v) && Plausible(w) && DifferAt(v, w, i) && ChecksumHolds(Decode(v))
    ensures !ChecksumHolds(Decode(w))
  {
    hide Decode, Encode, ChecksumHolds, Crc32c.DifferOnlyIn, PayloadChecksum;
    ChangedOctets(v, w, i);
    var lo, hi := 5 * i / 8, (5 * i + 4) / 8 + 1;
    if ChecksumHolds(Decode(w)) {
      if lo < |Decode(v)| - 4 < hi {
        SoundStraddle(v, w, i);
      }
      OneSide(Decode(v), Decode(w), lo, hi);
    }
  }

  /** Text of either length is canonical exactly if the pad bits of its last character are clear. */
  lemma PadExact(t: string)
    requires IsText(t) && (|t| == FULL_CRID || |t| == TRUNCATED_CRID)
    ensures Encode(Decode(t)) == t <==> Digit(t[|t| - 1]) % PadModulus(|t|) == 0
  {
    var pad := if |t| == FULL_CRID then 4 else 3;
    EncodeDecode(t);
    PadBits(t, pad);
    LowBits(Digit(t[|t| - 1]), pad);
    hide Encode, Decode, BitsOf, Digit, Digits, Stream;
  }

  ghost predicate LowClear(bits: seq<bool>, pad: nat)
    requires |bits| == 5 && pad <= 5
  {
    forall j :: 5 - pad <= j < 5 ==> !bits[j]
  }

  /** The pad bits are the low bits of the last character. */
  lemma PadBits(t: string, pad: nat)
    requires IsText(t) && (|t| == FULL_CRID || |t| == TRUNCATED_CRID) && pad == (if |t| == FULL_CRID then 4 else 3)
    ensures Canonical(Digits(t), 5) <==> LowClear(BitsOf(Digit(t[|t| - 1]), 5), pad)
  {
    hide Digit, Digits, Stream, BitsOf;
    DigitIsItsBits(t, |t| - 1);
    assert Canonical(Digits(t), 5) <==> forall b :: 5 * |t| - pad <= b < 5 * |t| ==> !TextBits(t)[b];
    hide Canonical, TextBits;
    TailClear(TextBits(t), 5 * |t| - 5, pad);
  }

  lemma TailClear(stream: seq<bool>, from: nat, pad: nat)
    requires |stream| == from + 5 && pad <= 5
    ensures LowClear(stream[from..from + 5], pad) <==> forall b :: |stream| - pad <= b < |stream| ==> !stream[b]
  {
    var bits := stream[from..from + 5];
    assert forall j :: 0 <= j < 5 ==> bits[j] == stream[from + j];
    assert forall b :: from <= b < from + 5 ==> stream[b] == bits[b - from];
  }

  lemma LowBits(d: nat, pad: nat)
    requires d < 32 && (pad == 3 || pad == 4)
    ensures LowClear(BitsOf(d, 5), pad) <==> d % (if pad == 4 then 16 else 8) == 0
  {
    hide BitsOf;
    FourLowBits(d);
    var b := BitsOf(d, 5);
    if LowClear(b, pad) {
      assert !b[4] && !b[3] && !b[2] && (pad == 4 ==> !b[1]);
    }
  }

  lemma FourLowBits(d: nat)
    requires d < 32
    ensures var b := BitsOf(d, 5);
            b[4] == (d % 2 == 1) && b[3] == (d / 2 % 2 == 1) && b[2] == (d / 4 % 2 == 1) && b[1] == (d / 8 % 2 == 1)
  {
    HighBits(d, 4);
    HighBits(d / 2, 3);
    HighBits(d / 4, 2);
    HighBits(d / 8, 1);
    hide BitsOf;
    assert d / 2 / 2 == d / 4 && d / 4 / 2 == d / 8;
  }

  /** So does any change of the encoded octets that is confined to four neighbours in the payload. */
  lemma PayloadBurstDetected(v: string, w: string, lo: nat)
    requires Gate(v) == Accept && v != w && IsText(w) && |w| == |v| && lo + 8 <= |Decode(v)|
    requires Crc32c.DifferOnlyIn(Decode(v), Decode(w), lo, lo + 4)
    ensures Gate(w) != Accept
  {
    hide Decode, Encode, Crc32c.DifferOnlyIn, ChecksumHolds;
    if Gate(w) == Accept {
      AcceptedOctets(v);
      AcceptedOctets(w);
      OneSide(Decode(v), Decode(w), lo, lo + 4);
    }
  }

  lemma AcceptedOctets(v: string)
    requires Gate(v) == Accept
    ensures Plausible(v) && (|Decode(v)| == 37 || |Decode(v)| == 29) && ChecksumHolds(Decode(v))
  {
  }

  /** Sound octets that differ in a short window on one side of the cut do not differ. */
  lemma OneSide(d: seq<byte>, e: seq<byte>, lo: nat, hi: nat)
    requires |d| == |e| >= 4 && ChecksumHolds(d) && ChecksumHolds(e)
    requires Crc32c.DifferOnlyIn(d, e, lo, hi) && hi <= lo + 4
    requires hi <= |d| - 4 || |d| - 4 <= lo || PayloadChecksum(d) == PayloadChecksum(e)
    ensures d == e
  {
    hide Stream, Crc32c.Checksum, Octets;
    var cut := |d| - CHECKSUM_OCTETS;
    var p, q := d[..cut], e[..cut];
    if hi <= cut {
      assert d[cut..] == e[cut..];
    }
    if p != q {
      Crc32c.BurstDetected(p, q, lo);
    }
    OctetsStream(d[cut..]);
    OctetsStream(e[cut..]);
    assert d == p + d[cut..] && e == q + e[cut..];
  }

  /** Bits outside the changed character are unchanged. */
  lemma ChangedBits(v: string, w: string, i: nat)
    requires IsText(v) && IsText(w) && DifferAt(v, w, i)
    ensures forall b :: 0 <= b < 5 * |v| && !(5 * i <= b < 5 * i + 5) ==> TextBits(v)[b] == TextBits(w)[b]
  {
    hide TextBits;
    forall b | 0 <= b < 5 * |v| && !(5 * i <= b < 5 * i + 5) ensures TextBits(v)[b] == TextBits(w)[b] {
      SameCharacter(v, w, b / 5, b % 5);
    }
  }

  lemma SameCharacter(v: string, w: string, j: nat, k: nat)
    requires IsText(v) && IsText(w) && j < |v| == |w| && v[j] == w[j] && k < 5
    ensures TextBits(v)[5 * j + k] == TextBits(w)[5 * j + k]
  {
    hide TextBits, BitsOf, Digit;
    DigitIsItsBits(v, j);
    DigitIsItsBits(w, j);
    SliceAt(TextBits(v), 5 * j, k);
    SliceAt(TextBits(w), 5 * j, k);
  }

  lemma OctetOfText(t: string, k: nat)
    requires IsText(t) && k < |Decode(t)|
    ensures TextBits(t)[8 * k..8 * k + 8] == BitsOf(Decode(t)[k], 8)
  {
    hide Decode, TextBits, Stream, BitsOf;
    DecodedBits(t);
    assert Pow2(8) == 256;
    StreamAt(Decode(t), 8, k);
    var n := 5 * |t| / 8;
    assert TextBits(t)[..8 * n][8 * k..8 * k + 8] == TextBits(t)[8 * k..8 * k + 8];
  }

  /** A changed character changes the octets, and only the one or two it has bits in. */
  lemma ChangedOctets(v: string, w: string, i: nat)
    requires Plausible(v) && Plausible(w) && DifferAt(v, w, i)
    ensures |Decode(v)| == |Decode(w)| && Decode(v) != Decode(w) && |Decode(v)| >= 29
    ensures Crc32c.DifferOnlyIn(Decode(v), Decode(w), 5 * i / 8, (5 * i + 4) / 8 + 1)
  {
    hide Encode, Decode, TextBits, BitsOf, ValueOf;
    forall k | 0 <= k < |Decode(v)| && !(5 * i / 8 <= k < (5 * i + 4) / 8 + 1) ensures Decode(v)[k] == Decode(w)[k] {
      assert 8 * k + 8 <= 5 * i || 5 * i + 5 <= 8 * k;
      ChangedBits(v, w, i);
      OctetOfText(v, k);
      OctetOfText(w, k);
      assert TextBits(v)[8 * k..8 * k + 8] == TextBits(w)[8 * k..8 * k + 8];
      assert Pow2(8) == 256;
      ValueOfBitsOf(Decode(v)[k], 8);
      ValueOfBitsOf(Decode(w)[k], 8);
    }
  }

  /** The payload of a full CRID's text: version and digest. */
  function FullPayload(t: string): (p: seq<byte>)
    requires IsText(t) && |t| == FULL_CRID
    ensures |p| == 33
  {
    Decode(t)[..33]
  }

  /**
    Character 52 of a full CRID reaches from the payload into the first bit of the
    checksum.  Whatever it becomes, the payload's checksum does not change in that
    bit alone.
   */
  lemma Straddle(v: string, w: string)
    requires IsText(v) && IsText(w) && |v| == FULL_CRID && DifferAt(v, w, 52)
    requires Crc32c.Checksum(FullPayload(v))[1..] == Crc32c.Checksum(FullPayload(w))[1..]
    ensures Crc32c.Checksum(FullPayload(v)) == Crc32c.Checksum(FullPayload(w))
  {
    hide Encode, Decode, TextBits, BitsOf, ValueOf, Stream, Crc32c.Message, Crc32c.Divide;
    var p, q := FullPayload(v), FullPayload(w);
    ChangedBits(v, w, 52);
    forall k | 0 <= k < 32 ensures p[k] == q[k] {
      UnchangedOctet(v, w, k);
    }
    assert p[..32] == q[..32];
    OctetOfText(v, 32);
    OctetOfText(w, 32);
    var m, n := Crc32c.LowBitFirst(p[32]), Crc32c.LowBitFirst(q[32]);
    forall j | 4 <= j < 8 ensures m[j] == n[j] {
      assert m[j] == BitsOf(p[32], 8)[7 - j] == TextBits(v)[256..264][7 - j];
      assert n[j] == BitsOf(q[32], 8)[7 - j] == TextBits(w)[256..264][7 - j];
    }
    var c := Crc32c.Divide(Crc32c.Ones(), Crc32c.Message(p[..32]));
    LastOctet(p, c, m);
    LastOctet(q, c, n);
    forall j | 0 <= j < 31 ensures Crc32c.Remainder(p)[j] == Crc32c.Remainder(q)[j] {
      assert Crc32c.Checksum(p)[1..][30 - j] == Crc32c.Checksum(q)[1..][30 - j];
    }
    Crc32c.LowNibbleNeverFlipsOnlyTheEnd(c, m, n);
  }

  lemma UnchangedOctet(v: string, w: string, k: nat)
    requires IsText(v) && IsText(w) && |v| == |w| && k < |Decode(v)|
    requires forall b :: 8 * k <= b < 8 * k + 8 ==> TextBits(v)[b] == TextBits(w)[b]
    ensures Decode(v)[k] == Decode(w)[k]
  {
    hide TextBits, BitsOf, ValueOf, Decode;
    OctetOfText(v, k);
    OctetOfText(w, k);
    assert TextBits(v)[8 * k..8 * k + 8] == TextBits(w)[8 * k..8 * k + 8];
    assert Pow2(8) == 256;
    ValueOfBitsOf(Decode(v)[k], 8);
    ValueOfBitsOf(Decode(w)[k], 8);
  }

  /** The stored checksums of two such texts differ in their first bit at most. */
  lemma StoredChecksums(v: string, w: string)
    requires IsText(v) && IsText(w) && |v| == FULL_CRID && DifferAt(v, w, 52)
    ensures Stream(Decode(v)[33..], 8)[1..] == Stream(Decode(w)[33..], 8)[1..]
  {
    hide Decode, TextBits, Stream;
    ChangedBits(v, w, 52);
    DecodedBits(v);
    DecodedBits(w);
    StreamConcat(Decode(v)[..33], Decode(v)[33..], 8);
    StreamConcat(Decode(w)[..33], Decode(w)[33..], 8);
    assert Decode(v) == Decode(v)[..33] + Decode(v)[33..] && Decode(w) == Decode(w)[..33] + Decode(w)[33..];
    forall j | 1 <= j < 32 ensures Stream(Decode(v)[33..], 8)[j] == Stream(Decode(w)[33..], 8)[j] {
      assert Stream(Decode(v)[33..], 8)[j] == TextBits(v)[264 + j];
      assert Stream(Decode(w)[33..], 8)[j] == TextBits(w)[264 + j];
    }
  }

  /** So if both checksums hold the payloads have one checksum. */
  lemma SoundStraddle(v: string, w: string, i: nat)
    requires Plausible(v) && Plausible(w) && DifferAt(v, w, i)
    requires 5 * i / 8 < |Decode(v)| - 4 < (5 * i + 4) / 8 + 1
    ensures |Decode(v)| == |Decode(w)| && |Decode(v)| >= 4
    ensures ChecksumHolds(Decode(v)) && ChecksumHolds(Decode(w))
            ==> PayloadChecksum(Decode(v)) == PayloadChecksum(Decode(w))
  {
    hide Encode, Decode, Stream, Crc32c.Checksum;
    assert |v| == FULL_CRID && i == 52;
    StoredChecksums(v, w);
    if Crc32c.Checksum(FullPayload(v))[1..] == Crc32c.Checksum(FullPayload(w))[1..] {
      Straddle(v, w);
    }
  }

  lemma LastOctet(p: seq<byte>, c: Crc32c.Register, m: seq<bool>)
    requires |p| == 33 && c == Crc32c.Divide(Crc32c.Ones(), Crc32c.Message(p[..32])) && m == Crc32c.LowBitFirst(p[32])
    ensures Crc32c.Remainder(p) == Crc32c.Divide(c, m)
  {
    hide Crc32c.Message, Crc32c.Divide, Crc32c.LowBitFirst;
    assert p == p[..32] + [p[32]];
    Crc32c.MessageOfOne(p[32]);
    Crc32c.MessageConcat(p[..32], [p[32]]);
    Crc32c.DivideConcat(Crc32c.Ones(), Crc32c.Message(p[..32]), m);
  }
}
