/**
  Generator and checker agree: every generated input is rejected at its declared
  boundary, up to two conditions on the positive vector that are exact.
 */
module FenceAgreement {
  import opened BitStream
  import opened GoStrings
  import opened Wrappers
  import opened FenceCheck
  import opened FenceRejects
  import Base64
  import BigEndian
  import Decimal
  import Hexadecimal

  /** The unmutated parts pass the checker. */
  ghost predicate Positive(parts: seq<Part>) {
    FenceVerdict(parts, parts) == Clear
  }

  lemma PositiveFacts(parts: seq<Part>)
    requires Positive(parts)
    ensures forall j :: 0 <= j < |parts| ==> PartVerdict(parts[j], parts[j]) == Clear
    ensures CanonicalScopes(Scopes(parts))
  {
    hide PartVerdict, FirstFault, CanonicalScopes, Scopes, LastCount;
    NoFault(parts, parts);
  }

  /** Changing one part of a positive list faults exactly where that part does. */
  lemma OneChange(parts: seq<Part>, i: nat, part: Part)
    requires Positive(parts) && i < |parts|
    ensures FirstFault(parts[i := part], parts) == PartVerdict(part, parts[i])
  {
    hide PartVerdict, FirstFault;
    PositiveFacts(parts);
    if PartVerdict(part, parts[i]) != Clear {
      FaultAt(parts[i := part], parts, i);
    } else {
      NoFault(parts[i := part], parts);
    }
  }

  lemma TwoChanges(parts: seq<Part>, a: nat, p: Part, b: nat, q: Part)
    requires Positive(parts) && a < |parts| && b < |parts| && a != b
    ensures FirstFault(parts[a := p][b := q], parts) == Clear
            <==> PartVerdict(p, parts[a]) == Clear && PartVerdict(q, parts[b]) == Clear
    ensures FirstFault(parts[a := p][b := q], parts) != Boundary("canonical_scopes")
  {
    hide PartVerdict, FirstFault;
    PositiveFacts(parts);
    var changed := parts[a := p][b := q];
    NoFault(changed, parts);
    assert changed[a] == p && changed[b] == q;
  }

  // ----- numbers out of range

  lemma NotANumber(k: nat)
    requires k < |INVALID_NUMBERS|
    ensures ParseUint(INVALID_NUMBERS[k].1) == None
  {
    if k == 0 {
      assert !Decimal.IsDigit("-1"[0]);
    } else {
      hide Decimal.Value;
      var s := "18446744073709551616";
      assert s == "1844" + "6744" + "0737" + "0955" + "1616";
      Decimal.FourDigits("1844");
      Decimal.FourMore("1844", "6744");
      Decimal.FourMore("1844" + "6744", "0737");
      Decimal.FourMore("1844" + "6744" + "0737", "0955");
      Decimal.FourMore("1844" + "6744" + "0737" + "0955", "1616");
    }
  }

  lemma NumberRejected(v: Vector, i: nat, k: nat)
    requires Positive(v.parts) && i < |v.parts| && k < |INVALID_NUMBERS| && v.parts[i].encoding == "uint64_be"
    ensures FenceVerdict(NumberInput(v, i, k).parts, v.parts) == Boundary("uint64")
  {
    NotANumber(k);
    hide FirstFault, ParseUint, INVALID_NUMBERS;
    OneChange(v.parts, i, v.parts[i].(value := INVALID_NUMBERS[k].1, bytesHex := ""));
  }

  // ----- the key hash

  lemma ThirtyTwoOctets(t: string)
    requires Base64.GoDecode(Base64.Url, t).Some? && |Base64.GoDecode(Base64.Url, t).value| == 32
    ensures |t| >= 43
  {
    hide Stream, Pack;
    Base64.DropShortens(t);
  }

  lemma HashRejected(parts: seq<Part>)
    requires Positive(parts) && ShortenHash(parts).Ok?
    ensures FenceVerdict(ShortenHash(parts).value, parts) == Boundary("key_length")
  {
    hide FirstFault, Base64.GoDecode, Base64.Encode, Hexadecimal.Decode, Hexadecimal.Encode, Base64.StrictDecode;
    var i := IndexOf(parts, "credential_key_hash");
    var part := parts[i];
    var raw := Base64.GoDecode(Base64.Url, part.value).value;
    PositiveFacts(parts);
    ThirtyTwoOctets(part.value);
    assert part.encoding == "raw_bytes_b64url";
    Base64.StrictDecodeExact(Base64.Url, Base64Text(raw[..31]), raw[..31]);
    Hexadecimal.DecodeEncode(raw[..31]);
    OneChange(parts, i, part.(value := Base64Text(raw[..31]), bytesHex := Hex(raw[..31])));
  }

  // ----- scopes

  lemma {:induction false} ValueBelow(s: string)
    requires Decimal.AllDigits(s)
    ensures Decimal.Value(s) < Decimal.Pow10(|s|)
  {
    if s != "" {
      ValueBelow(s[..|s| - 1]);
    }
  }

  lemma {:induction false} LeadingOctet(octets: seq<byte>)
    requires octets != []
    ensures BigEndian.Get(octets) >= octets[0] * BigEndian.Pow256(|octets| - 1)
  {
    if |octets| > 1 {
      var n := |octets| - 1;
      LeadingOctet(octets[..n]);
      var g, p := BigEndian.Get(octets[..n]), BigEndian.Pow256(n - 1);
      assert BigEndian.Get(octets) == 256 * g + octets[n] && BigEndian.Pow256(n) == 256 * p;
      hide BigEndian.Get, BigEndian.Pow256;
      assert octets[0] * (256 * p) == 256 * (octets[0] * p);
    }
  }

  /** No number of eight digits is spelt by the eight octets of its own digits. */
  lemma NumberDoesNotSpellItself(s: text)
    requires ParseUint(s).Some?
    ensures BigEndian.Put(ParseUint(s).value, 8) != OctetsOf(s)
  {
    var n := ParseUint(s).value;
    if |s| == 8 {
      ValueBelow(s);
      assert Decimal.Pow10(4) == 10_000;
      Decimal.Pow10Sum(4, 4);
      assert BigEndian.Pow256(7) == 0x100_0000_0000_0000 && BigEndian.Pow256(8) == 0x1_0000_0000_0000_0000;
      BigEndian.GetPut(n, 8);
      LeadingOctet(OctetsOf(s));
      assert Decimal.IsDigit(s[0]) && OctetsOf(s)[0] >= 48;
      assert BigEndian.Get(OctetsOf(s)) > n;
    }
  }

  lemma OnlyUtf8SpellsItself(part: Part)
    requires part.value != "" && part.encoding != "utf8"
    ensures PartBytes(part) != Some(OctetsOf(part.value))
  {
    hide Base64.StrictDecode, Base64.Encode, ParseUint, OctetsOf;
    if part.encoding == "raw_bytes_b64url" {
      Base64.StrictDecodeExact(Base64.Url, part.value, OctetsOf(part.value));
      assert |Base64.Encode(Base64.Url, OctetsOf(part.value))| > |part.value|;
    } else if part.encoding == "uint64_be" && ParseUint(part.value).Some? {
      NumberDoesNotSpellItself(part.value);
    }
  }

  /** A scope part under a new nonempty value is clear exactly if it is written in UTF-8. */
  lemma RewrittenScope(part: Part, value: text)
    requires IsScope(part) && value != ""
    ensures PartVerdict(part.(value := value, bytesHex := Hex(OctetsOf(value))), part) == Clear
            <==> part.encoding == "utf8"
  {
    hide Hexadecimal.Decode, Hexadecimal.Encode, OctetsOf;
    var rewritten := part.(value := value, bytesHex := Hex(OctetsOf(value)));
    Hexadecimal.DecodeEncode(OctetsOf(value));
    assert part.name[0] == 's' && "credential_key_hash"[0] == 'c';
    if part.encoding != "utf8" {
      OnlyUtf8SpellsItself(rewritten);
      hide PartBytes;
    }
  }

  predicate ScopesInUtf8(parts: seq<Part>) {
    var a, b := IndexOf(parts, "scope_0"), IndexOf(parts, "scope_1");
    a >= 0 && b >= 0 && parts[a].encoding == "utf8" && parts[b].encoding == "utf8"
  }

  lemma RewrittenScopes(parts: seq<Part>, a: nat, b: nat, first: text, second: text)
    requires a < |parts| && b < |parts| && a != b
    requires parts[a].name == "scope_0" && parts[b].name == "scope_1"
    ensures var once := SetValue(parts, a, first, Hex(OctetsOf(first)));
            var rewritten := SetValue(once, b, second, Hex(OctetsOf(second)));
            var i, j := Rank(parts, a), Rank(parts, b);
            i != j && i < |Scopes(parts)| && j < |Scopes(parts)|
            && Scopes(parts)[i] == parts[a].value && Scopes(parts)[j] == parts[b].value
            && Scopes(rewritten) == Scopes(parts)[i := first][j := second]
  {
    hide Hex, OctetsOf, Scopes;
    var p := parts[a].(value := first, bytesHex := Hex(OctetsOf(first)));
    var q := parts[b].(value := second, bytesHex := Hex(OctetsOf(second)));
    assert IsScope(parts[a]) && IsScope(parts[b]);
    ScopesUpdate(parts, a, p);
    ScopesUpdate(parts, b, q);
    ScopesUpdate(parts[a := p], b, q);
    if a < b {
      RanksDiffer(parts, a, b, p);
    } else {
      RanksDiffer(parts, b, a, parts[b]);
      assert parts[a := p][..b] == parts[..b];
    }
  }

  lemma ScopesRejected(parts: seq<Part>, swap: bool)
    requires Positive(parts) && DisturbScopes(parts, swap).Ok?
    ensures FenceVerdict(DisturbScopes(parts, swap).value, parts) == Boundary("canonical_scopes")
            <==> ScopesInUtf8(parts)
  {
    hide FirstFault, Hex, OctetsOf, Scopes, CanonicalScopes, PartVerdict, Rank;
    var a, b := IndexOf(parts, "scope_0"), IndexOf(parts, "scope_1");
    var first, second := if swap then parts[b].value else parts[a].value, parts[a].value;
    PositiveFacts(parts);
    RewrittenScopes(parts, a, b, first, second);
    NonemptyScopes(Scopes(parts), Rank(parts, a), Rank(parts, b));
    assert IsScope(parts[a]) && IsScope(parts[b]);
    RewrittenScope(parts[a], first);
    RewrittenScope(parts[b], second);
    TwoChanges(parts, a, parts[a].(value := first, bytesHex := Hex(OctetsOf(first))),
               b, parts[b].(value := second, bytesHex := Hex(OctetsOf(second))));
    DisturbedScopes(Scopes(parts), Rank(parts, a), Rank(parts, b));
    assert !swap ==> Scopes(parts)[Rank(parts, a) := first] == Scopes(parts);
  }

  lemma NonemptyScopes(scopes: seq<text>, i: nat, j: nat)
    requires CanonicalScopes(scopes) && i < |scopes| && j < |scopes|
    ensures scopes[i] != "" && scopes[j] != ""
  {
  }

  // ----- the remaining recipes

  lemma BoolRejected(parts: seq<Part>)
    requires Positive(parts) && SpellBool(parts).Ok?
    ensures FenceVerdict(SpellBool(parts).value, parts) == Boundary("encoding")
            <==> parts[IndexOf(parts, "has_counter")].encoding != "utf8"
  {
    hide FirstFault, Hex, OctetsOf, Hexadecimal.Decode, Hexadecimal.Encode, Scopes, LastCount, CanonicalScopes;
    var i := IndexOf(parts, "has_counter");
    var part := parts[i].(encoding := "utf8", value := "false", bytesHex := Hex(OctetsOf("false")));
    Hexadecimal.DecodeEncode(OctetsOf("false"));
    OneChange(parts, i, part);
    assert Hex(OctetsOf("false")) == Hexadecimal.Encode(OctetsOf("false")) by {
      HexIsEncode(OctetsOf("false"));
    }
  }

  lemma HexIsEncode(octets: seq<byte>)
    ensures Hex(octets) == Hexadecimal.Encode(octets)
  {
  }

  /** What the positive parts must look like for a recipe to hit its own boundary. */
  predicate Suits(name: string, parts: seq<Part>) {
    if name == "credential_scopes_unsorted" || name == "credential_scopes_duplicate" then ScopesInUtf8(parts)
    else if name == "bool_not_single_byte" then
      var i := IndexOf(parts, "has_counter");
      i >= 0 && parts[i].encoding != "utf8"
    else true
  }

  lemma MutationExact(name: string, parts: seq<Part>)
    requires Positive(parts) && Mutate(name, parts).Ok?
    ensures FenceVerdict(Mutate(name, parts).value, parts) == Boundary(BoundaryOf(name)) <==> Suits(name, parts)
  {
    hide FenceVerdict, Positive, ScopesInUtf8, ShortenHash, DisturbScopes;
    match name
    case "credential_hash_wrong_length" => HashRejected(parts);
    case "credential_scopes_unsorted" => ScopesRejected(parts, true);
    case "credential_scopes_duplicate" => ScopesRejected(parts, false);
    case "bool_not_single_byte" => BoolRejected(parts);
    case "missing_required_cell_part" => DropRejected(parts);
    case _ =>
  }

  lemma DropRejected(parts: seq<Part>)
    requires DropTimestamp(parts).Ok?
    ensures FenceVerdict(DropTimestamp(parts).value, parts) == Boundary("required_part")
  {
  }

  // ----- every input of one vector

  ghost predicate Rejected(inputs: seq<Input>, base: Vector) {
    forall input :: input in inputs ==> FenceVerdict(input.parts, base.parts) == Boundary(input.boundary)
  }

  ghost predicate OfKind(inputs: seq<Input>, kind: string) {
    forall input :: input in inputs ==> input.kind == kind
  }

  lemma {:induction false} PartInputsRejected(v: Vector, i: nat, k: nat)
    requires Positive(v.parts) && i < |v.parts| && k <= |INVALID_NUMBERS|
    ensures Rejected(PartInputs(v, i, k), v) && OfKind(PartInputs(v, i, k), v.kind)
  {
    hide FenceVerdict, Positive;
    if k > 0 && v.parts[i].encoding == "uint64_be" {
      PartInputsRejected(v, i, k - 1);
      NumberRejected(v, i, k - 1);
    }
  }

  lemma {:induction false} NumberInputsRejected(v: Vector, n: nat)
    requires Positive(v.parts) && n <= |v.parts|
    ensures Rejected(NumberInputs(v, n), v) && OfKind(NumberInputs(v, n), v.kind)
  {
    hide FenceVerdict, Positive, PartInputs, INVALID_NUMBERS;
    if n > 0 {
      NumberInputsRejected(v, n - 1);
      PartInputsRejected(v, n - 1, |INVALID_NUMBERS|);
    }
  }

  /** The condition under which recipe `name` does its work on `v`. */
  predicate Fits(name: string, v: Vector) {
    name == NUMBERS || v.kind != TargetKind(name) || Suits(name, v.parts)
  }

  lemma VectorExact(name: string, v: Vector)
    requires Positive(v.parts) && VectorInputs(name, v).Ok?
    ensures Rejected(VectorInputs(name, v).value, v) <==> Fits(name, v)
    ensures OfKind(VectorInputs(name, v).value, v.kind)
    ensures name != NUMBERS ==> OfKind(VectorInputs(name, v).value, TargetKind(name))
  {
    hide FenceVerdict, Positive, NumberInputs, Suits, Mutate, BoundaryOf;
    if name == NUMBERS {
      NumberInputsRejected(v, |v.parts|);
    } else if v.kind == TargetKind(name) {
      MutationExact(name, v.parts);
      var input := Input(name, v.kind, BoundaryOf(name), Mutate(name, v.parts).value);
      assert VectorInputs(name, v).value == [input];
    }
  }

  // ----- the independent verifier over a whole file

  function Bases(vectors: seq<Vector>): map<string, Vector> {
    if vectors == [] then map[] else
      var last := vectors[|vectors| - 1];
      Bases(vectors[..|vectors| - 1])[last.kind := last]
  }

  predicate Agrees(input: Input, fenceKind: string, bases: map<string, Vector>) {
    (fenceKind == "all" || fenceKind == input.kind) && input.kind in bases
    && FenceVerdict(input.parts, bases[input.kind].parts) == Boundary(input.boundary)
  }

  ghost predicate RejectAgrees(r: Reject, bases: map<string, Vector>) {
    r.inputs != [] && forall input :: input in r.inputs ==> Agrees(input, r.fenceKind, bases)
  }

  ghost predicate VerifierAccepts(version: nat, vectors: seq<Vector>, rejects: seq<Reject>) {
    version == 1 || forall r :: r in rejects ==> RejectAgrees(r, Bases(vectors))
  }

  method VerifyRejectInputs(version: nat, vectors: seq<Vector>, rejects: seq<Reject>) returns (accepted: bool)
    ensures accepted <==> VerifierAccepts(version, vectors, rejects)
  {
    hide FenceVerdict;
    if version == 1 {
      return true;
    }
    var bases: map<string, Vector> := map[];
    var n := 0;
    while n < |vectors|
      invariant 0 <= n <= |vectors| && bases == Bases(vectors[..n])
    {
      assert vectors[..n + 1][..n] == vectors[..n];
      bases := bases[vectors[n].kind := vectors[n]];
      n := n + 1;
    }
    assert vectors[..n] == vectors;
    hide Bases;
    n := 0;
    while n < |rejects|
      invariant 0 <= n <= |rejects|
      invariant forall r :: r in rejects[..n] ==> RejectAgrees(r, bases)
    {
      var reject := rejects[n];
      assert reject in rejects && rejects[..n + 1] == rejects[..n] + [reject];
      if reject.inputs == [] {
        return false;
      }
      var k := 0;
      while k < |reject.inputs|
        invariant 0 <= k <= |reject.inputs|
        invariant forall input :: input in reject.inputs[..k] ==> Agrees(input, reject.fenceKind, bases)
      {
        var input := reject.inputs[k];
        assert input in reject.inputs && reject.inputs[..k + 1] == reject.inputs[..k] + [input];
        if reject.fenceKind != "all" && reject.fenceKind != input.kind {
          return false;
        }
        if input.kind !in bases {
          return false;
        }
        var got := FenceInputBoundary(input.parts, bases[input.kind].parts);
        if got != Boundary(input.boundary) {
          return false;
        }
        k := k + 1;
      }
      assert reject.inputs[..k] == reject.inputs;
      n := n + 1;
    }
    assert rejects[..n] == rejects;
    return true;
  }

  // ----- agreement

  /** What the loader enforces on the kinds of its positive vectors. */
  ghost predicate DistinctKinds(vectors: seq<Vector>) {
    forall i, j :: 0 <= i < j < |vectors| ==> vectors[i].kind != vectors[j].kind
  }

  lemma {:induction false} BasesFind(vectors: seq<Vector>)
    requires DistinctKinds(vectors)
    ensures forall v :: v in vectors ==> v.kind in Bases(vectors) && Bases(vectors)[v.kind] == v
  {
    if vectors != [] {
      var n := |vectors| - 1;
      BasesFind(vectors[..n]);
      assert vectors == vectors[..n] + [vectors[n]];
    }
  }

  /** The generated inputs are those of the vectors, and nothing else. */
  lemma {:induction false} AllInputsOf(name: string, vectors: seq<Vector>)
    requires AllInputs(name, vectors).Ok?
    ensures forall v :: v in vectors ==> VectorInputs(name, v).Ok?
    ensures forall input :: input in AllInputs(name, vectors).value
                            <==> exists v :: v in vectors && input in VectorInputs(name, v).value
  {
    hide VectorInputs;
    if vectors != [] {
      AllInputsOf(name, vectors[1..]);
      assert vectors == [vectors[0]] + vectors[1..];
    }
  }

  lemma PinnedKind(r: Reject, vectors: seq<Vector>, input: Input)
    requires (forall v :: v in vectors ==> Positive(v.parts)) && Pinned(r, vectors) && input in r.inputs
    ensures r.fenceKind == "all" || r.fenceKind == input.kind
  {
    hide FenceVerdict, Positive, Fits, VectorInputs, AllInputs;
    if r.name != NUMBERS {
      AllInputsOf(r.name, vectors);
      forall other | other in r.inputs ensures other.kind == TargetKind(r.name) {
        var v :| v in vectors && other in VectorInputs(r.name, v).value;
        VectorExact(r.name, v);
      }
      assert r.inputs[0] in r.inputs;
    }
  }

  lemma InputExact(r: Reject, vectors: seq<Vector>, v: Vector, input: Input)
    requires DistinctKinds(vectors) && (forall v :: v in vectors ==> Positive(v.parts)) && Pinned(r, vectors)
    requires v in vectors && VectorInputs(r.name, v).Ok? && input in VectorInputs(r.name, v).value
    ensures input in r.inputs
    ensures Agrees(input, r.fenceKind, Bases(vectors))
            <==> FenceVerdict(input.parts, v.parts) == Boundary(input.boundary)
  {
    hide FenceVerdict, Positive, Fits, VectorInputs, AllInputs, Bases, DistinctKinds;
    AllInputsOf(r.name, vectors);
    PinnedKind(r, vectors, input);
    VectorExact(r.name, v);
    BasesFind(vectors);
  }

  lemma RejectExact(r: Reject, vectors: seq<Vector>)
    requires DistinctKinds(vectors) && (forall v :: v in vectors ==> Positive(v.parts)) && Pinned(r, vectors)
    ensures RejectAgrees(r, Bases(vectors)) <==> forall v :: v in vectors ==> Fits(r.name, v)
  {
    hide FenceVerdict, Positive, Fits, VectorInputs, AllInputs, Bases, DistinctKinds, Agrees;
    AllInputsOf(r.name, vectors);
    forall v | v in vectors
      ensures Rejected(VectorInputs(r.name, v).value, v) <==> Fits(r.name, v)
    {
      VectorExact(r.name, v);
    }
    forall v, input | v in vectors && input in VectorInputs(r.name, v).value
      ensures input in r.inputs
      ensures Agrees(input, r.fenceKind, Bases(vectors))
              <==> FenceVerdict(input.parts, v.parts) == Boundary(input.boundary)
    {
      InputExact(r, vectors, v, input);
    }
  }

  /**
    A file of positive vectors that the loader accepts passes the independent
    verifier exactly if every vector fits every recipe aimed at it.
   */
  lemma LoaderAndVerifierAgree(version: nat, vectors: seq<Vector>, rejects: seq<Reject>)
    requires version != 1 && DistinctKinds(vectors) && forall v :: v in vectors ==> Positive(v.parts)
    requires LoaderAccepts(version, vectors, rejects)
    ensures VerifierAccepts(version, vectors, rejects)
            <==> forall r, v :: r in rejects && v in vectors ==> Fits(r.name, v)
  {
    hide Pinned, RejectAgrees, Fits, Bases, Positive, DistinctKinds;
    forall r | r in rejects
      ensures RejectAgrees(r, Bases(vectors)) <==> forall v :: v in vectors ==> Fits(r.name, v)
    {
      RejectExact(r, vectors);
    }
  }
}
