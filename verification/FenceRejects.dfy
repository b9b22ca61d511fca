/**
  The generator of invalid fence inputs, the loader that pins published inputs to
  it, and the proof that the independent checker rejects each one where it says.
 */
module FenceRejects {
  import opened BitStream
  import opened GoStrings
  import opened Wrappers
  import opened FenceCheck
  import Base64
  import Hexadecimal

  datatype Vector = Vector(kind: string, parts: seq<Part>)
  datatype Input = Input(name: string, kind: string, boundary: string, parts: seq<Part>)
  datatype Reject = Reject(name: string, fenceKind: string, inputs: seq<Input>)
  datatype Failure = MissingHash | InvalidHash | MissingScopes | MissingBool | MissingTimestamp | Unhandled | NoInputs

  const NUMBERS := "uint64_negative_or_overflow"
  const INVALID_NUMBERS: seq<(string, text)> := [("negative", "-1"), ("overflow", "18446744073709551616")]

  // ----- what each recipe makes of one positive vector

  function IndexOf(parts: seq<Part>, want: string): (i: int)
    ensures -1 <= i < |parts|
    ensures i >= 0 ==> parts[i].name == want
    ensures i < 0 ==> forall j :: 0 <= j < |parts| ==> parts[j].name != want
  {
    if parts == [] then -1
    else if parts[0].name == want then 0
    else
      var i := IndexOf(parts[1..], want);
      if i < 0 then -1 else i + 1
  }

  function Base64Text(octets: seq<byte>): text {
    var t := Base64.Encode(Base64.Url, octets);
    assert forall i :: 0 <= i < |t| ==> Base64.InAlphabet(Base64.Url, t[i]);
    t
  }

  function Hex(octets: seq<byte>): string {
    Hexadecimal.Encode(octets)
  }

  function SetValue(parts: seq<Part>, i: nat, value: text, bytesHex: string): (r: seq<Part>)
    requires i < |parts|
    ensures |r| == |parts|
  {
    parts[i := parts[i].(value := value, bytesHex := bytesHex)]
  }

  function ShortenHash(parts: seq<Part>): Result<seq<Part>, Failure> {
    var i := IndexOf(parts, "credential_key_hash");
    if i < 0 then Err(MissingHash)
    else
      match Base64.GoDecode(Base64.Url, parts[i].value)
      case None => Err(InvalidHash)
      case Some(raw) =>
        if |raw| != 32 then Err(InvalidHash)
        else Ok(SetValue(parts, i, Base64Text(raw[..31]), Hex(raw[..31])))
  }

  function DisturbScopes(parts: seq<Part>, swap: bool): Result<seq<Part>, Failure> {
    var a, b := IndexOf(parts, "scope_0"), IndexOf(parts, "scope_1");
    if a < 0 || b < 0 then Err(MissingScopes)
    else
      var first, second := if swap then parts[b].value else parts[a].value, parts[a].value;
      Ok(SetValue(SetValue(parts, a, first, Hex(OctetsOf(first))), b, second, Hex(OctetsOf(second))))
  }

  function SpellBool(parts: seq<Part>): Result<seq<Part>, Failure> {
    var i := IndexOf(parts, "has_counter");
    if i < 0 then Err(MissingBool)
    else Ok(parts[i := parts[i].(encoding := "utf8", value := "false", bytesHex := Hex(OctetsOf("false")))])
  }

  function DropTimestamp(parts: seq<Part>): Result<seq<Part>, Failure> {
    var i := IndexOf(parts, "updated_at_storage");
    if i < 0 then Err(MissingTimestamp) else Ok(parts[..i] + parts[i + 1..])
  }

  function Mutate(name: string, parts: seq<Part>): Result<seq<Part>, Failure> {
    match name
    case "credential_hash_wrong_length" => ShortenHash(parts)
    case "credential_scopes_unsorted" => DisturbScopes(parts, true)
    case "credential_scopes_duplicate" => DisturbScopes(parts, false)
    case "bool_not_single_byte" => SpellBool(parts)
    case "missing_required_cell_part" => DropTimestamp(parts)
    case _ => Err(Unhandled)
  }

  function BoundaryOf(name: string): string {
    match name
    case "credential_hash_wrong_length" => "key_length"
    case "bool_not_single_byte" => "encoding"
    case "missing_required_cell_part" => "required_part"
    case _ => "canonical_scopes"
  }

  function TargetKind(name: string): string {
    if name == "missing_required_cell_part" then "cell" else "credential"
  }

  function NumberInput(v: Vector, i: nat, k: nat): Input
    requires i < |v.parts| && k < |INVALID_NUMBERS|
  {
    Input(v.kind + "." + v.parts[i].name + "." + INVALID_NUMBERS[k].0, v.kind, "uint64",
          SetValue(v.parts, i, INVALID_NUMBERS[k].1, ""))
  }

  /** The inputs that part `i` yields, from the first `k` invalid numbers. */
  function PartInputs(v: Vector, i: nat, k: nat): seq<Input>
    requires i < |v.parts| && k <= |INVALID_NUMBERS|
  {
    if k == 0 || v.parts[i].encoding != "uint64_be" then [] else PartInputs(v, i, k - 1) + [NumberInput(v, i, k - 1)]
  }

  function NumberInputs(v: Vector, n: nat): seq<Input>
    requires n <= |v.parts|
  {
    if n == 0 then [] else NumberInputs(v, n - 1) + PartInputs(v, n - 1, |INVALID_NUMBERS|)
  }

  function VectorInputs(name: string, v: Vector): Result<seq<Input>, Failure> {
    if name == NUMBERS then Ok(NumberInputs(v, |v.parts|))
    else if v.kind != TargetKind(name) then Ok([])
    else
      match Mutate(name, v.parts)
      case Err(failure) => Err(failure)
      case Ok(parts) => Ok([Input(name, v.kind, BoundaryOf(name), parts)])
  }

  function Prepend(inputs: seq<Input>, rest: Result<seq<Input>, Failure>): Result<seq<Input>, Failure> {
    match rest
    case Err(failure) => Err(failure)
    case Ok(more) => Ok(inputs + more)
  }

  function AllInputs(name: string, vectors: seq<Vector>): Result<seq<Input>, Failure> {
    if vectors == [] then Ok([])
    else
      match VectorInputs(name, vectors[0])
      case Err(failure) => Err(failure)
      case Ok(inputs) => Prepend(inputs, AllInputs(name, vectors[1..]))
  }

  function Generated(name: string, vectors: seq<Vector>): Result<seq<Input>, Failure> {
    var all := AllInputs(name, vectors);
    if all == Ok([]) then Err(NoInputs) else all
  }

  // ----- the generator

  /** A positive vector whose parts live in a slice that others hold as well. */
  datatype Loaded = Loaded(kind: string, parts: array<Part>)

  function Value(v: Loaded): Vector
    reads v.parts
  {
    Vector(v.kind, v.parts[..])
  }

  function Values(vectors: seq<Loaded>): (values: seq<Vector>)
    reads set v | v in vectors :: v.parts
    ensures |values| == |vectors| && forall i :: 0 <= i < |vectors| ==> values[i] == Value(vectors[i])
  {
    seq(|vectors|, i requires 0 <= i < |vectors| reads set v | v in vectors :: v.parts => Value(vectors[i]))
  }

  method Clone(base: array<Part>) returns (copy: array<Part>)
    ensures fresh(copy) && copy[..] == base[..]
  {
    copy := new Part[base.Length](i requires 0 <= i < base.Length reads base => base[i]);
  }

  /** Every input is a clone with one part overwritten; the vector's own slice is left alone. */
  method AppendNumberInputs(v: Loaded, before: seq<Input>) returns (inputs: seq<Input>)
    ensures inputs == before + NumberInputs(Value(v), v.parts.Length)
  {
    inputs := before;
    ghost var base := Value(v);
    var i := 0;
    while i < v.parts.Length
      invariant 0 <= i <= v.parts.Length && Value(v) == base
      invariant inputs == before + NumberInputs(base, i)
    {
      ghost var reached := inputs;
      if v.parts[i].encoding == "uint64_be" {
        var k := 0;
        while k < |INVALID_NUMBERS|
          invariant 0 <= k <= |INVALID_NUMBERS| && Value(v) == base
          invariant inputs == reached + PartInputs(base, i, k)
        {
          var parts := Clone(v.parts);
          parts[i] := parts[i].(value := INVALID_NUMBERS[k].1, bytesHex := "");
          assert parts[..] == SetValue(base.parts, i, INVALID_NUMBERS[k].1, "");
          var name := v.kind + "." + v.parts[i].name + "." + INVALID_NUMBERS[k].0;
          inputs := inputs + [Input(name, v.kind, "uint64", parts[..])];
          k := k + 1;
        }
      }
      i := i + 1;
    }
  }

  /** slices.Delete on a clone: the parts behind move down by one. */
  method DeletePart(parts: array<Part>, i: nat) returns (r: seq<Part>)
    requires i < parts.Length
    modifies parts
    ensures r == old(parts[..i]) + old(parts[i + 1..])
  {
    ghost var was := parts[..];
    var j := i;
    while j < parts.Length - 1
      invariant i <= j < parts.Length == |was|
      invariant forall k :: 0 <= k < |was| && !(i <= k < j) ==> parts[k] == was[k]
      invariant forall k :: i <= k < j ==> parts[k] == was[k + 1]
    {
      parts[j] := parts[j + 1];
      j := j + 1;
    }
    return parts[..parts.Length - 1];
  }

  /** A clone of the original is overwritten, swapped or shortened in place. */
  method MutateParts(name: string, original: array<Part>) returns (r: Result<seq<Part>, Failure>)
    ensures r == Mutate(name, original[..])
  {
    hide Base64.GoDecode, Base64.Encode, IndexOf, Hex, OctetsOf;
    var parts := Clone(original);
    if name == "credential_hash_wrong_length" {
      var i := IndexOf(parts[..], "credential_key_hash");
      if i < 0 { return Err(MissingHash); }
      var raw := Base64.GoDecode(Base64.Url, parts[i].value);
      if raw.None? || |raw.value| != 32 { return Err(InvalidHash); }
      parts[i] := parts[i].(value := Base64Text(raw.value[..31]), bytesHex := Hex(raw.value[..31]));
    } else if name == "credential_scopes_unsorted" || name == "credential_scopes_duplicate" {
      var done := DisturbInPlace(parts, name == "credential_scopes_unsorted");
      if !done { return Err(MissingScopes); }
    } else if name == "bool_not_single_byte" {
      var i := IndexOf(parts[..], "has_counter");
      if i < 0 { return Err(MissingBool); }
      parts[i] := parts[i].(encoding := "utf8", value := "false", bytesHex := Hex(OctetsOf("false")));
    } else if name == "missing_required_cell_part" {
      var i := IndexOf(parts[..], "updated_at_storage");
      if i < 0 { return Err(MissingTimestamp); }
      var shorter := DeletePart(parts, i);
      return Ok(shorter);
    } else {
      return Err(Unhandled);
    }
    return Ok(parts[..]);
  }

  method DisturbInPlace(parts: array<Part>, swap: bool) returns (done: bool)
    modifies parts
    ensures done == DisturbScopes(old(parts[..]), swap).Ok?
    ensures parts[..] == if done then DisturbScopes(old(parts[..]), swap).value else old(parts[..])
  {
    var a, b := IndexOf(parts[..], "scope_0"), IndexOf(parts[..], "scope_1");
    if a < 0 || b < 0 { return false; }
    assert parts[a].name != parts[b].name;
    hide IndexOf, Hex, OctetsOf;
    if swap {
      var first, second := parts[a].value, parts[b].value;
      parts[a] := parts[a].(value := second);
      parts[b] := parts[b].(value := first);
    } else {
      parts[b] := parts[b].(value := parts[a].value);
    }
    parts[a] := parts[a].(bytesHex := Hex(OctetsOf(parts[a].value)));
    parts[b] := parts[b].(bytesHex := Hex(OctetsOf(parts[b].value)));
    assert parts[..] == DisturbScopes(old(parts[..]), swap).value;
    return true;
  }

  method FenceRejectInputs(name: string, vectors: seq<Loaded>) returns (r: Result<seq<Input>, Failure>)
    ensures r == Generated(name, Values(vectors))
  {
    hide Mutate, NumberInputs, TargetKind, BoundaryOf;
    var inputs: seq<Input> := [];
    var n := 0;
    ghost var values := Values(vectors);
    assert values[0..] == values;
    PrependNothing(AllInputs(name, values));
    while n < |vectors|
      invariant 0 <= n <= |vectors| && Values(vectors) == values
      invariant AllInputs(name, values) == Prepend(inputs, AllInputs(name, values[n..]))
    {
      var vector := vectors[n];
      assert values[n..][1..] == values[n + 1..] && values[n..][0] == Value(vector);
      if name == NUMBERS {
        var more := AppendNumberInputs(vector, inputs);
        PrependTwice(inputs, NumberInputs(Value(vector), vector.parts.Length), AllInputs(name, values[n + 1..]));
        inputs := more;
      } else if vector.kind == TargetKind(name) {
        var mutated := MutateParts(name, vector.parts);
        if mutated.Err? {
          return Err(mutated.error);
        }
        var input := Input(name, vector.kind, BoundaryOf(name), mutated.value);
        PrependTwice(inputs, [input], AllInputs(name, values[n + 1..]));
        inputs := inputs + [input];
      } else {
        PrependTwice(inputs, [], AllInputs(name, values[n + 1..]));
        assert inputs + [] == inputs;
      }
      n := n + 1;
    }
    assert values[n..] == [] && inputs + [] == inputs;
    return if inputs == [] then Err(NoInputs) else Ok(inputs);
  }

  lemma PrependNothing(rest: Result<seq<Input>, Failure>)
    ensures Prepend([], rest) == rest
  {
    if rest.Ok? {
      assert [] + rest.value == rest.value;
    }
  }

  lemma PrependTwice(a: seq<Input>, b: seq<Input>, rest: Result<seq<Input>, Failure>)
    ensures Prepend(a + b, rest) == Prepend(a, Prepend(b, rest))
  {
    if rest.Ok? {
      assert a + b + rest.value == a + (b + rest.value);
    }
  }

  // ----- the loader

  predicate Pinned(r: Reject, vectors: seq<Vector>) {
    var expected := Generated(r.name, vectors);
    expected.Ok? && r.inputs == expected.value
    && r.fenceKind == if r.name != NUMBERS && expected.value != [] then expected.value[0].kind else "all"
  }

  /** Version 1 files carry no inputs; later ones carry exactly the generated inputs. */
  ghost predicate LoaderAccepts(version: nat, vectors: seq<Vector>, rejects: seq<Reject>) {
    forall r :: r in rejects ==> if version == 1 then r.inputs == [] else Pinned(r, vectors)
  }

  method ValidateRejectInputs(version: nat, vectors: seq<Loaded>, rejects: seq<Reject>) returns (accepted: bool)
    ensures accepted <==> LoaderAccepts(version, Values(vectors), rejects)
  {
    hide Generated;
    var n := 0;
    while n < |rejects|
      invariant 0 <= n <= |rejects|
      invariant LoaderAccepts(version, Values(vectors), rejects[..n])
    {
      var reject := rejects[n];
      assert reject in rejects && rejects[..n + 1] == rejects[..n] + [reject];
      if version == 1 {
        if reject.inputs != [] {
          return false;
        }
      } else {
        var expected := FenceRejectInputs(reject.name, vectors);
        if expected.Err? {
          return false;
        }
        var kind := "all";
        if reject.name != NUMBERS && expected.value != [] {
          kind := expected.value[0].kind;
        }
        if reject.fenceKind != kind || reject.inputs != expected.value {
          return false;
        }
      }
      n := n + 1;
    }
    assert rejects[..n] == rejects;
    return true;
  }
}
