/**
  The independent checker of typed fence inputs: part by part against the part
  list of a positive vector, then the scope list as a whole.
 */
module FenceCheck {
  import opened BitStream
  import opened GoStrings
  import opened Wrappers
  import Base64
  import BigEndian
  import Decimal
  import Hexadecimal

  datatype Part = Part(name: string, encoding: string, value: text, bytesHex: string)

  /** Crash: fewer than eight octets where a 64-bit number is read. */
  datatype Verdict = Clear | Boundary(boundary: string) | Crash

  /** strconv.ParseUint(s, 10, 64): digits only, leading zeros welcome. */
  function ParseUint(s: string): Option<nat> {
    if s == "" || !Decimal.AllDigits(s) || Decimal.Value(s) > Decimal.MAX_UINT64 then None else Some(Decimal.Value(s))
  }

  function PartBytes(part: Part): Option<seq<byte>> {
    if part.encoding == "raw_bytes_b64url" then Base64.StrictDecode(Base64.Url, part.value)
    else if part.encoding == "utf8" then Some(OctetsOf(part.value))
    else if part.encoding == "uint64_be" then
      match ParseUint(part.value)
      case None => None
      case Some(n) => Some(BigEndian.Put(n, 8))
    else if part.encoding == "bool_byte" && part.value == "false" then Some([0])
    else if part.encoding == "bool_byte" && part.value == "true" then Some([1])
    else None
  }

  function PartVerdict(part: Part, required: Part): Verdict {
    if part.name != required.name then Boundary("required_part")
    else if part.encoding != required.encoding then Boundary("encoding")
    else
      match PartBytes(part)
      case None => Boundary(if part.encoding == "uint64_be" then "uint64" else "encoding")
      case Some(raw) =>
        if Hexadecimal.Decode(part.bytesHex) != Some(raw) then Boundary("bytes")
        else if part.name == "credential_key_hash" && |raw| != 32 then Boundary("key_length")
        else if part.name == "scope_count" && |raw| < 8 then Crash
        else Clear
  }

  function FirstFault(parts: seq<Part>, required: seq<Part>): Verdict
    requires |parts| == |required|
  {
    if parts == [] then Clear
    else if PartVerdict(parts[0], required[0]) != Clear then PartVerdict(parts[0], required[0])
    else FirstFault(parts[1..], required[1..])
  }

  predicate IsScope(part: Part) {
    part.name != "scope_count" && "scope_" <= part.name
  }

  function Scopes(parts: seq<Part>): seq<text> {
    if parts == [] then []
    else ScopesOf(parts[0]) + Scopes(parts[1..])
  }

  function ScopesOf(part: Part): seq<text> {
    if IsScope(part) then [part.value] else []
  }

  /** The number the last scope_count part holds, and `count` if there is none. */
  function LastCount(parts: seq<Part>, count: nat): nat {
    if parts == [] then count else LastCount(parts[1..], CountAfter(parts[0], count))
  }

  function CountAfter(part: Part, count: nat): nat {
    var raw := PartBytes(part);
    if part.name != "scope_count" || raw.None? || |raw.value| < 8 then count else BigEndian.Get(raw.value[..8])
  }

  /** Go's order on strings: byte by byte, a proper prefix first. */
  predicate Less(s: string, t: string) {
    t != "" && (s == "" || s[0] < t[0] || (s[0] == t[0] && Less(s[1..], t[1..])))
  }

  predicate CanonicalScopes(scopes: seq<text>) {
    forall i :: 0 <= i < |scopes| ==> scopes[i] != "" && (i > 0 ==> Less(scopes[i - 1], scopes[i]))
  }

  function ListVerdict(scopes: seq<text>, count: nat): Verdict {
    if |scopes| == count && CanonicalScopes(scopes) then Clear else Boundary("canonical_scopes")
  }

  function FenceVerdict(parts: seq<Part>, required: seq<Part>): Verdict {
    if |parts| != |required| then Boundary("required_part")
    else if FirstFault(parts, required) != Clear then FirstFault(parts, required)
    else ListVerdict(Scopes(parts), LastCount(parts, 0))
  }

  lemma SuffixStep(parts: seq<Part>, required: seq<Part>, i: nat, count: nat)
    requires i < |parts| == |required|
    ensures var v := PartVerdict(parts[i], required[i]);
            FirstFault(parts[i..], required[i..])
            == if v != Clear then v else FirstFault(parts[i + 1..], required[i + 1..])
    ensures Scopes(parts[i..]) == ScopesOf(parts[i]) + Scopes(parts[i + 1..])
    ensures LastCount(parts[i..], count) == LastCount(parts[i + 1..], CountAfter(parts[i], count))
  {
    hide PartVerdict, ScopesOf, CountAfter;
    assert parts[i..][1..] == parts[i + 1..] && required[i..][1..] == required[i + 1..];
  }

  method FenceInputBoundary(parts: seq<Part>, required: seq<Part>) returns (verdict: Verdict)
    ensures verdict == FenceVerdict(parts, required)
  {
    hide PartBytes, CanonicalScopes, FirstFault, Scopes, LastCount, Hexadecimal.Decode;
    if |parts| != |required| {
      return Boundary("required_part");
    }
    var scopes: seq<text>, scopeCount := [], 0;
    var i := 0;
    while i < |parts|
      invariant 0 <= i <= |parts|
      invariant FirstFault(parts, required) == FirstFault(parts[i..], required[i..])
      invariant Scopes(parts) == scopes + Scopes(parts[i..])
      invariant LastCount(parts, 0) == LastCount(parts[i..], scopeCount)
    {
      var part := parts[i];
      SuffixStep(parts, required, i, scopeCount);
      if part.name != required[i].name {
        return Boundary("required_part");
      }
      if part.encoding != required[i].encoding {
        return Boundary("encoding");
      }
      var raw := PartBytes(part);
      if raw.None? {
        return Boundary(if part.encoding == "uint64_be" then "uint64" else "encoding");
      }
      if Hexadecimal.Decode(part.bytesHex) != raw {
        return Boundary("bytes");
      }
      if part.name == "credential_key_hash" && |raw.value| != 32 {
        return Boundary("key_length");
      }
      if part.name == "scope_count" {
        if |raw.value| < 8 {
          return Crash;
        }
        scopeCount := BigEndian.Get(raw.value[..8]);
      } else if "scope_" <= part.name {
        scopes := scopes + [part.value];
      }
      i := i + 1;
    }
    EmptySuffix(parts, required, scopeCount);
    assert scopes + [] == scopes;
    if |scopes| != scopeCount {
      return Boundary("canonical_scopes");
    }
    var canonical := CheckScopes(scopes);
    return if canonical then Clear else Boundary("canonical_scopes");
  }

  lemma EmptySuffix(parts: seq<Part>, required: seq<Part>, count: nat)
    requires |parts| == |required|
    ensures FirstFault(parts[|parts|..], required[|parts|..]) == Clear
    ensures Scopes(parts[|parts|..]) == [] && LastCount(parts[|parts|..], count) == count
  {
    assert parts[|parts|..] == [];
  }

  method CheckScopes(scopes: seq<text>) returns (canonical: bool)
    ensures canonical == CanonicalScopes(scopes)
  {
    var i := 0;
    while i < |scopes|
      invariant 0 <= i <= |scopes|
      invariant forall k :: 0 <= k < i ==> scopes[k] != "" && (k > 0 ==> Less(scopes[k - 1], scopes[k]))
    {
      if scopes[i] == "" || (i > 0 && !Less(scopes[i - 1], scopes[i])) {
        return false;
      }
      i := i + 1;
    }
    return true;
  }

  // ----- the first fault decides

  lemma {:induction false} FaultAt(parts: seq<Part>, required: seq<Part>, i: nat)
    requires |parts| == |required| && i < |parts|
    requires forall j :: 0 <= j < i ==> PartVerdict(parts[j], required[j]) == Clear
    requires PartVerdict(parts[i], required[i]) != Clear
    ensures FirstFault(parts, required) == PartVerdict(parts[i], required[i])
  {
    hide PartVerdict;
    if i > 0 {
      FaultAt(parts[1..], required[1..], i - 1);
    }
  }

  /** There is no fault exactly when every part is clear, and no part fault is a scope-list fault. */
  lemma {:induction false} NoFault(parts: seq<Part>, required: seq<Part>)
    requires |parts| == |required|
    ensures FirstFault(parts, required) == Clear
            <==> forall j :: 0 <= j < |parts| ==> PartVerdict(parts[j], required[j]) == Clear
    ensures FirstFault(parts, required) != Boundary("canonical_scopes")
  {
    if parts != [] {
      NoFault(parts[1..], required[1..]);
      PartFaults(parts[0], required[0]);
      hide PartVerdict;
      assert forall j :: 1 <= j < |parts| ==> parts[j] == parts[1..][j - 1] && required[j] == required[1..][j - 1];
    }
  }

  lemma PartFaults(part: Part, required: Part)
    ensures PartVerdict(part, required) != Boundary("canonical_scopes")
  {
    hide PartBytes, Hexadecimal.Decode;
  }

  // ----- scope lists

  lemma {:induction false} LessTransitive(r: string, s: string, t: string)
    requires Less(r, s) && Less(s, t)
    ensures Less(r, t)
  {
    if r != "" && r[0] == s[0] == t[0] {
      LessTransitive(r[1..], s[1..], t[1..]);
    }
  }

  lemma {:induction false} LessAsymmetric(s: string, t: string)
    requires Less(s, t)
    ensures !Less(t, s)
  {
    if s != "" && s[0] == t[0] {
      LessAsymmetric(s[1..], t[1..]);
    }
  }

  lemma {:induction false} LessTotal(s: string, t: string)
    requires s != t
    ensures Less(s, t) || Less(t, s)
  {
    if s != "" && t != "" && s[0] == t[0] {
      assert s == [s[0]] + s[1..] && t == [t[0]] + t[1..];
      LessTotal(s[1..], t[1..]);
    }
  }

  lemma {:induction false} ScopesOrdered(scopes: seq<text>, i: nat, j: nat)
    requires CanonicalScopes(scopes) && i < j < |scopes|
    ensures Less(scopes[i], scopes[j])
  {
    if i + 1 < j {
      ScopesOrdered(scopes, i, j - 1);
      LessTransitive(scopes[i], scopes[j - 1], scopes[j]);
    }
  }

  /** Exchanging two members, or copying one over the other, breaks the strict order. */
  lemma DisturbedScopes(scopes: seq<text>, i: nat, j: nat)
    requires CanonicalScopes(scopes) && i < |scopes| && j < |scopes| && i != j
    ensures !CanonicalScopes(scopes[i := scopes[j]][j := scopes[i]])
    ensures !CanonicalScopes(scopes[j := scopes[i]])
  {
    var low, high := if i < j then i else j, if i < j then j else i;
    ScopesOrdered(scopes, low, high);
    LessAsymmetric(scopes[low], scopes[high]);
    NotOrdered(scopes[i := scopes[j]][j := scopes[i]], low, high);
    LessIrreflexive(scopes[i]);
    NotOrdered(scopes[j := scopes[i]], low, high);
  }

  lemma NotOrdered(scopes: seq<text>, i: nat, j: nat)
    requires i < j < |scopes| && !Less(scopes[i], scopes[j])
    ensures !CanonicalScopes(scopes)
  {
    if CanonicalScopes(scopes) {
      ScopesOrdered(scopes, i, j);
    }
  }

  lemma {:induction false} LessIrreflexive(s: string)
    ensures !Less(s, s)
  {
    if s != "" {
      LessIrreflexive(s[1..]);
    }
  }

  /** Where the value of part `i` stands in the scope list. */
  function Rank(parts: seq<Part>, i: nat): nat
    requires i <= |parts|
  {
    |Scopes(parts[..i])|
  }

  lemma {:induction false} ScopesCut(parts: seq<Part>, i: nat)
    requires i <= |parts|
    ensures Scopes(parts) == Scopes(parts[..i]) + Scopes(parts[i..])
  {
    hide ScopesOf;
    if i == 0 {
      assert parts[..0] == [] && parts[0..] == parts;
    } else {
      assert parts[1..][..i - 1] == parts[..i][1..] && parts[1..][i - 1..] == parts[i..];
      ScopesCut(parts[1..], i - 1);
      assert parts[..i][0] == parts[0];
    }
  }

  lemma ScopesAround(parts: seq<Part>, i: nat)
    requires i < |parts|
    ensures Scopes(parts) == Scopes(parts[..i]) + (ScopesOf(parts[i]) + Scopes(parts[i + 1..]))
  {
    hide *;
    ScopesCut(parts, i);
    SuffixStep(parts, parts, i, 0);
  }

  lemma ScopesUpdate(parts: seq<Part>, i: nat, part: Part)
    requires i < |parts| && part.name == parts[i].name && IsScope(part)
    ensures Rank(parts, i) < |Scopes(parts)| && Scopes(parts)[Rank(parts, i)] == parts[i].value
    ensures Scopes(parts[i := part]) == Scopes(parts)[Rank(parts, i) := part.value]
  {
    hide Scopes;
    ScopesAround(parts, i);
    ScopesAround(parts[i := part], i);
    assert parts[i := part][..i] == parts[..i] && parts[i := part][i + 1..] == parts[i + 1..];
  }

  lemma RanksDiffer(parts: seq<Part>, i: nat, j: nat, part: Part)
    requires i < j < |parts| && IsScope(parts[i])
    ensures Rank(parts, i) < Rank(parts, j) == Rank(parts[i := part], j) || part.name != parts[i].name
  {
    hide Scopes;
    ScopesAround(parts[..j], i);
    assert parts[..j][..i] == parts[..i];
    if part.name == parts[i].name {
      ScopesUpdate(parts[..j], i, part);
      assert parts[i := part][..j] == parts[..j][i := part];
    }
  }
}
