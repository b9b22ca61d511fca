/**
  Whole files on the border of the agreement.  A credential vector with any two
  ordered scopes and any flag makes, beside a cell and an existing vector, a file
  that loads with all six recipes; the independent verifier accepts it only if the
  scopes are written in UTF-8 and the flag is not.
 */
module FenceLimits {
  import opened BitStream
  import opened FenceAgreement
  import opened FenceCheck
  import opened FenceRejects
  import opened GoStrings
  import opened Wrappers
  import Base64
  import BigEndian
  import Hexadecimal

  // ----- the vectors

  function Zeros(): (zeros: seq<byte>)
    ensures |zeros| == 32
  {
    seq(32, _ => 0)
  }

  function HashPart(): Part {
    Part("credential_key_hash", "raw_bytes_b64url", Base64Text(Zeros()), Hex(Zeros()))
  }

  function CountPart(): Part {
    Part("scope_count", "uint64_be", "2", Hex(BigEndian.Put(2, 8)))
  }

  function CredentialParts(a: Part, b: Part, flag: Part): (parts: seq<Part>)
    ensures |parts| == 5
  {
    [HashPart(), CountPart(), a, b, flag]
  }

  function TextPart(name: string, value: text): Part {
    Part(name, "utf8", value, Hex(OctetsOf(value)))
  }

  function Vectors(a: Part, b: Part, flag: Part): (vectors: seq<Vector>)
    ensures |vectors| == 3
  {
    [Vector("credential", CredentialParts(a, b, flag)), Vector("cell", [TextPart("updated_at_storage", "")]),
     Vector("existing", [TextPart("agent_id", "")])]
  }

  const RECIPES := [
    "credential_hash_wrong_length", "credential_scopes_unsorted", "credential_scopes_duplicate", NUMBERS,
    "bool_not_single_byte", "missing_required_cell_part"
  ]

  /** Two clear scope parts in strict order and a clear flag. */
  ghost predicate Eligible(a: Part, b: Part, flag: Part) {
    && a.name == "scope_0" && b.name == "scope_1" && flag.name == "has_counter"
    && PartVerdict(a, a) == Clear && PartVerdict(b, b) == Clear && PartVerdict(flag, flag) == Clear
    && a.value != "" && Less(a.value, b.value)
  }

  // ----- they are positive

  lemma Names()
    ensures "scope_0" != "scope_1" && "scope_" <= "scope_0" && "scope_" <= "scope_1"
    ensures "scope_count" != "scope_0" && "scope_count" != "scope_1"
    ensures !("scope_" <= "credential_key_hash") && !("scope_" <= "has_counter")
    ensures !("scope_" <= "updated_at_storage") && !("scope_" <= "agent_id")
  {
    assert "scope_0"[6] == '0' && "scope_1"[6] == '1' && "scope_"[0] == 's';
    assert "credential_key_hash"[0] == 'c' && "has_counter"[0] == 'h' && "updated_at_storage"[0] == 'u'
        && "agent_id"[0] == 'a';
  }

  lemma HashClear()
    ensures PartVerdict(HashPart(), HashPart()) == Clear && HashPart().name == "credential_key_hash"
    ensures Base64.GoDecode(Base64.Url, HashPart().value) == Some(Zeros())
  {
    hide Zeros, Base64.StrictDecode, Base64.GoDecode, Base64.Encode, Hexadecimal.Decode, Hexadecimal.Encode;
    Base64.StrictDecodeExact(Base64.Url, Base64Text(Zeros()), Zeros());
    Base64.GoDecodeEncode(Base64.Url, Zeros());
    Hexadecimal.DecodeEncode(Zeros());
  }

  lemma CountClear()
    ensures PartVerdict(CountPart(), CountPart()) == Clear && CountPart().name == "scope_count"
    ensures CountPart().encoding == "uint64_be" && CountAfter(CountPart(), 0) == 2
  {
    hide BigEndian.Put, BigEndian.Get, Hexadecimal.Decode, Hexadecimal.Encode, ParseUint;
    TwoIsParsed();
    TwoIsStored();
    Hexadecimal.DecodeEncode(BigEndian.Put(2, 8));
    assert BigEndian.Put(2, 8)[..8] == BigEndian.Put(2, 8);
  }

  lemma TwoIsParsed()
    ensures ParseUint("2") == Some(2)
  {
    assert "2"[..0] == "";
  }

  lemma TwoIsStored()
    ensures BigEndian.Get(BigEndian.Put(2, 8)) == 2
  {
    assert BigEndian.Pow256(1) == 256 && BigEndian.Pow256(8) > 2;
    hide BigEndian.Put, BigEndian.Get;
    BigEndian.GetPut(2, 8);
  }

  lemma TextClear(name: string, value: text)
    requires name != "credential_key_hash" && name != "scope_count"
    ensures PartVerdict(TextPart(name, value), TextPart(name, value)) == Clear
  {
    Hexadecimal.DecodeEncode(OctetsOf(value));
    hide Hexadecimal.Decode, Hexadecimal.Encode, OctetsOf;
  }

  lemma ListOfFive(h: Part, n: Part, a: Part, b: Part, f: Part)
    requires !IsScope(h) && !IsScope(n) && IsScope(a) && IsScope(b) && !IsScope(f)
    ensures Scopes([h, n, a, b, f]) == [a.value, b.value]
  {
    hide Scopes, IsScope;
    NoScopes();
    ScopesCons(f, []);
    ScopesCons(b, [f]);
    ScopesCons(a, [b, f]);
    ScopesCons(n, [a, b, f]);
    ScopesCons(h, [n, a, b, f]);
    assert [f] + [] == [f];
    assert [b] + [f] == [b, f] && [a] + [b, f] == [a, b, f];
    assert [n] + [a, b, f] == [n, a, b, f] && [h] + [n, a, b, f] == [h, n, a, b, f];
  }

  lemma NoScopes()
    ensures Scopes([]) == []
  {
  }

  lemma ScopesCons(part: Part, rest: seq<Part>)
    ensures Scopes([part] + rest) == ScopesOf(part) + Scopes(rest)
  {
    hide ScopesOf;
    assert ([part] + rest)[1..] == rest;
  }

  lemma CountOfFive(h: Part, n: Part, a: Part, b: Part, f: Part, count: nat)
    requires h.name != "scope_count" && a.name != "scope_count" && b.name != "scope_count" && f.name != "scope_count"
    ensures LastCount([h, n, a, b, f], count) == CountAfter(n, count)
  {
    hide PartBytes;
    var tail := [a, b, f];
    assert [h, n, a, b, f][1..] == [n, a, b, f] && [n, a, b, f][1..] == tail;
    assert tail[1..] == [b, f] && [b, f][1..] == [f] && [f][1..] == [];
    var c := CountAfter(n, count);
    assert LastCount([f], c) == c && LastCount([b, f], c) == c && LastCount(tail, c) == c;
  }

  ghost predicate Named(h: Part, n: Part, a: Part, b: Part, f: Part) {
    h.name == "credential_key_hash" && n.name == "scope_count" && a.name == "scope_0" && b.name == "scope_1"
    && f.name == "has_counter"
  }

  lemma ScopesAmong(h: Part, n: Part, a: Part, b: Part, f: Part)
    requires Named(h, n, a, b, f)
    ensures !IsScope(h) && !IsScope(n) && IsScope(a) && IsScope(b) && !IsScope(f)
    ensures h.name != n.name && a.name != n.name && b.name != n.name && f.name != n.name && a.name != b.name
    ensures h.name != a.name && h.name != b.name && h.name != f.name && a.name != f.name && b.name != f.name
  {
    Names();
  }

  lemma PositiveFive(h: Part, n: Part, a: Part, b: Part, f: Part)
    requires Named(h, n, a, b, f) && CountAfter(n, 0) == 2 && a.value != "" && Less(a.value, b.value)
    requires PartVerdict(h, h) == Clear && PartVerdict(n, n) == Clear && PartVerdict(a, a) == Clear
    requires PartVerdict(b, b) == Clear && PartVerdict(f, f) == Clear
    ensures Positive([h, n, a, b, f])
  {
    hide IsScope, Scopes, LastCount, FirstFault, CanonicalScopes, PartVerdict, CountAfter, Less;
    ScopesAmong(h, n, a, b, f);
    ListOfFive(h, n, a, b, f);
    CountOfFive(h, n, a, b, f, 0);
    TwoScopes(a.value, b.value);
    var parts := [h, n, a, b, f];
    forall j | 0 <= j < |parts| ensures PartVerdict(parts[j], parts[j]) == Clear {
      assert parts[j] in {h, n, a, b, f};
    }
    NoFault(parts, parts);
  }

  lemma CredentialNamed(a: Part, b: Part, flag: Part)
    requires Eligible(a, b, flag)
    ensures Named(HashPart(), CountPart(), a, b, flag)
  {
    hide PartVerdict, Less, Hex, Base64Text, Zeros, BigEndian.Put;
  }

  lemma CredentialPositive(a: Part, b: Part, flag: Part)
    requires Eligible(a, b, flag)
    ensures Positive(CredentialParts(a, b, flag))
  {
    hide PartVerdict, Less, HashPart, CountPart, CountAfter, Positive, Named;
    CredentialNamed(a, b, flag);
    HashClear();
    CountClear();
    PositiveFive(HashPart(), CountPart(), a, b, flag);
  }

  lemma TwoScopes(a: text, b: text)
    requires a != "" && Less(a, b)
    ensures CanonicalScopes([a, b])
  {
  }

  lemma TextPositive(name: string)
    requires name != "credential_key_hash" && name != "scope_count" && !("scope_" <= name)
    ensures Positive([TextPart(name, "")])
  {
    var part := TextPart(name, "");
    TextClear(name, "");
    NoFault([part], [part]);
    hide PartVerdict, FirstFault, PartBytes, TextPart;
    assert [part][1..] == [] && ScopesOf(part) == [];
    assert Scopes([part]) == [];
    assert LastCount([part], 0) == 0;
  }

  // ----- and every recipe applies to them

  lemma {:induction false} IndexOfAt(parts: seq<Part>, want: string, i: nat)
    requires i < |parts| && parts[i].name == want && forall j :: 0 <= j < i ==> parts[j].name != want
    ensures IndexOf(parts, want) == i
  {
    if i > 0 {
      IndexOfAt(parts[1..], want, i - 1);
    }
  }

  lemma FiveIndices(h: Part, n: Part, a: Part, b: Part, f: Part)
    requires Named(h, n, a, b, f)
    ensures var parts := [h, n, a, b, f];
            IndexOf(parts, h.name) == 0 && IndexOf(parts, a.name) == 2 && IndexOf(parts, b.name) == 3
            && IndexOf(parts, f.name) == 4
  {
    hide IndexOf, Named, IsScope;
    ScopesAmong(h, n, a, b, f);
    var parts := [h, n, a, b, f];
    IndexOfAt(parts, h.name, 0);
    IndexOfAt(parts, a.name, 2);
    IndexOfAt(parts, b.name, 3);
    IndexOfAt(parts, f.name, 4);
  }

  lemma CredentialIndices(a: Part, b: Part, flag: Part)
    requires Eligible(a, b, flag)
    ensures var parts := CredentialParts(a, b, flag);
            IndexOf(parts, "credential_key_hash") == 0 && IndexOf(parts, "scope_0") == 2
            && IndexOf(parts, "scope_1") == 3 && IndexOf(parts, "has_counter") == 4
            && parts[0] == HashPart() && parts[2] == a && parts[3] == b && parts[4] == flag
  {
    hide IndexOf, HashPart, CountPart, PartVerdict, Less;
    CredentialNamed(a, b, flag);
    FiveIndices(HashPart(), CountPart(), a, b, flag);
  }

  lemma CredentialMutates(a: Part, b: Part, flag: Part, name: string)
    requires Eligible(a, b, flag) && name in RECIPES && name != NUMBERS && name != "missing_required_cell_part"
    ensures Mutate(name, CredentialParts(a, b, flag)).Ok?
  {
    hide IndexOf, HashPart, CredentialParts, Eligible, Base64.GoDecode, Hex, Base64Text, OctetsOf, SetValue,
         ShortenHash, DisturbScopes, SpellBool, DropTimestamp;
    var parts := CredentialParts(a, b, flag);
    CredentialIndices(a, b, flag);
    ShortenOk(parts);
    DisturbOk(parts);
    SpellOk(parts);
  }

  lemma ShortenOk(parts: seq<Part>)
    requires |parts| == 5 && IndexOf(parts, "credential_key_hash") == 0 && parts[0] == HashPart()
    ensures ShortenHash(parts).Ok?
  {
    hide IndexOf, Base64.GoDecode, Hex, Base64Text, HashPart, SetValue;
    HashClear();
  }

  lemma DisturbOk(parts: seq<Part>)
    requires IndexOf(parts, "scope_0") >= 0 && IndexOf(parts, "scope_1") >= 0
    ensures DisturbScopes(parts, true).Ok? && DisturbScopes(parts, false).Ok?
  {
    hide IndexOf, SetValue, Hex, OctetsOf;
  }

  lemma SpellOk(parts: seq<Part>)
    requires IndexOf(parts, "has_counter") >= 0
    ensures SpellBool(parts).Ok?
  {
    hide IndexOf, Hex, OctetsOf;
  }

  lemma {:induction false} Generates(name: string, vectors: seq<Vector>)
    requires forall v :: v in vectors ==> VectorInputs(name, v).Ok?
    ensures AllInputs(name, vectors).Ok?
    ensures (exists v :: v in vectors && VectorInputs(name, v).value != []) ==> AllInputs(name, vectors).value != []
  {
    hide VectorInputs;
    if vectors != [] {
      assert vectors == [vectors[0]] + vectors[1..];
      Generates(name, vectors[1..]);
    }
  }

  lemma {:induction false} NumbersFound(v: Vector, n: nat, i: nat)
    requires i < n <= |v.parts| && v.parts[i].encoding == "uint64_be"
    ensures NumberInputs(v, n) != []
  {
    if i == n - 1 {
      assert PartInputs(v, i, |INVALID_NUMBERS|) == PartInputs(v, i, 1) + [NumberInput(v, i, 1)];
    } else {
      NumbersFound(v, n - 1, i);
    }
  }

  lemma RecipeGenerates(a: Part, b: Part, flag: Part, name: string)
    requires Eligible(a, b, flag) && name in RECIPES
    ensures Generated(name, Vectors(a, b, flag)).Ok?
  {
    hide CredentialParts, NumberInputs, Mutate, CountPart, PartVerdict, Eligible, TextPart, AllInputs, BoundaryOf;
    var vectors := Vectors(a, b, flag);
    var credential, cell := vectors[0], vectors[1];
    assert credential in vectors && cell in vectors;
    if name == NUMBERS {
      CountClear();
      CountIsSecond(a, b, flag);
      NumbersFound(credential, |credential.parts|, 1);
      assert VectorInputs(name, credential).value != [];
    } else if name == "missing_required_cell_part" {
      CellMutates();
      assert VectorInputs(name, cell).value != [];
    } else {
      CredentialMutates(a, b, flag, name);
      assert VectorInputs(name, credential).value != [];
    }
    Generates(name, vectors);
  }

  lemma CountIsSecond(a: Part, b: Part, flag: Part)
    ensures CredentialParts(a, b, flag)[1] == CountPart()
  {
  }

  lemma CellMutates()
    ensures Mutate("missing_required_cell_part", [TextPart("updated_at_storage", "")]).Ok?
  {
    IndexOfAt([TextPart("updated_at_storage", "")], "updated_at_storage", 0);
    hide IndexOf, Hex, OctetsOf;
  }

  // ----- the file

  function RejectOf(name: string, vectors: seq<Vector>): Reject
    requires Generated(name, vectors).Ok?
  {
    var inputs := Generated(name, vectors).value;
    Reject(name, if name != NUMBERS && inputs != [] then inputs[0].kind else "all", inputs)
  }

  /** The rejects of all six recipes. */
  ghost predicate AllRecipes(vectors: seq<Vector>, rejects: seq<Reject>) {
    |rejects| == |RECIPES|
    && forall n :: 0 <= n < |RECIPES| ==>
         Generated(RECIPES[n], vectors).Ok? && rejects[n] == RejectOf(RECIPES[n], vectors)
  }

  lemma FileOf(a: Part, b: Part, flag: Part) returns (rejects: seq<Reject>)
    requires Eligible(a, b, flag)
    ensures AllRecipes(Vectors(a, b, flag), rejects)
  {
    hide Generated, Eligible, Vectors;
    var vectors := Vectors(a, b, flag);
    forall n | 0 <= n < |RECIPES| ensures Generated(RECIPES[n], vectors).Ok? {
      RecipeGenerates(a, b, flag, RECIPES[n]);
    }
    rejects := seq(|RECIPES|, n requires 0 <= n < |RECIPES| => RejectOf(RECIPES[n], vectors));
  }

  /** What one recipe asks of the credential vector. */
  predicate Condition(a: Part, b: Part, flag: Part, name: string) {
    if name == "credential_scopes_unsorted" || name == "credential_scopes_duplicate" then
      a.encoding == "utf8" && b.encoding == "utf8"
    else if name == "bool_not_single_byte" then flag.encoding != "utf8"
    else true
  }

  lemma CredentialFits(a: Part, b: Part, flag: Part, name: string)
    requires Eligible(a, b, flag)
    ensures FenceAgreement.Fits(name, Vector("credential", CredentialParts(a, b, flag)))
            <==> Condition(a, b, flag, name)
  {
    hide CredentialParts, Eligible, FenceAgreement.Suits, NUMBERS;
    CredentialSuits(a, b, flag, name);
    NumbersIsOther();
    CellIsOther();
  }

  lemma CredentialSuits(a: Part, b: Part, flag: Part, name: string)
    requires Eligible(a, b, flag)
    ensures FenceAgreement.Suits(name, CredentialParts(a, b, flag)) <==> Condition(a, b, flag, name)
  {
    hide IndexOf, CredentialParts, Eligible, FenceAgreement.ScopesInUtf8;
    CredentialIndices(a, b, flag);
    CredentialScopes(a, b, flag);
  }

  lemma NumbersIsOther()
    ensures NUMBERS != "bool_not_single_byte" && NUMBERS != "credential_scopes_unsorted"
    ensures NUMBERS != "credential_scopes_duplicate"
  {
    assert NUMBERS[0] == 'u' && "bool_not_single_byte"[0] == 'b';
    assert "credential_scopes_unsorted"[0] == 'c' && "credential_scopes_duplicate"[0] == 'c';
  }

  lemma CellIsOther()
    ensures "missing_required_cell_part" != "bool_not_single_byte"
    ensures "missing_required_cell_part" != "credential_scopes_unsorted"
    ensures "missing_required_cell_part" != "credential_scopes_duplicate" && "cell" != "credential"
  {
    assert "missing_required_cell_part"[0] == 'm' && "bool_not_single_byte"[0] == 'b';
    assert "credential_scopes_unsorted"[0] == 'c' && "credential_scopes_duplicate"[0] == 'c';
    assert "cell"[1] == 'e' && "credential"[1] == 'r';
  }

  lemma CredentialScopes(a: Part, b: Part, flag: Part)
    requires Eligible(a, b, flag)
    ensures FenceAgreement.ScopesInUtf8(CredentialParts(a, b, flag)) <==> a.encoding == "utf8" && b.encoding == "utf8"
  {
    hide IndexOf, CredentialParts, Eligible;
    CredentialIndices(a, b, flag);
  }

  lemma OthersFit(parts: seq<Part>, name: string)
    ensures FenceAgreement.Fits(name, Vector("cell", parts)) && FenceAgreement.Fits(name, Vector("existing", parts))
  {
    hide IndexOf;
    assert "credential"[0] == 'c' && "existing"[0] == 'e';
  }

  lemma FitsExact(a: Part, b: Part, flag: Part, name: string)
    requires Eligible(a, b, flag)
    ensures (forall v :: v in Vectors(a, b, flag) ==> FenceAgreement.Fits(name, v)) <==> Condition(a, b, flag, name)
  {
    hide CredentialParts, Eligible, TextPart, FenceAgreement.Fits, Condition;
    CredentialFits(a, b, flag, name);
    OthersFit([TextPart("updated_at_storage", "")], name);
    OthersFit([TextPart("agent_id", "")], name);
    assert Vectors(a, b, flag)[0] in Vectors(a, b, flag);
  }

  /** The three positive vectors load with all six recipes, and verify exactly under the two conditions. */
  lemma FileExact(a: Part, b: Part, flag: Part, rejects: seq<Reject>)
    requires Eligible(a, b, flag) && AllRecipes(Vectors(a, b, flag), rejects)
    ensures var vectors := Vectors(a, b, flag);
            && DistinctKinds(vectors) && (forall v :: v in vectors ==> Positive(v.parts))
            && LoaderAccepts(2, vectors, rejects)
            && (VerifierAccepts(2, vectors, rejects)
                <==> a.encoding == "utf8" && b.encoding == "utf8" && flag.encoding != "utf8")
  {
    hide Positive, CredentialParts, TextPart, Eligible, Generated, FenceAgreement.Fits, VerifierAccepts, DistinctKinds,
         LoaderAccepts, Vectors;
    var vectors := Vectors(a, b, flag);
    VectorsPositive(a, b, flag);
    RecipesLoad(vectors, rejects);
    LoaderAndVerifierAgree(2, vectors, rejects);
    RecipesFit(a, b, flag);
    forall n | 0 <= n < |RECIPES| ensures rejects[n].name == RECIPES[n] && rejects[n] in rejects {}
    forall r | r in rejects ensures r.name in RECIPES {
      var n :| 0 <= n < |rejects| && rejects[n] == r;
      assert RECIPES[n] in RECIPES;
    }
  }

  lemma VectorsPositive(a: Part, b: Part, flag: Part)
    requires Eligible(a, b, flag)
    ensures DistinctKinds(Vectors(a, b, flag)) && forall v :: v in Vectors(a, b, flag) ==> Positive(v.parts)
  {
    hide Positive, CredentialParts, TextPart, Eligible;
    Names();
    CredentialPositive(a, b, flag);
    TextPositive("updated_at_storage");
    TextPositive("agent_id");
    assert "credential"[0] == 'c' && "existing"[0] == 'e';
  }

  lemma RecipesLoad(vectors: seq<Vector>, rejects: seq<Reject>)
    requires AllRecipes(vectors, rejects)
    ensures LoaderAccepts(2, vectors, rejects)
  {
    hide Generated, RECIPES;
    forall r | r in rejects ensures Pinned(r, vectors) {
      var n :| 0 <= n < |rejects| && rejects[n] == r;
      assert r == RejectOf(RECIPES[n], vectors);
    }
  }

  lemma RecipesFit(a: Part, b: Part, flag: Part)
    requires Eligible(a, b, flag)
    ensures (forall name, v :: name in RECIPES && v in Vectors(a, b, flag) ==> FenceAgreement.Fits(name, v))
            <==> a.encoding == "utf8" && b.encoding == "utf8" && flag.encoding != "utf8"
  {
    hide Eligible, Vectors, FenceAgreement.Fits;
    forall name | name in RECIPES
      ensures (forall v :: v in Vectors(a, b, flag) ==> FenceAgreement.Fits(name, v)) <==> Condition(a, b, flag, name)
    {
      FitsExact(a, b, flag, name);
    }
    assert RECIPES[1] in RECIPES && RECIPES[4] in RECIPES;
    assert Condition(a, b, flag, RECIPES[1]) == (a.encoding == "utf8" && b.encoding == "utf8");
    assert Condition(a, b, flag, RECIPES[4]) == (flag.encoding != "utf8");
  }

  // ----- three files

  function ByteFlag(): Part {
    Part("has_counter", "bool_byte", "false", Hex([0]))
  }

  lemma ByteFlagClear()
    ensures PartVerdict(ByteFlag(), ByteFlag()) == Clear
  {
    Hexadecimal.DecodeEncode([0]);
    hide Hexadecimal.Decode, Hexadecimal.Encode;
    Names();
    assert "bool_byte"[0] == 'b' && "uint64_be"[0] == 'u' && "scope_count"[0] == 's';
    assert "has_counter"[0] == 'h' && "credential_key_hash"[0] == 'c';
  }

  function FirstText(): Part {
    TextPart("scope_0", "a")
  }

  function SecondText(): Part {
    TextPart("scope_1", "b")
  }

  function TextFlag(): Part {
    TextPart("has_counter", "false")
  }

  lemma TextScopes(flag: Part)
    requires flag.name == "has_counter" && PartVerdict(flag, flag) == Clear
    ensures Eligible(FirstText(), SecondText(), flag)
  {
    hide PartVerdict;
    Names();
    TextClear("scope_0", "a");
    TextClear("scope_1", "b");
  }

  /** Textual scopes and a byte flag: the file loads and verifies. */
  lemma TextScopesVerify() returns (rejects: seq<Reject>)
    ensures var vectors := Vectors(FirstText(), SecondText(), ByteFlag());
            AllRecipes(vectors, rejects) && LoaderAccepts(2, vectors, rejects) && VerifierAccepts(2, vectors, rejects)
  {
    hide AllRecipes, LoaderAccepts, VerifierAccepts, Vectors, Eligible, Hex, OctetsOf, PartVerdict;
    ByteFlagClear();
    TextScopes(ByteFlag());
    rejects := FileOf(FirstText(), SecondText(), ByteFlag());
    FileExact(FirstText(), SecondText(), ByteFlag(), rejects);
  }

  /** A textual flag: the file loads with all six recipes, and the verifier refuses it. */
  lemma TextualBoolIsMissed() returns (rejects: seq<Reject>)
    ensures var vectors := Vectors(FirstText(), SecondText(), TextFlag());
            && AllRecipes(vectors, rejects) && (forall v :: v in vectors ==> Positive(v.parts))
            && LoaderAccepts(2, vectors, rejects) && !VerifierAccepts(2, vectors, rejects)
  {
    hide AllRecipes, LoaderAccepts, VerifierAccepts, Vectors, Eligible, Hex, OctetsOf, PartVerdict, Positive;
    var flag := TextFlag();
    FlagNames();
    TextClear("has_counter", "false");
    TextScopes(flag);
    rejects := FileOf(FirstText(), SecondText(), flag);
    FileExact(FirstText(), SecondText(), flag, rejects);
  }

  lemma FlagNames()
    ensures "has_counter" != "credential_key_hash" && "has_counter" != "scope_count"
  {
    assert "has_counter"[0] == 'h' && "credential_key_hash"[0] == 'c' && "scope_count"[0] == 's';
  }

  function Base64Part(name: string, raw: seq<byte>): Part {
    Part(name, "raw_bytes_b64url", Base64Text(raw), Hex(raw))
  }

  lemma Base64Clear(name: string, raw: seq<byte>)
    requires name != "credential_key_hash" && name != "scope_count"
    ensures PartVerdict(Base64Part(name, raw), Base64Part(name, raw)) == Clear
    ensures raw != [] ==> Base64Part(name, raw).value != ""
  {
    hide Base64.StrictDecode, Base64.Encode, Hexadecimal.Decode, Hexadecimal.Encode;
    Base64.StrictDecodeExact(Base64.Url, Base64Text(raw), raw);
    Hexadecimal.DecodeEncode(raw);
    assert |Base64Text(raw)| == |Base64.Encode(Base64.Url, raw)|;
  }

  /** The two one-octet scopes in the order of their base64url spelling. */
  function ScopeOctets(): (seq<byte>, seq<byte>) {
    if Less(Base64Text([0]), Base64Text([1])) then ([0], [1]) else ([1], [0])
  }

  lemma Base64Scopes()
    ensures Eligible(Base64Part("scope_0", ScopeOctets().0), Base64Part("scope_1", ScopeOctets().1), ByteFlag())
  {
    hide PartVerdict, Base64Text, Hex;
    Names();
    ByteFlagClear();
    Base64Clear("scope_0", ScopeOctets().0);
    Base64Clear("scope_1", ScopeOctets().1);
    DistinctTexts();
    LessTotal(Base64Text([0]), Base64Text([1]));
  }

  lemma DistinctTexts()
    ensures Base64Text([0]) != Base64Text([1])
  {
    hide Base64.Encode;
    if Base64Text([0]) == Base64Text([1]) {
      Base64.EncodeInjective(Base64.Url, [0], [1]);
    }
  }

  /**
    Scopes in base64url: the vector is positive and the file loads with all six
    recipes, but its disturbed scopes are stopped before the scope list is looked
    at, and the verifier refuses the file.
   */
  lemma Base64ScopesAreMissed() returns (rejects: seq<Reject>)
    ensures var a, b := Base64Part("scope_0", ScopeOctets().0), Base64Part("scope_1", ScopeOctets().1);
            var vectors, parts := Vectors(a, b, ByteFlag()), CredentialParts(a, b, ByteFlag());
            && Positive(parts) && DisturbScopes(parts, true).Ok? && DisturbScopes(parts, false).Ok?
            && FenceVerdict(DisturbScopes(parts, true).value, parts) != Boundary("canonical_scopes")
            && FenceVerdict(DisturbScopes(parts, false).value, parts) != Boundary("canonical_scopes")
            && AllRecipes(vectors, rejects) && LoaderAccepts(2, vectors, rejects)
            && !VerifierAccepts(2, vectors, rejects)
  {
    hide AllRecipes, LoaderAccepts, VerifierAccepts, Vectors, Eligible, PartVerdict, Positive, FenceVerdict,
         DisturbScopes, CredentialParts, ScopeOctets, Hex, Base64Text, IndexOf;
    var a, b := Base64Part("scope_0", ScopeOctets().0), Base64Part("scope_1", ScopeOctets().1);
    var parts := CredentialParts(a, b, ByteFlag());
    Base64Scopes();
    rejects := FileOf(a, b, ByteFlag());
    FileExact(a, b, ByteFlag(), rejects);
    CredentialPositive(a, b, ByteFlag());
    CredentialIndices(a, b, ByteFlag());
    DisturbOk(parts);
    ScopesRejected(parts, true);
    ScopesRejected(parts, false);
  }
}
