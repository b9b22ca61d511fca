/**
  The qv2t1 outer transport: three base64url fields cut into full-width chunks,
  announced by three canonical counts.
 */
module Transport {
  import opened Splitting
  import Decimal
  import Base64
  import opened Wrappers

  const PREFIX := "qv2t1"
  const CANONICAL_PREFIX := "qv2"
  const COMPONENT_MAX := 240
  const MAX_TRANSPORT_LENGTH := 6826

  /** Field caps and chunk caps of claims, secret and signature. */
  const MAX_ENCODED := [6144, 512, 128]
  const MAX_CHUNKS := [26, 3, 1]

  // ----- the canonical encoder

  predicate IsField(field: string, cap: nat) {
    0 < |field| <= cap && Base64.IsText(Base64.Url, field)
  }

  /** A triple of fields a fragment can carry. */
  predicate IsTriple(fields: seq<string>) {
    |fields| == 3 && forall i :: 0 <= i < 3 ==> IsField(fields[i], MAX_ENCODED[i])
  }

  function Chunks(field: string): (chunks: seq<string>)
    ensures |chunks| > 0
    decreases |field|
  {
    if |field| <= COMPONENT_MAX then [field] else [field[..COMPONENT_MAX]] + Chunks(field[COMPONENT_MAX..])
  }

  function Parts(fields: seq<string>): (parts: seq<string>)
    requires |fields| == 3
  {
    var c, s, g := Chunks(fields[0]), Chunks(fields[1]), Chunks(fields[2]);
    [PREFIX, Decimal.Spell(|c|), Decimal.Spell(|s|), Decimal.Spell(|g|)] + c + s + g
  }

  function Encode(fields: seq<string>): string
    requires |fields| == 3
  {
    Join(Parts(fields), '.')
  }

  /** The inner fragment that carries the same fields. */
  function Canonical(fields: seq<string>): string
    requires |fields| == 3
  {
    Join([CANONICAL_PREFIX] + fields, '.')
  }

  // ----- chunking

  function Concat(chunks: seq<string>): string {
    if chunks == [] then "" else chunks[0] + Concat(chunks[1..])
  }

  predicate FullWidth(chunks: seq<string>) {
    && (forall i :: 0 <= i < |chunks| ==> 0 < |chunks[i]| <= COMPONENT_MAX)
    && (forall i :: 0 <= i < |chunks| - 1 ==> |chunks[i]| == COMPONENT_MAX)
  }

  lemma {:induction false} ChunksOf(field: string)
    ensures Concat(Chunks(field)) == field
    ensures field != "" ==> FullWidth(Chunks(field))
    ensures TotalLength(Chunks(field)) == |field|
    decreases |field|
  {
    if |field| <= COMPONENT_MAX {
      assert [field][1..] == [];
    } else {
      var head, rest := field[..COMPONENT_MAX], Chunks(field[COMPONENT_MAX..]);
      ChunksOf(field[COMPONENT_MAX..]);
      assert Chunks(field) == [head] + rest && Chunks(field)[1..] == rest;
      assert head + field[COMPONENT_MAX..] == field;
      assert FullWidth(rest) && FullWidth([head] + rest);
    }
  }

  lemma {:induction false} ChunksUnique(chunks: seq<string>)
    requires |chunks| > 0 && FullWidth(chunks)
    ensures Chunks(Concat(chunks)) == chunks
  {
    var field := Concat(chunks);
    if |chunks| == 1 {
      assert chunks[1..] == [] && field == chunks[0];
      assert |chunks[0]| <= COMPONENT_MAX;
      assert Chunks(field) == [chunks[0]];
    } else {
      ChunksUnique(chunks[1..]);
      assert Concat(chunks[1..]) != "" by { assert |chunks[1]| > 0; }
      assert field[COMPONENT_MAX..] == Concat(chunks[1..]);
    }
  }

  lemma {:induction false} ChunkCount(field: string)
    requires field != ""
    ensures (|Chunks(field)| - 1) * COMPONENT_MAX < |field| <= |Chunks(field)| * COMPONENT_MAX
    decreases |field|
  {
    if |field| > COMPONENT_MAX {
      ChunkCount(field[COMPONENT_MAX..]);
    }
  }

  lemma CountsInRange(fields: seq<string>, i: nat)
    requires IsTriple(fields) && i < 3
    ensures 1 <= |Chunks(fields[i])| <= MAX_CHUNKS[i]
  {
    ChunkCount(fields[i]);
    assert IsField(fields[i], MAX_ENCODED[i]);
  }

  lemma {:induction false} TextOfConcat(chunks: seq<string>)
    ensures Base64.IsText(Base64.Url, Concat(chunks)) <==>
            forall i :: 0 <= i < |chunks| ==> Base64.IsText(Base64.Url, chunks[i])
  {
    if chunks != [] {
      TextOfConcat(chunks[1..]);
      var head, tail := chunks[0], Concat(chunks[1..]);
      if Base64.IsText(Base64.Url, head + tail) {
        forall i | 0 <= i < |head| ensures Base64.InAlphabet(Base64.Url, head[i]) {
          assert (head + tail)[i] == head[i];
        }
        forall i | 0 <= i < |tail| ensures Base64.InAlphabet(Base64.Url, tail[i]) {
          assert (head + tail)[|head| + i] == tail[i];
        }
        forall i | 0 <= i < |chunks| ensures Base64.IsText(Base64.Url, chunks[i]) {
          assert i > 0 ==> chunks[i] == chunks[1..][i - 1];
        }
      }
      if forall i :: 0 <= i < |chunks| ==> Base64.IsText(Base64.Url, chunks[i]) {
        assert Base64.IsText(Base64.Url, chunks[0]);
        forall i | 0 <= i < |chunks[1..]| ensures Base64.IsText(Base64.Url, chunks[1..][i]) {
          assert chunks[1..][i] == chunks[i + 1];
        }
      }
    }
  }

  // ----- what the fields look like among the parts

  lemma PartsShape(fields: seq<string>)
    requires |fields| == 3
    ensures var parts, c, s, g := Parts(fields), Chunks(fields[0]), Chunks(fields[1]), Chunks(fields[2]);
            && |parts| == 4 + |c| + |s| + |g| && parts[0] == PREFIX
            && parts[1] == Decimal.Spell(|c|) && parts[2] == Decimal.Spell(|s|) && parts[3] == Decimal.Spell(|g|)
            && parts[4..4 + |c|] == c && parts[4 + |c|..4 + |c| + |s|] == s && parts[4 + |c| + |s|..] == g
  {
    hide Chunks, Decimal.Spell;
  }

  lemma {:induction false} ChunksOfText(field: string)
    requires Base64.IsText(Base64.Url, field)
    ensures forall i :: 0 <= i < |Chunks(field)| ==> '.' !in Chunks(field)[i]
    decreases |field|
  {
    if |field| > COMPONENT_MAX {
      ChunksOfText(field[COMPONENT_MAX..]);
    }
  }

  lemma PartsAreComponents(fields: seq<string>)
    requires IsTriple(fields)
    ensures forall i :: 0 <= i < |Parts(fields)| ==> '.' !in Parts(fields)[i]
  {
    hide Decimal.Spell, Chunks;
    forall i | 0 <= i < 3 ensures Base64.IsText(Base64.Url, fields[i]) {
      assert IsField(fields[i], MAX_ENCODED[i]);
    }
    ChunksOfText(fields[0]);
    ChunksOfText(fields[1]);
    ChunksOfText(fields[2]);
    forall n: nat ensures '.' !in Decimal.Spell(n) {}
  }

  lemma EncodedParts(fields: seq<string>)
    requires IsTriple(fields)
    ensures Split(Encode(fields), '.') == Parts(fields)
  {
    PartsAreComponents(fields);
    hide Parts;
    PartsShape(fields);
    SplitJoin(Parts(fields), '.');
  }

  lemma EncodedLength(fields: seq<string>)
    requires IsTriple(fields)
    ensures |Encode(fields)| == 5
              + |Decimal.Spell(|Chunks(fields[0])|)| + |Decimal.Spell(|Chunks(fields[1])|)|
                  + |Decimal.Spell(|Chunks(fields[2])|)|
              + |fields[0]| + |fields[1]| + |fields[2]|
              + 3 + |Chunks(fields[0])| + |Chunks(fields[1])| + |Chunks(fields[2])|
  {
    var c, s, g := Chunks(fields[0]), Chunks(fields[1]), Chunks(fields[2]);
    var header := [PREFIX, Decimal.Spell(|c|), Decimal.Spell(|s|), Decimal.Spell(|g|)];
    ChunksOf(fields[0]);
    ChunksOf(fields[1]);
    ChunksOf(fields[2]);
    hide Chunks, Decimal.Spell;
    TotalLengthConcat(header + c + s, g);
    TotalLengthConcat(header + c, s);
    TotalLengthConcat(header, c);
    HeaderLength(header);
    JoinLength(Parts(fields), '.');
  }

  lemma HeaderLength(header: seq<string>)
    requires |header| == 4
    ensures TotalLength(header) == |header[0]| + |header[1]| + |header[2]| + |header[3]|
  {
    assert header == [header[0]] + [header[1]] + [header[2]] + [header[3]];
    TotalLengthConcat([header[0]] + [header[1]] + [header[2]], [header[3]]);
    TotalLengthConcat([header[0]] + [header[1]], [header[2]]);
    TotalLengthConcat([header[0]], [header[1]]);
    forall part: string ensures TotalLength([part]) == |part| {
      assert [part][1..] == [];
    }
  }

  /** No fragment of acceptable fields is longer than the gate allows. */
  lemma LengthGateNeverBinds(fields: seq<string>)
    requires IsTriple(fields)
    ensures |Encode(fields)| <= MAX_TRANSPORT_LENGTH
  {
    EncodedLength(fields);
    CountsInRange(fields, 0);
    CountsInRange(fields, 1);
    CountsInRange(fields, 2);
    forall i | 0 <= i < 3 ensures |fields[i]| <= MAX_ENCODED[i] {
      assert IsField(fields[i], MAX_ENCODED[i]);
    }
    assert Decimal.Pow10(1) == 10 && Decimal.Pow10(2) == 100;
    Decimal.SpellLength(|Chunks(fields[0])|, 1);
    Decimal.SpellLength(|Chunks(fields[1])|, 0);
    Decimal.SpellLength(|Chunks(fields[2])|, 0);
  }

  /** The gate is tight: fields at their caps reach it exactly. */
  lemma LengthGateAttained(fields: seq<string>)
    requires IsTriple(fields) && forall i :: 0 <= i < 3 ==> |fields[i]| == MAX_ENCODED[i]
    ensures |Encode(fields)| == MAX_TRANSPORT_LENGTH
  {
    EncodedLength(fields);
    assert |fields[0]| == MAX_ENCODED[0] == 6144 && |fields[1]| == MAX_ENCODED[1] == 512
        && |fields[2]| == MAX_ENCODED[2] == 128;
    ChunkCount(fields[0]);
    ChunkCount(fields[1]);
    ChunkCount(fields[2]);
    assert |Chunks(fields[0])| == 26 && |Chunks(fields[1])| == 3 && |Chunks(fields[2])| == 1;
    assert Decimal.Pow10(1) == 10 && Decimal.Pow10(2) == 100;
    Decimal.SpellLength(26, 1);
    Decimal.SpellLength(3, 0);
    Decimal.SpellLength(1, 0);
  }

  // ----- the decoder

  /** Accepts exactly the canonical numerals of 1 to `max`, without ever exceeding `max` on the way. */
  method ParseCount(token: string, max: nat) returns (count: Option<nat>)
    ensures forall n: nat :: count == Some(n) <==> 1 <= n <= max && token == Decimal.Spell(n)
  {
    if token == "" || token == "0" || token[0] == '0' {
      forall n: nat | 1 <= n ensures token != Decimal.Spell(n) {}
      return None;
    }
    var value: nat, i := 0, 0;
    while i < |token|
      invariant 0 <= i <= |token| && Decimal.AllDigits(token[..i])
      invariant value == Decimal.Value(token[..i]) && (i > 0 ==> value <= max)
    {
      assert token[..i + 1][..i] == token[..i];
      if !Decimal.IsDigit(token[i]) {
        return None;
      }
      var digit := Decimal.DigitOf(token[i]);
      if value > max / 10 || (value == max / 10 && digit > max % 10) {
        PrefixTooLarge(token, i + 1, max);
        return None;
      }
      value := value * 10 + digit;
      i := i + 1;
    }
    assert token[..i] == token;
    Decimal.ValuePositive(token);
    Decimal.SpellOfValue(token);
    forall n: nat ensures token == Decimal.Spell(n) ==> n == value {
      Decimal.ValueOfSpell(n);
    }
    return Some(value);
  }

  lemma {:induction false} PrefixTooLarge(token: string, i: nat, max: nat)
    requires i <= |token| && Decimal.AllDigits(token[..i]) && Decimal.Value(token[..i]) > max
    ensures forall n: nat :: n <= max ==> token != Decimal.Spell(n)
  {
    forall n: nat | token == Decimal.Spell(n) ensures n > max {
      Decimal.ValueOfSpell(n);
      ValueOfPrefix(token, i);
    }
  }

  lemma {:induction false} ValueOfPrefix(s: string, i: nat)
    requires Decimal.AllDigits(s) && i <= |s|
    ensures Decimal.Value(s[..i]) <= Decimal.Value(s)
    decreases |s|
  {
    if i == |s| {
      assert s[..i] == s;
    } else {
      var init := s[..|s| - 1];
      assert init[..i] == s[..i];
      ValueOfPrefix(init, i);
    }
  }

  /** One field's chunks: accepted exactly when they are the chunking of a field within the cap. */
  method DecodeField(chunks: seq<string>, cap: nat) returns (field: Option<string>)
    requires |chunks| > 0
    ensures forall f :: field == Some(f) <==> IsField(f, cap) && chunks == Chunks(f)
  {
    var fieldLength, i := 0, 0;
    while i < |chunks|
      invariant 0 <= i <= |chunks|
      invariant fieldLength == |Concat(chunks[..i])|
      invariant forall j :: 0 <= j < i ==> 0 < |chunks[j]| <= COMPONENT_MAX && Base64.IsText(Base64.Url, chunks[j])
      invariant forall j :: 0 <= j < i && j < |chunks| - 1 ==> |chunks[j]| == COMPONENT_MAX
    {
      var chunk := chunks[i];
      if |chunk| == 0 || |chunk| > COMPONENT_MAX || (i < |chunks| - 1 && |chunk| != COMPONENT_MAX) {
        NotChunks(chunks, cap);
        return None;
      }
      var k := 0;
      while k < |chunk|
        invariant 0 <= k <= |chunk| && forall j :: 0 <= j < k ==> Base64.InAlphabet(Base64.Url, chunk[j])
      {
        if !Base64.InAlphabet(Base64.Url, chunk[k]) {
          assert !Base64.IsText(Base64.Url, chunks[i]);
          NotChunks(chunks, cap);
          return None;
        }
        k := k + 1;
      }
      ConcatAppend(chunks[..i], chunk);
      assert chunks[..i + 1] == chunks[..i] + [chunk];
      fieldLength := fieldLength + |chunk|;
      i := i + 1;
    }
    assert chunks[..i] == chunks;
    ChunksUnique(chunks);
    TextOfConcat(chunks);
    forall f | chunks == Chunks(f) ensures f == Concat(chunks) {
      ChunksOf(f);
    }
    if fieldLength > cap {
      return None;
    }
    assert Concat(chunks) != "" by { assert |chunks[0]| > 0; }
    return Some(Concat(chunks));
  }

  lemma {:induction false} ConcatAppend(chunks: seq<string>, chunk: string)
    ensures Concat(chunks + [chunk]) == Concat(chunks) + chunk
  {
    if chunks == [] {
      assert [chunk][1..] == [];
    } else {
      assert (chunks + [chunk])[1..] == chunks[1..] + [chunk];
      ConcatAppend(chunks[1..], chunk);
    }
  }

  lemma NotChunks(chunks: seq<string>, cap: nat)
    requires !FullWidth(chunks) || exists i :: 0 <= i < |chunks| && !Base64.IsText(Base64.Url, chunks[i])
    ensures forall f :: IsField(f, cap) ==> chunks != Chunks(f)
  {
    forall f | IsField(f, cap) && chunks == Chunks(f) ensures false {
      ChunksOf(f);
      TextOfConcat(chunks);
    }
  }

  /** Where field `k` starts among the parts. */
  function Start(counts: seq<nat>, k: nat): (start: nat)
    requires k <= |counts| == 3
  {
    4 + (if k > 0 then counts[0] else 0) + (if k > 1 then counts[1] else 0) + (if k > 2 then counts[2] else 0)
  }

  /** Announced counts and collected chunks are those of the fields read so far. */
  ghost predicate Collected(parts: seq<string>, counts: seq<nat>, fields: seq<string>)
    requires |counts| == 3 && |fields| <= 3
  {
    forall j :: 0 <= j < |fields| ==>
      && IsField(fields[j], MAX_ENCODED[j])
      && Start(counts, j) + counts[j] <= |parts|
      && parts[Start(counts, j)..Start(counts, j) + counts[j]] == Chunks(fields[j])
  }

  /**
    The decoder accepts exactly the encodings of acceptable triples and gives back
    the inner fragment of the same triple.
   */
  method DecodeTransport(body: string) returns (fragment: Option<string>)
    ensures forall fields :: IsTriple(fields) && body == Encode(fields) ==> fragment == Some(Canonical(fields))
    ensures fragment.Some? ==>
              exists fields :: IsTriple(fields) && body == Encode(fields) && fragment.value == Canonical(fields)
  {
    if |body| > MAX_TRANSPORT_LENGTH {
      forall fields | IsTriple(fields) && body == Encode(fields) ensures false {
        LengthGateNeverBinds(fields);
      }
      return None;
    }
    var parts := Split(body, '.');
    forall fields | IsTriple(fields) && body == Encode(fields) ensures parts == Parts(fields) {
      EncodedParts(fields);
    }
    fragment := DecodeParts(parts);
    JoinSplit(body, '.');
  }

  method ReadCounts(parts: seq<string>) returns (counts: Option<seq<nat>>)
    requires |parts| >= 4
    ensures counts.Some? ==> AreCounts(parts, counts.value)
    ensures counts.None? ==> exists j :: 0 <= j < 3 && NotACount(parts[j + 1], MAX_CHUNKS[j])
  {
    hide Decimal.Spell;
    var read: seq<nat> := [];
    while |read| < 3
      invariant |read| <= 3
      invariant forall j :: 0 <= j < |read| ==> 1 <= read[j] && parts[j + 1] == Decimal.Spell(read[j])
    {
      var count := ParseCount(parts[|read| + 1], MAX_CHUNKS[|read|]);
      if count.None? {
        assert NotACount(parts[|read| + 1], MAX_CHUNKS[|read|]);
        return None;
      }
      read := read + [count.value];
    }
    return Some(read);
  }

  ghost predicate NotACount(token: string, max: nat) {
    forall n: nat :: 1 <= n <= max ==> token != Decimal.Spell(n)
  }

  ghost predicate AreCounts(parts: seq<string>, counts: seq<nat>)
    requires |parts| >= 4
  {
    |counts| == 3 && forall j :: 0 <= j < 3 ==> 1 <= counts[j] && parts[j + 1] == Decimal.Spell(counts[j])
  }

  /** The parts announced for field `k`. */
  ghost function Slice(parts: seq<string>, counts: seq<nat>, k: nat): seq<string>
    requires k < |counts| == 3 && |parts| == Start(counts, 3)
  {
    parts[Start(counts, k)..Start(counts, k) + counts[k]]
  }

  method ReadFields(parts: seq<string>, counts: seq<nat>) returns (fields: Option<seq<string>>)
    requires |counts| == 3 && |parts| == Start(counts, 3) && forall j :: 0 <= j < 3 ==> 1 <= counts[j]
    ensures fields.Some? ==> |fields.value| == 3 && Collected(parts, counts, fields.value)
    ensures fields.None? ==>
              exists k :: 0 <= k < 3 && forall f :: IsField(f, MAX_ENCODED[k]) ==> Slice(parts, counts, k) != Chunks(f)
  {
    hide Chunks;
    var read: seq<string>, part := [], 4;
    while |read| < 3
      invariant |read| <= 3 && part == Start(counts, |read|) && Collected(parts, counts, read)
    {
      var k := |read|;
      var field := DecodeField(parts[part..part + counts[k]], MAX_ENCODED[k]);
      if field.None? {
        assert forall f :: IsField(f, MAX_ENCODED[k]) ==> Slice(parts, counts, k) != Chunks(f);
        return None;
      }
      part := part + counts[k];
      read := read + [field.value];
    }
    return Some(read);
  }

  method DecodeParts(parts: seq<string>) returns (fragment: Option<string>)
    ensures forall fields :: IsTriple(fields) && parts == Parts(fields) ==> fragment == Some(Canonical(fields))
    ensures fragment.Some? ==>
              exists fields :: IsTriple(fields) && parts == Parts(fields) && fragment.value == Canonical(fields)
  {
    forall fields | IsTriple(fields) && parts == Parts(fields) ensures |parts| >= 4 && parts[0] == PREFIX {
      PartsShape(fields);
    }
    hide Chunks, Decimal.Spell, Canonical, Parts;
    if |parts| < 4 || parts[0] != PREFIX {
      return None;
    }
    var counts := ReadCounts(parts);
    if counts.None? {
      ghost var j :| 0 <= j < 3 && NotACount(parts[j + 1], MAX_CHUNKS[j]);
      forall fields | IsTriple(fields) && parts == Parts(fields) ensures false {
        PartsCounts(parts, fields);
      }
      return None;
    }
    forall fields | IsTriple(fields) && parts == Parts(fields) ensures SlicesAre(parts, counts.value, fields) {
      CountsAgree(parts, counts.value, fields);
    }
    if |parts| != Start(counts.value, 3) {
      return None;
    }
    var fields := ReadFields(parts, counts.value);
    if fields.None? {
      return None;
    }
    CollectedAll(parts, counts.value, fields.value);
    forall f | IsTriple(f) && parts == Parts(f) ensures f == fields.value {
      SlicesDetermine(parts, counts.value, f, fields.value);
    }
    CanonicalIs(fields.value);
    return Some(Join([CANONICAL_PREFIX] + fields.value, '.'));
  }

  lemma PartsCounts(parts: seq<string>, fields: seq<string>)
    requires IsTriple(fields) && parts == Parts(fields)
    ensures |parts| >= 4
    ensures forall j :: 0 <= j < 3 ==>
              1 <= |Chunks(fields[j])| <= MAX_CHUNKS[j] && parts[j + 1] == Decimal.Spell(|Chunks(fields[j])|)
  {
    hide Decimal.Spell;
    PartsShape(fields);
    CountsInRange(fields, 0);
    CountsInRange(fields, 1);
    CountsInRange(fields, 2);
  }

  /** The slices the counts cut out are the chunks of the fields. */
  ghost predicate SlicesAre(parts: seq<string>, counts: seq<nat>, fields: seq<string>)
    requires |counts| == 3 && |fields| == 3
  {
    |parts| == Start(counts, 3)
    && forall k :: 0 <= k < 3 ==> IsField(fields[k], MAX_ENCODED[k]) && Slice(parts, counts, k) == Chunks(fields[k])
  }

  lemma CountsAgree(parts: seq<string>, counts: seq<nat>, fields: seq<string>)
    requires IsTriple(fields) && parts == Parts(fields) && |parts| >= 4 && AreCounts(parts, counts)
    ensures SlicesAre(parts, counts, fields)
  {
    PartsCounts(parts, fields);
    PartsShape(fields);
    forall j | 0 <= j < 3 ensures counts[j] == |Chunks(fields[j])| {
      Decimal.SpellInjective(counts[j], |Chunks(fields[j])|);
    }
    hide Chunks, Decimal.Spell, Parts;
    assert Slice(parts, counts, 0) == Chunks(fields[0]);
    assert Slice(parts, counts, 1) == Chunks(fields[1]);
    assert Slice(parts, counts, 2) == Chunks(fields[2]);
  }

  lemma SlicesDetermine(parts: seq<string>, counts: seq<nat>, f: seq<string>, g: seq<string>)
    requires |counts| == 3 && |f| == 3 && |g| == 3 && SlicesAre(parts, counts, f) && SlicesAre(parts, counts, g)
    ensures f == g
  {
    forall k | 0 <= k < 3 ensures f[k] == g[k] {
      ChunksOf(f[k]);
      ChunksOf(g[k]);
      assert Slice(parts, counts, k) == Chunks(f[k]) == Chunks(g[k]);
    }
  }

  lemma CanonicalIs(fields: seq<string>)
    requires |fields| == 3
    ensures Canonical(fields) == Join([CANONICAL_PREFIX] + fields, '.')
  {
  }

  lemma CollectedAll(parts: seq<string>, counts: seq<nat>, fields: seq<string>)
    requires |counts| == |fields| == 3 && Collected(parts, counts, fields)
    requires |parts| == Start(counts, 3) && parts[0] == PREFIX && AreCounts(parts, counts)
    ensures IsTriple(fields) && parts == Parts(fields) && SlicesAre(parts, counts, fields)
  {
    hide Chunks, Decimal.Spell;
    var c, s, g := Chunks(fields[0]), Chunks(fields[1]), Chunks(fields[2]);
    assert parts[Start(counts, 0)..Start(counts, 0) + counts[0]] == c;
    assert parts[Start(counts, 1)..Start(counts, 1) + counts[1]] == s;
    assert parts[Start(counts, 2)..Start(counts, 2) + counts[2]] == g;
    assert parts[1] == Decimal.Spell(|c|) && parts[2] == Decimal.Spell(|s|) && parts[3] == Decimal.Spell(|g|);
    assert parts == parts[..4] + c + s + g;
  }

  // ----- consequences

  lemma CanonicalParts(fields: seq<string>)
    requires IsTriple(fields)
    ensures Split(Canonical(fields), '.') == [CANONICAL_PREFIX] + fields
  {
    forall i | 0 <= i < 3 ensures '.' !in fields[i] {
      assert IsField(fields[i], MAX_ENCODED[i]);
    }
    SplitJoin([CANONICAL_PREFIX] + fields, '.');
  }

  /** Two triples that make the same inner fragment are the same triple. */
  lemma CanonicalInjective(f: seq<string>, g: seq<string>)
    requires IsTriple(f) && IsTriple(g)
    ensures Canonical(f) == Canonical(g) <==> f == g
  {
    CanonicalParts(f);
    CanonicalParts(g);
    if Canonical(f) == Canonical(g) {
      assert f == ([CANONICAL_PREFIX] + f)[1..] == ([CANONICAL_PREFIX] + g)[1..] == g;
    }
  }

  lemma EncodingInjective(f: seq<string>, g: seq<string>)
    requires IsTriple(f) && IsTriple(g)
    ensures Encode(f) == Encode(g) <==> f == g
  {
    hide Parts, Chunks, Encode, Decimal.Spell, IsField;
    if Encode(f) == Encode(g) {
      EncodedParts(f);
      EncodedParts(g);
      PartsCounts(Parts(f), f);
      var counts := [|Chunks(f[0])|, |Chunks(f[1])|, |Chunks(f[2])|];
      CountsAgree(Parts(f), counts, f);
      CountsAgree(Parts(f), counts, g);
      SlicesDetermine(Parts(f), counts, f, g);
    }
  }
}
