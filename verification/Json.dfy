/**
  JSON values, the token streams they render to, and the strict walker that reads
  one value and rejects a repeated object key at any depth.
 */
module Json {
  import opened Wrappers

  datatype Token =
    | OpenObject | CloseObject | OpenArray | CloseArray
    | Str(text: string) | Num(text: string) | Lit(text: string)
  {
    predicate IsScalar() {
      Str? || Num? || Lit?
    }

    predicate Closes() {
      CloseObject? || CloseArray?
    }
  }

  datatype Value = Scalar(token: Token) | Object(members: Members) | Array(elements: Elements)
  datatype Members = NoMembers | Member(key: string, value: Value, rest: Members)
  datatype Elements = NoElements | Element(value: Value, rest: Elements)

  // ----- rendering

  function Render(v: Value): (ts: seq<Token>)
    ensures |ts| > 0
  {
    match v
    case Scalar(t) => [t]
    case Object(ms) => [OpenObject] + RenderMembers(ms) + [CloseObject]
    case Array(es) => [OpenArray] + RenderElements(es) + [CloseArray]
  }

  function RenderMembers(ms: Members): seq<Token> {
    match ms
    case NoMembers => []
    case Member(k, v, rest) => [Str(k)] + Render(v) + RenderMembers(rest)
  }

  function RenderElements(es: Elements): seq<Token> {
    match es
    case NoElements => []
    case Element(v, rest) => Render(v) + RenderElements(rest)
  }

  /** Scalars hold scalar tokens. */
  predicate WellFormed(v: Value) {
    match v
    case Scalar(t) => t.IsScalar()
    case Object(ms) => WellFormedMembers(ms)
    case Array(es) => WellFormedElements(es)
  }

  predicate WellFormedMembers(ms: Members) {
    ms.NoMembers? || (WellFormed(ms.value) && WellFormedMembers(ms.rest))
  }

  predicate WellFormedElements(es: Elements) {
    es.NoElements? || (WellFormed(es.value) && WellFormedElements(es.rest))
  }

  /** No object at any depth repeats a key. */
  predicate Unique(v: Value) {
    match v
    case Scalar(_) => true
    case Object(ms) => UniqueMembers(ms, {})
    case Array(es) => UniqueElements(es)
  }

  predicate UniqueMembers(ms: Members, seen: set<string>) {
    ms.NoMembers? || (ms.key !in seen && Unique(ms.value) && UniqueMembers(ms.rest, seen + {ms.key}))
  }

  predicate UniqueElements(es: Elements) {
    es.NoElements? || (Unique(es.value) && UniqueElements(es.rest))
  }

  // ----- reading one value

  predicate More(ts: seq<Token>) {
    ts != [] && !ts[0].Closes()
  }

  function Parse(ts: seq<Token>): (r: Option<(Value, seq<Token>)>)
    ensures r.Some? ==> |r.value.1| < |ts|
    decreases |ts|, 0
  {
    if ts == [] then None
    else if ts[0].IsScalar() then Some((Scalar(ts[0]), ts[1..]))
    else if ts[0].OpenObject? then
      var ms := ParseMembers(ts[1..]);
      if ms.None? then None else Some((Object(ms.value.0), ms.value.1))
    else if ts[0].OpenArray? then
      var es := ParseElements(ts[1..]);
      if es.None? then None else Some((Array(es.value.0), es.value.1))
    else None
  }

  function ParseMembers(ts: seq<Token>): (r: Option<(Members, seq<Token>)>)
    ensures r.Some? ==> |r.value.1| < |ts|
    decreases |ts|, 1
  {
    if !More(ts) then
      if ts != [] && ts[0].CloseObject? then Some((NoMembers, ts[1..])) else None
    else if !ts[0].Str? then None
    else
      var v := Parse(ts[1..]);
      if v.None? then None
      else
        var rest := ParseMembers(v.value.1);
        if rest.None? then None else Some((Member(ts[0].text, v.value.0, rest.value.0), rest.value.1))
  }

  function ParseElements(ts: seq<Token>): (r: Option<(Elements, seq<Token>)>)
    ensures r.Some? ==> |r.value.1| < |ts|
    decreases |ts|, 1
  {
    if !More(ts) then
      if ts != [] && ts[0].CloseArray? then Some((NoElements, ts[1..])) else None
    else
      var v := Parse(ts);
      if v.None? then None
      else
        var rest := ParseElements(v.value.1);
        if rest.None? then None else Some((Element(v.value.0, rest.value.0), rest.value.1))
  }

  lemma MemberTokens(ms: Members, more: seq<Token>)
    requires ms.Member? && WellFormedMembers(ms)
    ensures RenderMembers(ms) + more == [Str(ms.key)] + (Render(ms.value) + (RenderMembers(ms.rest) + more))
  {
  }

  lemma ElementTokens(es: Elements, more: seq<Token>)
    requires es.Element? && WellFormedElements(es)
    ensures RenderElements(es) + more == Render(es.value) + (RenderElements(es.rest) + more)
  {
  }

  lemma {:induction false} ParseRender(v: Value, rest: seq<Token>)
    requires WellFormed(v)
    ensures Parse(Render(v) + rest) == Some((v, rest))
    decreases v
  {
    RenderTokens(v, rest);
    match v
    case Scalar(t) =>
    case Object(ms) =>
      ParseRenderMembers(ms, rest);
      hide Render, RenderMembers, ParseMembers;
    case Array(es) =>
      ParseRenderElements(es, rest);
      hide Render, RenderElements, ParseElements;
  }

  lemma RenderTokens(v: Value, rest: seq<Token>)
    ensures var ts := Render(v) + rest;
            match v
            case Scalar(t) => ts[0] == t && ts[1..] == rest
            case Object(ms) => ts[0] == OpenObject && ts[1..] == RenderMembers(ms) + ([CloseObject] + rest)
            case Array(es) => ts[0] == OpenArray && ts[1..] == RenderElements(es) + ([CloseArray] + rest)
  {
    hide RenderMembers, RenderElements;
    var ts := Render(v) + rest;
    match v
    case Scalar(t) => assert ts[1..] == rest;
    case Object(ms) => assert ts[1..] == RenderMembers(ms) + ([CloseObject] + rest);
    case Array(es) => assert ts[1..] == RenderElements(es) + ([CloseArray] + rest);
  }

  lemma {:induction false} ParseRenderMembers(ms: Members, rest: seq<Token>)
    requires WellFormedMembers(ms)
    ensures ParseMembers(RenderMembers(ms) + ([CloseObject] + rest)) == Some((ms, rest))
    decreases ms
  {
    var more := [CloseObject] + rest;
    if ms.NoMembers? {
      assert RenderMembers(ms) + more == more && more[1..] == rest;
    } else {
      var tail := RenderMembers(ms.rest) + more;
      MemberTokens(ms, more);
      ParseRender(ms.value, tail);
      ParseRenderMembers(ms.rest, rest);
      hide Parse, Render, RenderMembers;
      OneMember([Str(ms.key)] + (Render(ms.value) + tail), ms.value, tail);
    }
  }

  lemma OneMember(ts: seq<Token>, value: Value, tail: seq<Token>)
    requires ts != [] && ts[0].Str? && Parse(ts[1..]) == Some((value, tail))
    ensures ParseMembers(ts)
            == match ParseMembers(tail)
               case None => None
               case Some((ms, rest)) => Some((Member(ts[0].text, value, ms), rest))
  {
    hide Parse;
  }

  lemma {:induction false} ParseRenderElements(es: Elements, rest: seq<Token>)
    requires WellFormedElements(es)
    ensures ParseElements(RenderElements(es) + ([CloseArray] + rest)) == Some((es, rest))
    decreases es
  {
    var more := [CloseArray] + rest;
    if es.NoElements? {
      assert RenderElements(es) + more == more && more[1..] == rest;
    } else {
      var tail := RenderElements(es.rest) + more;
      ElementTokens(es, more);
      RenderOpens(es.value);
      ParseRender(es.value, tail);
      ParseRenderElements(es.rest, rest);
      hide Parse, Render, RenderElements;
      assert (Render(es.value) + tail)[0] == Render(es.value)[0];
    }
  }

  lemma RenderOpens(v: Value)
    requires WellFormed(v)
    ensures !Render(v)[0].Closes()
  {
  }

  /** What was parsed is what stood there. */
  lemma {:induction false} RenderParse(ts: seq<Token>)
    requires Parse(ts).Some?
    ensures var (v, rest) := Parse(ts).value; WellFormed(v) && ts == Render(v) + rest
    decreases |ts|, 0
  {
    if !ts[0].IsScalar() {
      assert ts == [ts[0]] + ts[1..];
      if ts[0].OpenObject? {
        RenderParseMembers(ts[1..]);
      } else {
        RenderParseElements(ts[1..]);
      }
    }
  }

  lemma {:induction false} RenderParseMembers(ts: seq<Token>)
    requires ParseMembers(ts).Some?
    ensures var (ms, rest) := ParseMembers(ts).value;
            WellFormedMembers(ms) && ts == RenderMembers(ms) + ([CloseObject] + rest)
    decreases |ts|, 1
  {
    if More(ts) {
      var (v, tail) := Parse(ts[1..]).value;
      RenderParse(ts[1..]);
      RenderParseMembers(tail);
      var (ms, rest) := ParseMembers(ts).value;
      hide ParseMembers, Parse, Render, RenderMembers;
      MemberTokens(ms, [CloseObject] + rest);
      assert ts == [ts[0]] + ts[1..];
    }
  }

  lemma {:induction false} RenderParseElements(ts: seq<Token>)
    requires ParseElements(ts).Some?
    ensures var (es, rest) := ParseElements(ts).value;
            WellFormedElements(es) && ts == RenderElements(es) + ([CloseArray] + rest)
    decreases |ts|, 1
  {
    if More(ts) {
      var (v, tail) := Parse(ts).value;
      RenderParse(ts);
      RenderParseElements(tail);
      var (es, rest) := ParseElements(ts).value;
      hide ParseElements, Parse, Render, RenderElements;
      ElementTokens(es, [CloseArray] + rest);
    }
  }

  // ----- the walker

  function WalkValue(ts: seq<Token>): (r: Option<seq<Token>>)
    ensures r.Some? ==> |r.value| < |ts|
    decreases |ts|, 0
  {
    if ts == [] then None
    else if ts[0].IsScalar() then Some(ts[1..])
    else if ts[0].OpenObject? then WalkMembers(ts[1..], {})
    else if ts[0].OpenArray? then WalkElements(ts[1..])
    else None
  }

  function WalkMembers(ts: seq<Token>, seen: set<string>): (r: Option<seq<Token>>)
    ensures r.Some? ==> |r.value| < |ts|
    decreases |ts|, 1
  {
    if !More(ts) then
      if ts != [] && ts[0].CloseObject? then Some(ts[1..]) else None
    else if !ts[0].Str? || ts[0].text in seen then None
    else
      var v := WalkValue(ts[1..]);
      if v.None? then None else WalkMembers(v.value, seen + {ts[0].text})
  }

  function WalkElements(ts: seq<Token>): (r: Option<seq<Token>>)
    ensures r.Some? ==> |r.value| < |ts|
    decreases |ts|, 1
  {
    if !More(ts) then
      if ts != [] && ts[0].CloseArray? then Some(ts[1..]) else None
    else
      var v := WalkValue(ts);
      if v.None? then None else WalkElements(v.value)
  }

  /** On any token stream the walker does what parsing followed by the uniqueness check would. */
  lemma {:induction false} WalkIsParseThenCheck(ts: seq<Token>)
    ensures WalkValue(ts) == if Parse(ts).Some? && Unique(Parse(ts).value.0) then Some(Parse(ts).value.1) else None
    decreases |ts|, 0
  {
    if ts != [] {
      WalkMembersIsParseThenCheck(ts[1..], {});
      WalkElementsIsParseThenCheck(ts[1..]);
    }
  }

  lemma {:induction false} WalkMembersIsParseThenCheck(ts: seq<Token>, seen: set<string>)
    ensures var p := ParseMembers(ts);
            WalkMembers(ts, seen) == if p.Some? && UniqueMembers(p.value.0, seen) then Some(p.value.1) else None
    decreases |ts|, 1
  {
    if More(ts) && ts[0].Str? {
      WalkIsParseThenCheck(ts[1..]);
      var v := Parse(ts[1..]);
      if v.Some? {
        WalkMembersIsParseThenCheck(v.value.1, seen + {ts[0].text});
      }
    }
  }

  lemma {:induction false} WalkElementsIsParseThenCheck(ts: seq<Token>)
    ensures var p := ParseElements(ts);
            WalkElements(ts) == if p.Some? && UniqueElements(p.value.0) then Some(p.value.1) else None
    decreases |ts|, 1
  {
    if More(ts) {
      WalkIsParseThenCheck(ts);
      var v := Parse(ts);
      if v.Some? {
        WalkElementsIsParseThenCheck(v.value.1);
      }
    }
  }

  /** The walker succeeds exactly on the tokens of one value without a repeated key, and consumes exactly them. */
  lemma WalkExact(ts: seq<Token>, rest: seq<Token>)
    ensures WalkValue(ts) == Some(rest) <==> exists v :: WellFormed(v) && Unique(v) && ts == Render(v) + rest
  {
    WalkIsParseThenCheck(ts);
    if WalkValue(ts) == Some(rest) {
      RenderParse(ts);
    }
    forall v | WellFormed(v) && Unique(v) && ts == Render(v) + rest ensures WalkValue(ts) == Some(rest) {
      ParseRender(v, rest);
    }
  }

  /** A rendered value is accepted exactly if no object in it repeats a key. */
  lemma WalkRender(v: Value, rest: seq<Token>)
    requires WellFormed(v)
    ensures WalkValue(Render(v) + rest) == if Unique(v) then Some(rest) else None
  {
    ParseRender(v, rest);
    WalkIsParseThenCheck(Render(v) + rest);
  }

  // ----- the decoder the source drives

  /**
    A token stream being consumed.  `clean` tells whether it ends in end-of-file or
    in text the tokenizer cannot read.
   */
  class Decoder {
    var rest: seq<Token>
    const clean: bool

    constructor (tokens: seq<Token>, clean: bool)
      ensures rest == tokens && this.clean == clean
    {
      rest := tokens;
      this.clean := clean;
    }

    method Next() returns (token: Option<Token>)
      modifies this
      ensures old(rest) == [] ==> token == None && rest == old(rest)
      ensures old(rest) != [] ==> token == Some(old(rest)[0]) && rest == old(rest)[1..]
    {
      if rest == [] {
        return None;
      }
      token := Some(rest[0]);
      rest := rest[1..];
    }
  }

  method WalkJSONValue(dec: Decoder) returns (ok: bool)
    modifies dec
    ensures ok == WalkValue(old(dec.rest)).Some?
    ensures ok ==> dec.rest == WalkValue(old(dec.rest)).value
    decreases |dec.rest|
  {
    ghost var all := dec.rest;
    var token := dec.Next();
    if token.None? {
      return false;
    }
    if token.value.IsScalar() {
      return true;
    }
    if token.value.OpenObject? {
      var seen: set<string> := {};
      while More(dec.rest)
        invariant |dec.rest| < |all|
        invariant WalkValue(all) == WalkMembers(dec.rest, seen)
        decreases |dec.rest|
      {
        var key := dec.Next();
        if !key.value.Str? || key.value.text in seen {
          return false;
        }
        seen := seen + {key.value.text};
        var inner := WalkJSONValue(dec);
        if !inner {
          return false;
        }
      }
      var end := dec.Next();
      return end.Some? && end.value.CloseObject?;
    }
    if token.value.OpenArray? {
      while More(dec.rest)
        invariant |dec.rest| < |all|
        invariant WalkValue(all) == WalkElements(dec.rest)
        decreases |dec.rest|
      {
        var inner := WalkJSONValue(dec);
        if !inner {
          return false;
        }
      }
      var end := dec.Next();
      return end.Some? && end.value.CloseArray?;
    }
    return false;
  }

  function Strict(tokens: seq<Token>, clean: bool): bool {
    WalkValue(tokens) == Some([]) && clean
  }

  method RejectDuplicateJSONKeys(tokens: seq<Token>, clean: bool) returns (ok: bool)
    ensures ok == Strict(tokens, clean)
  {
    var dec := new Decoder(tokens, clean);
    ok := WalkJSONValue(dec);
    if ok {
      ok := dec.rest == [] && dec.clean;
    }
  }

  /** A document is accepted exactly if it is one value without repeated keys and nothing after it. */
  lemma StrictExact(tokens: seq<Token>, clean: bool)
    ensures Strict(tokens, clean) <==> clean && exists v :: WellFormed(v) && Unique(v) && tokens == Render(v)
  {
    WalkExact(tokens, []);
    if Strict(tokens, clean) {
      var v :| WellFormed(v) && Unique(v) && tokens == Render(v) + [];
      assert Render(v) + [] == Render(v);
    }
    forall v | WellFormed(v) && Unique(v) && tokens == Render(v) ensures tokens == Render(v) + [] {}
  }
}
