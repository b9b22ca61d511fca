/**
  The sessId fence of a knock ACK: the raw top-level occurrences of sessId are
  classified before the body is required to be well-formed at all.
 */
module SessionEnvelope {
  import opened Json
  import Decimal
  import opened Wrappers

  const MAX_UINT32 := 0xFFFF_FFFF

  datatype RejectClass = SessionID | BodyParse | SessionLifetime
  datatype Outcome = Accepted(sessionID: nat, openTime: nat) | Denied | Rejected(rejectClass: RejectClass)

  // ----- scanning one field of the first object

  function ScanMembers(ts: seq<Token>, target: string): (r: (seq<Value>, bool))
    decreases |ts|
  {
    if !More(ts) then ([], ts != [] && ts[0].CloseObject?)
    else if !ts[0].Str? then ([], false)
    else
      var v := Parse(ts[1..]);
      if v.None? then ([], false)
      else
        var (values, ok) := ScanMembers(v.value.1, target);
        (if ts[0].text == target then [v.value.0] + values else values, ok)
  }

  /** Every value of `target` met before the object ended or stopped making sense. */
  function Scan(ts: seq<Token>, target: string): (seq<Value>, bool) {
    if ts == [] || !ts[0].OpenObject? then ([], false) else ScanMembers(ts[1..], target)
  }

  method Decode(dec: Decoder) returns (value: Option<Value>)
    modifies dec
    ensures var p := Parse(old(dec.rest));
            if p.None? then value.None? else value == Some(p.value.0) && dec.rest == p.value.1
  {
    var p := Parse(dec.rest);
    if p.None? {
      return None;
    }
    dec.rest := p.value.1;
    return Some(p.value.0);
  }

  method TopLevelFieldValues(tokens: seq<Token>, clean: bool, target: string) returns (values: seq<Value>, ok: bool)
    ensures (values, ok) == Scan(tokens, target)
  {
    var dec := new Decoder(tokens, clean);
    var opening := dec.Next();
    if opening.None? || !opening.value.OpenObject? {
      return [], false;
    }
    values := [];
    assert [] + ScanMembers(dec.rest, target).0 == ScanMembers(dec.rest, target).0;
    while More(dec.rest)
      invariant ScanMembers(tokens[1..], target)
                == (values + ScanMembers(dec.rest, target).0, ScanMembers(dec.rest, target).1)
      decreases |dec.rest|
    {
      ghost var before := dec.rest;
      var key := dec.Next();
      if !key.value.Str? {
        assert values + [] == values;
        return values, false;
      }
      var raw := Decode(dec);
      if raw.None? {
        assert values + [] == values;
        return values, false;
      }
      if key.value.text == target {
        assert values + ([raw.value] + ScanMembers(dec.rest, target).0) == values + [raw.value]
            + ScanMembers(dec.rest, target).0;
        values := values + [raw.value];
      }
    }
    assert values + [] == values;
    var closing := dec.Next();
    ok := closing.Some? && closing.value.CloseObject?;
  }

  // ----- the classifier

  /** A nonempty run of digits with a value in the nonzero uint64 range. */
  predicate IsSessionID(v: Value) {
    v.Scalar? && v.token.Num? && v.token.text != "" && Decimal.AllDigits(v.token.text)
    && 1 <= Decimal.Value(v.token.text) <= Decimal.MAX_UINT64
  }

  /** json.Unmarshal into a string: a string, or null, which leaves the empty string. */
  function AsString(v: Value): Option<string> {
    if v.Scalar? && v.token.Str? then Some(v.token.text)
    else if v == Scalar(Lit("null")) then Some("")
    else None
  }

  /** json.Unmarshal into a uint32: plain digits in range, or null, which leaves zero. */
  function AsUint32(v: Value): Option<nat> {
    if v.Scalar? && v.token.Num? && v.token.text != "" && Decimal.AllDigits(v.token.text)
       && Decimal.Value(v.token.text) <= MAX_UINT32
    then Some(Decimal.Value(v.token.text))
    else if v == Scalar(Lit("null")) then Some(0)
    else None
  }

  /** The map json.Unmarshal builds from an object's members. */
  function Lookup(ms: Members, key: string): Option<Value> {
    if ms.NoMembers? then None
    else
      var later := Lookup(ms.rest, key);
      if later.Some? then later else if ms.key == key then Some(ms.value) else None
  }

  predicate IsDenial(errCode: string) {
    errCode != "" && errCode != "0"
  }

  function Classify(tokens: seq<Token>, clean: bool): Outcome {
    var (sessions, scanned) := Scan(tokens, "sessId");
    if |sessions| > 1 then Rejected(SessionID)
    else if |sessions| == 1 && !IsSessionID(sessions[0]) then Rejected(SessionID)
    else if !scanned then Rejected(BodyParse)
    else if !Strict(tokens, clean) then Rejected(BodyParse)
    else
      var document := Parse(tokens);
      if document.None? || !document.value.0.Object? then Rejected(BodyParse)
      else
        var members := document.value.0.members;
        var session := if sessions == [] then None else Some(sessions[0]);
        Verdict(session, Lookup(members, "errCode"), Lookup(members, "opnTime"))
  }

  /** What remains to be decided once the body is an object and its sessId, if any, is in range. */
  function Verdict(session: Option<Value>, rawCode: Option<Value>, rawOpen: Option<Value>): Outcome
    requires session.Some? ==> IsSessionID(session.value)
  {
    if rawCode.None? || AsString(rawCode.value).None? then Rejected(BodyParse)
    else
      var errCode := AsString(rawCode.value).value;
      if IsDenial(errCode) && session.Some? then Rejected(SessionID)
      else if rawOpen.None? || AsUint32(rawOpen.value).None? then Rejected(BodyParse)
      else
        var openTime := AsUint32(rawOpen.value).value;
        if IsDenial(errCode) then (if openTime != 0 then Rejected(BodyParse) else Denied)
        else if session.None? then Rejected(SessionID)
        else if openTime == 0 then Rejected(SessionLifetime)
        else Accepted(Decimal.Value(session.value.token.text), openTime)
  }

  // ----- precedence: the fence wins over every later defect

  /** All values of a key among the members, in order. */
  function Occurrences(ms: Members, key: string): seq<Value> {
    if ms.NoMembers? then [] else (if ms.key == key then [ms.value] else []) + Occurrences(ms.rest, key)
  }

  lemma {:induction false} ScanMeets(ms: Members, more: seq<Token>, target: string)
    requires WellFormedMembers(ms)
    ensures ScanMembers(RenderMembers(ms) + more, target)
            == (Occurrences(ms, target) + ScanMembers(more, target).0, ScanMembers(more, target).1)
  {
    hide ScanMembers, Parse, Render;
    if ms.NoMembers? {
      assert RenderMembers(ms) + more == more;
      assert [] + ScanMembers(more, target).0 == ScanMembers(more, target).0;
    } else {
      var tail := RenderMembers(ms.rest) + more;
      MemberTokens(ms, more);
      ParseRender(ms.value, tail);
      ScanMeets(ms.rest, more, target);
      OccurrencesOne(ms, target);
      hide *;
      ScanOne(ms.key, ms.value, tail, target);
      Regroup(if ms.key == target then [ms.value] else [], Occurrences(ms.rest, target), ScanMembers(more, target).0);
    }
  }

  lemma Regroup(a: seq<Value>, b: seq<Value>, c: seq<Value>)
    ensures a + (b + c) == a + b + c
  {
  }

  lemma ScanOne(key: string, value: Value, tail: seq<Token>, target: string)
    requires Parse(Render(value) + tail) == Some((value, tail))
    ensures ScanMembers([Str(key)] + (Render(value) + tail), target)
            == ((if key == target then [value] else []) + ScanMembers(tail, target).0, ScanMembers(tail, target).1)
  {
    hide Parse, Render;
    assert ([Str(key)] + (Render(value) + tail))[1..] == Render(value) + tail;
    assert [] + ScanMembers(tail, target).0 == ScanMembers(tail, target).0;
  }

  lemma OccurrencesOne(ms: Members, target: string)
    requires ms.Member?
    ensures Occurrences(ms, target) == (if ms.key == target then [ms.value] else []) + Occurrences(ms.rest, target)
  {
  }

  /**
    A body that opens with an object and reaches a second sessId, or one that is not a
    nonzero uint64, is rejected as session_id whatever the remaining tokens are.
   */
  lemma FencePrecedesStructure(ms: Members, more: seq<Token>, clean: bool)
    requires WellFormedMembers(ms)
    requires var o := Occurrences(ms, "sessId"); |o| > 1 || (|o| == 1 && !IsSessionID(o[0]))
    ensures Classify([OpenObject] + RenderMembers(ms) + more, clean) == Rejected(SessionID)
  {
    var tokens := [OpenObject] + RenderMembers(ms) + more;
    assert tokens[1..] == RenderMembers(ms) + more;
    ScanMeets(ms, more, "sessId");
  }

  // ----- acceptance

  lemma {:induction false} LookupOccurrence(ms: Members, key: string, seen: set<string>)
    requires UniqueMembers(ms, seen)
    ensures key in seen ==> Occurrences(ms, key) == []
    ensures Occurrences(ms, key) == if Lookup(ms, key).Some? then [Lookup(ms, key).value] else []
  {
    if ms.Member? {
      LookupOccurrence(ms.rest, key, seen + {ms.key});
    }
  }

  /** A strict object: exactly its members' tokens between braces, no key repeated. */
  ghost predicate IsBody(tokens: seq<Token>, clean: bool, ms: Members) {
    clean && WellFormedMembers(ms) && UniqueMembers(ms, {}) && tokens == Render(Object(ms))
  }

  lemma BodyScanned(tokens: seq<Token>, clean: bool, ms: Members)
    requires IsBody(tokens, clean, ms)
    ensures Scan(tokens, "sessId") == (Occurrences(ms, "sessId"), true)
    ensures Strict(tokens, clean) && Parse(tokens) == Some((Object(ms), []))
  {
    hide Parse, WalkValue, RenderMembers, Occurrences;
    ParseRender(Object(ms), []);
    WalkRender(Object(ms), []);
    assert tokens == [OpenObject] + RenderMembers(ms) + [CloseObject];
    hide Render;
    ScanMeets(ms, [CloseObject], "sessId");
    assert tokens[1..] == RenderMembers(ms) + [CloseObject];
    assert Occurrences(ms, "sessId") + [] == Occurrences(ms, "sessId");
    assert tokens + [] == tokens;
  }

  lemma AcceptedIsBody(tokens: seq<Token>, clean: bool) returns (ms: Members)
    requires !Classify(tokens, clean).Rejected?
    ensures IsBody(tokens, clean, ms)
  {
    StrictExact(tokens, clean);
    var v :| WellFormed(v) && Unique(v) && tokens == Render(v);
    assert Render(v) + [] == Render(v);
    ParseRender(v, []);
    ms := v.members;
  }

  // ----- the members of a body, spelled out

  /** The code is a string, or null, which stands for the empty one. */
  ghost predicate CodeIs(ms: Members, code: string) {
    Lookup(ms, "errCode") == Some(Scalar(Str(code)))
    || (code == "" && Lookup(ms, "errCode") == Some(Scalar(Lit("null"))))
  }

  /** The value is a number of digits only. */
  ghost predicate NumberIs(value: Option<Value>, n: nat) {
    exists text: string :: value == Some(Scalar(Num(text))) && text != "" && Decimal.AllDigits(text)
                           && Decimal.Value(text) == n
  }

  ghost predicate SessionIs(ms: Members, n: nat) {
    NumberIs(Lookup(ms, "sessId"), n) && 1 <= n <= 0xFFFF_FFFF_FFFF_FFFF
  }

  ghost predicate OpenTimeIs(ms: Members, n: nat) {
    (NumberIs(Lookup(ms, "opnTime"), n) && n <= 0xFFFF_FFFF)
    || (n == 0 && Lookup(ms, "opnTime") == Some(Scalar(Lit("null"))))
  }

  lemma CodeExact(ms: Members, code: string)
    ensures CodeIs(ms, code) <==> Lookup(ms, "errCode").Some? && AsString(Lookup(ms, "errCode").value) == Some(code)
  {
  }

  lemma SessionExact(ms: Members, n: nat)
    ensures SessionIs(ms, n) <==>
            var v := Lookup(ms, "sessId"); v.Some? && IsSessionID(v.value) && Decimal.Value(v.value.token.text) == n
  {
  }

  lemma OpenTimeExact(ms: Members, n: nat)
    ensures OpenTimeIs(ms, n) <==> Lookup(ms, "opnTime").Some? && AsUint32(Lookup(ms, "opnTime").value) == Some(n)
  {
  }

  // ----- the verdict on strict bodies

  ghost predicate Readable(ms: Members) {
    Lookup(ms, "sessId") == None || exists n :: SessionIs(ms, n)
  }

  lemma OnBody(tokens: seq<Token>, clean: bool, ms: Members)
    requires IsBody(tokens, clean, ms)
    ensures var session := Lookup(ms, "sessId");
            Classify(tokens, clean)
            == if session.Some? && !IsSessionID(session.value) then Rejected(SessionID)
               else Verdict(session, Lookup(ms, "errCode"), Lookup(ms, "opnTime"))
  {
    BodyScanned(tokens, clean, ms);
    LookupOccurrence(ms, "sessId", {});
    hide Scan, Parse, Strict, Lookup, Occurrences, IsSessionID, AsString, AsUint32, Verdict;
  }

  /** A success, code "" or "0", needs its sessId and then a lifetime. */
  lemma SuccessBody(tokens: seq<Token>, clean: bool, ms: Members, code: string, openTime: nat)
    requires IsBody(tokens, clean, ms) && CodeIs(ms, code) && OpenTimeIs(ms, openTime) && (code == "" || code == "0")
    ensures Lookup(ms, "sessId") == None ==> Classify(tokens, clean) == Rejected(SessionID)
    ensures forall n :: SessionIs(ms, n) ==>
                          Classify(tokens, clean) == if openTime == 0 then Rejected(SessionLifetime)
                                                     else Accepted(n, openTime)
  {
    OnBody(tokens, clean, ms);
    CodeExact(ms, code);
    OpenTimeExact(ms, openTime);
    forall n ensures SessionIs(ms, n) <==>
                     var v := Lookup(ms, "sessId");
                     v.Some? && IsSessionID(v.value) && Decimal.Value(v.value.token.text) == n {
      SessionExact(ms, n);
    }
    hide Classify, Lookup, CodeIs, OpenTimeIs, SessionIs, AsString, AsUint32, IsSessionID;
  }

  /** A denial, any other code, has no sessId and opnTime zero. */
  lemma DenialBody(tokens: seq<Token>, clean: bool, ms: Members, code: string, openTime: nat)
    requires IsBody(tokens, clean, ms) && CodeIs(ms, code) && code != "" && code != "0"
    ensures Lookup(ms, "sessId") != None ==> Classify(tokens, clean) == Rejected(SessionID)
    ensures Lookup(ms, "sessId") == None && OpenTimeIs(ms, openTime) ==>
              Classify(tokens, clean) == if openTime == 0 then Denied else Rejected(BodyParse)
  {
    OnBody(tokens, clean, ms);
    CodeExact(ms, code);
    OpenTimeExact(ms, openTime);
    hide Classify, Lookup, CodeIs, OpenTimeIs, AsString, AsUint32, IsSessionID;
  }

  /** An unreadable sessId is the session's fault; without one, an unreadable code or opnTime is the body's. */
  lemma UnreadBody(tokens: seq<Token>, clean: bool, ms: Members)
    requires IsBody(tokens, clean, ms)
    ensures !Readable(ms) ==> Classify(tokens, clean) == Rejected(SessionID)
    ensures Readable(ms) && (forall code :: !CodeIs(ms, code)) ==> Classify(tokens, clean) == Rejected(BodyParse)
    ensures Readable(ms) && (forall t :: !OpenTimeIs(ms, t)) ==>
              Classify(tokens, clean) == Rejected(BodyParse)
              || (Classify(tokens, clean) == Rejected(SessionID) && Lookup(ms, "sessId") != None
                  && exists code :: CodeIs(ms, code) && code != "" && code != "0")
  {
    OnBody(tokens, clean, ms);
    var sess, code, open := Lookup(ms, "sessId"), Lookup(ms, "errCode"), Lookup(ms, "opnTime");
    if sess.Some? && IsSessionID(sess.value) {
      SessionExact(ms, Decimal.Value(sess.value.token.text));
    }
    if code.Some? && AsString(code.value).Some? {
      CodeExact(ms, AsString(code.value).value);
    }
    if open.Some? && AsUint32(open.value).Some? {
      OpenTimeExact(ms, AsUint32(open.value).value);
    }
    forall n | SessionIs(ms, n) ensures sess.Some? && IsSessionID(sess.value) {
      SessionExact(ms, n);
    }
    hide Classify, Lookup, CodeIs, OpenTimeIs, SessionIs, AsString, AsUint32, IsSessionID;
  }

  /** Everything a body that is not rejected must hold. */
  lemma BodyMembers(tokens: seq<Token>, clean: bool) returns (ms: Members, code: string, openTime: nat)
    requires !Classify(tokens, clean).Rejected?
    ensures IsBody(tokens, clean, ms) && CodeIs(ms, code) && OpenTimeIs(ms, openTime)
    ensures Classify(tokens, clean).Accepted? ==>
              (code == "" || code == "0") && SessionIs(ms, Classify(tokens, clean).sessionID)
    ensures Classify(tokens, clean).Denied? ==> code != "" && code != "0" && Lookup(ms, "sessId") == None
  {
    ms := AcceptedIsBody(tokens, clean);
    OnBody(tokens, clean, ms);
    hide Classify, Lookup, AsString, AsUint32, IsSessionID;
    code := AsString(Lookup(ms, "errCode").value).value;
    openTime := AsUint32(Lookup(ms, "opnTime").value).value;
    CodeExact(ms, code);
    OpenTimeExact(ms, openTime);
    if Lookup(ms, "sessId").Some? {
      SessionExact(ms, Decimal.Value(Lookup(ms, "sessId").value.token.text));
    }
  }

  /**
    A success is accepted exactly for a duplicate-free object, nothing after it, with
    code "" or "0", one sessId in 1..2^64-1 and an opnTime in 1..2^32-1.
   */
  lemma AcceptedExact(tokens: seq<Token>, clean: bool, sessionID: nat, openTime: nat)
    ensures Classify(tokens, clean) == Accepted(sessionID, openTime) <==>
            openTime >= 1
            && exists ms, code :: IsBody(tokens, clean, ms) && CodeIs(ms, code) && (code == "" || code == "0")
                                  && SessionIs(ms, sessionID) && OpenTimeIs(ms, openTime)
  {
    hide Classify, IsBody, CodeIs, SessionIs, OpenTimeIs;
    if Classify(tokens, clean) == Accepted(sessionID, openTime) {
      var ms, code, t := BodyMembers(tokens, clean);
      SuccessBody(tokens, clean, ms, code, t);
    }
    forall ms, code | IsBody(tokens, clean, ms) && CodeIs(ms, code) && (code == "" || code == "0")
                      && SessionIs(ms, sessionID) && OpenTimeIs(ms, openTime) && openTime >= 1
      ensures Classify(tokens, clean) == Accepted(sessionID, openTime)
    {
      SuccessBody(tokens, clean, ms, code, openTime);
    }
  }

  /** A denial is accepted exactly with any other code, without sessId and with opnTime zero. */
  lemma DeniedExact(tokens: seq<Token>, clean: bool)
    ensures Classify(tokens, clean) == Denied <==>
            exists ms, code :: IsBody(tokens, clean, ms) && CodeIs(ms, code) && code != "" && code != "0"
                               && Lookup(ms, "sessId") == None && OpenTimeIs(ms, 0)
  {
    hide Classify, IsBody, CodeIs, SessionIs, OpenTimeIs, Lookup;
    if Classify(tokens, clean) == Denied {
      var ms, code, t := BodyMembers(tokens, clean);
      DenialBody(tokens, clean, ms, code, t);
    }
    forall ms, code | IsBody(tokens, clean, ms) && CodeIs(ms, code) && code != "" && code != "0"
                      && Lookup(ms, "sessId") == None && OpenTimeIs(ms, 0)
      ensures Classify(tokens, clean) == Denied
    {
      DenialBody(tokens, clean, ms, code, 0);
    }
  }
}
