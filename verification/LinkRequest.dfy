/**
  Building the link request body: the request gate, the rule that keeps a user
  agent out, truncation, and the canonical bytes, with the reader that undoes them.
 */
module LinkRequest {
  import opened BitStream
  import opened Wrappers
  import opened Utf8
  import Base32
  import Crid

  datatype Failure = Gate(outcome: Crid.Outcome) | BadUserAgent

  const REPLACEMENT := 0xFFFD

  /** C0 controls, DEL, and the two line separators. */
  predicate LeavesOut(r: nat) {
    r < 0x20 || r == 0x7F || r == 0x2028 || r == 0x2029
  }

  predicate Unfit(userAgent: seq<byte>) {
    !Valid(userAgent) || REPLACEMENT in CodePoints(userAgent)
  }

  predicate LeftOut(userAgent: seq<byte>)
    requires Valid(userAgent)
  {
    exists i :: 0 <= i < |CodePoints(userAgent)| && LeavesOut(CodePoints(userAgent)[i])
  }

  // ----- canonical bytes

  const QUOTE: byte := 34
  const BACKSLASH: byte := 92

  function Head(): seq<byte> {
    Ascii("{\"headerType\":1,\"aspId\":\"qurl\",") + Ascii("\"resId\":\"qurl-crid\",")
        + Ascii("\"usrData\":{\"qurl_crid\":\"")
  }

  function Member(): seq<byte> {
    Ascii(",\"qurl_user_agent\":\"")
  }

  function Tail(): seq<byte> {
    Ascii("}}")
  }

  function Escape(value: seq<byte>): seq<byte> {
    if value == [] then []
    else (if value[0] == QUOTE || value[0] == BACKSLASH then [BACKSLASH, value[0]] else [value[0]]) + Escape(value[1..])
  }

  /** The closing quote is part of the spelling, the opening one is not. */
  function Spelt(value: seq<byte>): seq<byte> {
    Escape(value) + [QUOTE]
  }

  /** The part after the first member. */
  function Rest(userAgent: seq<byte>): seq<byte> {
    (if userAgent == [] then [] else Member() + Spelt(userAgent)) + Tail()
  }

  function Wire(crid: seq<byte>, userAgent: seq<byte>): seq<byte> {
    Head() + (Spelt(crid) + Rest(userAgent))
  }

  function SentUserAgent(userAgent: Option<seq<byte>>): seq<byte>
    requires userAgent.Some? ==> Valid(userAgent.value)
  {
    if userAgent.None? || LeftOut(userAgent.value) then [] else Truncated(userAgent.value)
  }

  function CridOctets(crid: string): (octets: seq<byte>)
    requires Base32.IsText(crid)
  {
    assert forall i :: 0 <= i < |crid| ==> Base32.InAlphabet(crid[i]);
    Ascii(crid)
  }

  lemma AcceptedIsText(crid: string)
    requires Crid.RequestExpectation(crid) == Crid.Accept
    ensures Base32.IsText(crid)
  {
  }

  /** The bytes written, and the user agent in them. */
  type Written = (seq<byte>, seq<byte>)

  function Serialized(crid: string, userAgent: Option<seq<byte>>): Result<Written, Failure> {
    if Crid.RequestExpectation(crid) != Crid.Accept then Err(Gate(Crid.RequestExpectation(crid)))
    else if userAgent.Some? && Unfit(userAgent.value) then Err(BadUserAgent)
    else
      AcceptedIsText(crid);
      Ok((Wire(CridOctets(crid), SentUserAgent(userAgent)), SentUserAgent(userAgent)))
  }

  method SerializeRequest(crid: string, userAgent: Option<seq<byte>>) returns (r: Result<Written, Failure>)
    ensures r == Serialized(crid, userAgent)
  {
    hide Crid.Gate, LeftOut, Valid, CodePoints, Truncated, Escape, Head, Member, Tail, CridOctets;
    var outcome := Crid.RequestExpectation(crid);
    if outcome != Crid.Accept {
      return Err(Gate(outcome));
    }
    AcceptedIsText(crid);
    hide Crid.RequestExpectation;
    var sent: seq<byte> := [];
    if userAgent.Some? {
      if Unfit(userAgent.value) {
        return Err(BadUserAgent);
      }
      if !LeftOut(userAgent.value) {
        sent := TruncateUserAgent(userAgent.value);
      }
    }
    var encoded := Head();
    var rest := Spelt(CridOctets(crid));
    var member: seq<byte> := [];
    if sent != [] {
      member := Member() + Spelt(sent);
    }
    return Ok((encoded + (rest + (member + Tail())), sent));
  }

  // ----- reading it back

  /** A string up to its closing quote, and what follows. */
  function ReadString(s: seq<byte>): Option<(seq<byte>, seq<byte>)> {
    if s == [] || s[0] < 0x20 then None
    else if s[0] == QUOTE then Some(([], s[1..]))
    else if s[0] == BACKSLASH then
      if |s| < 2 || (s[1] != QUOTE && s[1] != BACKSLASH) then None else Prefixed(s[1], ReadString(s[2..]))
    else Prefixed(s[0], ReadString(s[1..]))
  }

  function Prefixed(b: byte, read: Option<(seq<byte>, seq<byte>)>): Option<(seq<byte>, seq<byte>)> {
    match read
    case None => None
    case Some((value, rest)) => Some(([b] + value, rest))
  }

  function ReadRest(rest: seq<byte>): Option<seq<byte>> {
    if rest == Tail() then Some([])
    else if !(Member() <= rest) then None
    else
      match ReadString(rest[|Member()|..])
      case None => None
      case Some((userAgent, end)) => if end == Tail() && userAgent != [] then Some(userAgent) else None
  }

  function ReadRequest(s: seq<byte>): Option<(seq<byte>, seq<byte>)> {
    if !(Head() <= s) then None
    else
      match ReadString(s[|Head()|..])
      case None => None
      case Some((crid, rest)) =>
        match ReadRest(rest)
        case None => None
        case Some(userAgent) => Some((crid, userAgent))
  }

  ghost predicate Printable(value: seq<byte>) {
    forall i :: 0 <= i < |value| ==> value[i] >= 0x20
  }

  lemma {:induction false} ReadSpelt(value: seq<byte>, rest: seq<byte>)
    requires Printable(value)
    ensures ReadString(Spelt(value) + rest) == Some((value, rest))
  {
    var s := Spelt(value) + rest;
    if value == [] {
      assert s[1..] == rest;
    } else {
      assert [value[0]] + value[1..] == value;
      SpeltCons(value[0], value[1..]);
      ReadSpelt(value[1..], rest);
      hide Spelt, Escape;
      var n := if value[0] == QUOTE || value[0] == BACKSLASH then 2 else 1;
      assert s[n..] == Spelt(value[1..]) + rest;
    }
  }

  lemma SpeltCons(b: byte, value: seq<byte>)
    ensures Spelt([b] + value) == (if b == QUOTE || b == BACKSLASH then [BACKSLASH, b] else [b]) + Spelt(value)
  {
    assert ([b] + value)[1..] == value;
  }

  /** The reader takes one spelling for each value. */
  lemma {:induction false} ReadIsSpelt(s: seq<byte>)
    requires ReadString(s).Some?
    ensures var (value, rest) := ReadString(s).value; Printable(value) && s == Spelt(value) + rest
    decreases |s|
  {
    hide Escape, Spelt;
    if s[0] == QUOTE {
      EmptySpelt();
    } else {
      var n, b := if s[0] == BACKSLASH then 2 else 1, if s[0] == BACKSLASH then s[1] else s[0];
      var (inner, rest) := ReadString(s[n..]).value;
      ReadIsSpelt(s[n..]);
      SpeltCons(b, inner);
      assert ReadString(s) == Some(([b] + inner, rest));
      hide ReadString;
      assert s == s[..n] + (Spelt(inner) + rest);
      assert s[..n] == if b == QUOTE || b == BACKSLASH then [BACKSLASH, b] else [b];
      assert s == Spelt([b] + inner) + rest;
    }
  }

  lemma EmptySpelt()
    ensures Spelt([]) == [QUOTE]
  {
  }

  lemma ReadRestExact(rest: seq<byte>, userAgent: seq<byte>)
    ensures ReadRest(rest) == Some(userAgent) <==> Printable(userAgent) && rest == Rest(userAgent)
  {
    assert Member()[0] == 44 && Tail()[0] == 125;
    hide Member, Tail, Spelt, ReadString;
    if Printable(userAgent) && rest == Rest(userAgent) {
      if userAgent == [] {
        assert rest == Tail();
      } else {
        assert rest == Member() + (Spelt(userAgent) + Tail());
        assert rest[|Member()|..] == Spelt(userAgent) + Tail();
        ReadSpelt(userAgent, Tail());
      }
    }
    if ReadRest(rest) == Some(userAgent) {
      if userAgent == [] {
        assert rest == Rest([]);
      } else {
        ReadIsSpelt(rest[|Member()|..]);
        assert rest == Member() + rest[|Member()|..] == Member() + (Spelt(userAgent) + Tail());
        assert rest == Rest(userAgent);
      }
    }
  }

  /** The reader accepts exactly the canonical bytes, and recovers both members. */
  lemma ReadExact(s: seq<byte>, crid: seq<byte>, userAgent: seq<byte>)
    ensures ReadRequest(s) == Some((crid, userAgent))
            <==> Printable(crid) && Printable(userAgent) && s == Wire(crid, userAgent)
  {
    hide Head, Rest, ReadRest, Spelt, ReadString;
    if Printable(crid) && Printable(userAgent) && s == Wire(crid, userAgent) {
      assert s[|Head()|..] == Spelt(crid) + Rest(userAgent);
      ReadSpelt(crid, Rest(userAgent));
      ReadRestExact(Rest(userAgent), userAgent);
    }
    if ReadRequest(s) == Some((crid, userAgent)) {
      ReadIsSpelt(s[|Head()|..]);
      var rest := ReadString(s[|Head()|..]).value.1;
      ReadRestExact(rest, userAgent);
      assert s == Head() + s[|Head()|..];
    }
  }

  lemma {:induction false} SentIsPrintable(userAgent: seq<byte>)
    requires Valid(userAgent) && !LeftOut(userAgent)
    ensures Printable(userAgent)
  {
    forall i | 0 <= i < |userAgent| ensures userAgent[i] >= 0x20 {
      if userAgent[i] < 0x80 {
        AsciiAreCodePoints(userAgent, i);
      }
    }
  }

  /** What is serialized reads back as the CRID given and the user agent reported as sent. */
  lemma SerializedReadsBack(crid: string, userAgent: Option<seq<byte>>)
    requires Serialized(crid, userAgent).Ok?
    ensures Base32.IsText(crid)
    ensures var (wire, sent) := Serialized(crid, userAgent).value; ReadRequest(wire) == Some((CridOctets(crid), sent))
  {
    AcceptedIsText(crid);
    hide Crid.RequestExpectation, CridOctets, SentUserAgent, ReadRequest, Wire, Unfit, Printable;
    CridIsPrintable(crid);
    if userAgent.Some? {
      SentUserAgentIsPrintable(userAgent.value);
    } else {
      NothingIsPrintable(userAgent);
    }
    ReadExact(Serialized(crid, userAgent).value.0, CridOctets(crid), SentUserAgent(userAgent));
  }

  lemma CridIsPrintable(crid: string)
    requires Base32.IsText(crid)
    ensures Printable(CridOctets(crid))
  {
    assert forall i :: 0 <= i < |crid| ==> Base32.InAlphabet(crid[i]);
  }

  lemma NothingIsPrintable(userAgent: Option<seq<byte>>)
    requires userAgent.None?
    ensures Printable(SentUserAgent(userAgent))
  {
  }

  lemma SentUserAgentIsPrintable(userAgent: seq<byte>)
    requires !Unfit(userAgent)
    ensures Valid(userAgent) && Printable(SentUserAgent(Some(userAgent)))
  {
    hide Valid, CodePoints, LeftOut;
    if !LeftOut(userAgent) {
      SentIsPrintable(userAgent);
    }
  }

  // ----- what is sent

  /** A control character or a line separator. */
  ghost predicate HasForbidden(userAgent: seq<byte>)
    requires Valid(userAgent)
  {
    exists i :: 0 <= i < |CodePoints(userAgent)|
                && var r := CodePoints(userAgent)[i]; r < 0x20 || r == 0x7F || r == 0x2028 || r == 0x2029
  }

  ghost predicate IsLongestPrefix(sent: seq<byte>, userAgent: seq<byte>) {
    && sent <= userAgent && Valid(sent) && |sent| <= 256
    && forall k :: 0 <= k <= |userAgent| && k <= 256 && Valid(userAgent[..k]) ==> k <= |sent|
  }

  /**
    A request is refused for its CRID or for a user agent that is no valid UTF-8 or
    holds U+FFFD.  What is sent otherwise is nothing if a forbidden code point stands
    anywhere in the agent, past the limit too, and else its longest valid prefix.
   */
  lemma SentExact(crid: string, userAgent: seq<byte>)
    requires Crid.RequestExpectation(crid) == Crid.Accept
    ensures Serialized(crid, None).Ok? && Serialized(crid, None).value.1 == []
    ensures Serialized(crid, Some(userAgent)).Err? <==> !Valid(userAgent) || 0xFFFD in CodePoints(userAgent)
    ensures Serialized(crid, Some(userAgent)).Ok? ==>
              var sent := Serialized(crid, Some(userAgent)).value.1;
              if HasForbidden(userAgent) then sent == [] else IsLongestPrefix(sent, userAgent)
  {
    hide Crid.RequestExpectation, Wire, Valid, CodePoints, Truncated, CridOctets;
    if Valid(userAgent) {
      TruncatedIsLongest(userAgent);
    }
  }
}
