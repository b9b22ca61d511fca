/**
  The ordered gate on Connector target paths, whose rules later URL processing
  cannot get around.
 */
module TargetPath {
  import opened Hexadecimal
  import opened Splitting
  import opened Wrappers

  const MAX_BYTES := 2048

  datatype RejectClass = Empty | TooLong | NotAbsolute | Authority | InvalidCharacter | DotSegment | PercentEncoding
  datatype Outcome = Accept | Reject(rejectClass: RejectClass) | BadCase

  // ----- the rules, each on its own

  predicate Allowed(c: char) {
    'A' <= c <= 'Z' || 'a' <= c <= 'z' || '0' <= c <= '9' || c in "._~!$&()*+,;=:@%/?-"
  }

  predicate ForbiddenInPath(c: char) {
    c in "!()*;"
  }

  /** Everything before the first `stop`. */
  function Before(s: string, stop: char): (head: string)
    ensures head <= s && stop !in head
    ensures |head| < |s| ==> s[|head|] == stop
  {
    if s == "" || s[0] == stop then "" else [s[0]] + Before(s[1..], stop)
  }

  lemma {:induction false} BeforeIs(head: string, tail: string, stop: char)
    requires stop !in head && (tail == "" || tail[0] == stop)
    ensures Before(head + tail, stop) == head
  {
    if head == "" {
      assert head + tail == tail;
    } else {
      assert (head + tail)[1..] == head[1..] + tail;
      BeforeIs(head[1..], tail, stop);
    }
  }

  function PathPart(p: string): string {
    Before(p, '?')
  }

  /** An escape at `i`: the percent sign and two hexadecimal digits. */
  predicate EscapeAt(s: string, i: nat) {
    i + 2 < |s| && s[i] == '%' && IsHex(s[i + 1]) && IsHex(s[i + 2])
  }

  ghost predicate MalformedPercent(s: string) {
    exists i :: 0 <= i < |s| && s[i] == '%' && !EscapeAt(s, i)
  }

  predicate DotEscapeAt(s: string, i: nat) {
    i + 2 < |s| && s[i] == '%' && s[i + 1] == '2' && (s[i + 2] == 'e' || s[i + 2] == 'E')
  }

  ghost predicate EncodedDot(path: string) {
    exists i :: 0 <= i < |path| && DotEscapeAt(path, i)
  }

  predicate IsDots(segment: string) {
    segment == "." || segment == ".."
  }

  ghost predicate HasDots(segments: seq<string>) {
    exists k :: 0 <= k < |segments| && IsDots(segments[k])
  }

  ghost predicate LiteralDot(path: string) {
    HasDots(Split(path, '/'))
  }

  ghost predicate DoubleSlash(path: string) {
    exists i :: 0 <= i < |path| - 1 && path[i] == '/' && path[i + 1] == '/'
  }

  /** The first failing rule of the published order. */
  ghost function FirstFailing(p: string): Outcome {
    if p == "" then Reject(Empty)
    else if |p| > MAX_BYTES then Reject(TooLong)
    else if p[0] != '/' then Reject(NotAbsolute)
    else if |p| >= 2 && p[1] == '/' then Reject(Authority)
    else if exists i :: 0 <= i < |p| && !Allowed(p[i]) then Reject(InvalidCharacter)
    else if exists i :: 0 <= i < |PathPart(p)| && ForbiddenInPath(PathPart(p)[i]) then Reject(InvalidCharacter)
    else if MalformedPercent(p) then Reject(PercentEncoding)
    else if EncodedDot(PathPart(p)) then Reject(DotSegment)
    else if LiteralDot(PathPart(p)) then Reject(DotSegment)
    else if '%' in PathPart(p) || DoubleSlash(PathPart(p)) then Reject(InvalidCharacter)
    else Accept
  }

  // ----- the scanners

  method HasMalformedPercentEscape(value: string) returns (malformed: bool)
    ensures malformed <==> MalformedPercent(value)
  {
    var i := 0;
    while i < |value|
      invariant 0 <= i
      invariant forall j :: 0 <= j < i && j < |value| && value[j] == '%' ==> EscapeAt(value, j)
    {
      if value[i] != '%' {
        i := i + 1;
      } else {
        if i + 2 >= |value| || !IsHex(value[i + 1]) || !IsHex(value[i + 2]) {
          assert !EscapeAt(value, i);
          return true;
        }
        i := i + 3;
      }
    }
    return false;
  }

  /** No escape crosses the first question mark. */
  lemma EscapesStayInPath(p: string, i: nat)
    requires !MalformedPercent(p) && i < |PathPart(p)| && p[i] == '%'
    ensures EscapeAt(PathPart(p), i)
  {
    var n := |PathPart(p)|;
    assert EscapeAt(p, i);
    assert i + 1 != n && i + 2 != n;
    assert PathPart(p)[i + 1] == p[i + 1] && PathPart(p)[i + 2] == p[i + 2];
  }

  lemma {:induction false} EmptySegmentIsDoubleSlash(s: string)
    ensures DoubleSlash(s) <==> exists k :: 0 < k < |Split(s, '/')| - 1 && Split(s, '/')[k] == ""
    ensures |Split(s, '/')| >= 2 && Split(s, '/')[0] == "" <==> s != "" && s[0] == '/'
  {
    if s != "" {
      var rest, parts, tail := s[1..], Split(s, '/'), Split(s[1..], '/');
      EmptySegmentIsDoubleSlash(rest);
      DoubleSlashStep(s);
      if s[0] == '/' {
        assert parts == [""] + tail;
        if |tail| >= 2 && tail[0] == "" {
          assert parts[1] == "";
        }
        forall k | 0 < k < |tail| - 1 && tail[k] == "" ensures parts[k + 1] == "" {}
        forall k | 0 < k < |parts| - 1 && parts[k] == "" ensures tail[k - 1] == "" {}
      } else {
        assert parts == [[s[0]] + tail[0]] + tail[1..];
        forall k | 0 < k < |tail| ensures parts[k] == tail[k] {}
      }
    }
  }

  lemma DoubleSlashStep(s: string)
    requires s != ""
    ensures DoubleSlash(s) <==> (s[0] == '/' && |s| >= 2 && s[1] == '/') || DoubleSlash(s[1..])
  {
    var rest := s[1..];
    forall i | 0 <= i < |rest| - 1 && rest[i] == '/' && rest[i + 1] == '/' ensures s[i + 1] == '/' && s[i + 2] == '/' {}
    forall i | 0 < i < |s| - 1 && s[i] == '/' && s[i + 1] == '/' ensures rest[i - 1] == '/' && rest[i - 1 + 1] == '/' {}
  }

  // ----- the gate

  method PathEscapes(path: string) returns (dotEscape: bool, hasEscape: bool)
    requires forall i :: 0 <= i < |path| && path[i] == '%' ==> EscapeAt(path, i)
    ensures dotEscape <==> EncodedDot(path)
    ensures !dotEscape ==> (hasEscape <==> '%' in path)
  {
    hasEscape := false;
    var i := 0;
    while i < |path|
      invariant 0 <= i
      invariant forall j :: 0 <= j < i && j < |path| ==> !DotEscapeAt(path, j)
      invariant hasEscape <==> exists j :: 0 <= j < i && j < |path| && path[j] == '%'
    {
      if path[i] != '%' {
        i := i + 1;
      } else {
        assert EscapeAt(path, i);
        if i + 3 > |path| {
          // The whole-value scan leaves no short escape for this guard to catch.
          assert false;
        }
        if path[i + 1] == '2' && (path[i + 2] == 'e' || path[i + 2] == 'E') {
          assert DotEscapeAt(path, i);
          return true, true;
        }
        hasEscape := true;
        i := i + 3;
      }
    }
    return false, hasEscape;
  }

  method DeriveExpectation(present: bool, value: Option<string>) returns (outcome: Outcome)
    ensures !present ==> outcome == if value.None? then Accept else BadCase
    ensures present ==> outcome == if value.None? then BadCase else FirstFailing(value.value)
  {
    if !present {
      return if value.None? then Accept else BadCase;
    }
    if value.None? {
      return BadCase;
    }
    var p := value.value;
    if p == "" {
      return Reject(Empty);
    }
    if |p| > MAX_BYTES {
      return Reject(TooLong);
    }
    if p[0] != '/' {
      return Reject(NotAbsolute);
    }
    if |p| >= 2 && p[1] == '/' {
      return Reject(Authority);
    }
    if !(forall i :: 0 <= i < |p| ==> Allowed(p[i])) {
      return Reject(InvalidCharacter);
    }
    var path := PathPart(p);
    if exists i :: 0 <= i < |path| && ForbiddenInPath(path[i]) {
      return Reject(InvalidCharacter);
    }
    var malformed := HasMalformedPercentEscape(p);
    if malformed {
      return Reject(PercentEncoding);
    }
    forall i | 0 <= i < |path| && path[i] == '%' ensures EscapeAt(path, i) {
      EscapesStayInPath(p, i);
    }
    var dotEscape, hasEscape := PathEscapes(path);
    if dotEscape {
      return Reject(DotSegment);
    }
    var dots, interior := Segments(path);
    if dots {
      return Reject(DotSegment);
    }
    if hasEscape || interior {
      return Reject(InvalidCharacter);
    }
    return Accept;
  }

  method Segments(path: string) returns (dots: bool, hasInteriorEmptySegment: bool)
    ensures dots <==> LiteralDot(path)
    ensures !dots ==> (hasInteriorEmptySegment <==> DoubleSlash(path))
  {
    var segments := Split(path, '/');
    hasInteriorEmptySegment := false;
    var i := 0;
    while i < |segments|
      invariant 0 <= i <= |segments|
      invariant forall k :: 0 <= k < i ==> !IsDots(segments[k])
      invariant hasInteriorEmptySegment <==> exists k :: 0 < k < i && k < |segments| - 1 && segments[k] == ""
    {
      if IsDots(segments[i]) {
        return true, hasInteriorEmptySegment;
      }
      if segments[i] == "" && i > 0 && i < |segments| - 1 {
        hasInteriorEmptySegment := true;
      }
      i := i + 1;
    }
    EmptySegmentIsDoubleSlash(path);
    return false, hasInteriorEmptySegment;
  }
}
