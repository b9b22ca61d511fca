/**
  Three things URL software does to a path, from RFC 3986, and the proof that a
  target path is accepted exactly if it comes through each of them byte for byte.
 */
module UrlProcessing {
  import opened Hexadecimal
  import opened Splitting
  import opened TargetPath
  import opened Wrappers

  // ----- remove_dot_segments, section 5.2.4

  function DropLastSegment(output: string): string {
    if output == "" || output[|output| - 1] == '/' then (if output == "" then "" else output[..|output| - 1])
    else DropLastSegment(output[..|output| - 1])
  }

  /** Length of the first path segment, an initial slash included. */
  function FirstSegment(input: string): (n: nat)
    requires input != ""
    ensures 0 < n <= |input|
    ensures '/' !in input[1..n]
    ensures n < |input| ==> input[n] == '/'
  {
    1 + |Before(input[1..], '/')|
  }

  function RemoveDotSegments(input: string, output: string): string
    decreases |input|
  {
    if input == "" then output
    else if "../" <= input then RemoveDotSegments(input[3..], output)
    else if "./" <= input then RemoveDotSegments(input[2..], output)
    else if "/./" <= input then RemoveDotSegments(input[2..], output)
    else if input == "/." then RemoveDotSegments("/", output)
    else if "/../" <= input then RemoveDotSegments(input[3..], DropLastSegment(output))
    else if input == "/.." then RemoveDotSegments("/", DropLastSegment(output))
    else if input == "." || input == ".." then output
    else
      var n := FirstSegment(input);
      RemoveDotSegments(input[n..], output + input[..n])
  }

  /** What is left of an absolute path starts with a slash or is empty. */
  lemma {:induction false} DotFreeIsFixed(input: string, output: string)
    requires input == "" || input[0] == '/'
    requires !LiteralDot(input)
    ensures RemoveDotSegments(input, output) == output + input
    decreases |input|
  {
    hide Split, LiteralDot, FirstSegment, IsDots, Before;
    if input != "" {
      var n := FirstSegment(input);
      FirstOfAbsolute(input, n);
      LastRule(input, output, n);
      hide RemoveDotSegments;
      DotFreeIsFixed(input[n..], output + input[..n]);
      assert output + input[..n] + input[n..] == output + input;
    }
  }

  lemma LastRule(input: string, output: string, n: nat)
    requires input != "" && input[0] == '/' && n == FirstSegment(input) && !IsDots(input[1..n])
    ensures RemoveDotSegments(input, output) == RemoveDotSegments(input[n..], output + input[..n])
  {
    hide FirstSegment, IsDots;
    assert input == ['/'] + input[1..n] + input[n..];
    NoDotRule(input, input[1..n], input[n..]);
  }

  /** The dot segments of an absolute path are its first segment and those of the rest. */
  lemma FirstOfAbsolute(input: string, n: nat)
    requires input != "" && input[0] == '/' && n == FirstSegment(input)
    ensures LiteralDot(input) <==> IsDots(input[1..n]) || LiteralDot(input[n..])
  {
    hide FirstSegment, IsDots, Split, LiteralDot;
    if n == |input| {
      LastSegment(input);
      assert input[1..n] == input[1..] && input[n..] == "";
    } else {
      SplitBehind(input, n);
      DotsSplit(input, n);
    }
  }

  lemma DotsSplit(input: string, n: nat)
    requires 0 < n < |input| && Split(input, '/') == [""] + ([input[1..n]] + Split(input[n + 1..], '/'))
    requires Split(input[n..], '/') == [""] + Split(input[n + 1..], '/')
    ensures LiteralDot(input) <==> IsDots(input[1..n]) || LiteralDot(input[n..])
  {
    hide IsDots, Split, HasDots;
    var more := Split(input[n + 1..], '/');
    EmptyIsNoDots();
    OneOrMore("", [input[1..n]] + more);
    OneOrMore(input[1..n], more);
    OneOrMore("", more);
  }

  lemma OneOrMore(segment: string, more: seq<string>)
    ensures HasDots([segment] + more) <==> IsDots(segment) || HasDots(more)
  {
    hide IsDots;
    var all := [segment] + more;
    assert all[0] == segment && forall k :: 0 <= k < |more| ==> all[k + 1] == more[k];
    assert forall k :: 1 <= k < |all| ==> all[k] == more[k - 1];
  }

  lemma EmptyIsNoDots()
    ensures !IsDots("")
  {
  }

  lemma SplitAbsolute(s: string)
    requires s != "" && s[0] == '/'
    ensures Split(s, '/') == [""] + Split(s[1..], '/')
  {
  }

  lemma LastSegment(input: string)
    requires input != "" && input[0] == '/' && '/' !in input[1..]
    ensures LiteralDot(input) <==> IsDots(input[1..])
    ensures !LiteralDot("")
  {
    SplitAbsolute(input);
    SplitPrefix(input[1..], "", '/');
    NoDotInNothing();
    EmptyIsNoDots();
    hide Split, IsDots;
    var parts := Split(input, '/');
    assert parts == ["", input[1..]];
    assert parts[0] == "" && parts[1] == input[1..];
  }

  lemma SplitBehind(input: string, n: nat)
    requires 0 < n < |input| && input[0] == '/' && input[n] == '/' && '/' !in input[1..n]
    ensures Split(input, '/') == [""] + ([input[1..n]] + Split(input[n + 1..], '/'))
    ensures Split(input[n..], '/') == [""] + Split(input[n + 1..], '/')
  {
    hide *;
    AroundSlash(input, n);
    SplitPrefix(input[1..n], input[n + 1..], '/');
    SplitAbsolute(input);
    SplitAbsolute(input[n..]);
  }

  lemma AroundSlash(input: string, n: nat)
    requires 0 < n < |input| && input[n] == '/'
    ensures input[1..] == input[1..n] + ['/'] + input[n + 1..] && input[n..][1..] == input[n + 1..]
  {
  }

  /** Without dot segments only the last rule of the algorithm applies. */
  lemma NoDotRule(input: string, segment: string, rest: string)
    requires input == ['/'] + segment + rest && '/' !in segment && (rest == "" || rest[0] == '/') && !IsDots(segment)
    ensures !("../" <= input) && !("./" <= input) && !("/./" <= input) && input != "/."
    ensures !("/../" <= input) && input != "/.." && input != "." && input != ".."
  {
    assert input[0] == '/';
    assert |segment| >= 1 ==> segment[0] == input[1];
    assert |segment| >= 2 ==> segment[1] == input[2];
    assert |segment| >= 3 ==> segment[2] == input[3];
    assert |input| > 1 + |segment| ==> input[1 + |segment|] == '/';
    assert |segment| == 1 && segment[0] == '.' ==> segment == ".";
    assert |segment| == 2 && segment[0] == '.' && segment[1] == '.' ==> segment == "..";
  }

  // ----- percent-decoding, section 2.1

  function PercentDecode(s: string): string {
    if s == "" then ""
    else if EscapeAt(s, 0) then [(16 * HexValue(s[1]) + HexValue(s[2])) as char] + PercentDecode(s[3..])
    else [s[0]] + PercentDecode(s[1..])
  }

  lemma {:induction false} PercentFreeIsFixed(s: string)
    requires '%' !in s
    ensures PercentDecode(s) == s
  {
    if s != "" {
      PercentFreeIsFixed(s[1..]);
    }
  }

  // ----- splitting a reference into components, appendix B

  datatype Reference = Reference(
    scheme: Option<string>, authority: Option<string>, path: string, query: Option<string>, fragment: Option<string>)

  function Until(s: string, stops: set<char>): (head: string)
    ensures head <= s && forall i :: 0 <= i < |head| ==> head[i] !in stops
    ensures |head| < |s| ==> s[|head|] in stops
  {
    if s == "" || s[0] in stops then "" else [s[0]] + Until(s[1..], stops)
  }

  function SplitReference(s: string): Reference {
    var n := |Until(s, {':', '/', '?', '#'})|;
    if 0 < n < |s| && s[n] == ':' then SplitAuthority(Some(s[..n]), s[n + 1..]) else SplitAuthority(None, s)
  }

  function SplitAuthority(scheme: Option<string>, s: string): Reference {
    if "//" <= s then
      var authority := Until(s[2..], {'/', '?', '#'});
      SplitPath(scheme, Some(authority), s[2 + |authority|..])
    else SplitPath(scheme, None, s)
  }

  function SplitPath(scheme: Option<string>, authority: Option<string>, s: string): Reference {
    var path := Until(s, {'?', '#'});
    var rest := s[|path|..];
    if rest != "" && rest[0] == '?' then
      var query := Until(rest[1..], {'#'});
      Reference(scheme, authority, path, Some(query), FragmentOf(rest[1 + |query|..]))
    else Reference(scheme, authority, path, None, FragmentOf(rest))
  }

  function FragmentOf(s: string): Option<string> {
    if s != "" && s[0] == '#' then Some(s[1..]) else None
  }

  lemma {:induction false} UntilIs(head: string, rest: string, stops: set<char>)
    requires forall i :: 0 <= i < |head| ==> head[i] !in stops
    requires rest == "" || rest[0] in stops
    ensures Until(head + rest, stops) == head
  {
    if head == "" {
      assert head + rest == rest;
    } else {
      assert (head + rest)[1..] == head[1..] + rest;
      UntilIs(head[1..], rest, stops);
    }
  }

  /** What follows the first question mark, if there is one. */
  function QueryPart(p: string): Option<string> {
    if |PathPart(p)| < |p| then Some(p[|PathPart(p)| + 1..]) else None
  }

  lemma AcceptedFacts(p: string)
    requires FirstFailing(p) == Accept
    ensures p != "" && p[0] == '/' && '#' !in p && PathPart(p) != "" && PathPart(p)[0] == '/'
    ensures !LiteralDot(PathPart(p)) && '%' !in PathPart(p)
  {
    assert PathPart(p) <= p;
    forall i | 0 <= i < |p| ensures p[i] != '#' {
      assert Allowed(p[i]);
    }
  }

  /** Dot-segment removal and percent-decoding leave the path of an accepted value alone. */
  lemma AcceptedPathIsFixed(p: string)
    requires FirstFailing(p) == Accept
    ensures RemoveDotSegments(PathPart(p), "") == PathPart(p)
    ensures PercentDecode(PathPart(p)) == PathPart(p)
  {
    AcceptedFacts(p);
    DotFreeIsFixed(PathPart(p), "");
    PercentFreeIsFixed(PathPart(p));
  }

  // ----- and only such paths are accepted

  predicate Unreserved(c: char) {
    'A' <= c <= 'Z' || 'a' <= c <= 'z' || '0' <= c <= '9' || c in "-._~"
  }

  predicate SubDelim(c: char) {
    c in "!$&'()*+,;="
  }

  /** What section 3.3 of RFC 3986 allows in a path and section 3.4 in a query, but for the apostrophe. */
  predicate UrlCharacter(c: char) {
    Unreserved(c) || (SubDelim(c) && c != '\'') || c in "%:@/?"
  }

  lemma AllowedExact(c: char)
    ensures Allowed(c) <==> UrlCharacter(c)
  {
  }

  ghost predicate WellFormedEscapes(s: string) {
    forall i :: 0 <= i < |s| && s[i] == '%' ==> EscapeAt(s, i)
  }

  lemma {:induction false} DecodeShrinks(s: string)
    ensures |PercentDecode(s)| <= |s|
    ensures WellFormedEscapes(s) && '%' in s ==> |PercentDecode(s)| < |s|
  {
    if s != "" {
      if EscapeAt(s, 0) {
        DecodeShrinks(s[3..]);
      } else {
        DecodeShrinks(s[1..]);
        if WellFormedEscapes(s) {
          forall i | 0 <= i < |s[1..]| && s[1..][i] == '%' ensures EscapeAt(s[1..], i) {
            assert EscapeAt(s, i + 1);
          }
        }
      }
    }
  }

  /** With an escape in it a well-formed path is not fixed by percent-decoding. */
  lemma DecodeFixes(s: string)
    requires WellFormedEscapes(s)
    ensures PercentDecode(s) == s <==> '%' !in s
  {
    DecodeShrinks(s);
    if '%' !in s {
      PercentFreeIsFixed(s);
    }
  }

  lemma {:induction false} DropShrinks(output: string)
    ensures |DropLastSegment(output)| <= |output|
  {
    if output != "" && output[|output| - 1] != '/' {
      DropShrinks(output[..|output| - 1]);
    }
  }

  lemma {:induction false} RemovalShrinks(input: string, output: string)
    requires input == "" || input[0] == '/'
    ensures |RemoveDotSegments(input, output)| <= |output| + |input|
    ensures LiteralDot(input) ==> |RemoveDotSegments(input, output)| < |output| + |input|
    decreases |input|
  {
    hide LiteralDot, FirstSegment, IsDots;
    DropShrinks(output);
    if input == "" {
      NoDotInNothing();
    } else if "/./" <= input {
      RemovalShrinks(input[2..], output);
    } else if input == "/." {
      RemovalShrinks("/", output);
    } else if "/../" <= input {
      RemovalShrinks(input[3..], DropLastSegment(output));
    } else if input == "/.." {
      RemovalShrinks("/", DropLastSegment(output));
    } else {
      var n := FirstSegment(input);
      RemovalShrinks(input[n..], output + input[..n]);
      DotBehindFirst(input, n);
    }
  }

  lemma NoDotInNothing()
    ensures !LiteralDot("")
  {
  }

  lemma DotBehindFirst(input: string, n: nat)
    requires input != "" && input[0] == '/' && n == FirstSegment(input)
    requires !("/./" <= input) && input != "/." && !("/../" <= input) && input != "/.."
    ensures LiteralDot(input) ==> LiteralDot(input[n..])
  {
    FirstIsNoDots(input, n);
    FirstOfAbsolute(input, n);
  }

  /** Where no rule applies the first segment is no dot segment. */
  lemma FirstIsNoDots(input: string, n: nat)
    requires input != "" && input[0] == '/' && n == FirstSegment(input)
    requires !("/./" <= input) && input != "/." && !("/../" <= input) && input != "/.."
    ensures !IsDots(input[1..n])
  {
    hide FirstSegment;
  }

  /** An absolute path is fixed by dot-segment removal exactly if it has no dot segment. */
  lemma RemovalFixes(path: string)
    requires path == "" || path[0] == '/'
    ensures RemoveDotSegments(path, "") == path <==> !LiteralDot(path)
  {
    hide LiteralDot, RemoveDotSegments;
    RemovalShrinks(path, "");
    if !LiteralDot(path) {
      DotFreeIsFixed(path, "");
    }
  }

  /** Some segment between two slashes is empty. */
  ghost predicate InteriorEmpty(path: string) {
    exists k :: 0 < k < |Split(path, '/')| - 1 && Split(path, '/')[k] == ""
  }

  /** An escape that spells a dot. */
  ghost predicate SpellsDot(path: string) {
    exists i :: 0 <= i < |path| && "%2" <= path[i..] && i + 2 < |path| && path[i + 2] in "eE"
  }

  lemma SpellsDotExact(path: string)
    ensures EncodedDot(path) <==> SpellsDot(path)
  {
    forall i | 0 <= i < |path| ensures DotEscapeAt(path, i) <==>
                                       "%2" <= path[i..] && i + 2 < |path| && path[i + 2] in "eE" {
      if i + 2 < |path| {
        assert path[i..][0] == path[i] && path[i..][1] == path[i + 1];
      }
    }
  }

  /** A nonempty absolute value within the cap that does not start an authority. */
  ghost predicate Absolute(p: string) {
    1 <= |p| <= 2048 && p[0] == '/' && (|p| == 1 || p[1] != '/')
  }

  /** None of the characters that are kept out of paths. */
  ghost predicate PlainPath(path: string) {
    forall i :: 0 <= i < |path| ==> path[i] !in "!()*;"
  }

  /**
    The class of every value, in the order in which the classes win: whether it is
    absolute, its characters, its escapes, the segments that dot removal would act on,
    and what percent-decoding or merging of slashes would change.
   */
  lemma OutcomeExact(p: string)
    ensures FirstFailing(p)
            == if p == "" then Reject(Empty)
               else if |p| > 2048 then Reject(TooLong)
               else if p[0] != '/' then Reject(NotAbsolute)
               else if |p| >= 2 && p[1] == '/' then Reject(RejectClass.Authority)
               else if (exists i :: 0 <= i < |p| && !UrlCharacter(p[i])) || !PlainPath(PathPart(p)) then
                 Reject(InvalidCharacter)
               else if !WellFormedEscapes(p) then Reject(PercentEncoding)
               else if SpellsDot(PathPart(p)) || RemoveDotSegments(PathPart(p), "") != PathPart(p) then
                 Reject(DotSegment)
               else if PercentDecode(PathPart(p)) != PathPart(p) || InteriorEmpty(PathPart(p)) then
                 Reject(InvalidCharacter)
               else Accept
  {
    if Absolute(p) {
      CharactersExact(p);
      AbsolutePath(p);
      RemovalFixes(PathPart(p));
      SpellsDotExact(PathPart(p));
      EmptySegmentIsDoubleSlash(PathPart(p));
      EscapesExact(p);
    }
    hide Allowed, UrlCharacter, ForbiddenInPath, PlainPath, PathPart, MalformedPercent, WellFormedEscapes, EncodedDot,
         SpellsDot, LiteralDot, DoubleSlash, RemoveDotSegments, PercentDecode, Split;
  }

  lemma CharactersExact(p: string)
    ensures (exists i :: 0 <= i < |p| && !Allowed(p[i])) <==> exists i :: 0 <= i < |p| && !UrlCharacter(p[i])
    ensures (exists i :: 0 <= i < |PathPart(p)| && ForbiddenInPath(PathPart(p)[i])) <==> !PlainPath(PathPart(p))
  {
    forall c: char ensures Allowed(c) <==> UrlCharacter(c) {
      AllowedExact(c);
    }
    hide Allowed, UrlCharacter, PathPart;
  }

  lemma EscapesExact(p: string)
    ensures MalformedPercent(p) <==> !WellFormedEscapes(p)
    ensures WellFormedEscapes(p) ==> ('%' in PathPart(p) <==> PercentDecode(PathPart(p)) != PathPart(p))
  {
    hide EscapeAt, PathPart, PercentDecode;
    if WellFormedEscapes(p) {
      PathEscapesFormed(p);
      DecodeFixes(PathPart(p));
    }
  }

  lemma AbsolutePath(p: string)
    requires Absolute(p)
    ensures PathPart(p) != "" && PathPart(p)[0] == '/'
  {
  }

  lemma PathEscapesFormed(p: string)
    requires WellFormedEscapes(p)
    ensures WellFormedEscapes(PathPart(p))
  {
    hide EscapeAt;
    forall i | 0 <= i < |PathPart(p)| && PathPart(p)[i] == '%' ensures EscapeAt(PathPart(p), i) {
      EscapesStayInPath(p, i);
    }
  }

  /** The texts that may stand in a value: allowed characters in well-formed escapes. */
  ghost predicate IsUrlText(s: string) {
    (forall i :: 0 <= i < |s| ==> UrlCharacter(s[i])) && WellFormedEscapes(s)
  }

  /** Accepted are exactly the absolute values whose path every step of URL processing leaves alone. */
  lemma AcceptedExact(p: string)
    requires Absolute(p) && IsUrlText(p)
    ensures FirstFailing(p) == Accept
            <==> RemoveDotSegments(PathPart(p), "") == PathPart(p) && PercentDecode(PathPart(p)) == PathPart(p)
                 && !InteriorEmpty(PathPart(p)) && PlainPath(PathPart(p))
  {
    OutcomeExact(p);
    PathEscapesFormed(p);
    DecodeFixes(PathPart(p));
    hide FirstFailing, PathPart, UrlCharacter, RemoveDotSegments, PercentDecode, InteriorEmpty;
    if SpellsDot(PathPart(p)) {
      DotIsEscape(PathPart(p));
    }
  }

  lemma DotIsEscape(path: string)
    requires SpellsDot(path)
    ensures '%' in path
  {
    var i :| 0 <= i < |path| && "%2" <= path[i..] && i + 2 < |path| && path[i + 2] in "eE";
    assert path[i] == path[i..][0] == "%2"[0];
  }

  /** No query stands in the way: any text behind the question mark leaves an accepted value accepted. */
  lemma QueryReplaced(p: string, query: string)
    requires FirstFailing(p) == Accept && IsUrlText(query) && |PathPart(p)| + 1 + |query| <= 2048
    ensures FirstFailing(PathPart(p) + ['?'] + query) == Accept
  {
    var path := PathPart(p);
    var q := path + ['?'] + query;
    AcceptedIsText(p);
    BeforeIs(path, ['?'] + query, '?');
    assert q == path + (['?'] + query);
    assert PathPart(q) == path;
    ReplacedIsText(path, query);
    AcceptedExact(p);
    AcceptedExact(q);
  }

  lemma AcceptedIsText(p: string)
    requires FirstFailing(p) == Accept
    ensures Absolute(p) && IsUrlText(p) && '%' !in PathPart(p) && PathPart(p) <= p
  {
    forall c: char ensures Allowed(c) <==> UrlCharacter(c) {
      AllowedExact(c);
    }
    hide Allowed, UrlCharacter, PathPart, EncodedDot, LiteralDot, DoubleSlash, EscapeAt;
  }

  lemma ReplacedIsText(path: string, query: string)
    requires IsUrlText(query) && '%' !in path && forall i :: 0 <= i < |path| ==> UrlCharacter(path[i])
    ensures IsUrlText(path + ['?'] + query)
  {
    var q, n := path + ['?'] + query, |path| + 1;
    assert q[|path|] == '?' && UrlCharacter('?');
    assert forall i :: n <= i < |q| ==> q[i] == query[i - n];
    forall i | 0 <= i < |q| && q[i] == '%' ensures EscapeAt(q, i) {
      assert EscapeAt(query, i - n);
    }
  }

  ghost predicate IsOrigin(scheme: string, host: string) {
    && scheme != "" && (forall i :: 0 <= i < |scheme| ==> scheme[i] !in {':', '/', '?', '#'})
    && (forall i :: 0 <= i < |host| ==> host[i] !in {'/', '?', '#'})
  }

  /** Behind any origin an accepted value is parsed into exactly that origin, its path and its query. */
  lemma AcceptedSplitsAsWritten(p: string, scheme: string, host: string)
    requires FirstFailing(p) == Accept && IsOrigin(scheme, host)
    ensures SplitReference(scheme + "://" + host + p)
            == Reference(Some(scheme), Some(host), PathPart(p), QueryPart(p), None)
  {
    AcceptedFacts(p);
    hide FirstFailing, PathPart, QueryPart, SplitReference, SplitAuthority, SplitPath;
    var t := "//" + host + p;
    assert scheme + "://" + host + p == scheme + [':'] + t;
    SchemeSplits(scheme, t);
    AuthoritySplits(Some(scheme), host, p);
    PathSplitsAsWritten(p, Some(scheme), Some(host));
  }

  lemma SchemeSplits(scheme: string, t: string)
    requires IsOrigin(scheme, "")
    ensures SplitReference(scheme + [':'] + t) == SplitAuthority(Some(scheme), t)
  {
    hide Until, SplitAuthority;
    var s := scheme + [':'] + t;
    assert s == scheme + ([':'] + t);
    UntilIs(scheme, [':'] + t, {':', '/', '?', '#'});
    assert s[..|scheme|] == scheme && s[|scheme| + 1..] == t;
  }

  lemma AuthoritySplits(scheme: Option<string>, host: string, p: string)
    requires p == "" || p[0] in {'/', '?', '#'}
    requires forall i :: 0 <= i < |host| ==> host[i] !in {'/', '?', '#'}
    ensures SplitAuthority(scheme, "//" + host + p) == SplitPath(scheme, Some(host), p)
  {
    hide Until, SplitPath;
    var t := "//" + host + p;
    assert t[2..] == host + p;
    UntilIs(host, p, {'/', '?', '#'});
    assert t[2 + |host|..] == p;
  }

  lemma PathSplitsAsWritten(p: string, scheme: Option<string>, authority: Option<string>)
    requires '#' !in p
    ensures SplitPath(scheme, authority, p) == Reference(scheme, authority, PathPart(p), QueryPart(p), None)
  {
    var path := PathPart(p);
    var rest := p[|path|..];
    assert p == path + rest;
    UntilIs(path, rest, {'?', '#'});
    if rest != "" {
      var query := rest[1..];
      assert query + "" == query;
      UntilIs(query, "", {'#'});
      assert query == p[|path| + 1..];
    }
  }
}
