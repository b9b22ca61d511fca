/**
  Opening an issued link: the comparison of its text with the link origin, which
  never parses it as a URL, and the transport and signature behind it.
 */
module IssuedLink {
  import opened Wrappers
  import opened UrlProcessing
  import TargetPath
  import Splitting
  import Transport

  datatype LinkClass = Origin | PathOrQuery | NotTransport | IssuerSignature

  function SplitLink(link: string, origin: string): Result<string, LinkClass> {
    if !(origin <= link) then Err(Origin)
    else
      var rest := link[|origin|..];
      var location := TargetPath.Before(rest, '#');
      if location == "" || location == "/" then Ok(if |location| < |rest| then rest[|location| + 1..] else "")
      else if location[0] == '/' || location[0] == '?' then Err(PathOrQuery)
      else Err(Origin)
  }

  // ----- the comparison agrees with a URL parser

  function OriginText(scheme: string, host: string): string {
    scheme + [':'] + ("//" + host)
  }

  /** The same decision from the components of a parsed reference. */
  function ByComponents(r: Reference, scheme: string, host: string): Result<string, LinkClass> {
    if r.scheme != Some(scheme) || r.authority != Some(host) then Err(Origin)
    else if (r.path != "" && r.path != "/") || r.query.Some? then Err(PathOrQuery)
    else Ok(if r.fragment.Some? then r.fragment.value else "")
  }

  lemma {:induction false} UntilRunsOn(head: string, rest: string, stops: set<char>)
    requires forall i :: 0 <= i < |head| ==> head[i] !in stops
    requires rest != "" && rest[0] !in stops
    ensures |Until(head + rest, stops)| > |head|
  {
    if head == "" {
      assert head + rest == rest;
    } else {
      assert (head + rest)[1..] == head[1..] + rest;
      UntilRunsOn(head[1..], rest, stops);
    }
  }

  /** Behind the origin, the text before the hash decides path and query. */
  lemma RestSplits(rest: string, scheme: string, host: string)
    requires rest == "" || rest[0] in {'/', '?', '#'}
    ensures ByComponents(SplitPath(Some(scheme), Some(host), rest), scheme, host)
            == SplitLink(OriginText(scheme, host) + rest, OriginText(scheme, host))
  {
    hide Until, TargetPath.Before, OriginText;
    var origin := OriginText(scheme, host);
    assert (origin + rest)[|origin|..] == rest;
    var path := Until(rest, {'?', '#'});
    var tail := rest[|path|..];
    if tail == "" || tail[0] == '#' {
      NoQuestion(rest);
    } else {
      QuestionInLocation(rest, |path|);
    }
  }

  lemma NoQuestion(rest: string)
    requires var n := |Until(rest, {'?', '#'})|; n == |rest| || rest[n] == '#'
    ensures TargetPath.Before(rest, '#') == Until(rest, {'?', '#'})
  {
    hide Until, TargetPath.Before;
    var path := Until(rest, {'?', '#'});
    assert rest == path + rest[|path|..];
    TargetPath.BeforeIs(path, rest[|path|..], '#');
  }

  /** A question mark before any hash is part of the text before the hash. */
  lemma QuestionInLocation(rest: string, i: nat)
    requires i < |rest| && rest[i] == '?' && forall j :: 0 <= j < i ==> rest[j] != '#'
    ensures '?' in TargetPath.Before(rest, '#')
  {
    hide TargetPath.Before;
    var location := TargetPath.Before(rest, '#');
    assert |location| < |rest| ==> rest[|location|] == '#';
    assert |location| > i;
    assert location[i] == rest[i];
  }

  lemma OtherAuthority(rest: string, scheme: string, host: string)
    requires IsOrigin(scheme, host) && rest != "" && rest[0] !in {'/', '?', '#'}
    ensures SplitAuthority(Some(scheme), "//" + host + rest).authority != Some(host)
  {
    hide Until, SplitPath;
    var t := "//" + host + rest;
    assert t[2..] == host + rest;
    UntilRunsOn(host, rest, {'/', '?', '#'});
    AuthorityKept(Some(scheme), Some(Until(t[2..], {'/', '?', '#'})), t[2 + |Until(t[2..], {'/', '?', '#'})|..]);
  }

  lemma AuthorityKept(scheme: Option<string>, authority: Option<string>, s: string)
    ensures SplitPath(scheme, authority, s).scheme == scheme && SplitPath(scheme, authority, s).authority == authority
  {
  }

  /** A reference with this scheme and authority begins with the text of the origin. */
  lemma OriginIsPrefix(link: string, scheme: string, host: string)
    requires SplitReference(link).scheme == Some(scheme) && SplitReference(link).authority == Some(host)
    ensures OriginText(scheme, host) <= link
  {
    hide Until, SplitAuthority;
    var n := |Until(link, {':', '/', '?', '#'})|;
    if 0 < n < |link| && link[n] == ':' {
      AuthorityOf(Some(link[..n]), link[n + 1..], host);
      BehindScheme(link, n, "//" + host);
    } else {
      AuthorityOf(None, link, host);
    }
  }

  lemma BehindScheme(link: string, n: nat, head: string)
    requires n < |link| && link[n] == ':' && head <= link[n + 1..]
    ensures link[..n] + [':'] + head <= link
  {
    assert link == link[..n] + [':'] + link[n + 1..];
    assert link[n + 1..] == head + link[n + 1..][|head|..];
  }

  lemma AuthorityOf(scheme: Option<string>, t: string, host: string)
    requires SplitAuthority(scheme, t).authority == Some(host)
    ensures SplitAuthority(scheme, t).scheme == scheme && "//" + host <= t
  {
    hide Until, SplitPath;
    if "//" <= t {
      var authority := Until(t[2..], {'/', '?', '#'});
      AuthorityKept(scheme, Some(authority), t[2 + |authority|..]);
      assert t == "//" + t[2..];
    } else {
      AuthorityKept(scheme, None, t);
    }
  }

  /** Comparing text takes, for every link, the decision a URL parser's components give. */
  lemma SplitLinkIsParsing(link: string, scheme: string, host: string)
    requires IsOrigin(scheme, host)
    ensures SplitLink(link, OriginText(scheme, host)) == ByComponents(SplitReference(link), scheme, host)
  {
    hide SplitReference, SplitAuthority, SplitPath;
    var origin := OriginText(scheme, host);
    if origin <= link {
      var rest := link[|origin|..];
      var t := "//" + host + rest;
      assert link == origin + rest;
      assert link == scheme + [':'] + t;
      SchemeSplits(scheme, t);
      if rest == "" || rest[0] in {'/', '?', '#'} {
        AuthoritySplits(Some(scheme), host, rest);
        RestSplits(rest, scheme, host);
      } else {
        OtherAuthority(rest, scheme, host);
      }
    } else if SplitReference(link).scheme == Some(scheme) && SplitReference(link).authority == Some(host) {
      OriginIsPrefix(link, scheme, host);
    }
  }

  // ----- opening

  ghost predicate IsTransportOf(fragment: string, fields: seq<string>) {
    Transport.IsTriple(fields) && fragment == Transport.Encode(fields)
  }

  /** Claims and signature are the second and the fourth part of the inner fragment. */
  ghost predicate Signed(verify: (string, string) -> bool, fields: seq<string>)
    requires |fields| == 3
  {
    verify(fields[0], fields[2])
  }

  method OpenLink(link: string, origin: string, verify: (string, string) -> bool) returns (r: Result<string, LinkClass>)
    ensures SplitLink(link, origin).Err? ==> r == SplitLink(link, origin)
    ensures SplitLink(link, origin).Ok? ==>
              var fragment := SplitLink(link, origin).value;
              && (r == Err(NotTransport) <==> !exists fields :: IsTransportOf(fragment, fields))
              && (forall fields :: IsTransportOf(fragment, fields) ==>
                    r == if Signed(verify, fields) then Ok(Transport.Canonical(fields)) else Err(IssuerSignature))
  {
    var split := SplitLink(link, origin);
    if split.Err? {
      return split;
    }
    var canonical := Transport.DecodeTransport(split.value);
    if canonical.None? {
      assert !exists fields :: IsTransportOf(split.value, fields);
      return Err(NotTransport);
    }
    ghost var fields :| IsTransportOf(split.value, fields) && canonical.value == Transport.Canonical(fields);
    assert IsTransportOf(split.value, fields);
    InnerParts(fields);
    OnlyTransport(split.value, fields);
    var parts := Splitting.Split(canonical.value, '.');
    if |parts| != 4 || !verify(parts[1], parts[3]) {
      return Err(IssuerSignature);
    }
    return Ok(canonical.value);
  }

  lemma OnlyTransport(fragment: string, fields: seq<string>)
    requires IsTransportOf(fragment, fields)
    ensures forall other :: IsTransportOf(fragment, other) ==> other == fields
  {
    hide Transport.Encode, Transport.IsTriple;
    forall other | IsTransportOf(fragment, other) ensures other == fields {
      Transport.EncodingInjective(fields, other);
    }
  }

  lemma InnerParts(fields: seq<string>)
    requires Transport.IsTriple(fields)
    ensures Splitting.Split(Transport.Canonical(fields), '.') == ["qv2"] + fields
  {
    Transport.CanonicalParts(fields);
  }

  ghost predicate Opens(link: string, origin: string, verify: (string, string) -> bool, fields: seq<string>) {
    Transport.IsTriple(fields) && Signed(verify, fields)
    && (link == origin + "#" + Transport.Encode(fields) || link == origin + "/#" + Transport.Encode(fields))
  }

  /** Links that open are the origin, at most one slash, a hash and the transport of a signed triple. */
  lemma OpensExact(link: string, origin: string, verify: (string, string) -> bool, fields: seq<string>)
    ensures Opens(link, origin, verify, fields)
            <==> SplitLink(link, origin).Ok? && IsTransportOf(SplitLink(link, origin).value, fields)
                 && Signed(verify, fields)
  {
    hide SplitLink, Transport.Encode, Transport.IsField;
    if Opens(link, origin, verify, fields) {
      SplitsOff(link, origin, "", Transport.Encode(fields));
      SplitsOff(link, origin, "/", Transport.Encode(fields));
    }
    if SplitLink(link, origin).Ok? && IsTransportOf(SplitLink(link, origin).value, fields) {
      EncodedIsNotEmpty(fields);
      SplitFrom(link, origin);
    }
  }

  lemma SplitFrom(link: string, origin: string)
    requires SplitLink(link, origin).Ok? && SplitLink(link, origin).value != ""
    ensures var fragment := SplitLink(link, origin).value;
            link == origin + "#" + fragment || link == origin + "/#" + fragment
  {
    hide TargetPath.Before;
    var rest := link[|origin|..];
    var location := TargetPath.Before(rest, '#');
    assert rest == location + ("#" + rest[|location| + 1..]);
    assert link == origin + rest;
  }

  lemma SplitsOff(link: string, origin: string, location: string, fragment: string)
    requires location == "" || location == "/"
    ensures link == origin + location + "#" + fragment ==> SplitLink(link, origin) == Ok(fragment)
  {
    if link == origin + location + "#" + fragment {
      assert link[|origin|..] == location + ("#" + fragment);
      TargetPath.BeforeIs(location, "#" + fragment, '#');
    }
  }

  lemma EncodedIsNotEmpty(fields: seq<string>)
    requires Transport.IsTriple(fields)
    ensures Transport.Encode(fields) != ""
  {
    Transport.EncodedParts(fields);
  }
}
