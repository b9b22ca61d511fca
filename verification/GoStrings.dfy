/** Go strings as octets. */
module GoStrings {
  import opened BitStream

  /** A Go string, one character per octet. */
  type text = s: string | forall i :: 0 <= i < |s| ==> s[i] < 256 as char

  function OctetsOf(s: text): (octets: seq<byte>)
    ensures |octets| == |s| && forall i :: 0 <= i < |s| ==> octets[i] == s[i] as int
  {
    seq(|s|, i requires 0 <= i < |s| => s[i] as int)
  }

  function TextOf(octets: seq<byte>): (s: text)
    ensures OctetsOf(s) == octets
  {
    seq(|octets|, i requires 0 <= i < |octets| => octets[i] as char)
  }

  lemma OctetsOfInjective(s: text, t: text)
    requires OctetsOf(s) == OctetsOf(t)
    ensures s == t
  {
    assert |s| == |OctetsOf(s)| == |t|;
    forall i | 0 <= i < |s| ensures s[i] == t[i] {
      assert OctetsOf(s)[i] == OctetsOf(t)[i];
    }
  }
}
