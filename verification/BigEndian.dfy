/** Big-endian numbers of a fixed width. */
module BigEndian {
  import opened BitStream

  function Pow256(k: nat): (p: nat)
    ensures p >= 1
  {
    if k == 0 then 1 else 256 * Pow256(k - 1)
  }

  function Put(n: nat, k: nat): (octets: seq<byte>)
    ensures |octets| == k
    decreases k
  {
    if k == 0 then [] else Put(n / 256, k - 1) + [n % 256]
  }

  function Get(octets: seq<byte>): (n: nat)
    ensures n < Pow256(|octets|)
  {
    if octets == [] then 0 else 256 * Get(octets[..|octets| - 1]) + octets[|octets| - 1]
  }

  lemma {:induction false} GetPut(n: nat, k: nat)
    requires n < Pow256(k)
    ensures Get(Put(n, k)) == n
    decreases k
  {
    if k > 0 {
      GetPut(n / 256, k - 1);
      assert Put(n, k)[..k - 1] == Put(n / 256, k - 1);
    }
  }

  lemma {:induction false} PutGet(octets: seq<byte>)
    ensures Put(Get(octets), |octets|) == octets
  {
    if octets != [] {
      PutGet(octets[..|octets| - 1]);
    }
  }

  /** Writes `n` into the `k` octets from `start`. */
  method PutAt(frame: array<byte>, start: nat, k: nat, n: nat)
    requires start + k <= frame.Length
    modifies frame
    ensures frame[start..start + k] == Put(n, k)
    ensures frame[..start] == old(frame[..start]) && frame[start + k..] == old(frame[start + k..])
  {
    var i, rest := k, n;
    ghost var done: seq<byte> := [];
    assert Put(n, k) == Put(rest, i) + done;
    while i > 0
      invariant 0 <= i <= k && done == frame[start + i..start + k]
      invariant Put(n, k) == Put(rest, i) + done
      invariant frame[..start] == old(frame[..start]) && frame[start + k..] == old(frame[start + k..])
    {
      i := i - 1;
      assert Put(rest, i + 1) == Put(rest / 256, i) + [rest % 256];
      frame[start + i] := rest % 256;
      assert frame[start + i..start + k] == [rest % 256] + done;
      assert Put(rest, i + 1) + done == Put(rest / 256, i) + ([rest % 256] + done);
      done := [rest % 256] + done;
      rest := rest / 256;
    }
    assert Put(rest, 0) + done == done;
  }
}
