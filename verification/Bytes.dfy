/** Bytes and integers in network byte order (Appendix B of RFC 791). */
module Bytes {
  type byte = b: nat | b < 256

  function Pow256(n: nat): (p: nat)
    ensures p > 0
  {
    if n == 0 then 1 else 256 * Pow256(n - 1)
  }

  /** The low n bytes of x, most significant first. */
  function ToNetwork(x: nat, n: nat): (s: seq<byte>)
    ensures |s| == n
  {
    if n == 0 then [] else ToNetwork(x / 256, n - 1) + [x % 256]
  }

  function FromNetwork(s: seq<byte>): nat {
    if s == [] then 0
    else FromNetwork(s[..|s| - 1]) * 256 + s[|s| - 1]
  }

  predicate Fits(x: int, n: nat) {
    0 <= 2 * x + Pow256(n) && 2 * x < Pow256(n)
  }

  /** An n-byte two's complement integer as the unsigned integer with the same bytes, and back. */
  function Unsigned(x: int, n: nat): (u: nat)
    requires Fits(x, n)
    ensures u < Pow256(n)
  {
    if x >= 0 then x else x + Pow256(n)
  }

  function Signed(u: nat, n: nat): int {
    if 2 * u < Pow256(n) then u else u - Pow256(n)
  }

  function EncodeInt(x: int, n: nat): (s: seq<byte>)
    requires Fits(x, n)
    ensures |s| == n
  {
    ToNetwork(Unsigned(x, n), n)
  }

  function DecodeInt(s: seq<byte>): int {
    Signed(FromNetwork(s), |s|)
  }

  /** x shifted right by k bytes. */
  function Shifted(x: nat, k: nat): nat {
    if k == 0 then x else Shifted(x / 256, k - 1)
  }

  /** Byte k of n is the byte of weight n - 1 - k. */
  lemma {:induction false} NetworkOrder(x: nat, n: nat, k: nat)
    requires k < n
    ensures ToNetwork(x, n)[k] == Shifted(x, n - 1 - k) % 256
    decreases n
  {
    if k < n - 1 { NetworkOrder(x / 256, n - 1, k); }
  }

  lemma {:induction false} NetworkRoundTrip(x: nat, n: nat)
    requires x < Pow256(n)
    ensures FromNetwork(ToNetwork(x, n)) == x
  {
    if n > 0 {
      NetworkRoundTrip(x / 256, n - 1);
      assert ToNetwork(x, n)[..n - 1] == ToNetwork(x / 256, n - 1);
    }
  }

  lemma {:induction false} NetworkInjective(s: seq<byte>)
    ensures FromNetwork(s) < Pow256(|s|)
    ensures ToNetwork(FromNetwork(s), |s|) == s
  {
    if s != [] {
      var front, last := s[..|s| - 1], s[|s| - 1];
      NetworkInjective(front);
      assert (FromNetwork(front) * 256 + last) / 256 == FromNetwork(front);
      assert s == front + [last];
    }
  }

  /** The bytes written are those of the integer in two's complement, most significant first. */
  lemma EncodedInNetworkOrder(x: int, n: nat)
    requires Fits(x, n)
    ensures FromNetwork(EncodeInt(x, n)) == if x >= 0 then x else x + Pow256(n)
  {
    NetworkRoundTrip(Unsigned(x, n), n);
  }

  /** Four bytes, by number: what is written for an integer that is not negative. */
  lemma FourBytesWritten(x: nat)
    ensures Fits(x, 4) <==> x < 2147483648
    ensures x < 2147483648 ==>
              var s := EncodeInt(x, 4);
              s[0] == x / 16777216 && s[1] == x / 65536 % 256 && s[2] == x / 256 % 256 && s[3] == x % 256
  {
    assert Pow256(4) == 4294967296;
    if x < 2147483648 {
      NetworkOrder(x, 4, 0);
      NetworkOrder(x, 4, 1);
      NetworkOrder(x, 4, 2);
      NetworkOrder(x, 4, 3);
      assert Shifted(x, 2) == Shifted(x / 256, 1) == x / 256 / 256 == x / 65536;
      assert Shifted(x, 3) == Shifted(x / 256, 2) == Shifted(x / 256 / 256, 1) == x / 256 / 256 / 256 == x / 16777216;
    }
  }

  /** And what any four bytes read as. */
  lemma FourBytesRead(s: seq<byte>)
    requires |s| == 4
    ensures var a: nat, b: nat, c: nat, d: nat := s[0], s[1], s[2], s[3];
            var u := a * 16777216 + b * 65536 + c * 256 + d;
            DecodeInt(s) == if a < 128 then u else u - 4294967296
  {
    var a: nat, b: nat, c: nat := s[0], s[1], s[2];
    assert Pow256(4) == 4294967296;
    assert s[..3][..2] == s[..2] && s[..2][..1] == s[..1] && s[..1][..0] == [];
    assert FromNetwork(s[..1]) == a;
    assert FromNetwork(s[..2]) == a * 256 + b;
    assert FromNetwork(s[..3]) == a * 65536 + b * 256 + c;
  }

  /** Writing a signed integer in network order and reading it back gives the integer, at every width. */
  lemma IntRoundTrip(x: int, n: nat)
    requires Fits(x, n)
    ensures DecodeInt(EncodeInt(x, n)) == x
  {
    NetworkRoundTrip(Unsigned(x, n), n);
  }
}
