/** Arithmetic reference for IPv4 lookup keys: a sequence of octets read as
    one unsigned big-endian number. Both key encoders of the repository (the
    gate's `ip2int` and the importer's `format_ip`) are proved against this
    definition. */
module Octets {

  const Two32: int := 0x1_0000_0000

  /** Every element is a byte value, 0 to 255. */
  predicate IsOctets(s: seq<int>) {
    forall i :: 0 <= i < |s| ==> 0 <= s[i] < 256
  }

  function Pow256(n: nat): (p: int)
    ensures p >= 1
  {
    if n == 0 then 1 else 256 * Pow256(n - 1)
  }

  /** Sum of s[i] * 256^(|s| - 1 - i): most significant octet first. */
  function BigEndian(s: seq<int>): int {
    if s == [] then 0 else s[0] * Pow256(|s| - 1) + BigEndian(s[1..])
  }

  lemma MulMonotone(a: int, b: int, p: int)
    requires a <= b && p >= 0
    ensures a * p <= b * p
  {
  }

  /** A smaller leading digit gives a smaller number, whatever the rest. */
  lemma LeadingDigitDominates(a: int, b: int, x: int, y: int, p: int)
    requires 0 <= x < p && 0 <= y < p
    ensures a < b ==> a * p + x < b * p + y
  {
    if a < b {
      MulMonotone(a + 1, b, p);
    }
  }

  /** n octets always give a number in [0, 256^n). */
  lemma {:induction false} BigEndianBounds(s: seq<int>)
    requires IsOctets(s)
    ensures 0 <= BigEndian(s) < Pow256(|s|)
  {
    if s != [] {
      var p := Pow256(|s| - 1);
      BigEndianBounds(s[1..]);
      MulMonotone(0, s[0], p);
      MulMonotone(s[0] + 1, 256, p);
      assert BigEndian(s) < (s[0] + 1) * p;
    }
  }

  /** Two octet sequences of one length with the same number are equal. */
  lemma {:induction false} BigEndianInjective(s: seq<int>, t: seq<int>)
    requires IsOctets(s) && IsOctets(t) && |s| == |t|
    requires BigEndian(s) == BigEndian(t)
    ensures s == t
  {
    if s != [] {
      var p := Pow256(|s| - 1);
      BigEndianBounds(s[1..]);
      BigEndianBounds(t[1..]);
      LeadingDigitDominates(s[0], t[0], BigEndian(s[1..]), BigEndian(t[1..]), p);
      LeadingDigitDominates(t[0], s[0], BigEndian(t[1..]), BigEndian(s[1..]), p);
      assert s[0] == t[0];
      BigEndianInjective(s[1..], t[1..]);
      assert s == [s[0]] + s[1..] && t == [t[0]] + t[1..];
    }
  }

  /** Appending an octet at the low end shifts the number one byte left. */
  lemma {:induction false} BigEndianSnoc(s: seq<int>, x: int)
    ensures BigEndian(s + [x]) == BigEndian(s) * 256 + x
  {
    if s == [] {
      assert [] + [x] == [x];
    } else {
      assert (s + [x])[1..] == s[1..] + [x];
      BigEndianSnoc(s[1..], x);
      var p := Pow256(|s| - 1);
      calc {
        BigEndian(s + [x]);
        s[0] * Pow256(|s|) + BigEndian(s[1..] + [x]);
        s[0] * (256 * p) + BigEndian(s[1..]) * 256 + x;
        { assert s[0] * (256 * p) == (s[0] * p) * 256; }
        (s[0] * p + BigEndian(s[1..])) * 256 + x;
      }
    }
  }

  /** The four-octet case written out. */
  lemma BigEndianFour(o: seq<int>)
    requires |o| == 4
    ensures BigEndian(o) == o[0] * 0x100_0000 + o[1] * 0x1_0000 + o[2] * 0x100 + o[3]
  {
    assert Pow256(3) == 0x100_0000 && Pow256(2) == 0x1_0000 && Pow256(1) == 0x100;
    assert BigEndian(o[3..]) == o[3] by {
      assert o[3..][1..] == [];
    }
    assert BigEndian(o[2..]) == o[2] * 0x100 + o[3] by {
      assert o[2..][1..] == o[3..];
    }
    assert BigEndian(o[1..]) == o[1] * 0x1_0000 + o[2] * 0x100 + o[3] by {
      assert o[1..][1..] == o[2..];
    }
  }
}
