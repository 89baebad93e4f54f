/** The textual side of an IPv4 address as both encoders read it: the string
    is split at every '.' and each part is read as a base-10 numeral
    (`ip.split('.')` with `parseInt(octet, 10)` in the gate, with `int(x)` in
    the importer). Only well-formed dotted quads are modelled: four numerals
    of at most 255. */
module Address {
  import opened Octets

  /** Splits at every '.', keeping empty parts, as JavaScript's
      `String.prototype.split('.')` and Python's `str.split('.')` do; the
      result is never empty, and `""` splits into `[""]`. */
  function Split(s: string): (parts: seq<string>)
    ensures |parts| >= 1
  {
    if s == [] then [""]
    else
      var rest := Split(s[1..]);
      if s[0] == '.' then [""] + rest else [[s[0]] + rest[0]] + rest[1..]
  }

  /** The inverse of Split: the parts with '.' between them. */
  function Join(parts: seq<string>): string
    requires |parts| >= 1
  {
    if |parts| == 1 then parts[0] else parts[0] + "." + Join(parts[1..])
  }

  predicate NoDot(s: string) {
    forall i :: 0 <= i < |s| ==> s[i] != '.'
  }

  /** Splitting loses nothing: joining the parts gives the string back, and
      no part contains a '.'. */
  lemma {:induction false} JoinSplit(s: string)
    ensures Join(Split(s)) == s
    ensures forall k :: 0 <= k < |Split(s)| ==> NoDot(Split(s)[k])
  {
    if s != [] {
      var rest := Split(s[1..]);
      JoinSplit(s[1..]);
      if s[0] == '.' {
        assert Split(s)[1..] == rest;
        assert s == "" + "." + s[1..];
      } else {
        var parts := Split(s);
        assert parts[0] == [s[0]] + rest[0];
        assert parts[1..] == rest[1..];
        if |rest| == 1 {
          assert Join(parts) == [s[0]] + rest[0];
        } else {
          assert Join(rest) == rest[0] + "." + Join(rest[1..]);
          assert Join(parts) == [s[0]] + (rest[0] + "." + Join(rest[1..]));
        }
        assert s == [s[0]] + s[1..];
        forall k | 0 <= k < |parts|
          ensures NoDot(parts[k])
        {
          if k > 0 {
            assert parts[k] == rest[k];
          }
        }
      }
    }
  }

  /** A prefix without '.' is glued onto the first part of what follows. */
  lemma {:induction false} SplitNoDotPrefix(p: string, r: string)
    requires NoDot(p)
    ensures Split(p + r) == [p + Split(r)[0]] + Split(r)[1..]
  {
    if p != [] {
      var rest := Split(p[1..] + r);
      assert (p + r)[0] == p[0] && (p + r)[1..] == p[1..] + r;
      SplitNoDotPrefix(p[1..], r);
      assert Split(p + r) == [[p[0]] + rest[0]] + rest[1..];
      assert rest[0] == p[1..] + Split(r)[0] && rest[1..] == Split(r)[1..];
      assert [p[0]] + (p[1..] + Split(r)[0]) == p + Split(r)[0];
    } else {
      assert p + r == r && p + Split(r)[0] == Split(r)[0];
      assert Split(r) == [Split(r)[0]] + Split(r)[1..];
    }
  }

  /** Joining parts that contain no '.' and splitting gives the parts back. */
  lemma {:induction false} SplitJoin(parts: seq<string>)
    requires |parts| >= 1
    requires forall k :: 0 <= k < |parts| ==> NoDot(parts[k])
    ensures Split(Join(parts)) == parts
  {
    if |parts| == 1 {
      SplitNoDotPrefix(parts[0], "");
      assert parts[0] + "" == parts[0];
    } else {
      var tail := Join(parts[1..]);
      SplitJoin(parts[1..]);
      assert Split("." + tail) == [""] + Split(tail);
      SplitNoDotPrefix(parts[0], "." + tail);
      assert parts[0] + "." + tail == parts[0] + ("." + tail);
      assert Split("." + tail)[0] == "" && Split("." + tail)[1..] == parts[1..];
      assert parts[0] + "" == parts[0];
      assert parts == [parts[0]] + parts[1..];
    }
  }

  predicate IsDigit(c: char) {
    '0' <= c <= '9'
  }

  predicate AllDigits(s: string) {
    forall i :: 0 <= i < |s| ==> IsDigit(s[i])
  }

  /** A non-empty run of decimal digits. */
  predicate IsNumeral(s: string) {
    |s| >= 1 && AllDigits(s)
  }

  function DigitValue(c: char): (d: int)
    requires IsDigit(c)
    ensures 0 <= d < 10
  {
    (c as int) - ('0' as int)
  }

  function DigitChar(d: int): (c: char)
    requires 0 <= d < 10
    ensures IsDigit(c) && DigitValue(c) == d
  {
    ('0' as int + d) as char
  }

  /** The value of a string of decimal digits, read most significant first
      (what `parseInt(s, 10)` and `int(s)` give for such a string). */
  function ParseDecimal(s: string): nat
    requires AllDigits(s)
  {
    if s == [] then 0 else ParseDecimal(s[..|s| - 1]) * 10 + DigitValue(s[|s| - 1])
  }

  /** The canonical decimal numeral of n: no leading zeros, and reading it
      back gives n. */
  function Decimal(n: nat): (s: string)
    ensures IsNumeral(s) && ParseDecimal(s) == n
    ensures |s| > 1 ==> s[0] != '0'
  {
    if n < 10 then [DigitChar(n)]
    else
      var front := Decimal(n / 10);
      var s := front + [DigitChar(n % 10)];
      assert s[..|s| - 1] == front;
      s
  }

  /** A numeral without leading zeros: the form Decimal produces. */
  predicate IsCanonicalNumeral(s: string) {
    IsNumeral(s) && (|s| > 1 ==> s[0] != '0')
  }

  /** A numeral that does not start with '0' has a positive value. */
  lemma {:induction false} LeadingNonZeroPositive(s: string)
    requires IsNumeral(s) && s[0] != '0'
    ensures ParseDecimal(s) >= 1
  {
    if |s| > 1 {
      LeadingNonZeroPositive(s[..|s| - 1]);
    }
  }

  lemma DivModDigit(q: nat, d: int)
    requires 0 <= d < 10
    ensures (q * 10 + d) / 10 == q && (q * 10 + d) % 10 == d
  {
  }

  /** Reading a canonical numeral and printing the value gives the numeral
      back, so canonical numerals and their values correspond one to one. */
  lemma {:induction false} DecimalOfParse(s: string)
    requires IsCanonicalNumeral(s)
    ensures Decimal(ParseDecimal(s)) == s
  {
    var n, last := |s|, s[|s| - 1];
    if n == 1 {
      assert s == [last];
    } else {
      var front := s[..n - 1];
      LeadingNonZeroPositive(front);
      DecimalOfParse(front);
      DivModDigit(ParseDecimal(front), DigitValue(last));
      assert DigitChar(DigitValue(last)) == last;
      assert s == front + [last];
    }
  }

  /** A well-formed dotted quad: exactly four numerals, each at most 255. */
  predicate IsDottedQuad(ip: string) {
    var parts := Split(ip);
    |parts| == 4 && forall k :: 0 <= k < 4 ==> IsNumeral(parts[k]) && ParseDecimal(parts[k]) < 256
  }

  /** The four octet values of a well-formed dotted quad. */
  function OctetsOf(ip: string): (octets: seq<int>)
    requires IsDottedQuad(ip)
    ensures |octets| == 4 && IsOctets(octets)
  {
    var parts := Split(ip);
    [ParseDecimal(parts[0]), ParseDecimal(parts[1]), ParseDecimal(parts[2]), ParseDecimal(parts[3])]
  }

  /** The usual text of an address: four canonical numerals joined by '.'. */
  function Render(octets: seq<int>): string
    requires |octets| == 4 && IsOctets(octets)
  {
    Join([Decimal(octets[0]), Decimal(octets[1]), Decimal(octets[2]), Decimal(octets[3])])
  }

  /** A dotted quad written the usual way: no part has a leading zero. */
  predicate IsCanonicalQuad(ip: string) {
    IsDottedQuad(ip) && forall k :: 0 <= k < 4 ==> IsCanonicalNumeral(Split(ip)[k])
  }

  /** Rendering an address and parsing it back gives the same octets. */
  lemma RenderParses(octets: seq<int>)
    requires |octets| == 4 && IsOctets(octets)
    ensures IsCanonicalQuad(Render(octets)) && OctetsOf(Render(octets)) == octets
  {
    var parts := [Decimal(octets[0]), Decimal(octets[1]), Decimal(octets[2]), Decimal(octets[3])];
    forall k | 0 <= k < 4
      ensures NoDot(parts[k])
    {
      assert IsNumeral(parts[k]);
    }
    SplitJoin(parts);
  }

  /** Parsing a canonical quad and rendering the octets gives the text back. */
  lemma ParseRenders(ip: string)
    requires IsCanonicalQuad(ip)
    ensures Render(OctetsOf(ip)) == ip
  {
    var parts := Split(ip);
    forall k | 0 <= k < 4
      ensures Decimal(ParseDecimal(parts[k])) == parts[k]
    {
      DecimalOfParse(parts[k]);
    }
    assert parts == [parts[0], parts[1], parts[2], parts[3]];
    JoinSplit(ip);
  }

  /** Canonical quads are equal exactly when their octets are. */
  lemma CanonicalQuadsByOctets(a: string, b: string)
    requires IsCanonicalQuad(a) && IsCanonicalQuad(b)
    ensures OctetsOf(a) == OctetsOf(b) <==> a == b
  {
    ParseRenders(a);
    ParseRenders(b);
  }
}
