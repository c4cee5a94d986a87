/** Segment names: a kind-specific prefix followed by the device id printed in
    decimal, zero-padded to at least three digits (`std::setw(3)` with
    `std::setfill('0')`). The same name is used by the writer to create and by
    readers to open a segment. */
module SegmentNames {

  predicate IsDigit(c: char) {
    '0' <= c <= '9'
  }

  function DigitChar(d: nat): (c: char)
    requires d < 10
    ensures IsDigit(c)
  {
    "0123456789"[d]
  }

  function DigitValue(c: char): nat
    requires IsDigit(c)
  {
    (c as int - '0' as int)
  }

  /** The decimal numeral of `n`, without leading zeros. */
  function Decimal(n: nat): (s: seq<char>)
    ensures |s| >= 1
    ensures forall i | 0 <= i < |s| :: IsDigit(s[i])
    ensures |s| > 1 ==> s[0] != '0'
    decreases n
  {
    if n < 10 then [DigitChar(n)] else Decimal(n / 10) + [DigitChar(n % 10)]
  }

  /** The number a string of digits denotes. */
  function ValueOf(s: seq<char>): nat
    requires forall i | 0 <= i < |s| :: IsDigit(s[i])
  {
    if |s| == 0 then 0 else ValueOf(s[..|s| - 1]) * 10 + DigitValue(s[|s| - 1])
  }

  function Zeros(n: nat): (z: seq<char>)
    ensures |z| == n && forall i | 0 <= i < n :: z[i] == '0'
  {
    if n == 0 then [] else Zeros(n - 1) + ['0']
  }

  /** Left-pad with '0' to at least `width` characters. */
  function PadLeft(s: seq<char>, width: nat): (r: seq<char>)
    ensures |r| == if |s| >= width then |s| else width
    ensures r[|r| - |s|..] == s
    ensures forall i | 0 <= i < |r| - |s| :: r[i] == '0'
  {
    if |s| >= width then s else Zeros(width - |s|) + s
  }

  /** The name of a segment: `prefix` then the zero-padded device id. */
  function SegmentName(prefix: string, id: nat): (name: string)
    ensures |name| >= |prefix| + 3
    ensures name[..|prefix|] == prefix
    ensures forall i | |prefix| <= i < |name| :: IsDigit(name[i])
  {
    prefix + PadLeft(Decimal(id), 3)
  }

  lemma {:induction false} ValueOfDecimal(n: nat)
    ensures ValueOf(Decimal(n)) == n
    decreases n
  {
    if n >= 10 {
      var s := Decimal(n);
      assert s[..|s| - 1] == Decimal(n / 10);
      ValueOfDecimal(n / 10);
    }
  }

  lemma {:induction false} ValueOfLeadingZero(s: seq<char>)
    requires forall i | 0 <= i < |s| :: IsDigit(s[i])
    ensures ValueOf(['0'] + s) == ValueOf(s)
    decreases |s|
  {
    if |s| > 0 {
      var t := ['0'] + s;
      assert t[..|t| - 1] == ['0'] + s[..|s| - 1];
      ValueOfLeadingZero(s[..|s| - 1]);
    }
  }

  lemma {:induction false} ValueOfZeros(n: nat, s: seq<char>)
    requires forall i | 0 <= i < |s| :: IsDigit(s[i])
    ensures ValueOf(Zeros(n) + s) == ValueOf(s)
    decreases n
  {
    if n > 0 {
      var t := Zeros(n - 1) + s;
      assert forall i | 0 <= i < |t| :: IsDigit(t[i]);
      assert Zeros(n) + s == ['0'] + t;
      ValueOfLeadingZero(t);
      ValueOfZeros(n - 1, s);
    } else {
      assert Zeros(n) + s == s;
    }
  }

  /** Reading back the digits of a name's padded id gives the id. */
  lemma IdOfName(prefix: string, id: nat)
    ensures ValueOf(SegmentName(prefix, id)[|prefix|..]) == id
  {
    var d := Decimal(id);
    var name := SegmentName(prefix, id);
    assert name[|prefix|..] == PadLeft(d, 3);
    if |d| < 3 {
      ValueOfZeros(3 - |d|, d);
    }
    ValueOfDecimal(id);
  }

  /** Names are injective in the device id: distinct devices of one kind never
      share a segment. */
  lemma SegmentNameInjective(prefix: string, a: nat, b: nat)
    ensures SegmentName(prefix, a) == SegmentName(prefix, b) <==> a == b
  {
    if SegmentName(prefix, a) == SegmentName(prefix, b) {
      IdOfName(prefix, a);
      IdOfName(prefix, b);
    }
  }

  /** Two prefixes that differ at a position both cover give disjoint name sets. */
  lemma PrefixesSeparate(p: string, q: string, a: nat, b: nat, at: nat)
    requires at < |p| && at < |q| && p[at] != q[at]
    ensures SegmentName(p, a) != SegmentName(q, b)
  {
    assert SegmentName(p, a)[at] == p[at];
    assert SegmentName(q, b)[at] == q[at];
  }
}
