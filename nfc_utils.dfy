/** The hex formatters of nfc_utils.py (`int2hex`, `list2hex`); nfc.py's
    `_int2hex` and `_list2hex` are the same two functions. */
module NfcUtils {

  /** The digits `format` uses for the `x` presentation type. */
  const HEX_DIGITS: string := "0123456789abcdef"

  predicate IsHexDigit(c: char) {
    '0' <= c <= '9' || 'a' <= c <= 'f'
  }

  function HexDigit(d: int): (c: char)
    requires 0 <= d < 16
    ensures IsHexDigit(c)
  {
    HEX_DIGITS[d]
  }

  /** The value of a lowercase hex digit. */
  function DigitValue(c: char): (d: int)
    requires IsHexDigit(c)
    ensures 0 <= d < 16
  {
    if c <= '9' then c as int - '0' as int else c as int - 'a' as int + 10
  }

  lemma DigitValueOf(d: int)
    requires 0 <= d < 16
    ensures DigitValue(HexDigit(d)) == d
  {
  }

  /** `format(x, 'x')` for `x >= 0`: the shortest lowercase hex numeral. */
  function Digits(x: nat): (s: string)
    ensures x < 16 <==> |s| == 1
    decreases x
  {
    if x < 16 then [HexDigit(x)] else Digits(x / 16) + [HexDigit(x % 16)]
  }

  /** The numeral is made of hex digits only. */
  lemma {:induction false} DigitsAreHex(x: nat)
    ensures forall i :: 0 <= i < |Digits(x)| ==> IsHexDigit(Digits(x)[i])
    decreases x
  {
    if x >= 16 {
      DigitsAreHex(x / 16);
    }
  }

  /** `"{:02x}".format(x)`: lowercase hex, padded with zeros to two places;
      a negative number is its magnitude after a minus sign, which already
      fills the two places. */
  function Int2Hex(x: int): (s: string)
    ensures |s| >= 2
  {
    if x < 0 then "-" + Digits(-x)
    else if x < 16 then "0" + Digits(x)
    else Digits(x)
  }

  /** The text of a number is hex digits, after a '-' when it is negative,
      and never holds a ':'. */
  lemma Int2HexShape(x: int)
    ensures var s := Int2Hex(x);
            && (x >= 0 ==> forall i :: 0 <= i < |s| ==> IsHexDigit(s[i]))
            && (x < 0 ==> s[0] == '-' && forall i :: 1 <= i < |s| ==> IsHexDigit(s[i]))
            && (forall i :: 0 <= i < |s| ==> s[i] != ':')
  {
    DigitsAreHex(if x < 0 then -x else x);
  }

  /** A string of lowercase hex digits only. */
  predicate IsHexNumeral(s: string) {
    forall i :: 0 <= i < |s| ==> IsHexDigit(s[i])
  }

  /** The value of a numeral of lowercase hex digits, as `int(s, 16)` reads it. */
  function ParseHex(s: string): (v: nat)
    requires IsHexNumeral(s)
    decreases |s|
  {
    if s == [] then 0 else 16 * ParseHex(s[..|s| - 1]) + DigitValue(s[|s| - 1])
  }

  lemma {:induction false} DigitsRoundTrip(x: nat)
    ensures IsHexNumeral(Digits(x)) && ParseHex(Digits(x)) == x
    decreases x
  {
    DigitsAreHex(x);
    var s := Digits(x);
    if x < 16 {
      assert s[..0] == [];
      DigitValueOf(x);
    } else {
      var q, r := x / 16, x % 16;
      DigitsRoundTrip(q);
      assert s[..|s| - 1] == Digits(q);
      assert s[|s| - 1] == HexDigit(r);
      DigitValueOf(r);
      assert x == 16 * q + r;
    }
  }

  lemma {:induction false} ParseHexLeadingZero(s: string)
    requires IsHexNumeral(s)
    ensures IsHexNumeral("0" + s) && ParseHex("0" + s) == ParseHex(s)
    decreases |s|
  {
    if s != [] {
      var t := "0" + s;
      assert t[..|t| - 1] == "0" + s[..|s| - 1];
      ParseHexLeadingZero(s[..|s| - 1]);
    }
  }

  /** Reading the numeral back as base 16 gives the number. */
  lemma Int2HexRoundTrip(x: nat)
    ensures IsHexNumeral(Int2Hex(x)) && ParseHex(Int2Hex(x)) == x
  {
    DigitsRoundTrip(x);
    if x < 16 {
      ParseHexLeadingZero(Digits(x));
    }
  }

  /** A byte becomes exactly two lowercase hex digits, zero-padded: the high
      and the low nibble. */
  lemma Int2HexByte(b: int)
    requires 0 <= b <= 255
    ensures var s := Int2Hex(b);
            && |s| == 2
            && IsHexDigit(s[0]) && IsHexDigit(s[1])
            && s[0] == HEX_DIGITS[b / 16] && s[1] == HEX_DIGITS[b % 16]
  {
    if b >= 16 {
      assert Digits(b / 16) == [HexDigit(b / 16)];
    }
  }

  /** Different bytes never print alike. */
  lemma Int2HexInjective(a: int, b: int)
    requires 0 <= a <= 255 && 0 <= b <= 255
    requires Int2Hex(a) == Int2Hex(b)
    ensures a == b
  {
    Int2HexRoundTrip(a);
    Int2HexRoundTrip(b);
  }

  /** `map(int2hex, data)` */
  function HexParts(xs: seq<int>): (ps: seq<string>)
    ensures |ps| == |xs|
  {
    seq(|xs|, i requires 0 <= i < |xs| => Int2Hex(xs[i]))
  }

  /** The parts of a non-empty list: the first number's text, then the parts of the others. */
  lemma HexPartsCons(xs: seq<int>)
    requires |xs| >= 1
    ensures HexParts(xs) == [Int2Hex(xs[0])] + HexParts(xs[1..])
  {
    assert HexParts(xs)[1..] == HexParts(xs[1..]);
  }

  /** `":".join(parts)` */
  function Join(parts: seq<string>): string
    decreases |parts|
  {
    if parts == [] then ""
    else if |parts| == 1 then parts[0]
    else parts[0] + ":" + Join(parts[1..])
  }

  /** `list2hex(data)` */
  function List2Hex(xs: seq<int>): string {
    Join(HexParts(xs))
  }

  lemma List2HexEmpty()
    ensures List2Hex([]) == ""
  {
  }

  /** The text of a list of at least two numbers: the first one's text, a ':'
      and the text of the others. */
  lemma List2HexCons(xs: seq<int>)
    requires |xs| >= 2
    ensures List2Hex(xs) == Int2Hex(xs[0]) + ":" + List2Hex(xs[1..])
  {
    assert HexParts(xs)[1..] == HexParts(xs[1..]);
  }

  /** For n >= 1 bytes the text is 3n - 1 characters with a ':' at every
      position 2, 5, 8, ... and nowhere else. */
  lemma List2HexColons(xs: seq<int>)
    requires |xs| >= 1
    requires forall i :: 0 <= i < |xs| ==> 0 <= xs[i] <= 255
    ensures var s := List2Hex(xs);
            && |s| == 3 * |xs| - 1
            && (forall p :: 0 <= p < |s| ==> (s[p] == ':' <==> p % 3 == 2))
  {
    List2HexLength(xs);
    forall p | 0 <= p < |List2Hex(xs)| ensures List2Hex(xs)[p] == ':' <==> p % 3 == 2 {
      List2HexColonAt(xs, p);
    }
  }

  lemma {:induction false} List2HexLength(xs: seq<int>)
    requires |xs| >= 1
    requires forall i :: 0 <= i < |xs| ==> 0 <= xs[i] <= 255
    ensures |List2Hex(xs)| == 3 * |xs| - 1
    decreases |xs|
  {
    Int2HexByte(xs[0]);
    if |xs| >= 2 {
      List2HexCons(xs);
      List2HexLength(xs[1..]);
    }
  }

  lemma {:induction false} List2HexColonAt(xs: seq<int>, p: int)
    requires |xs| >= 1
    requires forall i :: 0 <= i < |xs| ==> 0 <= xs[i] <= 255
    requires 0 <= p < 3 * |xs| - 1
    ensures |List2Hex(xs)| == 3 * |xs| - 1 && (List2Hex(xs)[p] == ':' <==> p % 3 == 2)
    decreases |xs|
  {
    List2HexLength(xs);
    Int2HexByte(xs[0]);
    var h := Int2Hex(xs[0]);
    if |xs| == 1 {
      assert List2Hex(xs) == h;
      assert h[p] != ':';
      ModThree(p);
    } else {
      var u := h + ":";
      var t := List2Hex(xs[1..]);
      List2HexCons(xs);
      assert |u| == 3 && List2Hex(xs) == u + t;
      if p < 2 {
        assert (u + t)[p] == u[p] == h[p] != ':';
        ModThree(p);
      } else if p == 2 {
        assert (u + t)[p] == u[2] == ':';
        ModThree(p);
      } else {
        List2HexColonAt(xs[1..], p - 3);
        assert (u + t)[p] == t[p - 3];
        ModThree(p);
      }
    }
  }

  lemma ModThree(p: int)
    requires p >= 0
    ensures p < 3 ==> p % 3 == p
    ensures p >= 3 ==> (p - 3) % 3 == p % 3
  {
  }

  /** The i-th byte's two digits sit at positions 3i and 3i + 1. */
  lemma List2HexDigits(xs: seq<int>)
    requires |xs| >= 1
    requires forall i :: 0 <= i < |xs| ==> 0 <= xs[i] <= 255
    ensures forall i :: 0 <= i < |xs| ==> 3 * i + 2 <= |List2Hex(xs)| && List2Hex(xs)[3 * i..3 * i + 2] == Int2Hex(xs[i])
  {
    forall i | 0 <= i < |xs| ensures 3 * i + 2 <= |List2Hex(xs)| && List2Hex(xs)[3 * i..3 * i + 2] == Int2Hex(xs[i]) {
      List2HexDigitAt(xs, i);
    }
  }

  lemma {:induction false} List2HexDigitAt(xs: seq<int>, i: int)
    requires 0 <= i < |xs|
    requires forall j :: 0 <= j < |xs| ==> 0 <= xs[j] <= 255
    ensures 3 * i + 2 <= |List2Hex(xs)| && List2Hex(xs)[3 * i..3 * i + 2] == Int2Hex(xs[i])
    decreases i
  {
    List2HexLength(xs);
    Int2HexByte(xs[0]);
    var h := Int2Hex(xs[0]);
    if |xs| == 1 {
      assert List2Hex(xs) == h == h[0..2];
    } else {
      var u := h + ":";
      var t := List2Hex(xs[1..]);
      List2HexCons(xs);
      assert List2Hex(xs) == u + t;
      if i == 0 {
        assert (u + t)[0..2] == h;
      } else {
        var a := 3 * (i - 1);
        List2HexDigitAt(xs[1..], i - 1);
        assert xs[1..][i - 1] == xs[i];
        assert t[a..a + 2] == Int2Hex(xs[i]);
        SliceAfter(u, t, a, a + 2);
        assert |u| + a == 3 * i;
        assert (u + t)[3 * i..3 * i + 2] == t[a..a + 2];
      }
    }
  }

  lemma SliceAfter<T>(u: seq<T>, t: seq<T>, a: int, b: int)
    requires 0 <= a <= b <= |t|
    ensures (u + t)[|u| + a..|u| + b] == t[a..b]
  {
  }

  /** Python's `s.split(':')`: the pieces between the colons, one more than
      there are colons. */
  function Split(s: string): (r: seq<string>)
    ensures |r| >= 1
    decreases |s|
  {
    if s == [] then [""]
    else if s[0] == ':' then [""] + Split(s[1..])
    else
      var rest := Split(s[1..]);
      [[s[0]] + rest[0]] + rest[1..]
  }

  lemma {:induction false} SplitNoColon(a: string)
    requires forall i :: 0 <= i < |a| ==> a[i] != ':'
    ensures Split(a) == [a]
    decreases |a|
  {
    if a != [] {
      SplitNoColon(a[1..]);
      assert [a[0]] + a[1..] == a;
    }
  }

  lemma {:induction false} SplitAtColon(a: string, b: string)
    requires forall i :: 0 <= i < |a| ==> a[i] != ':'
    ensures Split(a + ":" + b) == [a] + Split(b)
    decreases |a|
  {
    var s := a + ":" + b;
    if a == [] {
      assert s == ":" + b;
      assert s[1..] == b;
    } else {
      assert s[1..] == a[1..] + ":" + b;
      SplitAtColon(a[1..], b);
      assert [a[0]] + a[1..] == a;
    }
  }

  /** Splitting the text of a non-empty list on ':' gives back each number's
      own two-place hex text, in order (`map(int2hex, data)`). */
  lemma {:induction false} SplitList2Hex(xs: seq<int>)
    requires |xs| >= 1
    ensures Split(List2Hex(xs)) == HexParts(xs)
    decreases |xs|
  {
    var h := Int2Hex(xs[0]);
    Int2HexShape(xs[0]);
    HexPartsCons(xs);
    if |xs| == 1 {
      SplitNoColon(h);
      assert HexParts(xs[1..]) == [];
    } else {
      var rest := xs[1..];
      List2HexCons(xs);
      SplitAtColon(h, List2Hex(rest));
      SplitList2Hex(rest);
    }
  }
}
