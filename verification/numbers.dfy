/** Fixed-width integers and the culture-invariant number formatting of the .NET base library:
    `Int32.ToString(CultureInfo.InvariantCulture)`, `Boolean.ToString()`, the `(short)` cast,
    and the upper-case hexadecimal of `BitConverter.ToString`. */
module Numbers {
  import Text

  type Int16 = x: int | -0x8000 <= x < 0x8000
  type Int32 = x: int | -0x8000_0000 <= x < 0x8000_0000
  type Int64 = x: int | -0x8000_0000_0000_0000 <= x < 0x8000_0000_0000_0000
  type Byte = x: int | 0 <= x < 0x100

  /** The C# cast `(short)x` of a 32-bit value: keeps the low 16 bits, read as two's complement. */
  function ToInt16(x: Int32): (r: Int16)
    ensures (r - x) % 0x1_0000 == 0
    ensures -0x8000 <= x < 0x8000 ==> r == x
  {
    var low := (x + 0x8000) % 0x1_0000;
    low - 0x8000
  }

  predicate IsDigit(c: char) {
    '0' <= c <= '9'
  }

  function DigitChar(d: nat): (c: char)
    requires d < 10
    ensures IsDigit(c)
  {
    "0123456789"[d]
  }

  /** The decimal digits of `n`, most significant first, without leading zeros. */
  function NatToString(n: nat): (r: string)
    ensures |r| >= 1
    ensures forall i :: 0 <= i < |r| ==> IsDigit(r[i])
    ensures n >= 10 ==> |r| >= 2
  {
    if n < 10 then [DigitChar(n)]
    else NatToString(n / 10) + [DigitChar(n % 10)]
  }

  /** `ToString(CultureInfo.InvariantCulture)` of an integer: a `-` sign for negatives,
      then the decimal digits. */
  function IntToString(n: int): (r: string)
    ensures |r| >= 1
    ensures forall i :: 0 <= i < |r| ==> IsDigit(r[i]) || (i == 0 && r[i] == '-')
    ensures (r[0] == '-') <==> n < 0
    ensures '\n' !in r
  {
    if n < 0 then "-" + NatToString(-n) else NatToString(n)
  }

  lemma DigitCharInjective(a: nat, b: nat)
    requires a < 10 && b < 10
    requires DigitChar(a) == DigitChar(b)
    ensures a == b
  {
  }

  /** Different natural numbers have different decimal representations. */
  lemma {:induction false} NatToStringInjective(a: nat, b: nat)
    requires NatToString(a) == NatToString(b)
    ensures a == b
    decreases a
  {
    var ra, rb := NatToString(a), NatToString(b);
    if a < 10 && b < 10 {
      DigitCharInjective(a, b);
    } else if a >= 10 && b >= 10 {
      assert ra[|ra| - 1] == DigitChar(a % 10);
      assert rb[|rb| - 1] == DigitChar(b % 10);
      DigitCharInjective(a % 10, b % 10);
      assert ra[..|ra| - 1] == NatToString(a / 10);
      assert rb[..|rb| - 1] == NatToString(b / 10);
      NatToStringInjective(a / 10, b / 10);
    }
  }

  /** Invariant-culture integer formatting is injective. */
  lemma IntToStringInjective(a: int, b: int)
    requires IntToString(a) == IntToString(b)
    ensures a == b
  {
    if a < 0 {
      assert NatToString(-a) == IntToString(a)[1..];
      assert NatToString(-b) == IntToString(b)[1..];
      NatToStringInjective(-a, -b);
    } else {
      NatToStringInjective(a, b);
    }
  }

  /** `Boolean.ToString()`. */
  function BoolToString(b: bool): (r: string)
    ensures '\n' !in r
  {
    if b then "True" else "False"
  }

  predicate IsUpperHexDigit(c: char) {
    ('0' <= c <= '9') || ('A' <= c <= 'F')
  }

  /** The two upper-case hexadecimal digits of a byte. */
  function ByteToHex(b: Byte): (r: string)
    ensures |r| == 2
    ensures IsUpperHexDigit(r[0]) && IsUpperHexDigit(r[1])
  {
    var digits := "0123456789ABCDEF";
    [digits[b / 16], digits[b % 16]]
  }

  function HexPairs(bytes: seq<Byte>): (r: seq<string>)
    ensures |r| == |bytes|
    ensures forall i :: 0 <= i < |r| ==> r[i] == ByteToHex(bytes[i])
  {
    if |bytes| == 0 then [] else [ByteToHex(bytes[0])] + HexPairs(bytes[1..])
  }

  /** `BitConverter.ToString(bytes)`: the hex pairs joined with `-`. */
  function BitConverterToString(bytes: seq<Byte>): string
  {
    Text.Join("-", HexPairs(bytes))
  }

  predicate AllUpperHex(s: string) {
    forall i :: 0 <= i < |s| ==> IsUpperHexDigit(s[i])
  }

  /** The strings of `xs` one after another. */
  function Concat(xs: seq<string>): string
  {
    if |xs| == 0 then "" else xs[0] + Concat(xs[1..])
  }

  /** Removing a separator that no piece contains undoes the join. */
  lemma {:induction false} RemoveSeparatorOfJoin(xs: seq<string>, c: char)
    requires forall i :: 0 <= i < |xs| ==> c !in xs[i]
    ensures Text.RemoveChar(Text.Join([c], xs), c) == Concat(xs)
  {
    if |xs| == 1 {
      RemoveCharAbsent(xs[0], c);
      assert Concat(xs[1..]) == "";
    } else if |xs| > 1 {
      var rest := Text.Join([c], xs[1..]);
      RemoveSeparatorOfJoin(xs[1..], c);
      RemoveCharAbsent(xs[0], c);
      assert Text.Join([c], xs) == xs[0] + ([c] + rest);
      RemoveCharConcat(xs[0], [c] + rest, c);
      assert ([c] + rest)[1..] == rest;
    }
  }

  lemma {:induction false} ConcatOfHexPairs(bytes: seq<Byte>)
    ensures |Concat(HexPairs(bytes))| == 2 * |bytes|
    ensures AllUpperHex(Concat(HexPairs(bytes)))
  {
    if |bytes| > 0 {
      var h := ByteToHex(bytes[0]);
      assert HexPairs(bytes)[1..] == HexPairs(bytes[1..]);
      ConcatOfHexPairs(bytes[1..]);
      var tail := Concat(HexPairs(bytes[1..]));
      var r := h + tail;
      assert Concat(HexPairs(bytes)) == r;
      forall i | 0 <= i < |r| ensures IsUpperHexDigit(r[i]) {
        if i >= 2 { assert r[i] == tail[i - 2]; }
      }
    }
  }

  /** Removing the dashes from `BitConverter.ToString(bytes)` leaves two upper-case
      hexadecimal digits per byte and nothing else. */
  lemma HexWithoutDashes(bytes: seq<Byte>)
    ensures var r := Text.RemoveChar(BitConverterToString(bytes), '-');
            |r| == 2 * |bytes| && AllUpperHex(r)
  {
    var pairs := HexPairs(bytes);
    forall i | 0 <= i < |pairs| ensures '-' !in pairs[i] {
      assert IsUpperHexDigit(pairs[i][0]) && IsUpperHexDigit(pairs[i][1]);
    }
    assert "-" == ['-'];
    RemoveSeparatorOfJoin(pairs, '-');
    ConcatOfHexPairs(bytes);
  }

  lemma {:induction false} RemoveCharAbsent(s: string, c: char)
    requires c !in s
    ensures Text.RemoveChar(s, c) == s
  {
    if |s| > 0 {
      RemoveCharAbsent(s[1..], c);
      assert [s[0]] + s[1..] == s;
    }
  }

  lemma {:induction false} RemoveCharConcat(a: string, b: string, c: char)
    ensures Text.RemoveChar(a + b, c) == Text.RemoveChar(a, c) + Text.RemoveChar(b, c)
  {
    if |a| > 0 {
      assert (a + b)[1..] == a[1..] + b;
      RemoveCharConcat(a[1..], b, c);
    } else {
      assert a + b == b;
    }
  }
}
