/** Printed numbers, and splitting text at a separator. */
module Printing {

  const DIGITS := "0123456789abcdef"

  /** As `{}` prints an unsigned number. */
  function Decimal(n: nat): (text: string)
    ensures text != [] && (|text| == 1 <==> n < 10)
    ensures forall c <- text :: c in DIGITS
    decreases n
  {
    if n < 10 then [DIGITS[n]] else Decimal(n / 10) + [DIGITS[n % 10]]
  }

  lemma {:induction false} DecimalInjective(m: nat, n: nat)
    requires Decimal(m) == Decimal(n)
    ensures m == n
    decreases m
  {
    if m >= 10 {
      SameLast(Decimal(m / 10), DIGITS[m % 10], Decimal(n / 10), DIGITS[n % 10]);
      DecimalInjective(m / 10, n / 10);
      DigitsDiffer(m % 10, n % 10);
    } else {
      DigitsDiffer(m, n);
    }
  }

  /** As `{:016x}` prints a number, when `width` is 16: lower-case hexadecimal, zero-padded. */
  function Hex(n: nat, width: nat): (text: string)
    ensures |text| == width && forall c <- text :: c in DIGITS
    decreases width
  {
    if width == 0 then "" else Hex(n / 16, width - 1) + [DIGITS[n % 16]]
  }

  ghost function Power16(width: nat): nat
    decreases width
  {
    if width == 0 then 1 else 16 * Power16(width - 1)
  }

  lemma {:induction false} HexInjective(m: nat, n: nat, width: nat)
    requires m < Power16(width) && n < Power16(width) && Hex(m, width) == Hex(n, width)
    ensures m == n
    decreases width
  {
    if width > 0 {
      SameLast(Hex(m / 16, width - 1), DIGITS[m % 16], Hex(n / 16, width - 1), DIGITS[n % 16]);
      HexInjective(m / 16, n / 16, width - 1);
      DigitsDiffer(m % 16, n % 16);
    }
  }

  lemma SameLast(a: string, c: char, b: string, d: char)
    requires a + [c] == b + [d]
    ensures a == b && c == d
  {
    assert |a| == |b|;
    assert (a + [c])[|a|] == c && (b + [d])[|a|] == d;
    assert a == (a + [c])[..|a|] && b == (b + [d])[..|a|];
  }

  lemma DigitsDiffer(i: nat, j: nat)
    requires i < 16 && j < 16 && DIGITS[i] == DIGITS[j]
    ensures i == j
  {
  }

  lemma SameLengthParts(a: string, s: string, b: string, t: string, sep: char)
    requires a + [sep] + s == b + [sep] + t && |a| == |b|
    ensures a == b && s == t
  {
    var whole := a + [sep] + s;
    assert a == whole[..|a|] && b == whole[..|b|];
    assert s == whole[|a| + 1..] && t == whole[|b| + 1..];
  }

  lemma SplitAtFirst(a: string, s: string, b: string, t: string, sep: char)
    requires a + [sep] + s == b + [sep] + t && sep !in a && sep !in b
    ensures a == b && s == t
  {
    var whole := a + [sep] + s;
    assert whole[|a|] == sep && whole[|b|] == sep;
    assert forall i | 0 <= i < |a| :: whole[i] == a[i] && a[i] in a;
    assert forall i | 0 <= i < |b| :: whole[i] == b[i] && b[i] in b;
    SameLengthParts(a, s, b, t, sep);
  }

  lemma SplitAtLast(a: string, s: string, b: string, t: string, sep: char)
    requires a + [sep] + s == b + [sep] + t && sep !in s && sep !in t
    ensures a == b && s == t
  {
    var whole := a + [sep] + s;
    assert whole[|a|] == sep && whole[|b|] == sep;
    assert forall i | 0 <= i < |s| :: whole[|a| + 1 + i] == s[i] && s[i] in s;
    assert forall i | 0 <= i < |t| :: whole[|b| + 1 + i] == t[i] && t[i] in t;
    SameLengthParts(a, s, b, t, sep);
  }

  lemma SameAfterPrefix(prefix: string, s: string, t: string)
    requires prefix + s == prefix + t
    ensures s == t
  {
    assert s == (prefix + s)[|prefix|..] && t == (prefix + t)[|prefix|..];
  }

  /** Numbers separated by colons. */
  function Colons(fields: seq<nat>): string {
    if fields == [] then ""
    else if |fields| == 1 then Decimal(fields[0])
    else Decimal(fields[0]) + ":" + Colons(fields[1..])
  }

  /** As many numbers, each followed by a colon, are read back unambiguously. */
  lemma {:induction false} ColonsSplit(fields: seq<nat>, s: string, others: seq<nat>, t: string)
    requires |fields| == |others| > 0
    requires Colons(fields) + ":" + s == Colons(others) + ":" + t
    ensures fields == others && s == t
  {
    var restOfFields, restOfOthers := Colons(fields[1..]) + ":" + s, Colons(others[1..]) + ":" + t;
    if |fields| == 1 {
      SplitAtFirst(Decimal(fields[0]), s, Decimal(others[0]), t, ':');
    } else {
      assert Colons(fields) + ":" + s == Decimal(fields[0]) + ":" + restOfFields;
      assert Colons(others) + ":" + t == Decimal(others[0]) + ":" + restOfOthers;
      SplitAtFirst(Decimal(fields[0]), restOfFields, Decimal(others[0]), restOfOthers, ':');
      ColonsSplit(fields[1..], s, others[1..], t);
    }
    DecimalInjective(fields[0], others[0]);
    assert fields == [fields[0]] + fields[1..] && others == [others[0]] + others[1..];
  }
}
