/** Text operations the statement builders use: `Array.prototype.join`,
    reading a comma-separated list back, counting `?` placeholders, and the
    decimal rendering of an integer interpolated into a template literal. */
module SqlText {

  /** `parts.join(sep)`. */
  function Join(parts: seq<string>, sep: string): string
  {
    if |parts| == 0 then ""
    else if |parts| == 1 then parts[0]
    else parts[0] + sep + Join(parts[1..], sep)
  }

  /** Number of occurrences of `c` in `s`. */
  function CountChar(s: string, c: char): nat
  {
    if |s| == 0 then 0 else (if s[0] == c then 1 else 0) + CountChar(s[1..], c)
  }

  /** `s` does not contain `c`. */
  predicate Free(s: string, c: char) {
    forall i :: 0 <= i < |s| ==> s[i] != c
  }

  lemma FreeAppend(a: string, b: string, c: char)
    requires Free(a, c) && Free(b, c)
    ensures Free(a + b, c)
  {
  }

  lemma {:induction false} CountCharAppend(a: string, b: string, c: char)
    ensures CountChar(a + b, c) == CountChar(a, c) + CountChar(b, c)
    decreases |a|
  {
    if |a| == 0 {
      assert a + b == b;
    } else {
      assert (a + b)[1..] == a[1..] + b;
      CountCharAppend(a[1..], b, c);
    }
  }

  lemma CountCharConcat3(a: string, b: string, d: string, c: char)
    ensures CountChar(a + b + d, c) == CountChar(a, c) + CountChar(b, c) + CountChar(d, c)
  {
    CountCharAppend(a, b, c);
    CountCharAppend(a + b, d, c);
  }

  lemma CountCharConcat4(a: string, b: string, d: string, e: string, c: char)
    ensures CountChar(a + b + d + e, c) == CountChar(a, c) + CountChar(b, c) + CountChar(d, c) + CountChar(e, c)
  {
    CountCharAppend(a, b, c);
    CountCharAppend(a + b, d, c);
    CountCharAppend(a + b + d, e, c);
  }

  lemma CountCharConcat7(a: string, b: string, d: string, e: string, f: string, g: string, h: string, c: char)
    ensures CountChar(a + b + d + e + f + g + h, c)
      == CountChar(a, c) + CountChar(b, c) + CountChar(d, c) + CountChar(e, c) + CountChar(f, c) + CountChar(g, c) + CountChar(h, c)
  {
    CountCharConcat4(a, b, d, e, c);
    CountCharAppend(a + b + d + e, f, c);
    CountCharAppend(a + b + d + e + f, g, c);
    CountCharAppend(a + b + d + e + f + g, h, c);
  }

  lemma {:induction false} CountCharFree(s: string, c: char)
    requires Free(s, c)
    ensures CountChar(s, c) == 0
    decreases |s|
  {
    if |s| > 0 {
      CountCharFree(s[1..], c);
    }
  }

  /** A string whose only `c` is its last character holds one `c`. */
  lemma CountCharLast(s: string, c: char)
    requires |s| > 0 && Free(s[..|s| - 1], c) && s[|s| - 1] == c
    ensures CountChar(s, c) == 1
  {
    var k := |s| - 1;
    CountCharFree(s[..k], c);
    CountCharAppend(s[..k], s[k..], c);
    assert s[..k] + s[k..] == s;
    assert CountChar(s[k..], c) == 1;
  }

  /** Joining parts that each hold `k` copies of `c`, with a separator that
      holds none, gives `k` copies per part. */
  lemma {:induction false} CountCharJoin(parts: seq<string>, sep: string, c: char, k: nat)
    requires forall i :: 0 <= i < |parts| ==> CountChar(parts[i], c) == k
    requires CountChar(sep, c) == 0
    ensures CountChar(Join(parts, sep), c) == k * |parts|
    decreases |parts|
  {
    if |parts| == 0 {
      assert Join(parts, sep) == "";
    } else if |parts| == 1 {
      assert Join(parts, sep) == parts[0];
    } else {
      var rest := Join(parts[1..], sep);
      assert Join(parts, sep) == parts[0] + sep + rest;
      CountCharJoin(parts[1..], sep, c, k);
      var n := CountChar(rest, c);
      assert n == k * (|parts| - 1);
      CountCharAppend(parts[0], sep, c);
      CountCharAppend(parts[0] + sep, rest, c);
      assert CountChar(Join(parts, sep), c) == k + n;
      MulSucc(k, |parts| - 1);
    }
  }

  lemma MulSucc(k: nat, n: nat)
    ensures k + k * n == k * (n + 1)
  {
  }

  /** Reading past a prefix gives back what follows it. */
  lemma DropPrefix(p: string, s: string)
    ensures (p + s)[..|p|] == p && (p + s)[|p|..] == s
  {
  }

  lemma Assoc4(a: string, b: string, d: string, e: string)
    ensures a + b + d + e == a + (b + (d + e))
  {
  }

  lemma Assoc5(a: string, b: string, d: string, e: string, f: string)
    ensures a + b + d + e + f == a + (b + (d + (e + f)))
  {
  }

  /** Reads a `", "`-separated list back into its parts; `acc` is the part
      being read. */
  function SplitFrom(s: string, acc: string): seq<string>
    decreases |s|
  {
    if |s| == 0 then [acc]
    else if |s| >= 2 && s[0] == ',' && s[1] == ' ' then [acc] + SplitFrom(s[2..], "")
    else SplitFrom(s[1..], acc + [s[0]])
  }

  /** The parts of a `", "`-separated list. */
  function SplitList(s: string): seq<string>
  {
    SplitFrom(s, "")
  }

  lemma {:induction false} SplitFromPart(p: string, rest: string, acc: string)
    requires Free(p, ',')
    ensures SplitFrom(p + rest, acc) == SplitFrom(rest, acc + p)
    decreases |p|
  {
    if |p| == 0 {
      assert p + rest == rest;
      assert acc + p == acc;
    } else {
      assert (p + rest)[0] == p[0];
      assert (p + rest)[1..] == p[1..] + rest;
      assert acc + [p[0]] + p[1..] == acc + p;
      SplitFromPart(p[1..], rest, acc + [p[0]]);
    }
  }

  /** Splitting a joined list gives the parts back, provided no part holds a
      comma. */
  lemma {:induction false} SplitJoin(parts: seq<string>)
    requires |parts| > 0
    requires forall i :: 0 <= i < |parts| ==> Free(parts[i], ',')
    ensures SplitList(Join(parts, ", ")) == parts
    decreases |parts|
  {
    if |parts| == 1 {
      SplitFromPart(parts[0], "", "");
      assert parts[0] + "" == parts[0];
      assert "" + parts[0] == parts[0];
    } else {
      var rest := Join(parts[1..], ", ");
      assert Join(parts, ", ") == parts[0] + (", " + rest);
      SplitFromPart(parts[0], ", " + rest, "");
      assert "" + parts[0] == parts[0];
      var s := ", " + rest;
      assert s[2..] == rest;
      SplitJoin(parts[1..]);
      assert [parts[0]] + parts[1..] == parts;
    }
  }

  /** A decimal digit. */
  function DigitChar(d: nat): (c: char)
    requires d < 10
    ensures IsDigit(c) && DigitValue(c) == d
  {
    ('0' as int + d) as char
  }

  /** The decimal form of a natural number, as `${n}` renders it. */
  function NatToDecimal(n: nat): string
    decreases n
  {
    if n < 10 then [DigitChar(n)] else NatToDecimal(n / 10) + [DigitChar(n % 10)]
  }

  /** The decimal form of an integer, with a leading `-` when negative. */
  function IntToDecimal(i: int): string
  {
    if i < 0 then "-" + NatToDecimal(-i) else NatToDecimal(i)
  }

  /** The value of a decimal digit character. */
  function DigitValue(c: char): nat
  {
    if '0' <= c <= '9' then (c as int - '0' as int) else 0
  }

  /** Reads a string of decimal digits. */
  function ParseNat(s: string): nat
    decreases |s|
  {
    if |s| == 0 then 0 else ParseNat(s[..|s| - 1]) * 10 + DigitValue(s[|s| - 1])
  }

  /** Reads an optionally signed decimal integer. */
  function ParseInt(s: string): int
  {
    if |s| > 0 && s[0] == '-' then 0 - ParseNat(s[1..]) else ParseNat(s)
  }

  predicate IsDigit(c: char) {
    '0' <= c <= '9'
  }

  lemma {:induction false} NatToDecimalDigits(n: nat)
    ensures |NatToDecimal(n)| > 0
    ensures forall i :: 0 <= i < |NatToDecimal(n)| ==> IsDigit(NatToDecimal(n)[i])
    ensures ParseNat(NatToDecimal(n)) == n
    decreases n
  {
    if n >= 10 {
      NatToDecimalDigits(n / 10);
      var s := NatToDecimal(n);
      assert s[..|s| - 1] == NatToDecimal(n / 10);
      assert DigitValue(s[|s| - 1]) == n % 10;
      assert ParseNat(s) == (n / 10) * 10 + n % 10;
    }
  }

  /** Rendering an integer and reading it back gives the integer. */
  lemma IntToDecimalRoundTrip(i: int)
    ensures ParseInt(IntToDecimal(i)) == i
    ensures Free(IntToDecimal(i), '?') && Free(IntToDecimal(i), ',') && Free(IntToDecimal(i), ' ')
  {
    if i < 0 {
      var d := NatToDecimal(-i);
      NatToDecimalDigits(-i);
      var s := "-" + d;
      assert s[1..] == d;
      assert forall j :: 1 <= j < |s| ==> s[j] == d[j - 1];
    } else {
      NatToDecimalDigits(i);
      assert IsDigit(NatToDecimal(i)[0]);
    }
  }
}
