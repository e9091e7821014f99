/** Fast decimal printing into a character buffer, and the simple printer beside it. */
module Itoa {
  import opened Arithmetic
  import opened Bitwise
  import opened Decimal

  // ---- division by 10^n with a multiplication and a shift ----

  /** Sizes in bytes of the machine types. */
  predicate Bytes(n: nat) {
    n == 1 || n == 2 || n == 4 || n == 8
  }

  /** The number of values of an n-byte unsigned type. */
  function Size(n: nat): (s: nat)
    requires Bytes(n) || n == 16
    ensures s > 0
  {
    if n == 1 then 0x100
    else if n == 2 then 0x1_0000
    else if n == 4 then 0x1_0000_0000
    else if n == 8 then 0x1_0000_0000_0000_0000
    else 0x1_0000_0000_0000_0000_0000_0000_0000_0000
  }

  /** A cast to an n-byte unsigned type. */
  function Cast(x: int, n: nat): (y: nat)
    requires Bytes(n) || n == 16
  {
    x % Size(n)
  }

  /** `Division`: what is added, the multiplier, and two to the shift. */
  datatype Division = Division(add: nat, multiplier: nat, shifted: nat)

  function DivisionBy10PowN(n: nat): (d: Division)
    requires Bytes(n)
    ensures d.shifted > 0
  {
    if n == 1 then Division(0, 205, 0x800)
    else if n == 2 then Division(1, 41943, 0x40_0000)
    else if n == 4 then Division(0, 3518437209, 0x2000_0000_0000)
    else Division(0, 12379400392853802749, 0x400_0000_0000_0000_0000_0000)
  }

  datatype QuotientAndRemainder = QuotientAndRemainder(quotient: nat, remainder: nat)

  /** `split`, with every intermediate result cut to the width of its type. */
  function Split(n: nat, value: nat): QuotientAndRemainder
    requires n == 2 || n == 4 || n == 8
  {
    var d := DivisionBy10PowN(n);
    var quotient := Cast(Cast(d.multiplier * Cast(Cast(value, 2 * n) + d.add, 2 * n), 2 * n) / d.shifted, n);
    var remainder := Cast(value - quotient * Pow10(n), n / 2);
    QuotientAndRemainder(quotient, remainder)
  }

  lemma PowersOf10()
    ensures Pow10(1) == 10 && Pow10(2) == 100 && Pow10(4) == 10000 && Pow10(8) == 100000000
    ensures Pow10(16) == 10000000000000000
  {
    hide Pow10;
    Pow10One();
    Pow10Add(1, 1);
    Pow10Add(2, 2);
    Pow10Add(4, 4);
    Pow10Add(8, 8);
  }

  lemma Pow10One()
    ensures Pow10(1) == 10
  {
  }

  /** The multiply-and-shift is exact division for every value of the type. */
  lemma SplitExact(n: nat, value: nat)
    requires (n == 2 || n == 4 || n == 8) && value < Size(n)
    ensures Split(n, value) == QuotientAndRemainder(High(value, n), Low(value, n))
  {
    hide Pow10;
    PowersOf10();
    var d := DivisionBy10PowN(n);
    var q, r := value / Pow10(n), value % Pow10(n);
    ModSmall(value, Size(2 * n));
    ModSmall(value + d.add, Size(2 * n));
    if n == 2 {
      Magic(value, q, d, Size(4));
    } else if n == 4 {
      Magic(value, q, d, Size(8));
    } else {
      Magic(value, q, d, Size(16));
    }
    ModSmall(q, Size(n));
    ModSmall(r, Size(n / 2));
  }

  /** When a multiplier is a reciprocal, with a rounding error too small to matter. */
  lemma Magic(value: nat, q: nat, d: Division, m: nat)
    requires d.shifted > 0 && d.multiplier * (value + d.add) < m
    requires 0 <= d.multiplier * (value + d.add) - d.shifted * q < d.shifted
    ensures ((d.multiplier * (value + d.add)) % m) / d.shifted == q
  {
    var x := d.multiplier * (value + d.add);
    ModSmall(x, m);
    DivModUnique(x, d.shifted, q, x - d.shifted * q);
  }

  // ---- digits into the buffer ----

  /** The two-digit table, one decade a row. */
  function Row(d: nat): (row: string)
    requires d < 10
    ensures |row| == 20
  {
    if d == 0 then "00010203040506070809"
    else if d == 1 then "10111213141516171819"
    else if d == 2 then "20212223242526272829"
    else if d == 3 then "30313233343536373839"
    else if d == 4 then "40414243444546474849"
    else if d == 5 then "50515253545556575859"
    else if d == 6 then "60616263646566676869"
    else if d == 7 then "70717273747576777879"
    else if d == 8 then "80818283848586878889"
    else "90919293949596979899"
  }

  function Rows(): seq<string> {
    [Row(0), Row(1), Row(2), Row(3), Row(4), Row(5), Row(6), Row(7), Row(8), Row(9)]
  }

  function Concat(rows: seq<string>): string {
    if rows == [] then "" else rows[0] + Concat(rows[1..])
  }

  lemma {:induction false} ConcatAt(rows: seq<string>, i: nat, j: nat)
    requires i < |rows| && j < 20 && forall k | 0 <= k < |rows| :: |rows[k]| == 20
    ensures 20 * i + j < |Concat(rows)| && Concat(rows)[20 * i + j] == rows[i][j]
  {
    if i > 0 {
      ConcatAt(rows[1..], i - 1, j);
    }
  }

  lemma RowPairs(row: string, d: nat, j: nat)
    requires d < 10 && j < 10
    requires row == [DigitChar(d), '0', DigitChar(d), '1', DigitChar(d), '2', DigitChar(d), '3', DigitChar(d), '4',
                     DigitChar(d), '5', DigitChar(d), '6', DigitChar(d), '7', DigitChar(d), '8', DigitChar(d), '9']
    ensures row[2 * j] == DigitChar(d) && row[2 * j + 1] == DigitChar(j)
  {
  }

  lemma RowsAt(d: nat)
    requires d < 10
    ensures |Rows()| == 10 && Rows()[d] == Row(d) && forall k | 0 <= k < 10 :: |Rows()[k]| == 20
  {
    hide Row;
  }

  lemma RowDigits(d: nat, j: nat)
    requires d < 10 && j < 10
    ensures Row(d)[2 * j] == DigitChar(d) && Row(d)[2 * j + 1] == DigitChar(j)
  {
    hide Row, DigitChar;
    if d < 5 {
      LowRow(d, j);
    } else {
      HighRow(d, j);
    }
  }

  lemma LowRow(d: nat, j: nat)
    requires d < 5 && j < 10
    ensures Row(d)[2 * j] == DigitChar(d) && Row(d)[2 * j + 1] == DigitChar(j)
  {
    if d == 0 { RowPairs(Row(0), 0, j); }
    if d == 1 { RowPairs(Row(1), 1, j); }
    if d == 2 { RowPairs(Row(2), 2, j); }
    if d == 3 { RowPairs(Row(3), 3, j); }
    if d == 4 { RowPairs(Row(4), 4, j); }
  }

  lemma HighRow(d: nat, j: nat)
    requires 5 <= d < 10 && j < 10
    ensures Row(d)[2 * j] == DigitChar(d) && Row(d)[2 * j + 1] == DigitChar(j)
  {
    if d == 5 { RowPairs(Row(5), 5, j); }
    if d == 6 { RowPairs(Row(6), 6, j); }
    if d == 7 { RowPairs(Row(7), 7, j); }
    if d == 8 { RowPairs(Row(8), 8, j); }
    if d == 9 { RowPairs(Row(9), 9, j); }
  }

  /** Entry v of the table is the two digits of v. */
  lemma TableEntry(v: nat)
    requires v < 100
    ensures 2 * v + 2 <= |Concat(Rows())| && Concat(Rows())[2 * v..2 * v + 2] == Block(v, 2)
  {
    hide Concat, DigitChar, Block, Rows, Row;
    var d, j := v / 10, v % 10;
    RowsAt(d);
    RowDigits(d, j);
    ConcatAt(Rows(), d, 2 * j);
    ConcatAt(Rows(), d, 2 * j + 1);
    TwoDigits(v);
  }

  /** Writing text t at position p of a buffer with contents s. */
  ghost function Put(s: string, p: nat, t: string): (r: string)
    requires p + |t| <= |s|
    ensures |r| == |s|
  {
    s[..p] + t + s[p + |t|..]
  }

  lemma PutPut(s: string, p: nat, t: string, u: string)
    requires p + |t| + |u| <= |s|
    ensures Put(Put(s, p, t), p + |t|, u) == Put(s, p, t + u)
  {
  }

  lemma PutOver(s: string, p: nat, t: string, u: string)
    requires |t| <= |u| && p + |u| <= |s|
    ensures Put(Put(s, p, t), p, u) == Put(s, p, u)
  {
  }

  lemma PutOne(s: string, p: nat, c: char)
    requires p < |s|
    ensures Put(s, p, [c]) == s[p := c]
  {
  }

  method OutDigit(buf: array<char>, p: nat, value: nat) returns (r: nat)
    requires value < 10 && p < buf.Length
    modifies buf
    ensures r == p + 1 && buf[..] == Put(old(buf[..]), p, [DigitChar(value)])
  {
    buf[p] := '0' + value as char;
    r := p + 1;
  }

  method OutTwoDigits(buf: array<char>, p: nat, value: nat) returns (r: nat)
    requires value < 100 && p + 2 <= buf.Length
    modifies buf
    ensures r == p + 2 && buf[..] == Put(old(buf[..]), p, Block(value, 2))
  {
    hide Concat, Block, Rows;
    TableEntry(value);
    var pair := Concat(Rows())[2 * value..2 * value + 2];
    buf[p] := pair[0];
    buf[p + 1] := pair[1];
    r := p + 2;
    assert pair == [pair[0], pair[1]];
  }

  // ---- head, tail, large ----

  /** Casting to half the width keeps a number below 10^n. */
  lemma HalfCast(n: nat, u: nat)
    requires (n == 2 || n == 4 || n == 8) && u < Pow10(n)
    ensures Cast(u, n / 2) == u && Pow10(n) == Pow10(2 * (n / 2)) && u < Size(n)
  {
    hide Pow10;
    PowersOf10();
    ModSmall(u, Size(n / 2));
  }

  lemma FitsSize(n: nat, u: nat)
    requires Bytes(n) && u < Pow10(2 * n)
    ensures u < Size(n)
  {
    hide Pow10;
    PowersOf10();
  }

  lemma HighBelow(u: nat, j: nat, k: nat)
    requires u < Pow10(j + k)
    ensures High(u, k) < Pow10(j)
  {
    hide Pow10;
    Pow10Add(j, k);
    DivBound(u, Pow10(k), Pow10(j));
  }

  lemma LowBelow(u: nat, k: nat)
    ensures Low(u, k) < Pow10(k)
  {
  }

  /** `tail`: all 2n digits, leading zeros included. */
  method Tail(n: nat, buf: array<char>, p: nat, u: nat) returns (r: nat)
    requires Bytes(n) && u < Pow10(2 * n) && p + 2 * n <= buf.Length
    modifies buf
    ensures r == p + 2 * n && buf[..] == Put(old(buf[..]), p, Block(u, 2 * n))
    decreases n
  {
    hide Pow10, Block, Split, High, Low, Put, Size;
    PowersOf10();
    if n == 1 {
      r := OutTwoDigits(buf, p, u);
    } else {
      ghost var s := buf[..];
      FitsSize(n, u);
      SplitExact(n, u);
      var x := Split(n, u);
      HighBelow(u, n, n);
      LowBelow(u, n);
      HalfCast(n, x.quotient);
      HalfCast(n, x.remainder);
      r := Tail(n / 2, buf, p, Cast(x.quotient, n / 2));
      r := Tail(n / 2, buf, r, x.remainder);
      PutPut(s, p, Block(x.quotient, n), Block(x.remainder, n));
      BlockSplit(u, n, n);
    }
  }

  /** `head`: no leading zeros; u has at most 2n digits. */
  method Head(n: nat, buf: array<char>, p: nat, u: nat) returns (r: nat)
    requires Bytes(n) && u < Pow10(2 * n) && p + |Text(u)| <= buf.Length
    modifies buf
    ensures r == p + |Text(u)| && buf[..] == Put(old(buf[..]), p, Text(u))
    decreases n
  {
    hide Pow10, Block, Split, High, Low, Put, Size, Text;
    PowersOf10();
    if n == 1 {
      SmallTexts(u);
      if u < 10 {
        r := OutDigit(buf, p, u);
      } else {
        r := OutTwoDigits(buf, p, u);
      }
    } else if u < Pow10(n) {
      HalfCast(n, u);
      r := Head(n / 2, buf, p, Cast(u, n / 2));
    } else {
      ghost var s := buf[..];
      FitsSize(n, u);
      SplitExact(n, u);
      var x := Split(n, u);
      HighBelow(u, n, n);
      LowBelow(u, n);
      HalfCast(n, x.quotient);
      HalfCast(n, x.remainder);
      TextSplit(u, n);
      r := Head(n / 2, buf, p, Cast(x.quotient, n / 2));
      r := Tail(n / 2, buf, r, x.remainder);
      PutPut(s, p, Text(x.quotient), Block(x.remainder, n));
    }
  }

  lemma SmallTexts(u: nat)
    requires u < 100
    ensures u < 10 ==> Text(u) == [DigitChar(u)]
    ensures u >= 10 ==> Text(u) == Block(u, 2)
  {
    TwoDigits(u);
  }

  /** `large`: values with more than 2n digits, from their quotient and remainder by 10^n. */
  method Large(n: nat, buf: array<char>, p: nat, x: QuotientAndRemainder, ghost u: nat) returns (r: nat)
    requires (n == 2 || n == 4 || n == 8) && Pow10(2 * n) <= u < Size(n)
    requires x == QuotientAndRemainder(High(u, n), Low(u, n))
    requires p + |Text(u)| <= buf.Length
    modifies buf
    ensures r == p + |Text(u)| && buf[..] == Put(old(buf[..]), p, Text(u))
  {
    hide Pow10, Block, Split, High, Low, Put, Size, Text;
    ghost var s := buf[..];
    LargeParts(n, u, x.quotient);
    LowBelow(u, n);
    HalfCast(n, x.remainder);
    SplitExact(n, x.quotient);
    var y := Split(n, x.quotient);
    LowBelow(x.quotient, n);
    HalfCast(n, y.remainder);
    HalfCast(n, y.quotient);
    TextSplit(u, n);
    TextSplit(x.quotient, n);
    r := Head(n / 2, buf, p, Cast(y.quotient, n / 2));
    r := Tail(n / 2, buf, r, y.remainder);
    PutPut(s, p, Text(y.quotient), Block(y.remainder, n));
    r := Tail(n / 2, buf, r, x.remainder);
    PutPut(s, p, Text(x.quotient), Block(x.remainder, n));
  }

  lemma LargeParts(n: nat, u: nat, q: nat)
    requires (n == 2 || n == 4 || n == 8) && Pow10(2 * n) <= u < Size(n) && q == High(u, n)
    ensures Pow10(n) <= u && Pow10(n) <= q < Size(n) && High(q, n) < Pow10(n)
  {
    hide Pow10;
    PowersOf10();
  }

  /** `uitoa`: the decimal text of any n-byte number. */
  method Uitoa(n: nat, buf: array<char>, p: nat, u: nat) returns (r: nat)
    requires Bytes(n) && u < Size(n) && p + |Text(u)| <= buf.Length
    modifies buf
    ensures r == p + |Text(u)| && buf[..] == Put(old(buf[..]), p, Text(u))
  {
    hide Pow10, Block, Split, High, Low, Put, Size, Text;
    if n == 1 {
      r := UitoaByte(buf, p, u);
    } else if u < Pow10(n) {
      HalfCast(n, u);
      r := Head(n / 2, buf, p, Cast(u, n / 2));
    } else {
      ghost var s := buf[..];
      SplitExact(n, u);
      var x := Split(n, u);
      if u < Pow10(2 * n) {
        HighBelow(u, n, n);
        LowBelow(u, n);
        HalfCast(n, x.quotient);
        HalfCast(n, x.remainder);
        TextSplit(u, n);
        r := Head(n / 2, buf, p, Cast(x.quotient, n / 2));
        r := Tail(n / 2, buf, r, x.remainder);
        PutPut(s, p, Text(x.quotient), Block(x.remainder, n));
      } else {
        r := Large(n, buf, p, x, u);
      }
    }
  }

  method UitoaByte(buf: array<char>, p: nat, u: nat) returns (r: nat)
    requires u < Size(1) && p + |Text(u)| <= buf.Length
    modifies buf
    ensures r == p + |Text(u)| && buf[..] == Put(old(buf[..]), p, Text(u))
  {
    hide Pow10, Block, Put, Text;
    PowersOf10();
    if u < 10 {
      SmallTexts(u);
      r := OutDigit(buf, p, u);
    } else if u < 100 {
      SmallTexts(u);
      r := OutTwoDigits(buf, p, u);
    } else {
      ghost var s := buf[..];
      TextSplit(u, 2);
      SmallTexts(u / 100);
      r := OutDigit(buf, p, u / 100);
      r := OutTwoDigits(buf, r, u % 100);
      PutPut(s, p, [DigitChar(u / 100)], Block(u % 100, 2));
    }
  }

  // ---- signed numbers ----

  predicate InRange(n: nat, i: int)
    requires Bytes(n)
  {
    0 - Size(n) <= 2 * i < Size(n)
  }

  /** The ranges of the signed types, in figures. */
  lemma SignedRanges(i: int)
    ensures InRange(1, i) <==> -128 <= i <= 127
    ensures InRange(2, i) <==> -32768 <= i <= 32767
    ensures InRange(4, i) <==> -0x8000_0000 <= i <= 0x7FFF_FFFF
    ensures InRange(8, i) <==> -0x8000_0000_0000_0000 <= i <= 0x7FFF_FFFF_FFFF_FFFF
  {
  }

  /** The branch-free absolute value. */
  function Magnitude(n: nat, i: int, mask: nat): nat
    requires Bytes(n) && mask < Size(n)
  {
    Cast(And(Cast(2 * Cast(i, n), n), Size(n) - 1 - mask) - Cast(i, n), n)
  }

  lemma SizePow2(n: nat)
    requires Bytes(n)
    ensures Size(n) == Pow2(8 * n)
  {
    hide Pow2;
    Pow2Zero();
    Pow2Double(0);
    Pow2Add(1, 1);
    Pow2Add(2, 2);
    Pow2Add(4, 4);
    Pow2Add(8, 8);
    Pow2Add(16, 16);
    Pow2Add(32, 32);
  }

  lemma MagnitudeIsAbs(n: nat, i: int, mask: nat)
    requires Bytes(n) && InRange(n, i) && mask == if i < 0 then Size(n) - 1 else 0
    ensures Magnitude(n, i, mask) == if i < 0 then -i else i
  {
    hide Pow2, And, Size;
    var m := Size(n);
    SizePow2(n);
    var c := i % m;
    if i < 0 {
      AndZero((2 * c) % m);
      DivModUnique(i, m, -1, i + m);
      DivModUnique(0 - c, m, -1, -i);
    } else {
      ModSmall(i, m);
      ModSmall(2 * i, m);
      AndLowMask(2 * i, 8 * n);
      ModSmall(i, m);
    }
  }

  lemma MaskBit(n: nat)
    requires Bytes(n)
    ensures And(Size(n) - 1, 1) == 1 && And(0, 1) == 0
  {
    hide Pow2, And;
    Pow2Zero();
    Pow2Double(0);
    AndLowMask(Size(n) - 1, 1);
    AndLowMask(0, 1);
  }

  /** Signed `itoa`: stores a minus sign unconditionally and lets the digits overwrite it. */
  method Itoa(n: nat, i: int, buf: array<char>, p: nat) returns (r: nat)
    requires Bytes(n) && InRange(n, i) && p + |IntText(i)| <= buf.Length
    modifies buf
    ensures r == p + |IntText(i)| && buf[..] == Put(old(buf[..]), p, IntText(i))
  {
    hide Text, And, Size, Put, Magnitude;
    ghost var s := buf[..];
    var mask := if i < 0 then Size(n) - 1 else 0;
    MagnitudeIsAbs(n, i, mask);
    MaskBit(n);
    var u := Magnitude(n, i, mask);
    buf[p] := '-';
    PutOne(s, p, '-');
    assert buf[..] == s[p := '-'];
    r := Uitoa(n, buf, p + And(mask, 1), u);
    if i < 0 {
      PutPut(s, p, "-", Text(u));
    } else {
      PutOver(s, p, "-", Text(u));
    }
  }

  // ---- the simple printer, also used for 128 and 256 bits ----

  /** `digits10` */
  function Digits10(x: nat): int {
    if x < 10 then 1
    else if x < 100 then 2
    else if x < 1000 then 3
    else if x < 1000000000000 then
      if x < 100000000 then
        if x < 1000000 then
          if x < 10000 then 4 else 5 + (if x >= 100000 then 1 else 0)
        else 7 + (if x >= 10000000 then 1 else 0)
      else if x < 10000000000 then 9 + (if x >= 1000000000 then 1 else 0)
      else 11 + (if x >= 100000000000 then 1 else 0)
    else 12 + Digits10(x / 1000000000000)
  }

  lemma PowersTo12()
    ensures Pow10(1) == 10 && Pow10(2) == 100 && Pow10(3) == 1000 && Pow10(4) == 10000 && Pow10(5) == 100000
    ensures Pow10(6) == 1000000 && Pow10(7) == 10000000 && Pow10(8) == 100000000 && Pow10(9) == 1000000000
    ensures Pow10(10) == 10000000000 && Pow10(11) == 100000000000 && Pow10(12) == 1000000000000
  {
    hide Pow10;
    Pow10One();
    Pow10Add(1, 1);
    Pow10Add(1, 2);
    Pow10Add(1, 3);
    Pow10Add(1, 4);
    Pow10Add(1, 5);
    Pow10Add(1, 6);
    Pow10Add(1, 7);
    Pow10Add(1, 8);
    Pow10Add(1, 9);
    Pow10Add(1, 10);
    Pow10Add(1, 11);
  }

  /** The comparison tree counts exactly the digits of the text. */
  lemma {:induction false} Digits10Length(x: nat)
    ensures Digits10(x) == |Text(x)|
  {
    hide Pow10, Text;
    PowersTo12();
    if x < 1000000000000 {
      SmallLength(x);
    } else {
      TextSplit(x, 12);
      Digits10Length(x / 1000000000000);
    }
  }

  lemma SmallLength(x: nat)
    requires x < 1000000000000
    ensures Digits10(x) == |Text(x)|
  {
    hide Pow10, Text;
    PowersTo12();
    TextLength(x, 1);
    TextLength(x, 2);
    TextLength(x, 3);
    TextLength(x, 4);
    TextLength(x, 5);
    TextLength(x, 6);
    TextLength(x, 7);
    TextLength(x, 8);
    TextLength(x, 9);
    TextLength(x, 10);
    TextLength(x, 11);
    TextLength(x, 12);
  }

  /** `writeUIntText`: fills the buffer backwards, two digits at a time. */
  method WriteUIntText(x: nat, buf: array<char>, p: nat) returns (r: nat)
    requires p + |Text(x)| <= buf.Length
    modifies buf
    ensures r == p + |Text(x)| && buf[..] == Put(old(buf[..]), p, Text(x))
  {
    hide Pow10, Block, Put, Text, Digits10;
    ghost var s := buf[..];
    Digits10Length(x);
    var len := Digits10(x);
    var pp, rest := p + len, x;
    ghost var done := "";
    PutNothing(s, pp);
    PowersOf10();
    while rest >= 100
      invariant Text(x) == Text(rest) + done && pp == p + |Text(rest)|
      invariant buf[..] == Put(s, pp, done)
    {
      TextSplit(rest, 2);
      var i := rest % 100;
      rest := rest / 100;
      pp := pp - 2;
      var _ := OutTwoDigits(buf, pp, i);
      PutBefore(s, pp, Block(i, 2), done);
      done := Block(i, 2) + done;
    }
    SmallTexts(rest);
    if rest < 10 {
      var _ := OutDigit(buf, p, rest);
    } else {
      var _ := OutTwoDigits(buf, p, rest);
    }
    PutBefore(s, p, Text(rest), done);
    r := p + len;
  }

  lemma PutNothing(s: string, p: nat)
    requires p <= |s|
    ensures Put(s, p, "") == s
  {
  }

  lemma PutBefore(s: string, p: nat, t: string, u: string)
    requires p + |t| + |u| <= |s|
    ensures Put(Put(s, p + |t|, u), p, t) == Put(s, p, t + u)
  {
  }

  // ---- signed 128 and 256 bits ----

  function MinInt(bits: nat): int {
    if bits == 128 then -0x8000_0000_0000_0000_0000_0000_0000_0000
    else -0x8000_0000_0000_0000_0000_0000_0000_0000_0000_0000_0000_0000_0000_0000_0000_0000
  }

  /** The text the source spells out for the minimum, in groups of five digits. */
  const MIN_128: string :=
    "1701" + "41183" + "46046" + "92317" + "31687" + "30371" + "58841" + "05728"

  const MIN_256: string :=
    "57" + "89604" + "46186" + "58097" + "71178" + "54925" + "04343" + "95392"
    + "66349" + "92332" + "82028" + "20197" + "28792" + "00395" + "65648" + "19968"

  lemma Peel(n: nat, high: nat, c: char)
    requires high > 0 && IsDigit(c) && n == 10 * high + DigitValue(c)
    ensures Text(n) == Text(high) + [c]
  {
  }

  lemma Chop(n: nat, high: nat, s: string)
    requires high > 0 && |s| == 5 && AllDigits(s)
    requires n == high * 100000 + DigitValue(s[0]) * 10000 + DigitValue(s[1]) * 1000 + DigitValue(s[2]) * 100
                  + DigitValue(s[3]) * 10 + DigitValue(s[4])
    ensures Text(n) == Text(high) + s
  {
    hide Text, DigitValue;
    var h1 := high * 10 + DigitValue(s[0]);
    var h2 := h1 * 10 + DigitValue(s[1]);
    var h3 := h2 * 10 + DigitValue(s[2]);
    var h4 := h3 * 10 + DigitValue(s[3]);
    Peel(h1, high, s[0]);
    Peel(h2, h1, s[1]);
    Peel(h3, h2, s[2]);
    Peel(h4, h3, s[3]);
    Peel(n, h4, s[4]);
    assert s == [s[0]] + [s[1]] + [s[2]] + [s[3]] + [s[4]];
  }

  lemma FirstGroups()
    ensures Text(1701) == "1701" && Text(57) == "57"
  {
    hide Text;
    OneDigit(1);
    OneDigit(5);
    Peel(17, 1, '7');
    Peel(170, 17, '0');
    Peel(1701, 170, '1');
    Peel(57, 5, '7');
    assert "1" + "7" + "0" + "1" == "1701";
  }

  lemma OneDigit(n: nat)
    requires n < 10
    ensures Text(n) == [DigitChar(n)]
  {
  }

  lemma Min128Text()
    ensures IntText(MinInt(128)) == "-" + MIN_128
  {
    hide Text;
    FirstGroups();
    Chop(170141183, 1701, "41183");
    Chop(17014118346046, 170141183, "46046");
    Chop(1701411834604692317, 17014118346046, "92317");
    Chop(170141183460469231731687, 1701411834604692317, "31687");
    Chop(17014118346046923173168730371, 170141183460469231731687, "30371");
    Chop(1701411834604692317316873037158841, 17014118346046923173168730371, "58841");
    Chop(170141183460469231731687303715884105728, 1701411834604692317316873037158841, "05728");
  }

  lemma Min256Text()
    ensures IntText(MinInt(256)) == "-" + MIN_256
  {
    hide Text;
    FirstGroups();
    Chop(5789604, 57, "89604");
    Chop(578960446186, 5789604, "46186");
    Chop(57896044618658097, 578960446186, "58097");
    Chop(5789604461865809771178, 57896044618658097, "71178");
    Chop(578960446186580977117854925, 5789604461865809771178, "54925");
    Chop(57896044618658097711785492504343, 578960446186580977117854925, "04343");
    Chop(5789604461865809771178549250434395392, 57896044618658097711785492504343, "95392");
    Chop(578960446186580977117854925043439539266349, 5789604461865809771178549250434395392, "66349");
    Chop(57896044618658097711785492504343953926634992332, 578960446186580977117854925043439539266349, "92332");
    Chop(5789604461865809771178549250434395392663499233282028,
         57896044618658097711785492504343953926634992332, "82028");
    Chop(578960446186580977117854925043439539266349923328202820197,
         5789604461865809771178549250434395392663499233282028, "20197");
    Chop(57896044618658097711785492504343953926634992332820282019728792,
         578960446186580977117854925043439539266349923328202820197, "28792");
    Chop(5789604461865809771178549250434395392663499233282028201972879200395,
         57896044618658097711785492504343953926634992332820282019728792, "00395");
    Chop(578960446186580977117854925043439539266349923328202820197287920039565648,
         5789604461865809771178549250434395392663499233282028201972879200395, "65648");
    Chop(57896044618658097711785492504343953926634992332820282019728792003956564819968,
         578960446186580977117854925043439539266349923328202820197287920039565648, "19968");
  }

  /** Copies a literal into the buffer. */
  method CopyText(buf: array<char>, p: nat, t: string) returns (r: nat)
    requires p + |t| <= buf.Length
    modifies buf
    ensures r == p + |t| && buf[..] == Put(old(buf[..]), p, t)
  {
    hide Put;
    ghost var s := buf[..];
    var i := 0;
    PutNothing(s, p);
    assert t[..0] == "";
    while i < |t|
      invariant 0 <= i <= |t|
      invariant buf[..] == Put(s, p, t[..i])
    {
      ghost var before := buf[..];
      buf[p + i] := t[i];
      assert buf[..] == before[p + i := t[i]];
      PutOne(before, p + i, t[i]);
      PutPut(s, p, t[..i], [t[i]]);
      assert t[..i + 1] == t[..i] + [t[i]];
      i := i + 1;
    }
    r := p + |t|;
    assert t[..i] == t;
  }

  method WriteLeadingMinus(buf: array<char>, pos: nat) returns (r: nat)
    requires pos < buf.Length
    modifies buf
    ensures r == pos + 1 && buf[..] == Put(old(buf[..]), pos, "-")
  {
    buf[pos] := '-';
    r := pos + 1;
  }

  function MinText(bits: nat): string {
    "-" + (if bits == 128 then MIN_128 else MIN_256)
  }

  lemma MinTextIs(bits: nat)
    requires bits == 128 || bits == 256
    ensures IntText(MinInt(bits)) == MinText(bits)
  {
    hide IntText;
    if bits == 128 { Min128Text(); } else { Min256Text(); }
  }

  /** `writeSIntText` for 128 and 256 bits, whose minimum has no positive counterpart. */
  method WriteSIntText(bits: nat, x: int, buf: array<char>, pos: nat) returns (r: nat)
    requires (bits == 128 || bits == 256) && MinInt(bits) <= x < -MinInt(bits)
    requires pos + |IntText(x)| <= buf.Length
    modifies buf
    ensures r == pos + |IntText(x)| && buf[..] == Put(old(buf[..]), pos, IntText(x))
  {
    hide Text, Put, MinText;
    ghost var s := buf[..];
    if x == MinInt(bits) {
      MinTextIs(bits);
      r := CopyText(buf, pos, MinText(bits));
    } else if x < 0 {
      r := WriteLeadingMinus(buf, pos);
      r := WriteUIntText(-x, buf, r);
      PutPut(s, pos, "-", Text(-x));
    } else {
      r := WriteUIntText(x, buf, pos);
    }
  }
}
