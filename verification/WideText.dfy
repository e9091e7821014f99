/** `to_string` and `from_str` of wide integers, and their round trip. */
module WideText {
  import opened Arithmetic
  import opened Decimal
  import opened WideInteger
  import opened WideMultiply
  import opened WideDivide

  function IntValue(signed: bool, n: Limbs): int {
    if signed then Signed(n) else Val(n)
  }

  /** A small constant, widened. */
  method Constant(x: Limb, n: nat) returns (c: Limbs)
    requires n > 0
    ensures |c| == n && Val(c) == x
  {
    c := [x] + seq(n - 1, _ => 0);
    ValToOne([x]);
    Padded([x], c);
  }

  /** `to_string`: peels digits off with `operator_percent` and `operator_slash` by ten. */
  method ToString(signed: bool, n: Limbs) returns (res: string)
    requires |n| > 0
    ensures res == IntText(IntValue(signed, n))
  {
    hide Val, Weight, Text;
    ZeroSigned(n);
    SignOf(n);
    TextZero();
    var zero := IsZero(n);
    if zero {
      return "0";
    }
    var isNeg := signed && Negative(n);
    var t := n;
    if isNeg {
      t := UnaryMinus(n);
      NegatedValue(n);
    }
    ghost var v := Val(t);
    res := "";
    var ten := Constant(10, |n|);
    var done := false;
    while !done
      invariant |t| == |n| && (done <==> Val(t) == 0)
      invariant Text(v) == if Val(t) == 0 then res else Text(Val(t)) + res
      decreases Val(t)
    {
      var digit := Percent(false, t, ten);
      TextStep(Val(t), res);
      DigitLimb(digit.value, Val(t));
      res := [DigitChar(digit.value[0])] + res;
      var q := Slash(false, t, ten);
      t := q.value;
      done := IsZero(t);
    }
    if isNeg {
      res := "-" + res;
    }
  }

  lemma TextZero()
    ensures Text(0) == "0"
  {
  }

  /** Moving the last digit from the remaining number to the front of the output. */
  lemma TextStep(t: nat, res: string)
    requires t > 0
    ensures Text(t) + res == (if t / 10 == 0 then "" else Text(t / 10)) + ([DigitChar(t % 10)] + res)
  {
    if t < 10 {
      assert t % 10 == t;
    } else {
      assert Text(t / 10) + [DigitChar(t % 10)] + res == Text(t / 10) + ([DigitChar(t % 10)] + res);
    }
  }

  /** A remainder by ten sits in the lowest limb. */
  lemma DigitLimb(d: Limbs, t: nat)
    requires |d| > 0 && Val(d) == t % 10
    ensures d[0] == t % 10
  {
    var e: Limbs := [t % 10] + seq(|d| - 1, _ => 0);
    ValToOne([t % 10]);
    Padded([t % 10], e);
    ValInjective(d, e, |d|);
    assert Item(d, 0) == Item(e, 0);
  }

  lemma NegatedValue(n: Limbs)
    requires |n| > 0 && Negative(n)
    ensures (Modulus(n) - Val(n)) % Modulus(n) == -Signed(n)
  {
    hide Weight, ValTo;
    NegativeIffHigh(n);
    ValBound(n);
    ModSmall(Modulus(n) - Val(n), Modulus(n));
  }

  // ---- from_str ----

  /** The character under the pointer; the text ends at its terminator. */
  function At(s: string, i: nat): char {
    if i < |s| then s[i] else '\0'
  }

  /** The value of a character as a digit, or the base when it is none. */
  function DigitOf(base: nat, c: char): (d: nat)
    requires base == 10 || base == 16
    ensures d <= base
  {
    if '0' <= c <= '9' then (c - '0') as nat
    else if base == 16 && 'a' <= c <= 'f' then (c - 'a') as nat + 10
    else if base == 16 && 'A' <= c <= 'F' then (c - 'A') as nat + 10
    else base
  }

  /** The characters from position i up to the terminator. */
  function Rest(s: string, i: nat): string
    decreases |s| - i
  {
    if At(s, i) == '\0' then "" else [At(s, i)] + Rest(s, i + 1)
  }

  predicate Digits(base: nat, s: string)
    requires base == 10 || base == 16
  {
    forall i | 0 <= i < |s| :: DigitOf(base, s[i]) < base
  }

  /** The number denoted by digits of a base, most significant first. */
  function Horner(base: nat, s: string): nat
    requires base == 10 || base == 16
  {
    if s == "" then 0 else base * Horner(base, s[..|s| - 1]) + DigitOf(base, s[|s| - 1])
  }

  /** What `from_str` is meant to read: an optional sign, an optional 0x prefix, digits. */
  function ReadInt(signed: bool, s: string): (r: Result<int>) {
    var neg := signed && At(s, 0) == '-';
    var i := if neg then 1 else 0;
    var hex := At(s, i) == '0' && (At(s, i + 1) == 'x' || At(s, i + 1) == 'X');
    var base := if hex then 16 else 10;
    var digits := Rest(s, if hex then i + 2 else i);
    if !Digits(base, digits) then Error("Invalid char from")
    else Ok(if neg then 0 - Horner(base, digits) else Horner(base, digits))
  }

  /** The digit loop shared by both bases. */
  method ReadDigits(n: nat, base: nat, s: string, start: nat) returns (res: Result<Limbs>)
    requires n > 0 && n != 2 && (base == 10 || base == 16)
    ensures res.Error? <==> !Digits(base, Rest(s, start))
    ensures res.Ok? ==> |res.value| == n && Val(res.value) == Horner(base, Rest(s, start)) % Weight(n)
  {
    hide Val, Weight, Rest, Horner;
    var value: Limbs := seq(n, _ => 0);
    var c := start;
    ghost var read := "";
    ReadStart(value, base, s, start);
    while At(s, c) != '\0'
      invariant |value| == n && Val(value) == Horner(base, read) % Weight(n)
      invariant Digits(base, read) && Rest(s, start) == read + Rest(s, c)
      decreases |s| - c
    {
      RestStep(s, c);
      var d := DigitOf(base, At(s, c));
      if d >= base {
        BadDigit(base, read, s, c);
        return Error("Invalid char from");
      }
      HornerStep(base, read, At(s, c));
      ghost var before := value;
      var scaled := Multiply(value, [base]);
      ValOfItem(base);
      value := Plus(scaled, [d]);
      ValOfItem(d);
      HornerModulo(Horner(base, read), Val(before), base, d, Weight(n));
      assert read + [At(s, c)] + Rest(s, c + 1) == read + ([At(s, c)] + Rest(s, c + 1));
      read := read + [At(s, c)];
      c := c + 1;
    }
    ReadEnd(s, c, read);
    return Ok(value);
  }

  lemma ReadStart(value: Limbs, base: nat, s: string, start: nat)
    requires (base == 10 || base == 16) && forall i | 0 <= i < |value| :: value[i] == 0
    ensures Val(value) == Horner(base, "") % Weight(|value|) && "" + Rest(s, start) == Rest(s, start)
  {
    ZeroTo(value, |value|);
    ModSmall(0, Weight(|value|));
  }

  lemma RestStep(s: string, c: nat)
    requires At(s, c) != '\0'
    ensures Rest(s, c) == [At(s, c)] + Rest(s, c + 1)
  {
  }

  lemma ReadEnd(s: string, c: nat, read: string)
    requires At(s, c) == '\0'
    ensures read + Rest(s, c) == read
  {
  }

  lemma BadDigit(base: nat, read: string, s: string, c: nat)
    requires (base == 10 || base == 16) && At(s, c) != '\0' && DigitOf(base, At(s, c)) >= base
    ensures !Digits(base, read + Rest(s, c))
  {
    RestStep(s, c);
    assert (read + Rest(s, c))[|read|] == At(s, c);
  }

  lemma HornerStep(base: nat, read: string, c: char)
    requires base == 10 || base == 16
    ensures Horner(base, read + [c]) == base * Horner(base, read) + DigitOf(base, c)
  {
    var t := read + [c];
    assert t[..|t| - 1] == read;
  }

  lemma ValOfItem(x: Limb)
    ensures Val([x]) == x
  {
    ValToOne([x]);
  }

  lemma HornerModulo(h: int, v: int, base: int, d: int, m: int)
    requires m > 0 && v == h % m
    ensures ((v * base) % m + d) % m == (base * h + d) % m
  {
    ModMul(h, base, m);
    ModAdd(v * base, d, m);
    ModAdd(h * base, d, m);
  }

  /** `from_str`: the integer read, wrapped to the width; an invalid character is an error. */
  method FromStr(signed: bool, n: nat, s: string) returns (res: Result<Limbs>)
    requires n > 0 && n != 2
    ensures Reads(signed, n, s, res)
  {
    hide Val, Weight, Rest, Horner;
    var c := 0;
    var isNeg := signed && At(s, c) == '-';
    if isNeg {
      c := c + 1;
    }
    if At(s, c) == '0' && (At(s, c + 1) == 'x' || At(s, c + 1) == 'X') {
      res := ReadDigits(n, 16, s, c + 2);
    } else {
      res := ReadDigits(n, 10, s, c);
    }
    if res.Ok? && isNeg {
      ghost var h := -ReadInt(signed, s).value;
      ghost var before := res.value;
      var minus := UnaryMinus(res.value);
      NegateModulo(h, Weight(n), Val(before));
      res := Ok(minus);
    }
  }

  // ---- the round trip ----

  lemma {:induction false} RestAll(s: string, i: nat)
    requires i <= |s| && forall j | i <= j < |s| :: s[j] != '\0'
    ensures Rest(s, i) == s[i..]
    decreases |s| - i
  {
    if i < |s| {
      RestAll(s, i + 1);
      assert s[i..] == [s[i]] + s[i + 1..];
    }
  }

  lemma {:induction false} HornerIsNumber(s: string)
    requires AllDigits(s)
    ensures Digits(10, s) && Horner(10, s) == Number(s)
  {
    if s != "" {
      HornerIsNumber(s[..|s| - 1]);
      assert forall i | 0 <= i < |s| :: IsDigit(s[i]);
    }
  }

  // ---- what the digits of a text denote ----

  const LOWER: string := "0123456789abcdef"
  const UPPER: string := "0123456789ABCDEF"

  predicate Spells(c: char, d: nat, base: nat) {
    d < base <= 16 && (c == LOWER[d] || c == UPPER[d])
  }

  /** A text of digits, in either case, most significant first. */
  ghost predicate Spelling(s: string, ds: seq<nat>, base: nat) {
    |s| == |ds| && forall i | 0 <= i < |s| :: Spells(s[i], ds[i], base)
  }

  /** The sum of the digits times their places. */
  function Denoted(ds: seq<nat>, base: nat): nat {
    if ds == [] then 0 else ds[0] * Power(base, |ds| - 1) + Denoted(ds[1..], base)
  }

  lemma LowDigits(c: char, d: nat)
    requires d < 10
    ensures c == LOWER[d] || c == UPPER[d] <==> c == '0' + d as char
  {
    if d < 5 {
      assert d == 0 || d == 1 || d == 2 || d == 3 || d == 4;
    } else {
      assert d == 5 || d == 6 || d == 7 || d == 8 || d == 9;
    }
  }

  lemma HighDigits(c: char, d: nat)
    requires 10 <= d < 16
    ensures c == LOWER[d] || c == UPPER[d] <==> c == 'a' + (d - 10) as char || c == 'A' + (d - 10) as char
  {
    assert d == 10 || d == 11 || d == 12 || d == 13 || d == 14 || d == 15;
  }

  lemma DigitSpelled(base: nat, c: char, d: nat)
    requires base == 10 || base == 16
    ensures DigitOf(base, c) == d < base <==> Spells(c, d, base)
  {
    if d < 10 {
      LowDigits(c, d);
    } else if d < 16 {
      HighDigits(c, d);
    }
  }

  lemma {:induction false} DenotedNext(ds: seq<nat>, base: nat, d: nat)
    ensures Denoted(ds + [d], base) == base * Denoted(ds, base) + d
  {
    var t := ds + [d];
    if ds == [] {
      assert t[1..] == [];
    } else {
      assert t[1..] == ds[1..] + [d];
      DenotedNext(ds[1..], base, d);
      var p := Power(base, |ds| - 1);
      MulAssoc(ds[0], base, p);
      MulAssoc(base, ds[0], p);
      MulDist(base, ds[0] * p, Denoted(ds[1..], base));
    }
  }

  lemma {:induction false} HornerDenotes(base: nat, s: string, ds: seq<nat>)
    requires (base == 10 || base == 16) && Spelling(s, ds, base)
    ensures Digits(base, s) && Horner(base, s) == Denoted(ds, base)
  {
    hide Spells, DigitOf, Denoted, Power;
    forall i | 0 <= i < |s|
      ensures DigitOf(base, s[i]) == ds[i] < base
    {
      DigitSpelled(base, s[i], ds[i]);
    }
    if s == "" {
      DenotedNothing(base);
    } else {
      var n := |s| - 1;
      HornerDenotes(base, s[..n], ds[..n]);
      DenotedNext(ds[..n], base, ds[n]);
      assert ds[..n] + [ds[n]] == ds;
    }
  }

  lemma DenotedNothing(base: nat)
    ensures Denoted([], base) == 0
  {
  }

  function Signs(neg: bool): string {
    if neg then "-" else ""
  }

  lemma SpelledChar(s: string, ds: seq<nat>, base: nat, i: nat)
    requires Spelling(s, ds, base) && i < |s|
    ensures '0' <= s[i] <= '9' || 'a' <= s[i] <= 'f' || 'A' <= s[i] <= 'F'
    ensures base == 10 ==> '0' <= s[i] <= '9'
  {
    if base == 10 || base == 16 {
      DigitSpelled(base, s[i], ds[i]);
    } else {
      DigitSpelled(16, s[i], ds[i]);
    }
  }

  /** Hexadecimal: after the sign, `0x` or `0X` and digits in either case, leading zeros included. */
  lemma ReadHexadecimal(signed: bool, neg: bool, x: char, s: string, ds: seq<nat>)
    requires (neg ==> signed) && (x == 'x' || x == 'X') && Spelling(s, ds, 16)
    ensures ReadInt(signed, Signs(neg) + ['0', x] + s)
         == Ok(if neg then 0 - Denoted(ds, 16) else Denoted(ds, 16))
  {
    hide Rest, Horner, Denoted, Spelling, DigitOf;
    var text, i := Signs(neg) + ['0', x] + s, if neg then 1 else 0;
    assert text[i] == '0' && text[i + 1] == x && text[i + 2..] == s;
    forall j | i + 2 <= j < |text|
      ensures text[j] != '\0'
    {
      SpelledChar(s, ds, 16, j - i - 2);
    }
    RestAll(text, i + 2);
    HornerDenotes(16, s, ds);
  }

  /** Decimal: after the sign only digits; an empty text is zero. */
  lemma ReadDecimal(signed: bool, neg: bool, s: string, ds: seq<nat>)
    requires (neg ==> signed) && Spelling(s, ds, 10)
    ensures ReadInt(signed, Signs(neg) + s) == Ok(if neg then 0 - Denoted(ds, 10) else Denoted(ds, 10))
  {
    hide Rest, Horner, Denoted, Spelling, DigitOf;
    var text, i := Signs(neg) + s, if neg then 1 else 0;
    assert text[i..] == s;
    forall j | i <= j < |text|
      ensures '0' <= text[j] <= '9'
    {
      SpelledChar(s, ds, 10, j - i);
    }
    RestAll(text, i);
    HornerDenotes(10, s, ds);
  }

  /** Nothing else is read: a text without terminators that is read has one of these forms. */
  lemma ReadForms(signed: bool, text: string) returns (neg: bool, hex: bool, x: char, s: string, ds: seq<nat>)
    requires (forall j | 0 <= j < |text| :: text[j] != '\0') && ReadInt(signed, text).Ok?
    ensures (neg ==> signed) && (x == 'x' || x == 'X') && Spelling(s, ds, if hex then 16 else 10)
    ensures text == Signs(neg) + (if hex then ['0', x] else "") + s
  {
    hide Rest, Horner, DigitOf, Spells;
    neg := signed && At(text, 0) == '-';
    var i := if neg then 1 else 0;
    hex := At(text, i) == '0' && (At(text, i + 1) == 'x' || At(text, i + 1) == 'X');
    x := if hex then At(text, i + 1) else 'x';
    var base, start := if hex then 16 else 10, if hex then i + 2 else i;
    RestAll(text, start);
    s := text[start..];
    ds := seq(|s|, j requires 0 <= j < |s| => DigitOf(base, s[j]));
    forall j | 0 <= j < |s|
      ensures Spells(s[j], ds[j], base)
    {
      DigitSpelled(base, s[j], ds[j]);
    }
  }

  lemma {:induction false} RestUpTo(s: string, t: string, i: nat)
    requires i <= |s|
    ensures Rest(s + "\0" + t, i) == Rest(s, i)
    decreases |s| - i
  {
    if i < |s| {
      RestUpTo(s, t, i + 1);
    }
  }

  /** The terminator ends the text. */
  lemma Terminated(signed: bool, s: string, t: string)
    ensures ReadInt(signed, s + "\0" + t) == ReadInt(signed, s)
  {
    hide Rest, Horner, DigitOf;
    var text := s + "\0" + t;
    assert forall j: nat | j <= |s| :: At(text, j) == At(s, j);
    var i := if signed && At(s, 0) == '-' then 1 else 0;
    RestUpTo(s, t, i);
    if At(s, i) == '0' && (At(s, i + 1) == 'x' || At(s, i + 1) == 'X') {
      RestUpTo(s, t, i + 2);
    }
  }

  /** The digits of n by repeated division. */
  function HexDigits(n: nat): (ds: seq<nat>)
    ensures forall i | 0 <= i < |ds| :: ds[i] < 16
  {
    if n < 16 then [n] else HexDigits(n / 16) + [n % 16]
  }

  function HexText(n: nat, alphabet: string): (s: string)
    requires |alphabet| == 16
    ensures |s| == |HexDigits(n)|
  {
    var ds := HexDigits(n);
    seq(|ds|, i requires 0 <= i < |ds| => alphabet[ds[i]])
  }

  lemma {:induction false} HexDigitsDenote(n: nat)
    ensures Denoted(HexDigits(n), 16) == n
  {
    if n < 16 {
      DenotedNext([], 16, n);
      assert [] + [n] == HexDigits(n);
    } else {
      HexDigitsDenote(n / 16);
      DenotedNext(HexDigits(n / 16), 16, n % 16);
    }
  }

  /** The hexadecimal text of n, in lower or upper case, with any sign and prefix, is read as n. */
  lemma ReadHexText(signed: bool, neg: bool, x: char, upper: bool, n: nat)
    requires (neg ==> signed) && (x == 'x' || x == 'X')
    ensures ReadInt(signed, Signs(neg) + ['0', x] + HexText(n, if upper then UPPER else LOWER))
         == Ok(if neg then 0 - n else n)
  {
    hide ReadInt, Denoted;
    HexDigitsDenote(n);
    ReadHexadecimal(signed, neg, x, HexText(n, if upper then UPPER else LOWER), HexDigits(n));
  }

  /** Reading the text of an integer gives the integer back. */
  lemma ReadWrites(signed: bool, v: int)
    requires signed || 0 <= v
    ensures ReadInt(signed, IntText(v)) == Ok(v)
  {
    hide Rest, Horner, Number;
    var n: nat, s := if v < 0 then -v else v, IntText(v);
    TextIsNumeral(n);
    var t := Text(n);
    var i := if v < 0 then 1 else 0;
    assert s[i..] == t;
    assert At(s, i) == t[0] && IsDigit(t[0]);
    assert At(s, i + 1) == '\0' || IsDigit(At(s, i + 1));
    RestAll(s, i);
    HornerIsNumber(t);
  }

  /** What `from_str` promises of its result. */
  ghost predicate Reads(signed: bool, n: nat, s: string, res: Result<Limbs>) {
    var read := ReadInt(signed, s);
    && (res.Error? <==> read.Error?)
    && (res.Ok? ==> |res.value| == n && Val(res.value) == read.value % Weight(n))
  }

  /** Whatever `from_str` may return for the text of an integer is that integer, at every width
      whose multiplication takes a scalar. */
  lemma RoundTrip(signed: bool, n: Limbs, text: string, res: Result<Limbs>)
    requires |n| > 0 && text == IntText(IntValue(signed, n)) && Reads(signed, |n|, text, res)
    ensures res == Ok(n)
  {
    hide Val, Weight, Signed, ReadInt, IntText;
    ReadWrites(signed, IntValue(signed, n));
    SignedModulo(n);
    ValBound(n);
    ModSmall(Val(n), Weight(|n|));
    SameLimbs(res.value, n);
  }

  /** `from_str(to_string(n)) == n`. */
  method WriteThenRead(signed: bool, n: Limbs) returns (text: string, res: Result<Limbs>)
    requires |n| > 0 && |n| != 2
    ensures text == IntText(IntValue(signed, n)) && Reads(signed, |n|, text, res) && res == Ok(n)
  {
    hide Val, Weight, ReadInt, IntText;
    text := ToString(signed, n);
    res := FromStr(signed, |n|, text);
    RoundTrip(signed, n, text, res);
  }

  lemma SameLimbs(s: Limbs, t: Limbs)
    requires |s| == |t| && Val(s) == Val(t)
    ensures s == t
  {
    ValInjective(s, t, |s|);
    forall i | 0 <= i < |s|
      ensures s[i] == t[i]
    {
      assert Item(s, i) == Item(t, i);
    }
  }
}
