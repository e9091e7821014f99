/** The integer readers of the JSON code: a sign and digits up to the first other character. */
module IntegerReaders {
  import opened Arithmetic
  import opened Decimal
  import opened Itoa

  datatype Parsed = Parsed(value: int) | UnexpectedEnd

  const M64: int := 0x1_0000_0000_0000_0000

  // ---- what is read ----

  predicate Readable(signed: bool, c: char) {
    IsDigit(c) || c == '+' || (signed && c == '-')
  }

  /** The longest readable prefix. */
  function Prefix(signed: bool, s: string): string {
    if s == "" || !Readable(signed, s[0]) then "" else [s[0]] + Prefix(signed, s[1..])
  }

  /** The digits of a string, signs dropped. */
  function DigitsOf(s: string): (t: string)
    ensures AllDigits(t)
  {
    if s == "" then ""
    else DigitsOf(s[..|s| - 1]) + (if IsDigit(s[|s| - 1]) then [s[|s| - 1]] else "")
  }

  /** The 64-bit two's-complement number congruent to v. */
  function AsInt64(v: int): int {
    (v + M64 / 2) % M64 - M64 / 2
  }

  function ReadUInt(s: string): Parsed {
    if s == "" then UnexpectedEnd
    else Parsed(Number(DigitsOf(Prefix(false, s))) % M64)
  }

  function ReadInt(s: string): Parsed {
    if s == "" then UnexpectedEnd
    else
      var read := Prefix(true, s);
      var x := Number(DigitsOf(read));
      Parsed(AsInt64(if '-' in read then 0 - x else x))
  }

  // ---- the loops ----

  lemma {:induction false} PrefixAt(signed: bool, s: string, i: nat)
    requires i <= |s| && forall j | 0 <= j < i :: Readable(signed, s[j])
    requires i == |s| || !Readable(signed, s[i])
    ensures Prefix(signed, s) == s[..i]
    decreases i
  {
    if i > 0 {
      PrefixAt(signed, s[1..], i - 1);
      assert s[..i] == [s[0]] + s[1..][..i - 1];
    }
  }

  lemma DigitsStep(s: string, i: nat)
    requires i < |s|
    ensures DigitsOf(s[..i + 1]) == DigitsOf(s[..i]) + (if IsDigit(s[i]) then [s[i]] else "")
    ensures Number(DigitsOf(s[..i + 1]))
         == if IsDigit(s[i]) then 10 * Number(DigitsOf(s[..i])) + DigitValue(s[i]) else Number(DigitsOf(s[..i]))
  {
    assert s[..i + 1][..i] == s[..i];
    if IsDigit(s[i]) {
      NumberStep(DigitsOf(s[..i]), s[i]);
    } else {
      assert DigitsOf(s[..i]) + "" == DigitsOf(s[..i]);
    }
  }

  lemma NumberStep(t: string, c: char)
    requires AllDigits(t) && IsDigit(c)
    ensures Number(t + [c]) == 10 * Number(t) + DigitValue(c)
  {
    assert (t + [c])[..|t|] == t;
  }

  /** One digit in 64-bit arithmetic. */
  lemma WrapStep(n: int, x: int, d: int)
    requires x == n % M64
    ensures ((10 * x) % M64 + d) % M64 == (10 * n + d) % M64
  {
    ModMul(n, 10, M64);
    ModAdd(10 * x, d, M64);
    ModAdd(10 * n, d, M64);
  }

  method ReadUIntText(s: string) returns (res: Parsed)
    ensures res == ReadUInt(s)
  {
    hide Number, DigitsOf, Prefix;
    if s == "" {
      return UnexpectedEnd;
    }
    var x, i := 0, 0;
    DigitsOfNothing(s);
    while i < |s|
      invariant 0 <= i <= |s| && forall j | 0 <= j < i :: Readable(false, s[j])
      invariant x == Number(DigitsOf(s[..i])) % M64
    {
      DigitsStep(s, i);
      if s[i] == '+' {
      } else if IsDigit(s[i]) {
        WrapStep(Number(DigitsOf(s[..i])), x, DigitValue(s[i]));
        x := (10 * x) % M64;
        x := (x + DigitValue(s[i])) % M64;
      } else {
        PrefixAt(false, s, i);
        return Parsed(x);
      }
      i := i + 1;
    }
    PrefixAt(false, s, i);
    return Parsed(x);
  }

  lemma DigitsOfNothing(s: string)
    ensures Number(DigitsOf(s[..0])) == 0
  {
  }

  method ReadIntText(s: string) returns (res: Parsed)
    ensures res == ReadInt(s)
  {
    hide Number, DigitsOf, Prefix;
    if s == "" {
      return UnexpectedEnd;
    }
    var negative, x, i, run := false, 0, 0, true;
    ghost var end := 0;
    DigitsOfNothing(s);
    while i < |s| && run
      invariant 0 <= end <= i <= |s| && forall j | 0 <= j < end :: Readable(true, s[j])
      invariant if run then end == i else end < |s| && !Readable(true, s[end])
      invariant x == Number(DigitsOf(s[..end])) % M64
      invariant negative <==> '-' in s[..end]
    {
      DigitsStep(s, i);
      assert s[..i + 1] == s[..i] + [s[i]];
      if s[i] == '+' {
        end := i + 1;
      } else if s[i] == '-' {
        negative := true;
        end := i + 1;
      } else if IsDigit(s[i]) {
        WrapStep(Number(DigitsOf(s[..i])), x, DigitValue(s[i]));
        x := (10 * x) % M64;
        x := (x + DigitValue(s[i])) % M64;
        end := i + 1;
      } else {
        run := false;
      }
      i := i + 1;
    }
    PrefixAt(true, s, end);
    var u := if negative then (0 - x) % M64 else x;
    SignedResult(Number(DigitsOf(s[..end])), x, negative);
    return Parsed(if u < M64 / 2 then u else u - M64);
  }

  lemma SignedResult(n: int, x: int, negative: bool)
    requires x == n % M64
    ensures AsInt64(if negative then 0 - n else n)
         == var u := if negative then (0 - x) % M64 else x; if u < M64 / 2 then u else u - M64
  {
    var v := if negative then 0 - n else n;
    ModSub(0, n, M64);
    var u := v % M64;
    assert v == M64 * (v / M64) + u;
    if u < M64 / 2 {
      DivModUnique(v + M64 / 2, M64, v / M64, u + M64 / 2);
    } else {
      DivModUnique(v + M64 / 2, M64, v / M64 + 1, u - M64 / 2);
    }
  }

  // ---- signs, leading zeros and what follows ----

  predicate AllReadable(signed: bool, s: string) {
    forall i | 0 <= i < |s| :: Readable(signed, s[i])
  }

  lemma {:induction false} DigitsOfJoin(s: string, t: string)
    ensures DigitsOf(s + t) == DigitsOf(s) + DigitsOf(t)
  {
    if t == "" {
      assert s + t == s;
    } else {
      var n := |t| - 1;
      DigitsOfJoin(s, t[..n]);
      assert (s + t)[..|s + t| - 1] == s + t[..n];
    }
  }

  lemma {:induction false} PrefixJoin(signed: bool, s: string, t: string)
    requires AllReadable(signed, s)
    ensures Prefix(signed, s + t) == s + Prefix(signed, t)
  {
    if s == "" {
      assert s + t == t;
    } else {
      PrefixJoin(signed, s[1..], t);
      assert (s + t)[1..] == s[1..] + t;
      assert [s[0]] + (s[1..] + Prefix(signed, t)) == s + Prefix(signed, t);
    }
  }

  lemma SingleSign(c: char)
    requires c == '+' || c == '-'
    ensures DigitsOf([c]) == ""
  {
    assert [c][..0] == "";
  }

  /** A plus sign anywhere in what is read changes nothing. */
  lemma PlusIsSkipped(s: string, t: string)
    requires s + t != ""
    ensures AllReadable(false, s) ==> ReadUInt(s + "+" + t) == ReadUInt(s + t)
    ensures AllReadable(true, s) ==> ReadInt(s + "+" + t) == ReadInt(s + t)
  {
    hide DigitsOf, Prefix, Number, AsInt64;
    SignDropped(false, s, '+', t);
    SignDropped(true, s, '+', t);
  }

  lemma SignDropped(signed: bool, s: string, c: char, t: string)
    requires (c == '+' || c == '-') && Readable(signed, c)
    ensures AllReadable(signed, s) ==>
      && Prefix(signed, s + t) == s + Prefix(signed, t)
      && Prefix(signed, s + [c] + t) == s + [c] + Prefix(signed, t)
      && DigitsOf(Prefix(signed, s + [c] + t)) == DigitsOf(Prefix(signed, s + t))
  {
    hide DigitsOf, Prefix;
    if AllReadable(signed, s) {
      PrefixJoin(signed, s, t);
      PrefixJoin(signed, s + [c], t);
      DigitsOfJoin(s, Prefix(signed, t));
      DigitsOfJoin(s + [c], Prefix(signed, t));
      DigitsOfJoin(s, [c]);
      SingleSign(c);
      assert DigitsOf(s) + "" == DigitsOf(s);
    }
  }

  /** Where there is none yet, a minus sign anywhere in what is read negates the result; the
      unsigned reader stops at it. */
  lemma MinusNegates(s: string, t: string)
    requires s + t != "" && AllReadable(true, s) && '-' !in s + Prefix(true, t)
    ensures ReadInt(s + t) == Parsed(AsInt64(Number(DigitsOf(s + Prefix(true, t)))))
    ensures ReadInt(s + "-" + t) == Parsed(AsInt64(0 - Number(DigitsOf(s + Prefix(true, t)))))
    ensures s != "" ==> ReadUInt(s + "-" + t) == ReadUInt(s)
  {
    hide DigitsOf, Prefix, Number, AsInt64;
    SignDropped(true, s, '-', t);
    if s != "" {
      StopsAt(false, s, "-" + t);
      assert s + "-" + t == s + ("-" + t);
    }
  }

  lemma StopsAt(signed: bool, s: string, t: string)
    requires AllReadable(signed, s) && t != "" && !Readable(signed, t[0])
    ensures Prefix(signed, s + t) == s == Prefix(signed, s)
  {
    PrefixAt(signed, s + t, |s|);
    PrefixAt(signed, s, |s|);
  }

  /** The first other character ends the number. */
  lemma OtherEnds(s: string, t: string)
    requires s != "" && t != ""
    ensures AllReadable(false, s) && !Readable(false, t[0]) ==> ReadUInt(s + t) == ReadUInt(s)
    ensures AllReadable(true, s) && !Readable(true, t[0]) ==> ReadInt(s + t) == ReadInt(s)
  {
    hide DigitsOf, Prefix, Number, AsInt64;
    if AllReadable(false, s) && !Readable(false, t[0]) {
      StopsAt(false, s, t);
    }
    if AllReadable(true, s) && !Readable(true, t[0]) {
      StopsAt(true, s, t);
    }
  }

  lemma {:induction false} NumberAfterZero(t: string)
    requires AllDigits(t)
    ensures AllDigits("0" + t) && Number("0" + t) == Number(t)
  {
    var s := "0" + t;
    if t == "" {
      assert s[..0] == "";
    } else {
      NumberAfterZero(t[..|t| - 1]);
      assert s[..|s| - 1] == "0" + t[..|t| - 1];
    }
  }

  /** A leading zero changes nothing. */
  lemma LeadingZero(s: string)
    requires s != ""
    ensures ReadUInt("0" + s) == ReadUInt(s) && ReadInt("0" + s) == ReadInt(s)
  {
    hide DigitsOf, Prefix, Number, AsInt64;
    ZeroFirst(false, s);
    ZeroFirst(true, s);
  }

  lemma ZeroFirst(signed: bool, s: string)
    ensures Prefix(signed, "0" + s) == "0" + Prefix(signed, s)
    ensures Number(DigitsOf(Prefix(signed, "0" + s))) == Number(DigitsOf(Prefix(signed, s)))
  {
    hide DigitsOf, Prefix, Number;
    PrefixJoin(signed, "0", s);
    DigitsOfJoin("0", Prefix(signed, s));
    DigitsOfDigits("0");
    NumberAfterZero(DigitsOf(Prefix(signed, s)));
  }

  // ---- reading back what was printed ----

  lemma {:induction false} DigitsOfDigits(t: string)
    requires AllDigits(t)
    ensures DigitsOf(t) == t
  {
    if t != "" {
      DigitsOfDigits(t[..|t| - 1]);
      assert t == t[..|t| - 1] + [t[|t| - 1]];
    }
  }

  lemma {:induction false} DigitsAfterMinus(t: string)
    requires AllDigits(t)
    ensures DigitsOf("-" + t) == t
  {
    var s := "-" + t;
    if t == "" {
      assert s[..0] == "";
    } else {
      DigitsAfterMinus(t[..|t| - 1]);
      assert s[..|s| - 1] == "-" + t[..|t| - 1];
      assert t == t[..|t| - 1] + [t[|t| - 1]];
    }
  }

  /** The reader stops at the first character it does not know, so what follows does not matter. */
  lemma ReadIntBack(i: int, rest: string)
    requires -M64 <= 2 * i < M64 && (rest == "" || !Readable(true, rest[0]))
    ensures ReadInt(IntText(i) + rest) == Parsed(i)
  {
    hide Number, DigitsOf, Prefix, Text;
    var n: nat, s, t := if i < 0 then -i else i, IntText(i) + rest, IntText(i);
    TextIsNumeral(n);
    DigitsOfDigits(Text(n));
    DigitsAfterMinus(Text(n));
    PrefixAt(true, s, |t|);
    assert s[..|t|] == t;
    ModSmall(i + M64 / 2, M64);
  }

  lemma ReadUIntBack(n: nat, rest: string)
    requires n < M64 && (rest == "" || !Readable(false, rest[0]))
    ensures ReadUInt(Text(n) + rest) == Parsed(n)
  {
    hide Number, DigitsOf, Prefix, Text;
    var s, t := Text(n) + rest, Text(n);
    TextIsNumeral(n);
    DigitsOfDigits(t);
    PrefixAt(false, s, |t|);
    assert s[..|t|] == t;
    ModSmall(n, M64);
  }

  /** Printing a 64-bit integer and reading the printed part of the buffer gives it back. */
  method PrintThenRead(i: int, buf: array<char>, p: nat) returns (r: nat, res: Parsed)
    requires InRange(8, i) && p + |IntText(i)| <= buf.Length
    modifies buf
    ensures r == p + |IntText(i)| && buf[p..r] == IntText(i)
    ensures buf[..p] == old(buf[..p]) && buf[r..] == old(buf[p + |IntText(i)|..])
    ensures res == ReadInt(buf[p..r]) == Parsed(i)
  {
    hide Text, ReadInt;
    r := Itoa.Itoa(8, i, buf, p);
    assert buf[p..r] == buf[..][p..r] == IntText(i) + "";
    assert buf[..p] == buf[..][..p] && buf[r..] == buf[..][r..];
    ReadIntBack(i, "");
    res := ReadIntText(buf[p..r]);
  }
}
