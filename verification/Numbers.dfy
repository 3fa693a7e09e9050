/** Numbers as text: what an output stream writes for an int, and what std::stoi reads. */
module Numbers {
  import opened Options

  // Writing and reading

  function Digit(d: nat): char
    requires d < 10
  {
    "0123456789"[d]
  }

  predicate IsDigit(c: char) { '0' <= c <= '9' }

  function DigitValue(c: char): (d: nat)
    requires IsDigit(c)
    ensures d < 10
  {
    c as int - '0' as int
  }

  function Digits(n: nat): (s: string)
    ensures |s| > 0 && forall i :: 0 <= i < |s| ==> IsDigit(s[i])
  {
    if n < 10 then [Digit(n)] else Digits(n / 10) + [Digit(n % 10)]
  }

  /** operator<< of an int. */
  function IntText(n: int): (s: string)
    ensures |s| > 0 && forall i :: 0 <= i < |s| ==> IsDigit(s[i]) || s[i] == '-'
  {
    if n < 0 then "-" + Digits(-n) else Digits(n)
  }

  predicate IsSpace(c: char) {
    c == ' ' || '\t' <= c <= '\r'
  }

  function SkipSpace(s: string): string {
    if |s| > 0 && IsSpace(s[0]) then SkipSpace(s[1..]) else s
  }

  /** The value of the leading digits, after acc. */
  function LeadingValue(s: string, acc: nat): nat {
    if |s| > 0 && IsDigit(s[0]) then LeadingValue(s[1..], acc * 10 + DigitValue(s[0])) else acc
  }

  predicate IsInt32(n: int) { -0x8000_0000 <= n < 0x8000_0000 }

  /** std::stoi: leading space, a sign, digits, anything; None is an exception. */
  function Stoi(s: string): Option<int> {
    var t := SkipSpace(s);
    var signed := |t| > 0 && (t[0] == '-' || t[0] == '+');
    var u := if signed then t[1..] else t;
    if |u| == 0 || !IsDigit(u[0]) then None
    else
      var v: int := LeadingValue(u, 0);
      var n := if signed && t[0] == '-' then -v else v;
      if IsInt32(n) then Some(n) else None
  }

  lemma {:induction false} LeadingValueSnoc(s: string, c: char, acc: nat)
    requires IsDigit(c) && forall i :: 0 <= i < |s| ==> IsDigit(s[i])
    ensures LeadingValue(s + [c], acc) == LeadingValue(s, acc) * 10 + DigitValue(c)
  {
    if |s| == 0 {
      assert s + [c] == [c];
      assert LeadingValue([c], acc) == LeadingValue([c][1..], acc * 10 + DigitValue(c));
    } else {
      assert (s + [c])[1..] == s[1..] + [c];
      LeadingValueSnoc(s[1..], c, acc * 10 + DigitValue(s[0]));
    }
  }

  lemma {:induction false} DigitsRead(n: nat)
    ensures LeadingValue(Digits(n), 0) == n
  {
    if n < 10 {
      assert Digits(n) == [Digit(n)];
      assert LeadingValue([Digit(n)], 0) == LeadingValue([Digit(n)][1..], n);
    } else {
      DigitsRead(n / 10);
      LeadingValueSnoc(Digits(n / 10), Digit(n % 10), 0);
    }
  }

  /** stoi reads back what << wrote, if it fits an int. */
  lemma {:induction false} StoiReads(n: int)
    ensures Stoi(IntText(n)) == if IsInt32(n) then Some(n) else None
  {
    if n < 0 {
      DigitsRead(-n);
      assert IntText(n)[1..] == Digits(-n);
    } else {
      DigitsRead(n);
    }
  }

  // The decimal form

  predicate AllDigits(s: string) {
    forall i :: 0 <= i < |s| ==> IsDigit(s[i])
  }

  /** Digits without a leading zero, or just "0". */
  predicate IsNumeral(s: string) {
    |s| > 0 && AllDigits(s) && (s[0] == '0' ==> |s| == 1)
  }

  /** A numeral, or '-' and one that is not "0". */
  predicate IsDecimal(s: string) {
    |s| > 0 && if s[0] == '-' then IsNumeral(s[1..]) && s[1] != '0' else IsNumeral(s)
  }

  /** The number that digits spell: ten times what all but the last spell, and the last. */
  function Spelled(s: string): nat
    requires AllDigits(s)
  {
    if |s| == 0 then 0 else Spelled(s[..|s| - 1]) * 10 + DigitValue(s[|s| - 1])
  }

  lemma {:induction false} LeadingStops(s: string, rest: string, acc: nat)
    requires AllDigits(s) && (|rest| > 0 ==> !IsDigit(rest[0]))
    ensures LeadingValue(s + rest, acc) == LeadingValue(s, acc)
  {
    if |s| == 0 {
      assert s + rest == rest;
    } else {
      assert (s + rest)[1..] == s[1..] + rest;
      LeadingStops(s[1..], rest, acc * 10 + DigitValue(s[0]));
    }
  }

  lemma {:induction false} LeadingValueIs(s: string)
    requires AllDigits(s)
    ensures LeadingValue(s, 0) == Spelled(s)
  {
    if |s| > 0 {
      var n := |s| - 1;
      assert s == s[..n] + [s[n]];
      LeadingValueIs(s[..n]);
      LeadingValueSnoc(s[..n], s[n], 0);
    }
  }

  lemma {:induction false} LeadingIsSpelled(s: string, rest: string)
    requires AllDigits(s) && (|rest| > 0 ==> !IsDigit(rest[0]))
    ensures LeadingValue(s + rest, 0) == Spelled(s)
  {
    LeadingStops(s, rest, 0);
    LeadingValueIs(s);
  }

  lemma {:induction false} DigitsAreNumeral(n: nat)
    ensures IsNumeral(Digits(n)) && (Digits(n)[0] == '0' <==> n == 0)
  {
    if n >= 10 {
      DigitsAreNumeral(n / 10);
      assert Digits(n)[0] == Digits(n / 10)[0];
    }
  }

  lemma {:induction false} NumeralPositive(s: string)
    requires IsNumeral(s) && s[0] != '0'
    ensures Spelled(s) > 0
  {
    if |s| > 1 {
      NumeralPositive(s[..|s| - 1]);
    }
  }

  lemma {:induction false} Shorter(s: string)
    requires IsNumeral(s) && |s| > 1
    ensures IsNumeral(s[..|s| - 1]) && s[0] != '0'
  {
  }

  /** A numeral is the only one that spells its number. */
  lemma {:induction false} NumeralUnique(s: string)
    requires IsNumeral(s)
    ensures Digits(Spelled(s)) == s
  {
    var n := |s| - 1;
    assert Digit(DigitValue(s[n])) == s[n];
    if n == 0 {
      assert Spelled(s[..0]) == 0;
    } else {
      hide IsNumeral, DigitValue, Digit;
      var t := s[..n];
      assert IsNumeral(t) && t[0] != '0' by { Shorter(s); }
      NumeralUnique(t);
      NumeralPositive(t);
      assert Spelled(s) / 10 == Spelled(t) && Spelled(s) % 10 == DigitValue(s[n]);
      assert s == t + [s[n]];
    }
  }

  /** An int is written in decimal: '-' in front of a negative one, digits, no leading zero. */
  lemma {:induction false} IntTextIsDecimal(n: int)
    ensures IsDecimal(IntText(n)) && (IntText(n)[0] == '-' <==> n < 0)
  {
    DigitsAreNumeral(if n < 0 then -n else n);
    if n < 0 {
      assert IntText(n)[1..] == Digits(-n);
    }
  }

  /** std::stoi on any text: it reads n if and only if the text is white space, at most one sign, digits
      that spell n within 32 bits, and something that does not go on with a digit. */
  ghost predicate Reads(s: string, blank: nat, signed: bool, end: nat, n: int) {
    var start := if signed then blank + 1 else blank;
    && start < end <= |s|
    && (forall i :: 0 <= i < blank ==> IsSpace(s[i]))
    && (signed ==> s[blank] == '-' || s[blank] == '+')
    && AllDigits(s[start..end]) && (end < |s| ==> !IsDigit(s[end]))
    && (var v: int := Spelled(s[start..end]); n == if signed && s[blank] == '-' then -v else v)
    && IsInt32(n)
  }

  lemma {:induction false} SpaceSkipped(s: string, blank: nat)
    requires blank <= |s| && (forall i :: 0 <= i < blank ==> IsSpace(s[i])) && (blank < |s| ==> !IsSpace(s[blank]))
    ensures SkipSpace(s) == s[blank..]
  {
    if blank > 0 {
      SpaceSkipped(s[1..], blank - 1);
      assert s[1..][blank - 1..] == s[blank..];
    }
  }

  /** Where the white space ends. */
  function Blanks(s: string): (b: nat)
    ensures b <= |s| && (forall i :: 0 <= i < b ==> IsSpace(s[i])) && (b < |s| ==> !IsSpace(s[b]))
  {
    if |s| > 0 && IsSpace(s[0]) then 1 + Blanks(s[1..]) else 0
  }

  /** Where the digits end. */
  function DigitRun(s: string): (e: nat)
    ensures e <= |s| && AllDigits(s[..e]) && (e < |s| ==> !IsDigit(s[e]))
  {
    if |s| > 0 && IsDigit(s[0]) then 1 + DigitRun(s[1..]) else 0
  }

  lemma {:induction false} StoiSound(s: string, n: int)
    requires Stoi(s) == Some(n)
    ensures exists b, g, e :: Reads(s, b, g, e, n)
  {
    hide LeadingValue, Spelled, SkipSpace, Blanks, DigitRun;
    var b := Blanks(s);
    SpaceSkipped(s, b);
    var g := b < |s| && (s[b] == '-' || s[b] == '+');
    var start := if g then b + 1 else b;
    var u := s[start..];
    var e := start + DigitRun(u);
    assert s[start..e] == u[..DigitRun(u)];
    LeadingIsSpelled(u[..DigitRun(u)], u[DigitRun(u)..]);
    assert u == u[..DigitRun(u)] + u[DigitRun(u)..];
    assert Reads(s, b, g, e, n);
  }

  lemma {:induction false} StoiComplete(s: string, b: nat, g: bool, e: nat, n: int)
    requires Reads(s, b, g, e, n)
    ensures Stoi(s) == Some(n)
  {
    SpaceSkipped(s, b);
    var start := if g then b + 1 else b;
    assert s[start..e][0] == s[start];
    LeadingIsSpelled(s[start..e], s[e..]);
    assert s[start..] == s[start..e] + s[e..];
  }

  lemma {:induction false} StoiExact(s: string, n: int)
    ensures Stoi(s) == Some(n) <==> exists b, g, e :: Reads(s, b, g, e, n)
  {
    if Stoi(s) == Some(n) {
      StoiSound(s, n);
    }
    if b, g, e :| Reads(s, b, g, e, n) {
      StoiComplete(s, b, g, e, n);
    }
  }

  /** A decimal text that std::stoi reads as n is the one that is written for n. */
  lemma {:induction false} DecimalUnique(s: string, n: int)
    requires IsDecimal(s) && Stoi(s) == Some(n)
    ensures s == IntText(n)
  {
    SpaceSkipped(s, 0);
    var d := if s[0] == '-' then s[1..] else s;
    LeadingValueIs(d);
    NumeralUnique(d);
    if s[0] == '-' {
      NumeralPositive(d);
      assert s == "-" + d;
    }
  }
}
