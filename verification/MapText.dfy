/**
  The text primitives of the map loader (Storage/MapData.cpp:22-31): getline
  with a delimiter, and stoi.
 */
module MapText {
  import opened Wire

  // ------------------------------------------------------------------ getline

  // Position of the first d in s, or its length.
  function IndexOf(s: string, d: char): (k: nat)
    ensures k <= |s| && d !in s[..k] && (k < |s| ==> s[k] == d)
  {
    if s == [] || s[0] == d then 0
    else
      var k := IndexOf(s[1..], d);
      assert s[..k + 1] == [s[0]] + s[1..][..k];
      k + 1
  }

  // The strings that repeated getline calls give: a delimiter ends a segment,
  // and so does the end of the input, but there is no segment behind a final
  // delimiter.
  function Segments(s: string, d: char): seq<string> {
    if s == [] then []
    else
      var k := IndexOf(s, d);
      if k == |s| then [s] else [s[..k]] + Segments(s[k + 1..], d)
  }

  lemma {:induction false} IndexOfDelimiter(a: string, d: char, rest: string)
    requires d !in a
    ensures IndexOf(a + [d] + rest, d) == |a|
  {
    var s, k := a + [d] + rest, IndexOf(a + [d] + rest, d);
    assert forall i :: 0 <= i < |a| ==> s[i] == a[i] != d;
    assert forall i :: 0 <= i < k ==> s[i] == s[..k][i] != d;
    assert s[|a|] == d;
  }

  lemma {:induction false} SegmentsCons(a: string, d: char, rest: string)
    requires d !in a
    ensures Segments(a + [d] + rest, d) == [a] + Segments(rest, d)
  {
    IndexOfDelimiter(a, d, rest);
    assert (a + [d] + rest)[..|a|] == a && (a + [d] + rest)[|a| + 1..] == rest;
  }

  lemma {:induction false} SegmentsLast(a: string, d: char)
    requires d !in a
    ensures Segments(a, d) == if a == [] then [] else [a]
  {
    assert forall i :: 0 <= i < |a| ==> a[i] != d;
  }

  // --------------------------------------------------------------------- stoi

  predicate IsSpace(c: char) {
    9 <= c as int <= 13 || c == ' '
  }

  predicate IsDigit(c: char) {
    '0' <= c <= '9'
  }

  function DigitValue(c: char): nat
    requires IsDigit(c)
  {
    c as int - '0' as int
  }

  function SkipSpace(s: string): string {
    if s != [] && IsSpace(s[0]) then SkipSpace(s[1..]) else s
  }

  // The number of the digits at the start of s, read behind those of acc.
  function DigitsValue(s: string, acc: nat): nat {
    if s == [] || !IsDigit(s[0]) then acc else DigitsValue(s[1..], 10 * acc + DigitValue(s[0]))
  }

  // Leading spaces and a sign are allowed, anything behind the digits is
  // ignored.  None stands for the exceptions invalid_argument (no digits) and
  // out_of_range.
  function Stoi(s: string): Option<I32> {
    var t := SkipSpace(s);
    var negative := t != [] && t[0] == '-';
    var u := if t != [] && (t[0] == '-' || t[0] == '+') then t[1..] else t;
    if u == [] || !IsDigit(u[0]) then None
    else
      var v := DigitsValue(u, 0);
      var n: int := if negative then -(v as int) else v;
      if -TWO_31 <= n < TWO_31 then Some(n) else None
  }

  // ------------------------------------------------------------------- writing

  function DigitChar(d: nat): (c: char)
    requires d < 10
    ensures IsDigit(c) && DigitValue(c) == d
  {
    (d + '0' as int) as char
  }

  function Decimal(n: nat): (s: string)
    ensures s != [] && forall c | c in s :: IsDigit(c)
  {
    if n < 10 then [DigitChar(n)] else Decimal(n / 10) + [DigitChar(n % 10)]
  }

  function IntText(n: I32): (s: string)
    ensures s != [] && forall c | c in s :: IsDigit(c) || c == '-'
  {
    var m: int := n;
    if m < 0 then "-" + Decimal(-m) else Decimal(m)
  }

  // ------------------------------------------------------------ what stoi takes

  // The six white-space characters, and the ten digits.
  predicate IsBlank(c: char) {
    c == ' ' || c == '\t' || c == '\n' || c == '\U{0B}' || c == '\U{0C}' || c == '\r'
  }

  predicate IsNumeral(c: char) {
    c == '0' || c == '1' || c == '2' || c == '3' || c == '4' || c == '5' || c == '6' || c == '7' || c == '8' || c == '9'
  }

  predicate Blank(s: string) {
    forall c | c in s :: IsBlank(c)
  }

  predicate Digits(s: string) {
    forall c | c in s :: IsNumeral(c)
  }

  function Numeral(c: char): nat
    requires IsNumeral(c)
  {
    match c
    case '0' => 0
    case '1' => 1
    case '2' => 2
    case '3' => 3
    case '4' => 4
    case '5' => 5
    case '6' => 6
    case '7' => 7
    case '8' => 8
    case _ => 9
  }

  // The decimal number of some digits, leading zeros included.
  function NumberOf(ds: string): nat
    requires Digits(ds)
  {
    if ds == [] then 0 else 10 * NumberOf(ds[..|ds| - 1]) + Numeral(ds[|ds| - 1])
  }

  // A cell of white space, a sign, digits and anything else.
  datatype NumberText = NumberText(blank: string, sign: string, digits: string, rest: string) {
    function Text(): string {
      blank + sign + digits + rest
    }

    // The parts are as long as they can be.
    predicate Split() {
      && Blank(blank) && Digits(digits) && (sign == "" || sign == "+" || sign == "-")
      && (rest != [] ==> !IsNumeral(rest[0]))
      && (digits == [] && sign == [] && rest != [] ==> !IsBlank(rest[0]) && rest[0] != '+' && rest[0] != '-')
    }

    function Value(): int
      requires Split()
    {
      var n: int := NumberOf(digits);
      if sign == "-" then -n else n
    }
  }

  // The code's tests for white space and digits are these.
  lemma {:induction false} SameCharacters(c: char)
    ensures IsSpace(c) <==> IsBlank(c)
    ensures IsDigit(c) <==> IsNumeral(c)
    ensures IsDigit(c) ==> DigitValue(c) == Numeral(c)
  {
  }

  lemma {:induction false} SkipBlank(blank: string, s: string)
    requires Blank(blank) && (s != [] ==> !IsSpace(s[0]))
    ensures SkipSpace(blank + s) == s
  {
    if blank == [] {
      assert blank + s == s;
    } else {
      assert blank[0] in blank && (blank + s)[1..] == blank[1..] + s;
      SkipBlank(blank[1..], s);
    }
  }

  lemma {:induction false} DigitsValueOf(ds: string, rest: string)
    requires Digits(ds)
    ensures DigitsValue(ds + rest, 0) == DigitsValue(rest, NumberOf(ds))
  {
    if ds == [] {
      assert ds + rest == rest;
    } else {
      var init, c := ds[..|ds| - 1], ds[|ds| - 1];
      assert ds + rest == init + ([c] + rest);
      DigitsValueOf(init, [c] + rest);
      assert c in ds && ([c] + rest)[1..] == rest;
    }
  }

  // stoi takes a text exactly when a digit follows the white space and the sign
  // and the number is one of 32 bits; what follows the digits does not matter.
  lemma {:induction false} StoiExactly(t: NumberText)
    requires t.Split()
    ensures Stoi(t.Text()) ==
            if t.digits != [] && -2147483648 <= t.Value() <= 2147483647 then Some(t.Value()) else None
  {
    hide SkipSpace, DigitsValue, NumberOf, Blank, Digits, Stoi, IsSpace, IsBlank;
    var u := t.digits + t.rest;
    var s := t.sign + u;
    assert t.Text() == t.blank + s;
    FirstOf(t);
    SkipBlank(t.blank, s);
    StoiBehind(t.Text(), t.sign, u);
    DigitsValueOf(t.digits, t.rest);
    NoDigits(t.rest, NumberOf(t.digits));
  }

  // What comes first in the parts behind the white space.
  lemma {:induction false} FirstOf(t: NumberText)
    requires t.Split()
    ensures var u := t.digits + t.rest;
            var s := t.sign + u;
            && (s != [] ==> !IsSpace(s[0]))
            && (u != [] && IsDigit(u[0]) <==> t.digits != [])
            && (t.sign == [] && u != [] ==> u[0] != '+' && u[0] != '-')
            && (t.rest != [] ==> !IsDigit(t.rest[0]))
  {
    assert t.digits != [] ==> t.digits[0] in t.digits;
  }

  // stoi behind the white space: a sign, or none, and the rest.
  lemma {:induction false} StoiBehind(s: string, sign: string, u: string)
    requires SkipSpace(s) == sign + u && (sign == "" || sign == "+" || sign == "-")
    requires sign == "" && u != [] ==> u[0] != '+' && u[0] != '-'
    ensures Stoi(s) ==
            if u == [] || !IsDigit(u[0]) then None
            else
              var v: int := DigitsValue(u, 0);
              var n := if sign == "-" then -v else v;
              if -2147483648 <= n <= 2147483647 then Some(n) else None
  {
    hide SkipSpace, DigitsValue;
    assert sign == "" ==> sign + u == u;
    assert sign != "" ==> (sign + u)[1..] == u;
  }

  lemma {:induction false} NoDigits(s: string, acc: nat)
    requires s != [] ==> !IsDigit(s[0])
    ensures DigitsValue(s, acc) == acc
  {
  }

  // Every text has such parts.
  lemma {:induction false} EveryTextSplits(s: string) returns (t: NumberText)
    ensures t.Split() && t.Text() == s
  {
    hide IsSpace, IsBlank, IsDigit, IsNumeral, NumberOf;
    forall c ensures (IsSpace(c) <==> IsBlank(c)) && (IsDigit(c) <==> IsNumeral(c)) {
      SameCharacters(c);
    }
    var i := 0;
    while i < |s| && IsSpace(s[i])
      invariant i <= |s| && Blank(s[..i])
    {
      assert s[..i + 1] == s[..i] + [s[i]];
      i := i + 1;
    }
    var j := if i < |s| && (s[i] == '+' || s[i] == '-') then i + 1 else i;
    var k := j;
    while k < |s| && IsDigit(s[k])
      invariant j <= k <= |s| && Digits(s[j..k])
    {
      assert s[j..k + 1] == s[j..k] + [s[k]];
      k := k + 1;
    }
    t := NumberText(s[..i], s[i..j], s[j..k], s[k..]);
    assert s[i..j] == if i == j then "" else [s[i]];
    assert s == s[..i] + s[i..j] + s[j..k] + s[k..];
  }

  lemma {:induction false} DecimalIs(n: nat)
    ensures Digits(Decimal(n)) && NumberOf(Decimal(n)) == n
  {
    hide IsDigit, IsNumeral, Numeral, DigitValue;
    SameCharacters(DigitChar(n % 10));
    if n < 10 {
      assert Decimal(n)[..0] == [];
    } else {
      DecimalIs(n / 10);
      assert Decimal(n)[..|Decimal(n)| - 1] == Decimal(n / 10);
    }
  }

  // A written 32-bit number, behind white space and with anything but a digit
  // after it, is that number; so is one that is not negative behind a plus.
  lemma {:induction false} StoiOfIntText(n: I32, blank: string, rest: string)
    requires Blank(blank) && (rest != [] ==> !IsNumeral(rest[0]))
    ensures Stoi(blank + IntText(n) + rest) == Some(n)
    ensures n >= 0 ==> Stoi(blank + "+" + IntText(n) + rest) == Some(n)
  {
    hide Stoi, Decimal, NumberOf;
    var m: int := n;
    var ds := Decimal(if m < 0 then -m else m);
    DecimalIs(if m < 0 then -m else m);
    var t := NumberText(blank, if m < 0 then "-" else "", ds, rest);
    assert t.Text() == blank + IntText(n) + rest;
    StoiExactly(t);
    if m >= 0 {
      StoiExactly(NumberText(blank, "+", ds, rest));
    }
  }
}
