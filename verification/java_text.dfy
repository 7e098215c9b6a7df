/** The three pieces of Java's string library that marker codes go through:
    `Integer.toString`, `Integer.parseInt` and `String.split(":")`, plus the
    colon-joined form in which a digit sequence is written as a code. */
module JavaText {
  import opened JavaLang

  predicate IsDigit(c: char) {
    '0' <= c <= '9'
  }

  predicate AllDigits(s: string) {
    forall i | 0 <= i < |s| :: IsDigit(s[i])
  }

  function DigitValue(c: char): (d: nat)
    requires IsDigit(c)
    ensures d < 10
  {
    (c as int) - ('0' as int)
  }

  function DigitChar(d: nat): (c: char)
    requires d < 10
    ensures IsDigit(c) && DigitValue(c) == d
  {
    (('0' as int) + d) as char
  }

  /** The value of a run of decimal digits, most significant digit first. */
  function DigitsValue(s: string): nat
    requires AllDigits(s)
  {
    if s == [] then 0 else DigitsValue(s[..|s| - 1]) * 10 + DigitValue(s[|s| - 1])
  }

  /** The decimal numeral of a natural number, without leading zeros. */
  function NatToString(n: nat): (s: string)
    ensures |s| > 0 && AllDigits(s)
    ensures DigitsValue(s) == n
  {
    if n < 10 then [DigitChar(n)]
    else
      var s := NatToString(n / 10) + [DigitChar(n % 10)];
      assert s[..|s| - 1] == NatToString(n / 10);
      s
  }

  /** `Integer.toString(n)`: a '-' before the numeral of a negative number. */
  function IntToString(n: int): (s: string)
    ensures |s| > 0 && ':' !in s && IsDigit(s[|s| - 1])
  {
    if n < 0 then "-" + NatToString(-n) else NatToString(n)
  }

  /** `Integer.parseInt(s)`: an optional sign, '-' or '+', followed by at
      least one ASCII decimal digit. Every other token is `None` here, where
      Java throws; that includes the non-ASCII decimal digits which Java's
      `Character.digit` would accept. */
  function ParseInt(s: string): Option<int>
  {
    if |s| > 0 && AllDigits(s) then Some(DigitsValue(s))
    else if |s| > 1 && s[0] == '-' && AllDigits(s[1..]) then Some(0 - DigitsValue(s[1..]))
    else if |s| > 1 && s[0] == '+' && AllDigits(s[1..]) then Some(DigitsValue(s[1..]))
    else None
  }

  /** Parsing reads back what `Integer.toString` wrote. */
  lemma ParseIntToString(n: int)
    ensures ParseInt(IntToString(n)) == Some(n)
  {
    if n < 0 {
      var s := IntToString(n);
      assert s[1..] == NatToString(-n);
      assert !AllDigits(s) by { assert !IsDigit(s[0]); }
    }
  }

  function EndsWith(s: string, suffix: string): bool {
    |suffix| <= |s| && s[|s| - |suffix|..] == suffix
  }

  /** The tokens between colons, empty ones included: one more token than
      there are colons. */
  function RawSplit(s: string): (tokens: seq<string>)
    ensures |tokens| >= 1
  {
    if s == [] then [""]
    else
      var rest := RawSplit(s[1..]);
      if s[0] == ':' then [""] + rest else [[s[0]] + rest[0]] + rest[1..]
  }

  function DropTrailingEmpty(tokens: seq<string>): (r: seq<string>)
    ensures |r| <= |tokens| && r == tokens[..|r|]
    ensures r == [] || r[|r| - 1] != ""
    ensures forall i | |r| <= i < |tokens| :: tokens[i] == ""
  {
    if tokens != [] && tokens[|tokens| - 1] == "" then DropTrailingEmpty(tokens[..|tokens| - 1])
    else tokens
  }

  /** `s.split(":")`: the whole string when it holds no colon (so "" gives [""]),
      otherwise the colon-separated tokens with trailing empty tokens removed
      (so ":" gives [] and "1::" gives ["1"]). */
  function JavaSplit(s: string): (tokens: seq<string>)
    ensures ':' !in s ==> tokens == [s]
    ensures ':' in s ==> |tokens| <= |RawSplit(s)| && tokens == RawSplit(s)[..|tokens|] && (tokens == [] || tokens[|tokens| - 1] != "")
    ensures ':' in s ==> forall i | |tokens| <= i < |RawSplit(s)| :: RawSplit(s)[i] == ""
  {
    if ':' !in s then [s] else DropTrailingEmpty(RawSplit(s))
  }

  /** The decimal numerals of a sequence of integers, in order. */
  function Numerals(s: seq<int>): (tokens: seq<string>)
    ensures |tokens| == |s|
    ensures forall i | 0 <= i < |s| :: tokens[i] == IntToString(s[i])
  {
    if s == [] then []
    else
      var init := s[..|s| - 1];
      assert forall i | 0 <= i < |init| :: init[i] == s[i];
      Numerals(init) + [IntToString(s[|s| - 1])]
  }

  /** The colon-separated form of a digit sequence, as the code "1:1:2:4:4". */
  function Join(s: seq<int>): string
  {
    if s == [] then ""
    else if |s| == 1 then IntToString(s[0])
    else Join(s[..|s| - 1]) + ":" + IntToString(s[|s| - 1])
  }

  lemma {:induction false} RawSplitNoColon(s: string)
    requires ':' !in s
    ensures RawSplit(s) == [s]
  {
    if s != [] {
      assert ':' !in s[1..] by {
        forall i | 0 <= i < |s[1..]| ensures s[1..][i] != ':' { assert s[1..][i] == s[i + 1]; }
      }
      RawSplitNoColon(s[1..]);
      assert [s[0]] + s[1..] == s;
    }
  }

  lemma {:induction false} RawSplitAtColon(x: string, y: string)
    ensures RawSplit(x + ":" + y) == RawSplit(x) + RawSplit(y)
  {
    if x == [] {
      assert x + ":" + y == [':'] + y;
      assert (x + ":" + y)[1..] == y;
    } else {
      assert (x + ":" + y)[1..] == x[1..] + ":" + y;
      RawSplitAtColon(x[1..], y);
    }
  }

  /** Splitting a joined code at its colons gives back one token per value. */
  lemma {:induction false} RawSplitJoin(s: seq<int>)
    requires |s| >= 1
    ensures RawSplit(Join(s)) == Numerals(s)
  {
    var last := IntToString(s[|s| - 1]);
    RawSplitNoColon(last);
    if |s| > 1 {
      var init := s[..|s| - 1];
      RawSplitJoin(init);
      RawSplitAtColon(Join(init), last);
    }
  }

  /** `split(":")` undoes `Join`: a non-empty code splits into exactly the
      numerals of its values, since no numeral is empty or holds a colon. */
  lemma SplitJoin(s: seq<int>)
    requires |s| >= 1
    ensures JavaSplit(Join(s)) == Numerals(s)
    ensures !EndsWith(Join(s), ":")
  {
    RawSplitJoin(s);
    if |s| > 1 {
      var j := Join(s);
      assert j == Join(s[..|s| - 1]) + ":" + IntToString(s[|s| - 1]);
      assert j[|Join(s[..|s| - 1])|] == ':';
      assert ':' in j;
      assert Numerals(s)[|s| - 1] != "";
    } else {
      assert ':' !in Join(s);
    }
  }
}
