/** Operations of JavaScript strings that several parts of the program use. */
module Strings {
  import opened Wrappers

  predicate IsDigit(c: char) {
    '0' <= c <= '9'
  }

  predicate AllDigits(s: string) {
    forall i :: 0 <= i < |s| ==> IsDigit(s[i])
  }

  /** The number that decimal digits spell. */
  function ParseDigits(s: string): nat
    requires AllDigits(s)
  {
    if s == "" then 0 else 10 * ParseDigits(s[..|s| - 1]) + (s[|s| - 1] as int - '0' as int)
  }

  /** The shortest decimal digits of a number. */
  function Digits(n: nat): (s: string)
    ensures s != "" && AllDigits(s)
  {
    if n < 10 then [('0' as int + n) as char] else Digits(n / 10) + [('0' as int + n % 10) as char]
  }

  lemma {:induction false} ParseOfDigits(n: nat)
    ensures ParseDigits(Digits(n)) == n
  {
    if n >= 10 {
      ParseOfDigits(n / 10);
      var s := Digits(n);
      assert s[..|s| - 1] == Digits(n / 10);
    }
  }

  /** The text is the decimal numeral of n: no other text of digits without a leading zero spells it. */
  predicate IsNumeralOf(s: string, n: nat) {
    s != "" && AllDigits(s) && ParseDigits(s) == n && (|s| == 1 || s[0] != '0')
  }

  lemma {:induction false} DigitsAreNumeral(n: nat)
    ensures IsNumeralOf(Digits(n), n)
  {
    ParseOfDigits(n);
    NoLeadingZero(n);
  }

  lemma {:induction false} NoLeadingZero(n: nat)
    ensures n > 0 ==> Digits(n)[0] != '0'
    ensures n < 10 <==> |Digits(n)| == 1
  {
    if n >= 10 {
      NoLeadingZero(n / 10);
    }
  }

  /** toString() of an integer. */
  function ToDecimal(n: int): string {
    if n < 0 then "-" + Digits(-n) else Digits(n)
  }

  /** The order of strings by character codes. */
  predicate LexLess(a: string, b: string) {
    b != "" && (a == "" || a[0] < b[0] || (a[0] == b[0] && LexLess(a[1..], b[1..])))
  }

  lemma {:induction false} LexLessIsTotal(a: string, b: string)
    ensures LexLess(a, b) || LexLess(b, a) || a == b
    ensures !(LexLess(a, b) && LexLess(b, a)) && !LexLess(a, a)
  {
    if a != "" && b != "" {
      LexLessIsTotal(a[1..], b[1..]);
      assert a == [a[0]] + a[1..] && b == [b[0]] + b[1..];
    }
    if a != "" {
      LexLessIsTotal(a[1..], a[1..]);
    }
  }

  lemma {:induction false} LexLessIsTransitive(a: string, b: string, c: string)
    requires LexLess(a, b) && LexLess(b, c)
    ensures LexLess(a, c)
  {
    if a != "" && a[0] == b[0] == c[0] {
      LexLessIsTransitive(a[1..], b[1..], c[1..]);
    }
  }

  /** The text before the first separator: split(separator)[0]. */
  function BeforeFirst(separator: char, s: string): string {
    if s == "" || s[0] == separator then "" else [s[0]] + BeforeFirst(separator, s[1..])
  }

  /** The text after the first separator, if there is a separator. */
  function AfterFirst(separator: char, s: string): Option<string> {
    if s == "" then None
    else if s[0] == separator then Some(s[1..])
    else AfterFirst(separator, s[1..])
  }

  lemma {:induction false} SplitAtFirst(separator: char, x: string, y: string)
    requires separator !in x
    ensures BeforeFirst(separator, x + [separator] + y) == x
    ensures AfterFirst(separator, x + [separator] + y) == Some(y)
  {
    var s := x + [separator] + y;
    if x == "" {
      assert s[1..] == y;
    } else {
      assert s[1..] == x[1..] + [separator] + y;
      SplitAtFirst(separator, x[1..], y);
    }
  }

  lemma {:induction false} BeforeFirstIsClean(separator: char, s: string)
    ensures separator !in BeforeFirst(separator, s)
    ensures BeforeFirst(separator, s) <= s
    ensures separator !in s ==> BeforeFirst(separator, s) == s && AfterFirst(separator, s).None?
    ensures separator in s ==>
              var after := AfterFirst(separator, s);
              after.Some? && s == BeforeFirst(separator, s) + [separator] + after.value
  {
    if s != "" && s[0] != separator {
      BeforeFirstIsClean(separator, s[1..]);
      assert s == [s[0]] + s[1..];
    }
  }

  function SplitOn(separator: char, s: string): (parts: seq<string>)
    ensures parts != []
    decreases |s|
  {
    BeforeFirstIsClean(separator, s);
    var after := AfterFirst(separator, s);
    if after.None? then [s] else [BeforeFirst(separator, s)] + SplitOn(separator, after.value)
  }

  function Join(separator: char, parts: seq<string>): string {
    if parts == [] then ""
    else if |parts| == 1 then parts[0]
    else parts[0] + [separator] + Join(separator, parts[1..])
  }

  /** split undoes join, except that joining nothing gives one empty part. */
  lemma {:induction false} SplitOfJoin(separator: char, parts: seq<string>)
    requires forall i :: 0 <= i < |parts| ==> separator !in parts[i]
    ensures SplitOn(separator, Join(separator, parts)) == if parts == [] then [""] else parts
  {
    if |parts| == 1 {
      BeforeFirstIsClean(separator, parts[0]);
    } else if |parts| > 1 {
      SplitOfJoin(separator, parts[1..]);
      SplitAtFirst(separator, parts[0], Join(separator, parts[1..]));
    }
  }

  /** join puts one separator between neighbours and keeps the order. */
  lemma {:induction false} JoinInOrder(separator: char, xs: seq<string>, ys: seq<string>, part: string)
    ensures Join(separator, [part]) == part
    ensures xs != [] && ys != [] ==> Join(separator, xs + ys) == Join(separator, xs) + [separator] + Join(separator, ys)
    decreases |xs|
  {
    if |xs| == 1 {
      assert (xs + ys)[1..] == ys;
    } else if |xs| > 1 {
      assert (xs + ys)[1..] == xs[1..] + ys;
      JoinInOrder(separator, xs[1..], ys, part);
    }
  }
}
