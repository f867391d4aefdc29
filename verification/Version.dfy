/**
 The order of versions by which the application offers an update.

 A number is a natural number, as decimal digits spell it. Other texts that
 JavaScript reads as numbers (signs, fractions, exponents, hexadecimal) are not
 modelled and count as text.
 */
module Version {
  import opened Strings

  datatype Part = Num(n: nat) | NotANumber | Text(s: string)

  // ----- Reading a version -----

  datatype Parts = Parts(main: seq<Part>, pre: seq<Part>)

  function MainPart(s: string): Part {
    if AllDigits(s) then Num(ParseDigits(s)) else NotANumber
  }

  function PrePart(s: string): Part {
    if AllDigits(s) then Num(ParseDigits(s)) else Text(s)
  }

  function MainParts(s: string): (parts: seq<Part>)
    ensures forall i :: 0 <= i < |parts| ==> !parts[i].Text?
  {
    var texts := SplitOn('.', s);
    seq(|texts|, i requires 0 <= i < |texts| => MainPart(texts[i]))
  }

  function PreParts(s: string): (parts: seq<Part>)
    ensures forall i :: 0 <= i < |parts| ==> parts[i].Num? || (parts[i].Text? && !AllDigits(parts[i].s))
  {
    if s == "" then []
    else
      var texts := SplitOn('.', s);
      seq(|texts|, i requires 0 <= i < |texts| => PrePart(texts[i]))
  }

  function ParseVersion(version: string): (r: Parts)
    ensures forall i :: 0 <= i < |r.main| ==> !r.main[i].Text?
    ensures forall i :: 0 <= i < |r.pre| ==> r.pre[i].Num? || (r.pre[i].Text? && !AllDigits(r.pre[i].s))
  {
    var pieces := SplitOn('-', version);
    Parts(MainParts(pieces[0]), if |pieces| < 2 then [] else PreParts(pieces[1]))
  }

  /** The decimal numerals of natural numbers. */
  function Numerals(ns: seq<nat>): seq<string> {
    seq(|ns|, i requires 0 <= i < |ns| => Digits(ns[i]))
  }

  function Nums(ns: seq<nat>): seq<Part> {
    seq(|ns|, i requires 0 <= i < |ns| => Num(ns[i]))
  }

  /** How a pre-release identifier is read: digits as their number, anything else as text. */
  ghost predicate IsIdentifier(part: Part, s: string) {
    if AllDigits(s) then part == Num(ParseDigits(s)) else part == Text(s)
  }

  lemma {:induction false} JoinHasOnly(c: char, separator: char, parts: seq<string>)
    requires c != separator && forall i :: 0 <= i < |parts| ==> c !in parts[i]
    ensures c !in Join(separator, parts)
  {
    if |parts| > 1 {
      JoinHasOnly(c, separator, parts[1..]);
    }
  }

  lemma NumeralsAreClean(ns: seq<nat>, c: char)
    requires !IsDigit(c)
    ensures forall i :: 0 <= i < |ns| ==> c !in Numerals(ns)[i]
  {
    forall i | 0 <= i < |ns|
      ensures c !in Numerals(ns)[i]
    {
      assert AllDigits(Digits(ns[i]));
    }
  }

  lemma MainPartsOfNumerals(ns: seq<nat>)
    requires ns != []
    ensures MainParts(Join('.', Numerals(ns))) == Nums(ns)
  {
    NumeralsAreClean(ns, '.');
    SplitOfJoin('.', Numerals(ns));
    forall i | 0 <= i < |ns|
      ensures MainPart(Numerals(ns)[i]) == Num(ns[i])
    {
      ParseOfDigits(ns[i]);
    }
  }

  lemma PrePartsOfIdentifiers(identifiers: seq<string>)
    requires identifiers != [] && identifiers != [""]
    requires forall i :: 0 <= i < |identifiers| ==> '.' !in identifiers[i]
    ensures var pre := PreParts(Join('.', identifiers));
            |pre| == |identifiers| && forall i :: 0 <= i < |pre| ==> IsIdentifier(pre[i], identifiers[i])
  {
    SplitOfJoin('.', identifiers);
    if |identifiers| == 1 {
      assert identifiers == [identifiers[0]];
    }
  }

  lemma TwoPieces(main: string, pre: string)
    requires '-' !in main && '-' !in pre
    ensures SplitOn('-', main) == [main] && SplitOn('-', main + ['-'] + pre) == [main, pre]
  {
    BeforeFirstIsClean('-', main);
    BeforeFirstIsClean('-', pre);
    SplitAtFirst('-', main, pre);
  }

  /** A release such as 2.0.1 is read as its numbers in order. */
  lemma ReleaseIsRead(ns: seq<nat>)
    requires ns != []
    ensures ParseVersion(Join('.', Numerals(ns))) == Parts(Nums(ns), [])
  {
    NumeralsAreClean(ns, '-');
    JoinHasOnly('-', '.', Numerals(ns));
    TwoPieces(Join('.', Numerals(ns)), "");
    MainPartsOfNumerals(ns);
  }

  /** A pre-release such as 2.0.1-beta.4 is read as its numbers and its identifiers in order. */
  lemma PreReleaseIsRead(ns: seq<nat>, identifiers: seq<string>)
    requires ns != [] && identifiers != [] && identifiers != [""]
    requires forall i :: 0 <= i < |identifiers| ==> '.' !in identifiers[i] && '-' !in identifiers[i]
    ensures var parsed := ParseVersion(Join('.', Numerals(ns)) + ['-'] + Join('.', identifiers));
            && parsed.main == Nums(ns)
            && |parsed.pre| == |identifiers|
            && forall i :: 0 <= i < |identifiers| ==> IsIdentifier(parsed.pre[i], identifiers[i])
  {
    NumeralsAreClean(ns, '-');
    JoinHasOnly('-', '.', Numerals(ns));
    JoinHasOnly('-', '.', identifiers);
    TwoPieces(Join('.', Numerals(ns)), Join('.', identifiers));
    MainPartsOfNumerals(ns);
    PrePartsOfIdentifiers(identifiers);
  }

  /** A main part that is no numeral is NaN, and an empty pre-release is none. */
  lemma OtherTexts(main: string, text: string)
    requires '-' !in main
    ensures !AllDigits(text) ==> MainPart(text) == NotANumber
    ensures ParseVersion(main + ['-'] + "") == ParseVersion(main)
  {
    TwoPieces(main, "");
  }

  /** What follows a second hyphen is ignored. */
  lemma ThirdPieceIsIgnored(main: string, pre: string, rest: string)
    requires '-' !in main && '-' !in pre
    ensures ParseVersion(main + ['-'] + (pre + ['-'] + rest)) == ParseVersion(main + ['-'] + pre)
  {
    TwoPieces(main, pre);
    SplitAtFirst('-', main, pre + ['-'] + rest);
    SplitAtFirst('-', pre, rest);
    assert SplitOn('-', pre + ['-'] + rest) == [pre] + SplitOn('-', rest);
    assert SplitOn('-', main + ['-'] + (pre + ['-'] + rest)) == [main] + SplitOn('-', pre + ['-'] + rest);
  }

  // ----- Comparing -----

  /** String(part) */
  function Shown(p: Part): string {
    match p
    case Num(n) => Digits(n)
    case NotANumber => "NaN"
    case Text(s) => s
  }

  /** a > b, as compareParts asks it of two parts. */
  predicate Above(a: Part, b: Part) {
    if a.Text? || b.Text? then LexLess(Shown(b), Shown(a))
    else a.Num? && b.Num? && a.n > b.n
  }

  function At(parts: seq<Part>, i: nat): Part {
    if i < |parts| then parts[i] else Num(0)
  }

  function Longer(a: seq<Part>, b: seq<Part>): nat {
    if |a| > |b| then |a| else |b|
  }

  /** The first position where the parts are not level decides. */
  ghost predicate Wins(a: seq<Part>, b: seq<Part>, k: nat) {
    Above(At(a, k), At(b, k)) && forall i: nat :: i < k ==> Level(At(a, i), At(b, i))
  }

  predicate Level(a: Part, b: Part) {
    !Above(a, b) && !Above(b, a)
  }

  ghost predicate Beats(a: seq<Part>, b: seq<Part>) {
    exists k: nat :: Wins(a, b, k)
  }

  ghost predicate AllLevel(a: seq<Part>, b: seq<Part>) {
    forall i: nat :: Level(At(a, i), At(b, i))
  }

  method CompareParts(a: seq<Part>, b: seq<Part>) returns (r: int)
    ensures -1 <= r <= 1
    ensures r == 1 <==> Beats(a, b)
    ensures r == -1 <==> Beats(b, a)
    ensures r == 0 <==> AllLevel(a, b)
  {
    for i := 0 to Longer(a, b)
      invariant forall j: nat :: j < i ==> Level(At(a, j), At(b, j))
    {
      if Above(At(a, i), At(b, i)) {
        assert Wins(a, b, i);
        OneWins(a, b);
        return 1;
      }
      if Above(At(b, i), At(a, i)) {
        assert Wins(b, a, i);
        OneWins(a, b);
        return -1;
      }
    }
    OneWins(a, b);
    return 0;
  }

  lemma AboveIsAsymmetric(a: Part, b: Part)
    ensures !(Above(a, b) && Above(b, a))
  {
    LexLessIsTotal(Shown(a), Shown(b));
  }

  /** Exactly one of three: a beats b, b beats a, or all parts are level. NaN parts included. */
  lemma OneWins(a: seq<Part>, b: seq<Part>)
    ensures !(Beats(a, b) && Beats(b, a))
    ensures AllLevel(a, b) <==> !Beats(a, b) && !Beats(b, a)
  {
    if Beats(a, b) && Beats(b, a) {
      var k: nat :| Wins(a, b, k);
      var l: nat :| Wins(b, a, l);
      AboveIsAsymmetric(At(a, k), At(b, k));
      assert false;
    }
    if !AllLevel(a, b) {
      var i: nat :| !Level(At(a, i), At(b, i));
      FirstNotLevel(a, b, i);
    }
    if AllLevel(a, b) {
      assert forall k: nat :: Level(At(a, k), At(b, k));
    }
  }

  lemma {:induction false} FirstNotLevel(a: seq<Part>, b: seq<Part>, i: nat)
    requires !Level(At(a, i), At(b, i))
    ensures Beats(a, b) || Beats(b, a)
  {
    if k: nat :| k < i && !Level(At(a, k), At(b, k)) {
      FirstNotLevel(a, b, k);
    } else {
      assert Wins(a, b, i) || Wins(b, a, i);
    }
  }

  // ----- Where the order is transitive -----

  /** The parts of a family: no NaN, no text that reads as a number, and the 0 that stands for a missing part. */
  ghost predicate Proper(family: Part -> bool) {
    && family(Num(0))
    && !family(NotANumber)
    && forall s :: family(Text(s)) ==> !AllDigits(s)
  }

  ghost predicate OverFamily(family: Part -> bool, parts: seq<Part>) {
    forall i :: 0 <= i < |parts| ==> family(parts[i])
  }

  /** A text that, as text, lies between two numbers that are in the other order. */
  predicate Straddles(text: string, low: nat, high: nat) {
    low < high && LexLess(Digits(high), text) && LexLess(text, Digits(low))
  }

  ghost predicate HasStraddle(family: Part -> bool) {
    exists text, low, high :: family(Text(text)) && family(Num(low)) && family(Num(high)) && Straddles(text, low, high)
  }

  lemma LevelMeansEqual(family: Part -> bool, a: Part, b: Part)
    requires Proper(family) && family(a) && family(b)
    ensures Level(a, b) <==> a == b
  {
    LexLessIsTotal(Shown(a), Shown(b));
    if a.Num? {
      assert AllDigits(Digits(a.n));
    }
    if b.Num? {
      assert AllDigits(Digits(b.n));
    }
  }

  lemma PartsAreTransitive(family: Part -> bool, a: Part, b: Part, c: Part)
    requires Proper(family) && family(a) && family(b) && family(c) && !HasStraddle(family)
    requires Above(a, b) && Above(b, c)
    ensures Above(a, c)
  {
    var x, y, z := Shown(a), Shown(b), Shown(c);
    if LexLess(y, x) && LexLess(z, y) {
      LexLessIsTransitive(z, y, x);
    }
    LexLessIsTotal(x, z);
    LexLessIsTotal(x, y);
    LexLessIsTotal(y, z);
    LevelMeansEqual(family, a, c);
    if !Above(a, c) && a != c {
      assert Above(c, a);
      NoCycle(family, a, b, c);
    }
    if a == c {
      AboveIsAsymmetric(a, b);
    }
  }

  lemma NoCycle(family: Part -> bool, a: Part, b: Part, c: Part)
    requires Proper(family) && family(a) && family(b) && family(c)
    requires Above(a, b) && Above(b, c) && Above(c, a)
    ensures HasStraddle(family)
  {
    if !a.Text? && !b.Text? {
      Cycle(family, a, b, c);
    } else if !b.Text? && !c.Text? {
      Cycle(family, b, c, a);
    } else if !c.Text? && !a.Text? {
      Cycle(family, c, a, b);
    } else {
      LexLessIsTransitive(Shown(c), Shown(b), Shown(a));
      LexLessIsTotal(Shown(c), Shown(a));
      assert false;
    }
  }

  lemma Cycle(family: Part -> bool, high: Part, low: Part, text: Part)
    requires Proper(family) && family(high) && family(low) && family(text)
    requires !high.Text? && !low.Text?
    requires Above(high, low) && Above(low, text) && Above(text, high)
    ensures HasStraddle(family)
  {
    assert text.Text?;
    assert Straddles(text.s, low.n, high.n);
  }

  lemma FamilyAt(family: Part -> bool, parts: seq<Part>, i: nat)
    requires Proper(family) && OverFamily(family, parts)
    ensures family(At(parts, i))
  {
  }

  /** Lists over a family that is proper are level exactly when they are equal up to missing zeros. */
  lemma AllLevelMeansPaddedEqual(family: Part -> bool, a: seq<Part>, b: seq<Part>)
    requires Proper(family) && OverFamily(family, a) && OverFamily(family, b)
    ensures AllLevel(a, b) <==> forall i: nat :: At(a, i) == At(b, i)
  {
    forall i: nat
      ensures Level(At(a, i), At(b, i)) <==> At(a, i) == At(b, i)
    {
      FamilyAt(family, a, i);
      FamilyAt(family, b, i);
      LevelMeansEqual(family, At(a, i), At(b, i));
    }
  }

  lemma BeatsIsTransitive(family: Part -> bool, a: seq<Part>, b: seq<Part>, c: seq<Part>)
    requires Proper(family) && OverFamily(family, a) && OverFamily(family, b) && OverFamily(family, c)
    requires !HasStraddle(family)
    requires Beats(a, b) && Beats(b, c)
    ensures Beats(a, c)
  {
    var k: nat :| Wins(a, b, k);
    var l: nat :| Wins(b, c, l);
    var m := if k < l then k else l;
    forall i: nat | i <= m
      ensures i < k ==> At(a, i) == At(b, i)
      ensures i < l ==> At(b, i) == At(c, i)
    {
      FamilyAt(family, a, i);
      FamilyAt(family, b, i);
      FamilyAt(family, c, i);
      if i < k {
        LevelMeansEqual(family, At(a, i), At(b, i));
      }
      if i < l {
        LevelMeansEqual(family, At(b, i), At(c, i));
      }
    }
    if k == l {
      FamilyAt(family, a, k);
      FamilyAt(family, b, k);
      FamilyAt(family, c, k);
      PartsAreTransitive(family, At(a, k), At(b, k), At(c, k));
    }
    assert Wins(a, c, m);
  }

  /** On the lists over a family the comparison is transitive exactly when no text straddles two numbers. */
  lemma TransitiveIff(family: Part -> bool)
    requires Proper(family)
    ensures (forall a, b, c ::
               OverFamily(family, a) && OverFamily(family, b) && OverFamily(family, c) && Beats(a, b) && Beats(b, c)
               ==> Beats(a, c))
            <==> !HasStraddle(family)
  {
    if HasStraddle(family) {
      var text, low, high :| family(Text(text)) && family(Num(low)) && family(Num(high)) && Straddles(text, low, high);
      var a, b, c := [Num(high)], [Num(low)], [Text(text)];
      assert Wins(a, b, 0) && Wins(b, c, 0) && Wins(c, a, 0);
      OneWins(a, c);
      assert OverFamily(family, a) && OverFamily(family, b) && OverFamily(family, c) && Beats(a, b) && Beats(b, c);
    } else {
      forall a, b, c |
        && OverFamily(family, a) && OverFamily(family, b) && OverFamily(family, c)
        && Beats(a, b) && Beats(b, c)
        ensures Beats(a, c)
      {
        BeatsIsTransitive(family, a, b, c);
      }
    }
  }

  lemma OneAStraddles()
    ensures Straddles("1a", 9, 10)
  {
    assert Digits(1) == "1" && Digits(9) == "9" && Digits(10) == "10";
    assert LexLess("a", "") || LexLess("0", "a");
    assert "10"[1..] == "0" && "1a"[1..] == "a";
  }

  // ----- Versions -----

  ghost predicate Newer(v: Parts, w: Parts) {
    Beats(v.main, w.main) || (AllLevel(v.main, w.main) && Beats(v.pre, w.pre))
  }

  method IsNewerVersion(newVersion: string, currentVersion: string) returns (newer: bool)
    ensures newer <==> Newer(ParseVersion(newVersion), ParseVersion(currentVersion))
  {
    var current, latest := ParseVersion(currentVersion), ParseVersion(newVersion);
    var mainComparison := CompareParts(latest.main, current.main);
    OneWins(latest.main, current.main);
    if mainComparison != 0 {
      return mainComparison > 0;
    }
    var preComparison := CompareParts(latest.pre, current.pre);
    return preComparison > 0;
  }

  function NumberAt(ns: seq<nat>, i: nat): nat {
    if i < |ns| then ns[i] else 0
  }

  /** At the first position where the numbers differ, with 0 for missing ones, those of ns are larger. */
  ghost predicate IsLater(ns: seq<nat>, ms: seq<nat>) {
    exists k: nat :: NumberAt(ns, k) > NumberAt(ms, k) && forall i: nat :: i < k ==> NumberAt(ns, i) == NumberAt(ms, i)
  }

  lemma BeatsIfLater(ns: seq<nat>, ms: seq<nat>)
    ensures Beats(Nums(ns), Nums(ms)) <==> IsLater(ns, ms)
  {
    var a, b := Nums(ns), Nums(ms);
    assert forall i: nat :: At(a, i) == Num(NumberAt(ns, i)) && At(b, i) == Num(NumberAt(ms, i));
    if Beats(a, b) {
      var k: nat :| Wins(a, b, k);
      assert forall i: nat :: i < k ==> Level(At(a, i), At(b, i));
      assert NumberAt(ns, k) > NumberAt(ms, k);
    }
    if IsLater(ns, ms) {
      var k: nat :| NumberAt(ns, k) > NumberAt(ms, k) && forall i: nat :: i < k ==> NumberAt(ns, i) == NumberAt(ms, i);
      assert Wins(a, b, k);
    }
  }

  /** For the texts of two releases, the answer is the order of their numbers. */
  method IsNewerRelease(ns: seq<nat>, ms: seq<nat>) returns (newer: bool)
    requires ns != [] && ms != []
    ensures newer <==> IsLater(ns, ms)
  {
    newer := IsNewerVersion(Join('.', Numerals(ns)), Join('.', Numerals(ms)));
    ReleaseIsRead(ns);
    ReleaseIsRead(ms);
    BeatsIfLater(ns, ms);
    NothingBeatsItself([]);
  }

  lemma NothingBeatsItself(parts: seq<Part>)
    ensures !Beats(parts, parts)
  {
    OneWins(parts, parts);
  }

  /** How two identifiers compare: numbers by value, and otherwise as texts. */
  lemma IdentifiersCompare(m: nat, n: nat, x: string, y: string)
    ensures Above(Num(m), Num(n)) <==> m > n
    ensures Above(Text(x), Text(y)) <==> LexLess(y, x)
    ensures Above(Text(x), Num(n)) <==> LexLess(Digits(n), x)
    ensures Above(Num(n), Text(x)) <==> LexLess(x, Digits(n))
    ensures !Above(NotANumber, Num(n)) && !Above(Num(n), NotANumber)
  {
  }

  /** The pre-releases that the repository's tests compare: beta.10 is above beta.2, and rc.1 above beta.2. */
  lemma NumbersInPreReleases()
    ensures Beats([Text("beta"), Num(10)], [Text("beta"), Num(2)])
    ensures Beats([Text("rc"), Num(1)], [Text("beta"), Num(2)])
  {
    LexLessIsTotal("beta", "beta");
    assert Wins([Text("beta"), Num(10)], [Text("beta"), Num(2)], 1);
    assert Wins([Text("rc"), Num(1)], [Text("beta"), Num(2)], 0);
  }

  ghost predicate VersionOver(family: Part -> bool, v: Parts) {
    OverFamily(family, v.main) && OverFamily(family, v.pre)
  }

  /** Equal up to missing zeros. */
  ghost predicate SamePadded(v: Parts, w: Parts) {
    && (forall i: nat :: At(v.main, i) == At(w.main, i))
    && (forall i: nat :: At(v.pre, i) == At(w.pre, i))
  }

  lemma BeatsRespectsPadding(a: seq<Part>, b: seq<Part>, c: seq<Part>)
    requires Beats(a, b) && (forall i: nat :: At(b, i) == At(c, i))
    ensures Beats(a, c)
  {
    var k: nat :| Wins(a, b, k);
    assert Wins(a, c, k);
  }

  lemma PaddingRespectsBeats(a: seq<Part>, b: seq<Part>, c: seq<Part>)
    requires (forall i: nat :: At(a, i) == At(b, i)) && Beats(b, c)
    ensures Beats(a, c)
  {
    var k: nat :| Wins(b, c, k);
    assert Wins(a, c, k);
  }

  /** Exactly one of two versions is newer, unless they are equal up to missing zeros. */
  lemma NewerIsTotal(family: Part -> bool, v: Parts, w: Parts)
    requires Proper(family) && VersionOver(family, v) && VersionOver(family, w)
    ensures !(Newer(v, w) && Newer(w, v))
    ensures !Newer(v, w) && !Newer(w, v) <==> SamePadded(v, w)
  {
    OneWins(v.main, w.main);
    OneWins(v.pre, w.pre);
    OneWins(w.main, v.main);
    AllLevelMeansPaddedEqual(family, v.main, w.main);
    AllLevelMeansPaddedEqual(family, v.pre, w.pre);
  }

  lemma NewerIsTransitive(family: Part -> bool, u: Parts, v: Parts, w: Parts)
    requires Proper(family) && VersionOver(family, u) && VersionOver(family, v) && VersionOver(family, w)
    requires !HasStraddle(family)
    requires Newer(u, v) && Newer(v, w)
    ensures Newer(u, w)
  {
    AllLevelMeansPaddedEqual(family, u.main, v.main);
    AllLevelMeansPaddedEqual(family, v.main, w.main);
    AllLevelMeansPaddedEqual(family, u.main, w.main);
    if Beats(u.main, v.main) {
      if Beats(v.main, w.main) {
        BeatsIsTransitive(family, u.main, v.main, w.main);
      } else {
        BeatsRespectsPadding(u.main, v.main, w.main);
      }
    } else if Beats(v.main, w.main) {
      PaddingRespectsBeats(u.main, v.main, w.main);
    } else {
      BeatsIsTransitive(family, u.pre, v.pre, w.pre);
    }
  }

  /** Versions of numbers only, as released ones are. */
  lemma NumbersAreProper()
    ensures var family := (p: Part) => p.Num?;
            Proper(family) && !HasStraddle(family)
  {
  }

  /** The part counts as more than a missing one. */
  predicate AboveZero(p: Part) {
    (p.Num? && p.n > 0) || (p.Text? && LexLess("0", p.s))
  }

  predicate BelowZero(p: Part) {
    p.Text? && LexLess(p.s, "0")
  }

  /** All parts in front of position k are neither. */
  predicate ZerosBefore(parts: seq<Part>, k: nat)
    requires k <= |parts|
  {
    forall i :: 0 <= i < k ==> !AboveZero(parts[i]) && !BelowZero(parts[i])
  }

  lemma BesideZero(p: Part)
    ensures Above(p, Num(0)) <==> AboveZero(p)
    ensures Above(Num(0), p) <==> BelowZero(p)
  {
    assert Digits(0) == "0";
  }

  lemma LevelWithItself(parts: seq<Part>)
    ensures AllLevel(parts, parts)
  {
    forall i: nat
      ensures Level(At(parts, i), At(parts, i))
    {
      AboveIsAsymmetric(At(parts, i), At(parts, i));
    }
  }

  lemma BeatsNothingIff(parts: seq<Part>)
    ensures Beats(parts, []) <==> exists k :: 0 <= k < |parts| && AboveZero(parts[k]) && ZerosBefore(parts, k)
    ensures Beats([], parts) <==> exists k :: 0 <= k < |parts| && BelowZero(parts[k]) && ZerosBefore(parts, k)
  {
    forall i: nat
      ensures Above(At(parts, i), Num(0)) <==> i < |parts| && AboveZero(parts[i])
      ensures Above(Num(0), At(parts, i)) <==> i < |parts| && BelowZero(parts[i])
    {
      BesideZero(At(parts, i));
    }
    forall k: nat
      ensures Wins(parts, [], k) <==> k < |parts| && AboveZero(parts[k]) && ZerosBefore(parts, k)
      ensures Wins([], parts, k) <==> k < |parts| && BelowZero(parts[k]) && ZerosBefore(parts, k)
    {
      assert forall i: nat :: At([], i) == Num(0);
    }
  }

  /**
   Section 11 item 3 of Semantic Versioning 2.0.0 makes every pre-release older than
   its release. The code does so exactly when the first identifier that is not level
   with 0 is a text below "0"; it counts the pre-release as newer exactly when that
   identifier is a positive number or a text above "0".
   */
  lemma PreReleaseOrderIff(release: Parts, pre: seq<Part>)
    requires release.pre == []
    ensures Newer(release, Parts(release.main, pre))
            <==> exists k :: 0 <= k < |pre| && BelowZero(pre[k]) && ZerosBefore(pre, k)
    ensures Newer(Parts(release.main, pre), release)
            <==> exists k :: 0 <= k < |pre| && AboveZero(pre[k]) && ZerosBefore(pre, k)
  {
    LevelWithItself(release.main);
    OneWins(release.main, release.main);
    BeatsNothingIff(pre);
  }

  /**
   The characters of pre-release identifiers (section 9 of Semantic Versioning 2.0.0)
   other than the hyphen, at which the version is split.
   */
  predicate IsIdentifierChar(c: char) {
    IsDigit(c) || 'A' <= c <= 'Z' || 'a' <= c <= 'z'
  }

  /** With such identifiers the order is never right: the pre-release is newer, or level when all of them are 0. */
  lemma PreReleaseIsNeverOlder(release: Parts, pre: seq<Part>)
    requires release.pre == []
    requires forall i :: 0 <= i < |pre| ==>
               pre[i].Num? || (pre[i].Text? && !AllDigits(pre[i].s) &&
                               forall j :: 0 <= j < |pre[i].s| ==> IsIdentifierChar(pre[i].s[j]))
    ensures !Newer(release, Parts(release.main, pre))
    ensures Newer(Parts(release.main, pre), release) <==> exists k :: 0 <= k < |pre| && pre[k] != Num(0)
  {
    PreReleaseOrderIff(release, pre);
    forall i | 0 <= i < |pre|
      ensures !BelowZero(pre[i])
      ensures AboveZero(pre[i]) <==> pre[i] != Num(0)
    {
      if pre[i].Text? {
        IdentifierIsAboveZero(pre[i].s);
      }
    }
    if k :| 0 <= k < |pre| && pre[k] != Num(0) {
      FirstAboveZero(pre, k);
    }
  }

  lemma IdentifierIsAboveZero(s: string)
    requires !AllDigits(s) && forall j :: 0 <= j < |s| ==> IsIdentifierChar(s[j])
    ensures LexLess("0", s) && !LexLess(s, "0")
  {
    assert s != "" && "0"[1..] == "";
    if s[0] == '0' && s[1..] == "" {
      assert AllDigits(s);
    }
    LexLessIsTotal("0", s);
  }

  lemma {:induction false} FirstAboveZero(pre: seq<Part>, k: nat)
    requires k < |pre| && AboveZero(pre[k]) && forall i :: 0 <= i < |pre| ==> !BelowZero(pre[i])
    ensures exists first :: 0 <= first < |pre| && AboveZero(pre[first]) && ZerosBefore(pre, first)
  {
    if i :| 0 <= i < k && AboveZero(pre[i]) {
      FirstAboveZero(pre, i);
    } else {
      assert ZerosBefore(pre, k);
    }
  }

  /** Identifiers that start with a letter, and 1.0.0-1, 1.0.0-0.alpha and 1.0.0-0a. */
  lemma PreReleaseCountsAsNewer(release: Parts, pre: seq<Part>)
    requires release.pre == []
    requires (pre != [] && pre[0].Text? && pre[0].s != "" && pre[0].s[0] > '9')
             || pre in [[Num(1)], [Num(0), Text("alpha")], [Text("0a")]]
    ensures Newer(Parts(release.main, pre), release) && !Newer(release, Parts(release.main, pre))
  {
    PreReleaseOrderIff(release, pre);
    OneWins(release.main, release.main);
    OneWins([], pre);
    if pre == [Num(0), Text("alpha")] {
      assert AboveZero(pre[1]) && ZerosBefore(pre, 1);
    } else {
      assert "0a"[1..] == "a" && "0"[1..] == "";
      assert AboveZero(pre[0]) && ZerosBefore(pre, 0);
    }
  }
}
