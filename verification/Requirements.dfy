/** What version precedence and each requirement operator mean, part by part. */
module Requirements {
  import opened Bytes
  import opened Ordering
  import opened SemVer
  import Layouts

  // ----- identifiers -----

  predicate Digits(s: Identifier) { forall i | 0 <= i < |s| :: 0x30 <= s[i] <= 0x39 }

  lemma {:induction false} LongerIsGreater(a: Identifier, b: Identifier)
    requires Digits(a) && Digits(b) && |a| < |b| && b[0] != 0x30
    ensures Number(a) < Number(b)
    decreases |b|
  {
    if |b| == 1 {
      assert Number(b[..0]) == 0;
    } else if |a| == 0 {
      LongerIsGreater(a, b[..|b| - 1]);
    } else {
      LongerIsGreater(a[..|a| - 1], b[..|b| - 1]);
    }
  }

  lemma {:induction false} SameLengthNumbers(a: Identifier, b: Identifier)
    requires Digits(a) && Digits(b) && |a| == |b|
    ensures Number(a) < Number(b) <==> LexLess(a, b)
    ensures Number(a) == Number(b) <==> a == b
  {
    hide LexLess;
    if |a| > 0 {
      var n := |a| - 1;
      SameLengthNumbers(a[..n], b[..n]);
      Layouts.LexLessSnoc(a[..n], b[..n], a[n], b[n]);
      assert a == a[..n] + [a[n]] && b == b[..n] + [b[n]];
    } else {
      Layouts.NothingLess();
    }
  }

  /** Numbers without leading zeros: the shorter comes first, and of two as long the one with the smaller digit
      where they first differ. */
  lemma NumbersByDigits(a: Identifier, b: Identifier)
    requires Digits(a) && Digits(b) && a != [] && b != []
    requires (|a| > 1 ==> a[0] != 0x30) && (|b| > 1 ==> b[0] != 0x30)
    ensures IdentifierLess(a, b) <==>
              |a| < |b| || (|a| == |b| && exists k | 0 <= k < |a| :: a[..k] == b[..k] && a[k] < b[k])
  {
    hide LexLess, Number;
    if |a| < |b| {
      LongerIsGreater(a, b);
    } else if |b| < |a| {
      LongerIsGreater(b, a);
    } else {
      SameLengthNumbers(a, b);
      LexLessParts(a, b);
      if LexLess(a, b) {
        var k :| PartsAt(a, b, k);
      }
      if k: nat :| k < |a| && a[..k] == b[..k] && a[k] < b[k] {
        assert PartsAt(a, b, k);
      }
    }
  }

  /** Numbers come before words, and words compare as text: at the first place they differ, or the shorter first. */
  lemma WordsAsText(a: Identifier, b: Identifier)
    requires b != [] && exists i | 0 <= i < |b| :: b[i] < 0x30 || 0x39 < b[i]
    ensures a != [] && Digits(a) ==> IdentifierLess(a, b) && !IdentifierLess(b, a)
    ensures a == [] || !Digits(a) ==>
              (IdentifierLess(a, b) <==>
               exists k | 0 <= k <= |a| :: k < |b| && a[..k] == b[..k] && (k == |a| || a[k] < b[k]))
  {
    hide LexLess;
    assert !Digits(b) && !IsDigits(b);
    if a == [] || !Digits(a) {
      assert !IsDigits(a);
      LexLessParts(a, b);
      if LexLess(a, b) {
        var k :| PartsAt(a, b, k);
      }
      if k: nat :| k <= |a| && k < |b| && a[..k] == b[..k] && (k == |a| || a[k] < b[k]) {
        assert PartsAt(a, b, k);
      }
    }
  }

  ghost predicate SmallerAt(p: seq<nat>, q: seq<nat>, k: nat) { k < |p| && k < |q| && p[..k] == q[..k] && p[k] < q[k] }

  /** Core numbers decide at the first of major, minor and patch in which two versions differ. */
  lemma CorePrecedence(a: Version, b: Version)
    ensures CoreLess(a, b) <==>
              exists k: nat :: SmallerAt([a.major, a.minor, a.patch], [b.major, b.minor, b.patch], k)
    ensures SameCore(a, b) <==> [a.major, a.minor, a.patch] == [b.major, b.minor, b.patch]
  {
    var p: seq<nat>, q: seq<nat> := [a.major, a.minor, a.patch], [b.major, b.minor, b.patch];
    assert p == q <==> p[0] == q[0] && p[1] == q[1] && p[2] == q[2];
    if CoreLess(a, b) {
      var k := if p[0] < q[0] then 0 else if p[1] < q[1] then 1 else 2;
      assert SmallerAt(p, q, k);
    }
    if k: nat :| SmallerAt(p, q, k) {
      assert forall i | 0 <= i < k :: p[i] == p[..k][i] == q[..k][i] == q[i];
      assert k > 0 ==> p[0] == q[0];
    }
  }

  const ALPHA: Identifier := Word("alpha")
  const BETA: Identifier := Word("beta")
  const RC: Identifier := Word("rc")
  const ONE: Identifier := Word("1")
  const TWO: Identifier := Word("2")
  const ELEVEN: Identifier := Word("11")

  lemma SpecificationIdentifiers()
    ensures IdentifierLess(ONE, BETA) && IdentifierLess(ALPHA, BETA) && IdentifierLess(BETA, RC)
    ensures IdentifierLess(TWO, ELEVEN)
    ensures ONE != BETA && ALPHA != BETA && BETA != RC && TWO != ELEVEN
  {
    hide Number;
    assert ALPHA[0] == 97 && BETA[0] == 98 && RC[0] == 114 && ONE[0] == 49;
    assert Digits(ONE) && Digits(TWO) && Digits(ELEVEN) && !IsDigits(ALPHA) && !IsDigits(BETA) && !IsDigits(RC);
    assert |TWO| == 1 && |ELEVEN| == 2;
    NumbersByDigits(TWO, ELEVEN);
  }

  /** The chain of section 11.4 of Semantic Versioning 2.0.0: 1.0.0-alpha, -alpha.1, -alpha.beta, -beta, -beta.2,
      -beta.11, -rc.1 and 1.0.0 ascend. */
  lemma SpecificationChain()
    ensures Less(Version(1, 0, 0, [Word("alpha")]), Version(1, 0, 0, [Word("alpha"), Word("1")]))
    ensures Less(Version(1, 0, 0, [Word("alpha"), Word("1")]), Version(1, 0, 0, [Word("alpha"), Word("beta")]))
    ensures Less(Version(1, 0, 0, [Word("alpha"), Word("beta")]), Version(1, 0, 0, [Word("beta")]))
    ensures Less(Version(1, 0, 0, [Word("beta")]), Version(1, 0, 0, [Word("beta"), Word("2")]))
    ensures Less(Version(1, 0, 0, [Word("beta"), Word("2")]), Version(1, 0, 0, [Word("beta"), Word("11")]))
    ensures Less(Version(1, 0, 0, [Word("beta"), Word("11")]), Version(1, 0, 0, [Word("rc"), Word("1")]))
    ensures Less(Version(1, 0, 0, [Word("rc"), Word("1")]), Version(1, 0, 0, []))
  {
    hide PrereleaseLess, IdentifierLess, Word;
    SpecificationIdentifiers();
    ExtendedIsLess([ALPHA], ONE);
    StepsAt([ALPHA], ONE, [], BETA, []);
    StepsAt([], ALPHA, [BETA], BETA, []);
    ExtendedIsLess([BETA], TWO);
    StepsAt([BETA], TWO, [], ELEVEN, []);
    StepsAt([], BETA, [ELEVEN], RC, [ONE]);
    assert [ALPHA] + [ONE] == [ALPHA, ONE] && [BETA] + [TWO] == [BETA, TWO];
    assert [ALPHA] + [ONE] + [] == [ALPHA, ONE] && [ALPHA] + [BETA] + [] == [ALPHA, BETA];
    assert [] + [ALPHA] + [BETA] == [ALPHA, BETA] && [] + [BETA] + [] == [BETA];
    assert [BETA] + [TWO] + [] == [BETA, TWO] && [BETA] + [ELEVEN] + [] == [BETA, ELEVEN];
    assert [] + [BETA] + [ELEVEN] == [BETA, ELEVEN] && [] + [RC] + [ONE] == [RC, ONE];
  }

  function Word(s: string): Identifier { seq(|s|, i requires 0 <= i < |s| => s[i] as int) }

  lemma {:induction false} ExtendedIsLess(a: seq<Identifier>, s: Identifier)
    ensures PrereleaseLess(a, a + [s])
  {
    if |a| > 0 {
      assert (a + [s])[1..] == a[1..] + [s];
      ExtendedIsLess(a[1..], s);
    }
  }

  lemma {:induction false} StepsAt(common: seq<Identifier>, s: Identifier, a: seq<Identifier>, t: Identifier,
                                   b: seq<Identifier>)
    requires s != t && IdentifierLess(s, t)
    ensures PrereleaseLess(common + [s] + a, common + [t] + b)
  {
    hide IdentifierLess;
    if |common| > 0 {
      StepsAt(common[1..], s, a, t, b);
      assert (common + [s] + a)[1..] == common[1..] + [s] + a && (common + [t] + b)[1..] == common[1..] + [t] + b;
    }
  }

  // ----- operators -----

  /** The version a comparator names: the numbers it gives, zeros for the rest, and its prerelease. */
  predicate Names(c: Comparator, w: Version) {
    var core := [w.major, w.minor, w.patch];
    w.prerelease == c.prerelease && |c.numbers| <= 3 && core[..|c.numbers|] == c.numbers &&
    forall i | |c.numbers| <= i < 3 :: core[i] == 0
  }

  predicate Agree(numbers: seq<nat>, v: Version, k: nat) {
    k <= |numbers| && forall i | 0 <= i < k :: i < 3 && [v.major, v.minor, v.patch][i] == numbers[i]
  }

  /** A wildcard fixes the numbers before it and nothing else, whatever the operator. */
  lemma WildcardMeaning(c: Comparator, v: Version)
    requires Parsed(c) && c.wildcard
    ensures ComparatorMatches(c, v) == Ok(Agree(c.numbers, v, |c.numbers|))
  {
    hide Less;
    PrefixAgrees(c.numbers, v);
  }

  lemma PrefixAgrees(numbers: seq<nat>, v: Version)
    requires |numbers| <= 3
    ensures Core(v)[..|numbers|] == numbers <==> Agree(numbers, v, |numbers|)
  {
    var prefix := Core(v)[..|numbers|];
    if Agree(numbers, v, |numbers|) {
      assert forall i | 0 <= i < |numbers| :: prefix[i] == numbers[i];
    }
    if prefix == numbers {
      assert forall i | 0 <= i < |numbers| :: prefix[i] == numbers[i];
    }
  }

  /** The comparing operators speak of precedence against the version named, equality aside; a partial `=`
      fixes the numbers given.  `>=` and `>` deny that the version comes first, `<=` and `<` assert it. */
  lemma ComparisonMeaning(c: Comparator, v: Version, w: Version)
    requires Parsed(c) && !c.wildcard && |c.numbers| > 0 && Names(c, w)
    ensures c.operator == GreaterEqual ==> ComparatorMatches(c, v) == Ok(!SpecLess(v, w))
    ensures c.operator == Greater ==> ComparatorMatches(c, v) == Ok(!SpecLess(v, w) && v != w)
    ensures c.operator == LessEqual ==> ComparatorMatches(c, v) == Ok(SpecLess(v, w) || v == w)
    ensures c.operator == LessThan ==> ComparatorMatches(c, v) == Ok(SpecLess(v, w))
    ensures c.operator == Equal ==>
              ComparatorMatches(c, v) == Ok(Agree(c.numbers, v, |c.numbers|) &&
                                            (|c.numbers| == 3 ==> v.prerelease == c.prerelease))
  {
    hide Less, SpecLess;
    NamedIsPadded(c, w);
    LessMeetsSpecification(v, w);
    PrefixAgrees(c.numbers, v);
  }

  lemma NamedIsPadded(c: Comparator, w: Version)
    requires Names(c, w)
    ensures Padded(c.numbers, c.prerelease) == w
    ensures Agree(c.numbers, w, |c.numbers|)
  {
    var core := [w.major, w.minor, w.patch];
    assert forall i | 0 <= i < |c.numbers| :: core[..|c.numbers|][i] == c.numbers[i];
    assert core[0] == w.major && core[1] == w.minor && core[2] == w.patch;
  }

  /** A tilde admits exactly the versions at or above the one named that agree on its major and, where it gives
      one, its minor; and, bounding by precedence alone, the prereleases of the version it stops at. */
  lemma TildeMeaning(c: Comparator, v: Version, w: Version)
    requires Parsed(c) && !c.wildcard && |c.numbers| > 0 && Names(c, w) && c.operator == Tilde
    ensures ComparatorMatches(c, v) ==
            Ok((SpecLess(w, v) || v == w) &&
               (Agree(c.numbers, v, if |c.numbers| == 1 then 1 else 2) ||
                (v.prerelease != [] && v.patch == 0 &&
                 if |c.numbers| == 1 then v.major == c.numbers[0] + 1 && v.minor == 0
                 else v.major == c.numbers[0] && v.minor == c.numbers[1] + 1)))
  {
    hide PrereleaseLess, Precedes;
    NamedIsPadded(c, w);
    LessMeetsSpecification(w, v);
    var k := if |c.numbers| == 1 then 1 else 2;
    assert Agree(c.numbers, v, k) <==> v.major == c.numbers[0] && (k == 2 ==> v.minor == c.numbers[1]) by {
      var core := [v.major, v.minor, v.patch];
      assert core[0] == v.major && core[1] == v.minor;
    }
  }

  /** A requirement is met when every comparator admits the version and, for a prerelease, some comparator gives all
      three of its core numbers and a prerelease of its own. */
  lemma MeetsExactly(all: seq<Result<Comparator>>, v: Version)
    requires AllParsed(all)
    ensures Meets(all, v) <==>
              all != [] &&
              (forall c | c in all :: c.Ok? && ComparatorMatches(c.value, v) == Ok(true)) &&
              (v.prerelease != [] ==>
                 exists c :: c in all && c.Ok? && c.value.prerelease != [] &&
                             c.value.numbers == [v.major, v.minor, v.patch])
  {
    hide ComparatorMatches;
    forall i | 0 <= i < |all|
      ensures Answer(all, i, v) == Ok(true) <==> all[i].Ok? && ComparatorMatches(all[i].value, v) == Ok(true)
    {}
    if OptedIn(all, v) {
      var i :| 0 <= i < |all| && all[i].Ok? && OptsIn(all[i].value, v);
      assert all[i] in all;
    }
    if c :| c in all && c.Ok? && c.value.prerelease != [] && c.value.numbers == [v.major, v.minor, v.patch] {
      var i :| 0 <= i < |all| && all[i] == c;
      assert OptsIn(all[i].value, v);
    }
  }
}
