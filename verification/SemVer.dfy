/** Semantic version precedence and Cargo-style requirement matching. */
module SemVer {
  import opened Bytes
  import opened Ordering

  /** A prerelease identifier's characters, as code points. */
  type Identifier = seq<int>

  datatype Version = Version(major: nat, minor: nat, patch: nat, prerelease: seq<Identifier>)

  // ----- identifiers -----

  predicate IsDigits(s: Identifier) { |s| > 0 && forall i | 0 <= i < |s| :: 0x30 <= s[i] <= 0x39 }

  function Number(s: Identifier): int {
    if |s| == 0 then 0 else 10 * Number(s[..|s| - 1]) + (s[|s| - 1] - 0x30)
  }

  /** Numeric identifiers carry no leading zeros (section 9 of Semantic Versioning 2.0.0). */
  predicate Canonical(s: Identifier) { IsDigits(s) && |s| > 1 ==> s[0] != 0x30 }

  predicate CanonicalVersion(v: Version) { forall s | s in v.prerelease :: Canonical(s) }

  /** How two different identifiers compare. */
  predicate IdentifierLess(a: Identifier, b: Identifier) {
    if IsDigits(a) && IsDigits(b) then Number(a) < Number(b)
    else if IsDigits(a) != IsDigits(b) then IsDigits(a)
    else LexLess(a, b)
  }

  // ----- precedence as coded -----

  predicate CoreLess(a: Version, b: Version) {
    a.major < b.major || (a.major == b.major && (a.minor < b.minor || (a.minor == b.minor && a.patch < b.patch)))
  }

  predicate SameCore(a: Version, b: Version) { a.major == b.major && a.minor == b.minor && a.patch == b.patch }

  /** Compare identifier by identifier; at the first difference decide, and otherwise by length. */
  predicate PrereleaseLess(a: seq<Identifier>, b: seq<Identifier>) {
    if |a| == 0 || |b| == 0 then |a| < |b|
    else if a[0] == b[0] then PrereleaseLess(a[1..], b[1..])
    else IdentifierLess(a[0], b[0])
  }

  predicate Less(a: Version, b: Version) {
    if !SameCore(a, b) then CoreLess(a, b)
    else if a.prerelease == [] then false
    else if b.prerelease == [] then true
    else PrereleaseLess(a.prerelease, b.prerelease)
  }

  /** The comparison as it runs, walking both lists together. */
  method CompareLess(a: Version, b: Version) returns (less: bool)
    ensures less == Less(a, b)
  {
    hide IdentifierLess;
    if !SameCore(a, b) {
      return CoreLess(a, b);
    }
    if a.prerelease == [] {
      return false;
    }
    if b.prerelease == [] {
      return true;
    }
    var p, q := a.prerelease, b.prerelease;
    var i := 0;
    while i < |p| && i < |q|
      invariant 0 <= i <= |p| && i <= |q|
      invariant PrereleaseLess(p[i..], q[i..]) == PrereleaseLess(p, q)
    {
      assert p[i..][1..] == p[i + 1..] && q[i..][1..] == q[i + 1..];
      if p[i] != q[i] {
        return IdentifierLess(p[i], q[i]);
      }
      i := i + 1;
    }
    less := |p| < |q|;
  }

  // ----- precedence as specified -----

  /** Section 11.4 of Semantic Versioning 2.0.0: at the first place the lists differ, numbers compare as
      numbers and come before words, and words compare as text; a list that runs out first comes first. */
  ghost predicate Precedes(a: seq<Identifier>, b: seq<Identifier>) {
    exists k :: 0 <= k <= |a| && k <= |b| && a[..k] == b[..k] && k < |b| &&
                (k == |a| || (a[k] != b[k] && IdentifierLess(a[k], b[k])))
  }

  /** Section 11: core numbers first, then any prerelease before the release itself, then the lists. */
  ghost predicate SpecLess(a: Version, b: Version) {
    CoreLess(a, b) ||
    (SameCore(a, b) && a.prerelease != [] && (b.prerelease == [] || Precedes(a.prerelease, b.prerelease)))
  }

  lemma {:induction false} PrereleaseLessIsPrecedes(a: seq<Identifier>, b: seq<Identifier>)
    ensures PrereleaseLess(a, b) <==> Precedes(a, b)
  {
    hide IdentifierLess;
    if |a| == 0 || |b| == 0 {
      if |a| < |b| { assert a[..0] == b[..0]; }
    } else if a[0] != b[0] {
      if PrereleaseLess(a, b) { assert a[..0] == b[..0]; }
      if k :| 0 <= k <= |a| && k <= |b| && a[..k] == b[..k] && k < |b| &&
              (k == |a| || (a[k] != b[k] && IdentifierLess(a[k], b[k]))) {
        assert k > 0 ==> a[..k][0] == b[..k][0];
      }
    } else {
      PrereleaseLessIsPrecedes(a[1..], b[1..]);
      PrecedesStep(a, b);
    }
  }

  lemma PrecedesStep(a: seq<Identifier>, b: seq<Identifier>)
    requires |a| > 0 && |b| > 0 && a[0] == b[0]
    ensures Precedes(a, b) <==> Precedes(a[1..], b[1..])
  {
    hide IdentifierLess;
    var s, t := a[1..], b[1..];
    if k :| 0 <= k <= |a| && k <= |b| && a[..k] == b[..k] && k < |b| &&
            (k == |a| || (a[k] != b[k] && IdentifierLess(a[k], b[k]))) {
      assert k > 0;
      assert s[..k - 1] == a[..k][1..] == b[..k][1..] == t[..k - 1];
    }
    if k :| 0 <= k <= |s| && k <= |t| && s[..k] == t[..k] && k < |t| &&
            (k == |s| || (s[k] != t[k] && IdentifierLess(s[k], t[k]))) {
      assert a[..k + 1] == [a[0]] + s[..k] && b[..k + 1] == [b[0]] + t[..k];
    }
  }

  /** The coded order is the specified one, on every version. */
  lemma LessMeetsSpecification(a: Version, b: Version)
    ensures Less(a, b) <==> SpecLess(a, b)
  {
    hide Precedes, PrereleaseLess;
    PrereleaseLessIsPrecedes(a.prerelease, b.prerelease);
  }

  // ----- a strict total order -----

  lemma {:induction false} NumberBounds(s: Identifier)
    requires IsDigits(s) && Canonical(s)
    ensures |s| > 1 ==> Number(s) >= 10
    ensures Number(s) >= 0
  {
    if |s| > 1 {
      var front := s[..|s| - 1];
      assert forall i | 0 <= i < |front| :: front[i] == s[i];
      NumberBounds(front);
      if |front| == 1 {
        assert Number(front) == 10 * Number(front[..0]) + (front[0] - 0x30);
      }
    } else {
      assert Number(s[..0]) == 0;
    }
  }

  /** Without leading zeros, equal numbers are written alike. */
  lemma {:induction false} NumberInjective(s: Identifier, t: Identifier)
    requires IsDigits(s) && IsDigits(t) && Canonical(s) && Canonical(t)
    ensures Number(s) == Number(t) ==> s == t
    decreases |s|
  {
    NumberBounds(s);
    NumberBounds(t);
    if Number(s) == Number(t) {
      var a, b := s[..|s| - 1], t[..|t| - 1];
      assert s == a + [s[|s| - 1]] && t == b + [t[|t| - 1]];
      if |s| > 1 && |t| > 1 {
        assert forall i | 0 <= i < |a| :: a[i] == s[i];
        assert forall i | 0 <= i < |b| :: b[i] == t[i];
        NumberInjective(a, b);
      } else {
        assert Number(s[..0]) == 0 && Number(t[..0]) == 0;
      }
    }
  }

  lemma IdentifierTrichotomy(a: Identifier, b: Identifier)
    requires Canonical(a) && Canonical(b)
    ensures a == b || IdentifierLess(a, b) || IdentifierLess(b, a)
    ensures !(IdentifierLess(a, b) && IdentifierLess(b, a))
    ensures !IdentifierLess(a, a)
  {
    hide IsDigits, Number;
    LexLessTrichotomy(a, b);
    LexLessTrichotomy(a, a);
    if IsDigits(a) && IsDigits(b) {
      NumberInjective(a, b);
    }
  }

  lemma IdentifierTransitive(a: Identifier, b: Identifier, c: Identifier)
    requires IdentifierLess(a, b) && IdentifierLess(b, c)
    ensures IdentifierLess(a, c)
  {
    hide IsDigits, Number;
    if !IsDigits(a) && !IsDigits(b) && !IsDigits(c) {
      LexLessTransitive(a, b, c);
    }
  }

  lemma {:induction false} PrereleaseTrichotomy(a: seq<Identifier>, b: seq<Identifier>)
    requires forall s | s in a || s in b :: Canonical(s)
    ensures a == b || PrereleaseLess(a, b) || PrereleaseLess(b, a)
    ensures !(PrereleaseLess(a, b) && PrereleaseLess(b, a))
    ensures a == b ==> !PrereleaseLess(a, b)
  {
    hide IdentifierLess, Canonical;
    if |a| > 0 && |b| > 0 {
      IdentifierTrichotomy(a[0], b[0]);
      if a[0] == b[0] {
        PrereleaseTrichotomy(a[1..], b[1..]);
        assert a == [a[0]] + a[1..] && b == [b[0]] + b[1..];
      }
    }
  }

  lemma {:induction false} PrereleaseTransitive(a: seq<Identifier>, b: seq<Identifier>, c: seq<Identifier>)
    requires forall s | s in a || s in b || s in c :: Canonical(s)
    requires PrereleaseLess(a, b) && PrereleaseLess(b, c)
    ensures PrereleaseLess(a, c)
  {
    hide IdentifierLess, Canonical;
    if |a| > 0 {
      IdentifierTrichotomy(a[0], b[0]);
      IdentifierTrichotomy(b[0], c[0]);
      IdentifierTrichotomy(a[0], c[0]);
      if a[0] == b[0] == c[0] {
        PrereleaseTransitive(a[1..], b[1..], c[1..]);
      } else if a[0] != b[0] && b[0] != c[0] {
        IdentifierTransitive(a[0], b[0], c[0]);
      }
    }
  }

  /** On canonical versions precedence is a strict total order consistent with equality. */
  lemma StrictTotalOrder(a: Version, b: Version, c: Version)
    requires CanonicalVersion(a) && CanonicalVersion(b) && CanonicalVersion(c)
    ensures !Less(a, a)
    ensures Less(a, b) && Less(b, c) ==> Less(a, c)
    ensures a == b || Less(a, b) || Less(b, a)
    ensures !(Less(a, b) && Less(b, a))
  {
    hide PrereleaseLess, Canonical;
    PrereleaseTrichotomy(a.prerelease, a.prerelease);
    PrereleaseTrichotomy(a.prerelease, b.prerelease);
    if PrereleaseLess(a.prerelease, b.prerelease) && PrereleaseLess(b.prerelease, c.prerelease) {
      PrereleaseTransitive(a.prerelease, b.prerelease, c.prerelease);
    }
  }

  /** The lists first differ at two spellings of one number. */
  predicate RespellsNumber(a: seq<Identifier>, b: seq<Identifier>) {
    |a| > 0 && |b| > 0 &&
    if a[0] == b[0] then RespellsNumber(a[1..], b[1..])
    else IsDigits(a[0]) && IsDigits(b[0]) && Number(a[0]) == Number(b[0])
  }

  lemma {:induction false} PrereleaseIncomparable(a: seq<Identifier>, b: seq<Identifier>)
    ensures a != b && !PrereleaseLess(a, b) && !PrereleaseLess(b, a) <==> RespellsNumber(a, b)
  {
    hide IsDigits, Number;
    if |a| > 0 && |b| > 0 {
      if a[0] == b[0] {
        PrereleaseIncomparable(a[1..], b[1..]);
        assert a == [a[0]] + a[1..] && b == [b[0]] + b[1..];
      } else {
        LexLessTrichotomy(a[0], b[0]);
      }
    }
  }

  /** On arbitrary versions the order falls short of total exactly there: two different versions are
      incomparable if and only if they share a core and first differ at two spellings of one number. */
  lemma IncomparableExactly(a: Version, b: Version)
    ensures a != b && !Less(a, b) && !Less(b, a) <==> SameCore(a, b) && RespellsNumber(a.prerelease, b.prerelease)
  {
    hide PrereleaseLess, RespellsNumber;
    PrereleaseIncomparable(a.prerelease, b.prerelease);
    if a.prerelease == [] || b.prerelease == [] {
      assert !RespellsNumber(a.prerelease, b.prerelease) by { NothingToRespell(a.prerelease, b.prerelease); }
    }
  }

  lemma NothingToRespell(a: seq<Identifier>, b: seq<Identifier>)
    requires a == [] || b == []
    ensures !RespellsNumber(a, b)
  {}

  /** Leading zeros break it: 1.0.0-01 and 1.0.0-1 differ, yet neither precedes the other. */
  lemma LeadingZerosAreIncomparable()
    ensures var a, b := Version(1, 0, 0, [[0x30, 0x31]]), Version(1, 0, 0, [[0x31]]);
            a != b && !Less(a, b) && !Less(b, a)
  {
    assert [0x30, 0x31][..1] == [0x30] && [0x30][..0] == [] && [0x31][..0] == [];
    assert Number([0x30]) == 0 && Number([0x30, 0x31]) == 1 && Number([0x31]) == 1;
    assert |[0x30, 0x31]| != |[0x31]|;
    assert Version(1, 0, 0, [[0x30, 0x31]]).prerelease[0] != Version(1, 0, 0, [[0x31]]).prerelease[0];
  }

  // ----- requirements -----

  datatype Operator = Caret | Tilde | GreaterEqual | LessEqual | Greater | LessThan | Equal

  /** A parsed comparator: up to three leading numbers, maybe a wildcard after them, maybe a prerelease. */
  datatype Comparator = Comparator(operator: Operator, numbers: seq<nat>, wildcard: bool, prerelease: seq<Identifier>)

  /** What parsing lets through. */
  predicate Parsed(c: Comparator) {
    |c.numbers| <= 3 && (c.wildcard ==> |c.numbers| < 3) && (c.prerelease != [] ==> |c.numbers| == 3 && !c.wildcard)
  }

  function Part(numbers: seq<nat>, i: nat): nat { if i < |numbers| then numbers[i] else 0 }

  function Padded(numbers: seq<nat>, prerelease: seq<Identifier>): Version {
    Version(Part(numbers, 0), Part(numbers, 1), Part(numbers, 2), prerelease)
  }

  function CaretUpper(numbers: seq<nat>): Version {
    if |numbers| == 0 || Part(numbers, 0) != 0 || |numbers| == 1 then Version(Part(numbers, 0) + 1, 0, 0, [])
    else if Part(numbers, 1) != 0 || |numbers| == 2 then Version(0, Part(numbers, 1) + 1, 0, [])
    else Version(0, 0, Part(numbers, 2) + 1, [])
  }

  function Core(v: Version): seq<nat> { [v.major, v.minor, v.patch] }

  /** The derived comparisons differ from each other on incomparable versions. */
  predicate AtLeast(v: Version, w: Version) { !Less(v, w) }

  predicate AtMost(v: Version, w: Version) { Less(v, w) || v == w }

  /** Whether a version meets one comparator; a comparator with no number and no wildcard is an error. */
  function ComparatorMatches(c: Comparator, v: Version): Result<bool>
    requires Parsed(c)
  {
    var lower := Padded(c.numbers, c.prerelease);
    if c.wildcard then Ok(Core(v)[..|c.numbers|] == c.numbers)
    else if |c.numbers| == 0 then Err
    else match c.operator
      case GreaterEqual => Ok(AtLeast(v, lower))
      case Greater => Ok(AtLeast(v, lower) && v != lower)
      case LessEqual => Ok(AtMost(v, lower))
      case LessThan => Ok(Less(v, lower))
      case Equal => Ok(if |c.numbers| < 3 then Core(v)[..|c.numbers|] == c.numbers else v == lower)
      case Tilde =>
        var upper := if |c.numbers| == 1 then Version(c.numbers[0] + 1, 0, 0, [])
                     else Version(c.numbers[0], c.numbers[1] + 1, 0, []);
        Ok(AtMost(lower, v) && Less(v, upper))
      case Caret => Ok(AtMost(lower, v) && Less(v, CaretUpper(c.numbers)))
  }

  /** The position a caret pins: the leftmost non-zero part, or the last one given when all are zero. */
  function Pivot(numbers: seq<nat>): nat
    requires 0 < |numbers| <= 3
  {
    if numbers[0] != 0 || |numbers| == 1 then 0
    else if numbers[1] != 0 || |numbers| == 2 then 1
    else 2
  }

  lemma PivotIsLeftmostNonZero(numbers: seq<nat>)
    requires 0 < |numbers| <= 3
    ensures Pivot(numbers) < |numbers| && forall i | 0 <= i < Pivot(numbers) :: numbers[i] == 0
    ensures numbers[Pivot(numbers)] != 0 || Pivot(numbers) == |numbers| - 1
  {}

  /** A caret admits exactly the versions at or above it that agree up to its pivot, and, since it bounds
      by precedence alone, the prereleases of the version it stops at. */
  lemma CaretMeaning(c: Comparator, v: Version)
    requires Parsed(c) && !c.wildcard && c.operator == Caret && |c.numbers| > 0
    ensures ComparatorMatches(c, v) ==
            Ok(AtMost(Padded(c.numbers, c.prerelease), v) &&
               (Core(v)[..Pivot(c.numbers) + 1] == c.numbers[..Pivot(c.numbers) + 1] ||
                (v.prerelease != [] && SameCore(v, CaretUpper(c.numbers)))))
  {
    hide PrereleaseLess;
    PivotIsLeftmostNonZero(c.numbers);
    var k := Pivot(c.numbers);
    assert Core(v)[..k + 1] == c.numbers[..k + 1] <==> forall i | 0 <= i <= k :: Core(v)[i] == c.numbers[i];
  }

  /** Among releases, then, a caret admits exactly those at or above it that agree up to its pivot. */
  lemma CaretOnReleases(c: Comparator, v: Version)
    requires Parsed(c) && !c.wildcard && c.operator == Caret && |c.numbers| > 0
    requires v.prerelease == []
    ensures ComparatorMatches(c, v) == Ok(AtMost(Padded(c.numbers, c.prerelease), v) &&
                                          Core(v)[..Pivot(c.numbers) + 1] == c.numbers[..Pivot(c.numbers) + 1])
  {
    CaretMeaning(c, v);
  }

  /** `*`, or a list of comparators, each as parsing it gives: one that does not parse is an error when reached. */
  datatype Requirement = Anything | Comparators(all: seq<Result<Comparator>>)

  predicate OptsIn(c: Comparator, v: Version) { c.prerelease != [] && c.numbers == Core(v) }

  predicate AllParsed(all: seq<Result<Comparator>>) { forall c | c in all && c.Ok? :: Parsed(c.value) }

  /** What comparator `i` answers, its own parse error included. */
  function Answer(all: seq<Result<Comparator>>, i: nat, v: Version): Result<bool>
    requires i < |all| && AllParsed(all)
  {
    var c :- all[i];
    assert all[i] in all;
    ComparatorMatches(c, v)
  }

  ghost predicate OptedIn(all: seq<Result<Comparator>>, v: Version) {
    exists i | 0 <= i < |all| :: all[i].Ok? && OptsIn(all[i].value, v)
  }

  /** The first `n` comparators all admit the version. */
  ghost predicate Admit(all: seq<Result<Comparator>>, v: Version, n: nat)
    requires n <= |all| && AllParsed(all)
  {
    forall i | 0 <= i < n :: Answer(all, i, v) == Ok(true)
  }

  /** Met by every comparator, and, for a prerelease, named by one that has a prerelease of the same core. */
  ghost predicate Meets(all: seq<Result<Comparator>>, v: Version)
    requires AllParsed(all)
  {
    |all| > 0 && Admit(all, v, |all|) && (v.prerelease != [] ==> OptedIn(all, v))
  }

  /** An error is reported for an empty list, for any comparator that does not parse when the version is a
      prerelease, and otherwise for the first comparator that does not admit the version, if that is why. */
  ghost predicate Malformed(all: seq<Result<Comparator>>, v: Version)
    requires AllParsed(all)
  {
    |all| == 0 ||
    (v.prerelease != [] && exists i | 0 <= i < |all| :: all[i].Err?) ||
    ((v.prerelease != [] ==> OptedIn(all, v)) &&
     exists i :: 0 <= i < |all| && Answer(all, i, v).Err? && Admit(all, v, i))
  }

  /** A requirement, checked comparator by comparator.  A prerelease needs a comparator that names a
      prerelease of its own core before any comparator is consulted. */
  method RequirementMatches(requirement: Requirement, v: Version) returns (r: Result<bool>)
    requires requirement.Comparators? ==> AllParsed(requirement.all)
    ensures match requirement
            case Anything => r == Ok(v.prerelease == [])
            case Comparators(all) => (r == Ok(true) <==> Meets(all, v)) && (r.Err? <==> Malformed(all, v))
  {
    hide ComparatorMatches;
    if requirement.Anything? {
      return Ok(v.prerelease == []);
    }
    var all := requirement.all;
    if all == [] {
      return Err;
    }
    if v.prerelease != [] {
      var optedIn := false;
      for i := 0 to |all|
        invariant forall j | 0 <= j < i :: all[j].Ok?
        invariant optedIn <==> exists j | 0 <= j < i :: all[j].Ok? && OptsIn(all[j].value, v)
      {
        if all[i].Err? {
          assert Answer(all, i, v).Err?;
          return Err;
        }
        var c := all[i].value;
        optedIn := optedIn || OptsIn(c, v);
      }
      if !optedIn {
        return Ok(false);
      }
    }
    for i := 0 to |all|
      invariant Admit(all, v, i)
    {
      var answer := Answer(all, i, v);
      if answer.Err? {
        return Err;
      }
      if !answer.value {
        return Ok(false);
      }
    }
    r := Ok(true);
  }
}
