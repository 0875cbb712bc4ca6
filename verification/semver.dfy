/** Semantic Versioning 2.0.0: parsed versions and their precedence
    (section 11), which ignores build metadata (section 10). This is what
    `semver.compare` computes once both arguments have been parsed, except
    that node-semver compares numeric pre-release identifiers of 2^53-1 or
    more as doubles, while `Compare` compares them exactly. */
module SemVer {

  /** A dot-separated pre-release identifier (section 9). */
  datatype Identifier = Numeric(n: nat) | Alphanumeric(s: string)

  /** A parsed version: `major.minor.patch[-pre][+build]`. */
  datatype Version = Version(major: nat, minor: nat, patch: nat,
                             pre: seq<Identifier>, build: seq<string>)
  {
    /** The same version with its build metadata dropped. */
    function WithoutBuild(): (v: Version)
      ensures v.build == []
      ensures v.major == major && v.minor == minor && v.patch == patch && v.pre == pre
    {
      this.(build := [])
    }
  }

  /** A three-way comparison result. */
  predicate IsOrdering(r: int) {
    r == -1 || r == 0 || r == 1
  }

  /** Three-way comparison of naturals. */
  function CompareNat(a: nat, b: nat): (r: int)
    ensures IsOrdering(r)
    ensures r < 0 <==> a < b
    ensures r > 0 <==> a > b
  {
    if a < b then -1 else if a > b then 1 else 0
  }

  /** Three-way comparison of characters by code point (for the ASCII
      identifiers of section 9 this is the ASCII order section 11 asks for). */
  function CompareChar(a: char, b: char): (r: int)
    ensures IsOrdering(r)
    ensures r < 0 <==> a < b
    ensures r > 0 <==> a > b
  {
    CompareNat(a as int, b as int)
  }

  // ---------------------------------------------------------------------------
  // Lexicographic extension of a three-way comparison

  /** `cmp` is a three-way comparison that is antisymmetric, is zero exactly on
      equal elements, and whose "at most" relation is transitive. */
  ghost predicate IsTotalOrder<T(!new)>(cmp: (T, T) -> int) {
    && (forall x, y :: IsOrdering(cmp(x, y)))
    && (forall x, y :: cmp(x, y) == -cmp(y, x))
    && (forall x, y :: cmp(x, y) == 0 <==> x == y)
    && (forall x, y, z :: cmp(x, y) <= 0 && cmp(y, z) <= 0 ==> cmp(x, z) <= 0)
  }

  /** Lexicographic comparison of sequences: the first differing element
      decides, and a proper prefix comes first. */
  function Lex<T>(a: seq<T>, b: seq<T>, cmp: (T, T) -> int): (r: int)
  {
    if a == [] && b == [] then 0
    else if a == [] then -1
    else if b == [] then 1
    else if cmp(a[0], b[0]) != 0 then cmp(a[0], b[0])
    else Lex(a[1..], b[1..], cmp)
  }

  lemma {:induction false} LexIsOrdering<T(!new)>(a: seq<T>, b: seq<T>, cmp: (T, T) -> int)
    requires IsTotalOrder(cmp)
    ensures IsOrdering(Lex(a, b, cmp))
  {
    if a != [] && b != [] && cmp(a[0], b[0]) == 0 {
      LexIsOrdering(a[1..], b[1..], cmp);
    }
  }

  lemma {:induction false} LexAntisymmetric<T(!new)>(a: seq<T>, b: seq<T>, cmp: (T, T) -> int)
    requires IsTotalOrder(cmp)
    ensures Lex(a, b, cmp) == -Lex(b, a, cmp)
  {
    if a != [] && b != [] && cmp(a[0], b[0]) == 0 {
      LexAntisymmetric(a[1..], b[1..], cmp);
    }
  }

  lemma {:induction false} LexZeroIff<T(!new)>(a: seq<T>, b: seq<T>, cmp: (T, T) -> int)
    requires IsTotalOrder(cmp)
    ensures Lex(a, b, cmp) == 0 <==> a == b
  {
    if a != [] && b != [] {
      LexZeroIff(a[1..], b[1..], cmp);
      if cmp(a[0], b[0]) == 0 && a[1..] == b[1..] {
        assert a == [a[0]] + a[1..] && b == [b[0]] + b[1..];
      }
    }
  }

  lemma {:induction false} LexTransitive<T(!new)>(a: seq<T>, b: seq<T>, c: seq<T>, cmp: (T, T) -> int)
    requires IsTotalOrder(cmp)
    requires Lex(a, b, cmp) <= 0 && Lex(b, c, cmp) <= 0
    ensures Lex(a, c, cmp) <= 0
  {
    if a != [] && b != [] && c != [] {
      if cmp(a[0], b[0]) == 0 && cmp(b[0], c[0]) == 0 {
        LexTransitive(a[1..], b[1..], c[1..], cmp);
      }
    }
  }

  // ---------------------------------------------------------------------------
  // Precedence

  /** Alphanumeric identifiers compare in ASCII order, character by character. */
  function CompareText(a: string, b: string): int {
    Lex(a, b, CompareChar)
  }

  /** Section 11.4.1-11.4.3: numeric identifiers compare numerically, an
      alphanumeric one lexically, and a numeric identifier always has lower
      precedence than an alphanumeric one. */
  function CompareIdentifier(x: Identifier, y: Identifier): int {
    match (x, y)
    case (Numeric(m), Numeric(n)) => CompareNat(m, n)
    case (Numeric(_), Alphanumeric(_)) => -1
    case (Alphanumeric(_), Numeric(_)) => 1
    case (Alphanumeric(s), Alphanumeric(t)) => CompareText(s, t)
  }

  /** Section 11.3 and 11.4: a version without pre-release identifiers has
      higher precedence than one with them; otherwise the identifier lists
      compare lexicographically, a shorter prefix coming first (11.4.4). */
  function ComparePre(a: seq<Identifier>, b: seq<Identifier>): int {
    if a == [] && b == [] then 0
    else if a == [] then 1
    else if b == [] then -1
    else Lex(a, b, CompareIdentifier)
  }

  /** Precedence of two versions (section 11): major, minor and patch
      numerically, then the pre-release part. Build metadata plays no part. */
  function Compare(a: Version, b: Version): int {
    if a.major != b.major then CompareNat(a.major, b.major)
    else if a.minor != b.minor then CompareNat(a.minor, b.minor)
    else if a.patch != b.patch then CompareNat(a.patch, b.patch)
    else ComparePre(a.pre, b.pre)
  }

  /** Section 11.3: a pre-release version has lower precedence than the
      release with the same major, minor and patch. */
  lemma PreReleaseBelowRelease(v: Version)
    requires v.pre != []
    ensures Compare(v, v.(pre := [])) < 0
    ensures Compare(v.(pre := []), v) > 0
  {
  }

  /** Build metadata never changes precedence (section 10). */
  lemma CompareIgnoresBuild(a: Version, b: Version, x: seq<string>, y: seq<string>)
    ensures Compare(a.(build := x), b.(build := y)) == Compare(a, b)
  {
  }

  lemma CharOrder()
    ensures IsTotalOrder(CompareChar)
  {
  }

  lemma IdentifierOrder()
    ensures IsTotalOrder(CompareIdentifier)
  {
    CharOrder();
    forall x, y
      ensures IsOrdering(CompareIdentifier(x, y))
      ensures CompareIdentifier(x, y) == -CompareIdentifier(y, x)
      ensures CompareIdentifier(x, y) == 0 <==> x == y
    {
      if x.Alphanumeric? && y.Alphanumeric? {
        LexIsOrdering(x.s, y.s, CompareChar);
        LexAntisymmetric(x.s, y.s, CompareChar);
        LexZeroIff(x.s, y.s, CompareChar);
      }
    }
    forall x, y, z | CompareIdentifier(x, y) <= 0 && CompareIdentifier(y, z) <= 0
      ensures CompareIdentifier(x, z) <= 0
    {
      if x.Alphanumeric? && y.Alphanumeric? && z.Alphanumeric? {
        LexTransitive(x.s, y.s, z.s, CompareChar);
      }
    }
  }

  /** Precedence is a three-way comparison. */
  lemma CompareIsOrdering(a: Version, b: Version)
    ensures IsOrdering(Compare(a, b))
  {
    IdentifierOrder();
    LexIsOrdering(a.pre, b.pre, CompareIdentifier);
  }

  /** Swapping the arguments flips the result. */
  lemma CompareAntisymmetric(a: Version, b: Version)
    ensures Compare(a, b) == -Compare(b, a)
  {
    IdentifierOrder();
    LexAntisymmetric(a.pre, b.pre, CompareIdentifier);
  }

  /** Two versions have equal precedence exactly when they agree on everything
      but build metadata: a comparison of zero does not mean equal versions. */
  lemma CompareZeroIff(a: Version, b: Version)
    ensures Compare(a, b) == 0 <==> a.WithoutBuild() == b.WithoutBuild()
  {
    IdentifierOrder();
    LexZeroIff(a.pre, b.pre, CompareIdentifier);
  }

  /** "Has at most the precedence of" is transitive. */
  lemma CompareTransitive(a: Version, b: Version, c: Version)
    requires Compare(a, b) <= 0 && Compare(b, c) <= 0
    ensures Compare(a, c) <= 0
  {
    IdentifierOrder();
    if a.major == b.major == c.major && a.minor == b.minor == c.minor && a.patch == b.patch == c.patch {
      if a.pre != [] && b.pre != [] && c.pre != [] {
        LexTransitive(a.pre, b.pre, c.pre, CompareIdentifier);
      }
    }
  }

  /** The example chain of section 11.4:
      1.0.0-alpha < 1.0.0-alpha.1 < 1.0.0-alpha.beta < 1.0.0-beta
      < 1.0.0-beta.2 < 1.0.0-beta.11 < 1.0.0-rc.1 < 1.0.0. */
  lemma PrecedenceExample()
    ensures var v := (pre: seq<Identifier>) => Version(1, 0, 0, pre, []);
      && Compare(v([Alphanumeric("alpha")]), v([Alphanumeric("alpha"), Numeric(1)])) < 0
      && Compare(v([Alphanumeric("alpha"), Numeric(1)]), v([Alphanumeric("alpha"), Alphanumeric("beta")])) < 0
      && Compare(v([Alphanumeric("alpha"), Alphanumeric("beta")]), v([Alphanumeric("beta")])) < 0
      && Compare(v([Alphanumeric("beta")]), v([Alphanumeric("beta"), Numeric(2)])) < 0
      && Compare(v([Alphanumeric("beta"), Numeric(2)]), v([Alphanumeric("beta"), Numeric(11)])) < 0
      && Compare(v([Alphanumeric("beta"), Numeric(11)]), v([Alphanumeric("rc"), Numeric(1)])) < 0
      && Compare(v([Alphanumeric("rc"), Numeric(1)]), v([])) < 0
  {
  }
}
