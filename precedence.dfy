/**
 * Precedence of versions, section 11 of Semantic Versioning 2.0.0: numbers
 * compared numerically from major to patch; a prerelease ranks below the
 * release with the same numbers; prerelease identifiers compared one by one
 * (numeric ones numerically, others in ASCII order, numeric below
 * non-numeric), a longer list ranking higher when all before are equal.
 * Build metadata plays no part.
 */
module Precedence {
  import opened SemanticVersion

  /** Lexicographic order on sequences under an element order; a proper prefix ranks lower. */
  predicate LexLess<T(==)>(p: seq<T>, q: seq<T>, less: (T, T) -> bool)
    decreases |p|
  {
    if p == [] then q != []
    else q != [] && (less(p[0], q[0]) || (p[0] == q[0] && LexLess(p[1..], q[1..], less)))
  }

  predicate CharLess(a: char, b: char) {
    a < b
  }

  predicate IdentLess(x: Ident, y: Ident) {
    match (x, y)
    case (Num(a), Num(b)) => a < b
    case (Num(_), Alnum(_)) => true
    case (Alnum(_), Num(_)) => false
    case (Alnum(a), Alnum(b)) => LexLess(a, b, CharLess)
  }

  /** `a` has lower precedence than `b`. */
  predicate Precedes(a: SemVer, b: SemVer) {
    if a.major != b.major then a.major < b.major
    else if a.minor != b.minor then a.minor < b.minor
    else if a.patch != b.patch then a.patch < b.patch
    else if a.pre == [] then false
    else if b.pre == [] then true
    else LexLess(a.pre, b.pre, IdentLess)
  }

  ghost predicate StrictTotalOrder<T(!new)>(less: (T, T) -> bool) {
    && (forall x :: !less(x, x))
    && (forall x, y, z :: less(x, y) && less(y, z) ==> less(x, z))
    && (forall x, y :: x == y || less(x, y) || less(y, x))
  }

  // ----- the lexicographic order inherits a strict total order

  lemma {:induction false} LexIrreflexive<T>(p: seq<T>, less: (T, T) -> bool)
    requires forall x :: !less(x, x)
    ensures !LexLess(p, p, less)
    decreases |p|
  {
    if p != [] {
      LexIrreflexive(p[1..], less);
    }
  }

  lemma {:induction false} LexTransitive<T>(p: seq<T>, q: seq<T>, r: seq<T>, less: (T, T) -> bool)
    requires forall x :: !less(x, x)
    requires forall x, y, z :: less(x, y) && less(y, z) ==> less(x, z)
    requires LexLess(p, q, less) && LexLess(q, r, less)
    ensures LexLess(p, r, less)
    decreases |p|
  {
    if p != [] && p[0] == q[0] && q[0] == r[0] {
      LexTransitive(p[1..], q[1..], r[1..], less);
    }
  }

  lemma {:induction false} LexTotal<T>(p: seq<T>, q: seq<T>, less: (T, T) -> bool)
    requires forall x, y :: x == y || less(x, y) || less(y, x)
    ensures p == q || LexLess(p, q, less) || LexLess(q, p, less)
    decreases |p|
  {
    if p != [] && q != [] && p[0] == q[0] {
      LexTotal(p[1..], q[1..], less);
      if p[1..] == q[1..] {
        assert p == [p[0]] + p[1..] && q == [q[0]] + q[1..];
      }
    }
  }

  /** Sequences that agree before index `i` and differ there by `less` are ordered by it. */
  lemma {:induction false} LexAt<T>(p: seq<T>, q: seq<T>, i: nat, less: (T, T) -> bool)
    requires i < |p| && i < |q| && p[..i] == q[..i] && less(p[i], q[i])
    ensures LexLess(p, q, less)
    decreases i
  {
    if i > 0 {
      assert p[0] == p[..i][0] == q[..i][0] == q[0];
      assert p[1..][..i - 1] == p[..i][1..] && q[1..][..i - 1] == q[..i][1..];
      LexAt(p[1..], q[1..], i - 1, less);
    }
  }

  /** A proper prefix ranks lower. */
  lemma {:induction false} LexPrefix<T>(p: seq<T>, q: seq<T>, less: (T, T) -> bool)
    requires |p| < |q| && p == q[..|p|]
    ensures LexLess(p, q, less)
    decreases |p|
  {
    if p != [] {
      assert p[0] == q[0];
      assert p[1..] == q[1..][..|p| - 1];
      LexPrefix(p[1..], q[1..], less);
    }
  }

  lemma CharLessIsStrictTotalOrder()
    ensures StrictTotalOrder(CharLess)
  {
  }

  lemma IdentLessIsStrictTotalOrder()
    ensures StrictTotalOrder(IdentLess)
  {
    CharLessIsStrictTotalOrder();
    forall x: Ident ensures !IdentLess(x, x) {
      if x.Alnum? { LexIrreflexive(x.s, CharLess); }
    }
    forall x: Ident, y: Ident, z: Ident | IdentLess(x, y) && IdentLess(y, z) ensures IdentLess(x, z) {
      if x.Alnum? && y.Alnum? && z.Alnum? { LexTransitive(x.s, y.s, z.s, CharLess); }
    }
    forall x: Ident, y: Ident ensures x == y || IdentLess(x, y) || IdentLess(y, x) {
      if x.Alnum? && y.Alnum? { LexTotal(x.s, y.s, CharLess); }
    }
  }

  // ----- precedence is a strict order, total up to build metadata

  lemma PrecedesIrreflexive(a: SemVer)
    ensures !Precedes(a, a)
  {
    IdentLessIsStrictTotalOrder();
    LexIrreflexive(a.pre, IdentLess);
  }

  lemma PrecedesTransitive(a: SemVer, b: SemVer, c: SemVer)
    requires Precedes(a, b) && Precedes(b, c)
    ensures Precedes(a, c)
  {
    IdentLessIsStrictTotalOrder();
    if a.major == b.major == c.major && a.minor == b.minor == c.minor && a.patch == b.patch == c.patch
      && a.pre != [] && b.pre != [] && c.pre != []
    {
      LexTransitive(a.pre, b.pre, c.pre, IdentLess);
    }
  }

  lemma PrecedesAsymmetric(a: SemVer, b: SemVer)
    requires Precedes(a, b)
    ensures !Precedes(b, a)
  {
    if Precedes(b, a) {
      PrecedesTransitive(a, b, a);
      PrecedesIrreflexive(a);
    }
  }

  /** Two versions neither of which precedes the other differ at most in build metadata. */
  lemma PrecedesTotal(a: SemVer, b: SemVer)
    requires !Precedes(a, b) && !Precedes(b, a)
    ensures a.(build := []) == b.(build := [])
  {
    IdentLessIsStrictTotalOrder();
    LexTotal(a.pre, b.pre, IdentLess);
  }
}
