/**
 * The version helpers of src/utils/versions.js: validating a version string,
 * reading its first prerelease identifier, and computing the next version for
 * one of seven increment kinds. The bump itself is node-semver's `inc`,
 * written out here as functions over the version record.
 */
module Versions {
  import opened Wrappers
  import opened Text
  import opened SemanticVersion
  import opened Precedence


  datatype IncrementType = Patch | Minor | Major | Prepatch | Preminor | Premajor | Prerelease

  function InvalidVersionMessage(version: string): string {
    "Invalid semver version: " + version + " (See https://github.com/npm/node-semver)"
  }

  /** A string is valid exactly when it is the text of some well-formed version record. */
  lemma ValidIsRendering(s: string)
    ensures Valid(s) <==> exists v :: WellFormed(v) && Render(v) == s
  {
    if Valid(s) {
      RenderParse(s);
    }
    forall v | WellFormed(v) && Render(v) == s
      ensures Valid(s)
    {
      ParseRender(v);
    }
  }

  /** `toVersion`: the input unchanged when valid, otherwise the error it throws. */
  function ToVersion(version: string): (r: Result<string, string>)
    ensures r.Ok? <==> exists v :: WellFormed(v) && Render(v) == version
    ensures r.Ok? ==> r.value == version
    ensures r.Err? ==> r.error == InvalidVersionMessage(version)
  {
    ValidIsRendering(version);
    if Valid(version) then Ok(version) else Err(InvalidVersionMessage(version))
  }

  /**
   * The functions below take a string that `toVersion` accepted (the
   * source's opaque type `Version`): they require `Valid`.
   */

  /** The version record a validated string denotes. */
  function ToSemVer(version: string): (v: SemVer)
    requires Valid(version)
    ensures WellFormed(v) && Render(v) == version
  {
    RenderParse(version);
    Parse(version).value
  }

  /** node-semver's `prerelease`: the first identifier, as a number when it is numeric. */
  function PrereleaseType(v: SemVer): Option<Ident> {
    if v.pre == [] then None else Some(v.pre[0])
  }

  /** `getPrereleaseType`. */
  function GetPrereleaseType(version: string): (r: Option<Ident>)
    requires Valid(version)
    ensures r.None? <==> ToSemVer(version).pre == []
    ensures r.Some? ==> r.value == ToSemVer(version).pre[0]
    ensures r.Some? ==> exists rest :: version == NumbersText(ToSemVer(version).major, ToSemVer(version).minor, ToSemVer(version).patch) + "-" + IdentToString(r.value) + rest
  {
    var v := ToSemVer(version);
    if v.pre == [] then None
    else
      FirstIdentText(v);
      Some(v.pre[0])
  }

  /** The rendering of a version with a prerelease starts with its numbers, `-` and the first identifier. */
  lemma FirstIdentText(v: SemVer)
    requires v.pre != []
    ensures Render(v) == NumbersText(v.major, v.minor, v.patch) + "-" + IdentToString(v.pre[0]) + Render(v)[|NumbersText(v.major, v.minor, v.patch)| + 1 + |IdentToString(v.pre[0])|..]
  {
    var m := NumbersText(v.major, v.minor, v.patch);
    var ts := IdentStrings(v.pre);
    var f := IdentToString(v.pre[0]);
    var j := Join(ts, '.');
    JoinStartsWithFirst(ts, '.');
    var b := if v.build == [] then "" else "+" + Join(v.build, '.');
    assert Render(v) == m + "-" + j + b;
    assert Render(v) == (m + "-" + f) + (j[|f|..] + b);
  }

  /** JavaScript's `x || 'beta'` on a prerelease identifier: numeric 0 is falsy. */
  function LabelOr(t: Option<Ident>): Ident {
    match t
    case Some(id) => if id == Num(0) || id == Alnum("") then Alnum("beta") else id
    case None => Alnum("beta")
  }

  /** The prerelease label used by `increment`. */
  function Label(v: SemVer): Ident {
    LabelOr(PrereleaseType(v))
  }

  /**
   * The identifier node-semver's `inc(version, release, loose, identifier)`
   * sees when `increment` passes the label as its third argument: only a
   * string is taken as the identifier; a number lands in `loose`, and the
   * identifier stays undefined.
   */
  function Identifier(id: Ident): Option<string> {
    match id
    case Alnum(s) => Some(s)
    case Num(_) => None
  }

  // ----- node-semver's `inc`

  /** The position of the last numeric prerelease identifier, if there is one. */
  function LastNumeric(pre: seq<Ident>): (r: Option<nat>)
    ensures r.Some? ==> r.value < |pre| && pre[r.value].Num?
    ensures r.Some? ==> forall k :: r.value < k < |pre| ==> pre[k].Alnum?
    ensures r.None? ==> forall k :: 0 <= k < |pre| ==> pre[k].Alnum?
    decreases |pre|
  {
    if pre == [] then None
    else if pre[|pre| - 1].Num? then Some(|pre| - 1)
    else LastNumeric(pre[..|pre| - 1])
  }

  /** Increment the last numeric prerelease identifier, or append 0 when there is none. */
  function BumpPrerelease(pre: seq<Ident>): seq<Ident> {
    match LastNumeric(pre)
    case Some(j) => pre[j := Num(pre[j].n + 1)]
    case None => pre + [Num(0)]
  }

  predicate IsHexDigit(c: char) {
    IsDigit(c) || 'a' <= c <= 'f' || 'A' <= c <= 'F'
  }

  predicate IsDecimal(s: string) {
    s != [] && AllDigits(s)
  }

  predicate IsSignedDecimal(s: string) {
    IsDecimal(s) || (|s| > 1 && s[0] == '-' && IsDecimal(s[1..]))
  }

  predicate IsUnsignedNumber(s: string) {
    || s == "Infinity"
    || IsDecimal(s)
    || exists k :: 0 < k < |s| && (s[k] == 'e' || s[k] == 'E') && IsDecimal(s[..k]) && IsSignedDecimal(s[k + 1..])
  }

  predicate IsNonDecimalInteger(s: string) {
    && |s| > 2 && s[0] == '0'
    && (|| ((s[1] == 'x' || s[1] == 'X') && forall i :: 2 <= i < |s| ==> IsHexDigit(s[i]))
        || ((s[1] == 'o' || s[1] == 'O') && forall i :: 2 <= i < |s| ==> '0' <= s[i] <= '7')
        || ((s[1] == 'b' || s[1] == 'B') && forall i :: 2 <= i < |s| ==> s[i] == '0' || s[i] == '1'))
  }

  /**
   * JavaScript's `Number(s)` reads the whole of `s` as a number, so that
   * `isNaN(s)` is false; only strings of identifier characters (no blank,
   * `.` or `+`) are of interest here.
   */
  predicate IsJsNumber(s: string) {
    || IsUnsignedNumber(s)
    || (|s| > 1 && s[0] == '-' && IsUnsignedNumber(s[1..]))
    || IsNonDecimalInteger(s)
  }

  /** `isNaN(id)` is false. */
  predicate NumberLike(id: Ident) {
    id.Num? || IsJsNumber(id.s)
  }

  /** After the bump, `pre` already starts with the identifier and a number, and is kept. */
  predicate KeepsBumped(pre: seq<Ident>, id: string) {
    |pre| > 1 && pre[0] == Alnum(id) && NumberLike(pre[1])
  }

  /**
   * node-semver's `pre` step: bump the prerelease, then, when an identifier
   * is given, restart at `identifier.0` unless the result already reads
   * `identifier.<number>`.
   */
  function PreStep(pre: seq<Ident>, id: Option<string>): seq<Ident> {
    var bumped := BumpPrerelease(pre);
    match id
    case None => bumped
    case Some(s) => if KeepsBumped(bumped, s) then bumped else [Alnum(s), Num(0)]
  }

  /** node-semver's `inc(v, kind, id)`; the result carries no build metadata. */
  function Inc(v: SemVer, kind: IncrementType, id: Option<string>): SemVer {
    match kind
    case Major => SemVer(if v.minor != 0 || v.patch != 0 || v.pre == [] then v.major + 1 else v.major, 0, 0, [], [])
    case Minor => SemVer(v.major, if v.patch != 0 || v.pre == [] then v.minor + 1 else v.minor, 0, [], [])
    case Patch => SemVer(v.major, v.minor, if v.pre == [] then v.patch + 1 else v.patch, [], [])
    case Premajor => SemVer(v.major + 1, 0, 0, PreStep([], id), [])
    case Preminor => SemVer(v.major, v.minor + 1, 0, PreStep([], id), [])
    case Prepatch => SemVer(v.major, v.minor, v.patch + 1, PreStep([], id), [])
    case Prerelease =>
      if v.pre == [] then SemVer(v.major, v.minor, v.patch + 1, PreStep([], id), [])
      else SemVer(v.major, v.minor, v.patch, PreStep(v.pre, id), [])
  }

  /** `increment` on the version record: `inc` with the label of the input. */
  function Bump(v: SemVer, kind: IncrementType): SemVer {
    Inc(v, kind, Identifier(Label(v)))
  }

  /** `increment`: the text of the next version. */
  function Increment(version: string, kind: IncrementType): (r: string)
    requires Valid(version)
    ensures Valid(r)
    ensures ToSemVer(r) == Bump(ToSemVer(version), kind)
  {
    var w := Bump(ToSemVer(version), kind);
    BumpWellFormed(ToSemVer(version), kind);
    ParseRender(w);
    Render(w)
  }

  // ----- what increment promises

  /** The label is the first prerelease identifier unless it is absent or the falsy 0; then it is `beta`. */
  lemma LabelRule(v: SemVer)
    requires WellFormed(v)
    ensures v.pre != [] && v.pre[0] != Num(0) ==> Label(v) == v.pre[0]
    ensures v.pre == [] || v.pre[0] == Num(0) ==> Label(v) == Alnum("beta")
    ensures WellFormedIdent(Label(v)) && Label(v) != Num(0)
    ensures Identifier(Label(v)).None? <==> v.pre != [] && v.pre[0].Num? && v.pre[0].n != 0
    ensures Identifier(Label(v)).Some? ==> IsAlnumIdent(Identifier(Label(v)).value)
  {
    assert !AllDigits("beta") by { assert !IsDigit("beta"[0]); }
    if v.pre != [] {
      assert WellFormedIdent(v.pre[0]);
    }
  }

  lemma {:induction false} BumpPrereleaseChangesLastNumber(pre: seq<Ident>)
    ensures match LastNumeric(pre)
      case Some(j) =>
        && |BumpPrerelease(pre)| == |pre|
        && BumpPrerelease(pre)[j] == Num(pre[j].n + 1)
        && forall k :: 0 <= k < |pre| && k != j ==> BumpPrerelease(pre)[k] == pre[k]
      case None => BumpPrerelease(pre) == pre + [Num(0)]
  {
  }

  /** Bumping the prerelease raises it and keeps it well formed. */
  lemma BumpPrereleaseRaises(pre: seq<Ident>)
    requires forall i :: 0 <= i < |pre| ==> WellFormedIdent(pre[i])
    ensures LexLess(pre, BumpPrerelease(pre), IdentLess)
    ensures forall i :: 0 <= i < |BumpPrerelease(pre)| ==> WellFormedIdent(BumpPrerelease(pre)[i])
  {
    var r := BumpPrerelease(pre);
    match LastNumeric(pre)
    case Some(j) =>
      assert pre[..j] == r[..j];
      LexAt(pre, r, j, IdentLess);
    case None =>
      assert pre == r[..|pre|];
      LexPrefix(pre, r, IdentLess);
  }

  lemma PreStepWellFormed(pre: seq<Ident>, id: Option<string>)
    requires forall i :: 0 <= i < |pre| ==> WellFormedIdent(pre[i])
    requires id.Some? ==> IsAlnumIdent(id.value)
    ensures forall i :: 0 <= i < |PreStep(pre, id)| ==> WellFormedIdent(PreStep(pre, id)[i])
  {
    BumpPrereleaseRaises(pre);
  }

  /** For a valid input, every increment kind gives a valid version. */
  lemma BumpWellFormed(v: SemVer, kind: IncrementType)
    requires WellFormed(v)
    ensures WellFormed(Bump(v, kind))
  {
    LabelRule(v);
    PreStepWellFormed([], Identifier(Label(v)));
    PreStepWellFormed(v.pre, Identifier(Label(v)));
  }

  /** On a release, patch, minor and major bump one number, reset the lower ones, and carry no prerelease. */
  lemma ReleaseBumps(v: SemVer)
    requires v.pre == []
    ensures Bump(v, Patch) == SemVer(v.major, v.minor, v.patch + 1, [], [])
    ensures Bump(v, Minor) == SemVer(v.major, v.minor + 1, 0, [], [])
    ensures Bump(v, Major) == SemVer(v.major + 1, 0, 0, [], [])
  {
  }

  /**
   * On a prerelease, node-semver's patch, minor and major drop the
   * prerelease, bumping the number only when the version is not already the
   * start of that release line (`1.2.3-beta.1` patches to `1.2.3`).
   */
  lemma PrereleaseInputBumps(v: SemVer)
    requires v.pre != []
    ensures Bump(v, Patch) == SemVer(v.major, v.minor, v.patch, [], [])
    ensures Bump(v, Minor) == SemVer(v.major, if v.patch == 0 then v.minor else v.minor + 1, 0, [], [])
    ensures Bump(v, Major) == SemVer(if v.minor == 0 && v.patch == 0 then v.major else v.major + 1, 0, 0, [], [])
  {
  }

  /**
   * prepatch, preminor and premajor bump a number and start the prerelease
   * `label.0`; with a numeric label node-semver gets no identifier and starts
   * it at `0` (`1.2.3-5` prepatches to `1.2.4-0`).
   */
  lemma PreBumps(v: SemVer)
    requires WellFormed(v)
    ensures Label(v).Alnum? ==> Bump(v, Prepatch) == SemVer(v.major, v.minor, v.patch + 1, [Label(v), Num(0)], [])
    ensures Label(v).Alnum? ==> Bump(v, Preminor) == SemVer(v.major, v.minor + 1, 0, [Label(v), Num(0)], [])
    ensures Label(v).Alnum? ==> Bump(v, Premajor) == SemVer(v.major + 1, 0, 0, [Label(v), Num(0)], [])
    ensures Label(v).Num? ==> Bump(v, Prepatch) == SemVer(v.major, v.minor, v.patch + 1, [Num(0)], [])
    ensures Label(v).Num? ==> Bump(v, Preminor) == SemVer(v.major, v.minor + 1, 0, [Num(0)], [])
    ensures Label(v).Num? ==> Bump(v, Premajor) == SemVer(v.major + 1, 0, 0, [Num(0)], [])
  {
    LabelRule(v);
    assert BumpPrerelease([]) == [Num(0)];
  }

  /** On a release, prerelease is prepatch with the label `beta`. */
  lemma PrereleaseOfRelease(v: SemVer)
    requires v.pre == []
    ensures Bump(v, Prerelease) == Bump(v, Prepatch) == Inc(v, Prepatch, Some("beta"))
    ensures Bump(v, Prerelease) == SemVer(v.major, v.minor, v.patch + 1, [Alnum("beta"), Num(0)], [])
  {
    assert BumpPrerelease([]) == [Num(0)];
  }

  /**
   * The prerelease step restarts at `label.0`: there is an identifier, and
   * the bumped prerelease does not read `label.<number>`.
   */
  predicate PrereleaseRestarts(v: SemVer) {
    Identifier(Label(v)).Some? && !KeepsBumped(BumpPrerelease(v.pre), Identifier(Label(v)).value)
  }

  /**
   * On a prerelease that is not restarted, prerelease keeps the numbers and
   * only increments the last numeric identifier.
   */
  lemma PrereleaseOfPrerelease(v: SemVer)
    requires v.pre != [] && !PrereleaseRestarts(v)
    ensures Bump(v, Prerelease) == SemVer(v.major, v.minor, v.patch, BumpPrerelease(v.pre), [])
  {
  }

  /** A prerelease starting with a nonzero number is bumped in place, as `1.2.3-5.beta` becomes `1.2.3-6.beta`. */
  lemma PrereleaseOfNumericLabel(v: SemVer)
    requires v.pre != [] && v.pre[0].Num? && v.pre[0].n != 0
    ensures Bump(v, Prerelease) == SemVer(v.major, v.minor, v.patch, BumpPrerelease(v.pre), [])
  {
  }

  /**
   * A prerelease starting with the number 0 gets the label `beta` (0 is falsy),
   * and the bumped list cannot start with `beta`, so it restarts at `beta.0`:
   * `1.2.3-0.5` becomes `1.2.3-beta.0`.
   */
  lemma PrereleaseOfZeroLabel(v: SemVer)
    requires v.pre != [] && v.pre[0] == Num(0)
    ensures Bump(v, Prerelease) == SemVer(v.major, v.minor, v.patch, [Alnum("beta"), Num(0)], [])
  {
    BumpPrereleaseChangesLastNumber(v.pre);
  }

  /** `label.n` becomes `label.(n+1)`, as `2.0.0-beta.1` becomes `2.0.0-beta.2`. */
  lemma PrereleaseOfLabelAndNumber(v: SemVer, a: string, n: nat)
    requires v.pre == [Alnum(a), Num(n)] && a != []
    ensures Bump(v, Prerelease) == SemVer(v.major, v.minor, v.patch, [Alnum(a), Num(n + 1)], [])
  {
    assert LastNumeric(v.pre) == Some(1);
    assert BumpPrerelease(v.pre) == [Alnum(a), Num(n + 1)];
  }

  /** The bump leaves an alphanumeric first identifier, and a second identifier stays numeric or stays as it was. */
  lemma BumpKeepsFront(pre: seq<Ident>)
    requires |pre| >= 2
    ensures |BumpPrerelease(pre)| >= 2
    ensures pre[0].Alnum? ==> BumpPrerelease(pre)[0] == pre[0]
    ensures pre[1].Num? ==> BumpPrerelease(pre)[1].Num?
    ensures pre[1].Alnum? ==> BumpPrerelease(pre)[1] == pre[1]
  {
    BumpPrereleaseChangesLastNumber(pre);
  }

  /**
   * The one case where node-semver's prerelease goes backwards: the label is
   * the first, alphanumeric identifier and the second is an alphanumeric
   * identifier that is not number-like, so the prerelease restarts at `label.0`.
   */
  predicate PrereleaseLowers(v: SemVer) {
    |v.pre| >= 2 && v.pre[0].Alnum? && v.pre[1].Alnum? && !IsJsNumber(v.pre[1].s)
  }

  /** In that case the prerelease restarts, and the result is `label.0`. */
  lemma PrereleaseLowersShape(v: SemVer)
    requires WellFormed(v) && PrereleaseLowers(v)
    ensures PrereleaseRestarts(v)
    ensures Bump(v, Prerelease) == SemVer(v.major, v.minor, v.patch, [v.pre[0], Num(0)], [])
  {
    LabelRule(v);
    BumpKeepsFront(v.pre);
  }

  /** For a valid input, increment raises precedence, except in the prerelease case above. */
  lemma IncrementRaises(v: SemVer, kind: IncrementType)
    requires WellFormed(v)
    requires !(kind == Prerelease && PrereleaseLowers(v))
    ensures Precedes(v, Bump(v, kind))
  {
    LabelRule(v);
    IdentLessIsStrictTotalOrder();
    if kind == Prerelease && v.pre != [] {
      var w := Bump(v, kind);
      if !PrereleaseRestarts(v) {
        BumpPrereleaseRaises(v.pre);
      } else if v.pre[0] == Num(0) {
        assert w.pre == [Alnum("beta"), Num(0)];
        assert v.pre[..0] == w.pre[..0];
        LexAt(v.pre, w.pre, 0, IdentLess);
      } else {
        // a restart from a first identifier that is the label is the excluded case
        if |v.pre| >= 2 {
          BumpKeepsFront(v.pre);
        } else {
          BumpPrereleaseChangesLastNumber(v.pre);
        }
        assert false;
      }
    }
  }

  /** ... and in that case it lowers precedence, as `2.0.0-beta.fooblz` becomes `2.0.0-beta.0`. */
  lemma PrereleaseLowersPrecedence(v: SemVer)
    requires WellFormed(v) && PrereleaseLowers(v)
    ensures Precedes(Bump(v, Prerelease), v)
  {
    PrereleaseLowersShape(v);
    var w := Bump(v, Prerelease);
    assert w.pre[..1] == v.pre[..1];
    LexAt(w.pre, v.pre, 1, IdentLess);
  }

  /** For a valid input, prerelease gives a lower version exactly in that case. */
  lemma PrereleaseLowersExactly(v: SemVer)
    requires WellFormed(v)
    ensures Precedes(Bump(v, Prerelease), v) <==> PrereleaseLowers(v)
  {
    if PrereleaseLowers(v) {
      PrereleaseLowersPrecedence(v);
    } else {
      IncrementRaises(v, Prerelease);
      PrecedesAsymmetric(v, Bump(v, Prerelease));
    }
  }

  /** Two patch bumps: the patch rises by two on a release, by one on a prerelease; major and minor stay. */
  lemma PatchTwice(v: SemVer)
    ensures Bump(Bump(v, Patch), Patch) == SemVer(v.major, v.minor, if v.pre == [] then v.patch + 2 else v.patch + 1, [], [])
  {
  }


  /** The text of an increment depends only on the record a version string denotes. */
  lemma IncrementOfParsed(version: string, v: SemVer, kind: IncrementType)
    requires Parse(version) == Some(v)
    ensures Valid(version) && Increment(version, kind) == Render(Bump(v, kind))
    ensures Valid(version) && GetPrereleaseType(version) == PrereleaseType(v)
  {
  }
}
