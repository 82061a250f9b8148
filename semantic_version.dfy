/**
 * Version strings as Semantic Versioning 2.0.0 defines them:
 * MAJOR.MINOR.PATCH (section 2), an optional prerelease after `-` (section 9)
 * and optional build metadata after `+` (section 10).
 */
module SemanticVersion {
  import opened Wrappers
  import opened Text

  /** A prerelease identifier; node-semver keeps numeric ones as numbers. */
  datatype Ident = Num(n: nat) | Alnum(s: string)

  datatype SemVer = SemVer(major: nat, minor: nat, patch: nat, pre: seq<Ident>, build: seq<string>)

  predicate IsIdentChar(c: char) {
    IsDigit(c) || 'a' <= c <= 'z' || 'A' <= c <= 'Z' || c == '-'
  }

  predicate AllIdentChars(s: string) {
    forall i :: 0 <= i < |s| ==> IsIdentChar(s[i])
  }

  /** A non-numeric prerelease identifier (section 9). */
  predicate IsAlnumIdent(s: string) {
    s != [] && AllIdentChars(s) && !AllDigits(s)
  }

  /** A build identifier (section 10); leading zeros are allowed here. */
  predicate IsBuildIdent(s: string) {
    s != [] && AllIdentChars(s)
  }

  predicate WellFormedIdent(id: Ident) {
    id.Alnum? ==> IsAlnumIdent(id.s)
  }

  /** The record a valid version string denotes. */
  predicate WellFormed(v: SemVer) {
    && (forall i :: 0 <= i < |v.pre| ==> WellFormedIdent(v.pre[i]))
    && (forall i :: 0 <= i < |v.build| ==> IsBuildIdent(v.build[i]))
  }

  function IdentToString(id: Ident): string {
    match id
    case Num(n) => NatToString(n)
    case Alnum(s) => s
  }

  function IdentStrings(ids: seq<Ident>): (ts: seq<string>)
    ensures |ts| == |ids|
    ensures forall i :: 0 <= i < |ids| ==> ts[i] == IdentToString(ids[i])
  {
    seq(|ids|, i requires 0 <= i < |ids| => IdentToString(ids[i]))
  }

  /** MAJOR.MINOR.PATCH as text. */
  function NumbersText(major: nat, minor: nat, patch: nat): string {
    NatToString(major) + "." + NatToString(minor) + "." + NatToString(patch)
  }

  /** The text before `+` in the rendering. */
  function CoreText(v: SemVer): string {
    NumbersText(v.major, v.minor, v.patch) + (if v.pre == [] then "" else "-" + Join(IdentStrings(v.pre), '.'))
  }

  /** The text of a version: numbers, then `-prerelease` and `+build` when present. */
  function Render(v: SemVer): string {
    CoreText(v) + (if v.build == [] then "" else "+" + Join(v.build, '.'))
  }

  function ParseIdent(t: string): Option<Ident> {
    if IsNumeral(t) then Some(Num(StringToNat(t)))
    else if IsAlnumIdent(t) then Some(Alnum(t))
    else None
  }

  function ParseIdents(ts: seq<string>): Option<seq<Ident>>
    decreases |ts|
  {
    if ts == [] then Some([])
    else match ParseIdent(ts[0])
      case None => None
      case Some(id) =>
        match ParseIdents(ts[1..])
        case None => None
        case Some(ids) => Some([id] + ids)
  }

  function ParseBuild(ts: seq<string>): Option<seq<string>> {
    if forall i :: 0 <= i < |ts| ==> IsBuildIdent(ts[i]) then Some(ts) else None
  }

  /** MAJOR.MINOR.PATCH: exactly three numerals without leading zeros. */
  function ParseNumbers(t: string): Option<(nat, nat, nat)> {
    var nums := Split(t, '.');
    if |nums| == 3 && IsNumeral(nums[0]) && IsNumeral(nums[1]) && IsNumeral(nums[2])
    then Some((StringToNat(nums[0]), StringToNat(nums[1]), StringToNat(nums[2])))
    else None
  }

  /**
   * A version without build metadata. The prerelease starts at the first `-`,
   * since the numbers contain none; it may itself contain `-`.
   */
  function ParseCore(t: string): Option<SemVer> {
    var dash := Split(t, '-');
    match ParseNumbers(dash[0])
    case None => None
    case Some(n) =>
      if |dash| == 1 then Some(SemVer(n.0, n.1, n.2, [], []))
      else match ParseIdents(Split(Join(dash[1..], '-'), '.'))
        case None => None
        case Some(pre) => Some(SemVer(n.0, n.1, n.2, pre, []))
  }

  /** The version a string denotes, or None when it breaks the grammar; build metadata follows the only `+`. */
  function Parse(s: string): Option<SemVer> {
    var plus := Split(s, '+');
    if |plus| > 2 then None
    else match ParseCore(plus[0])
      case None => None
      case Some(v) =>
        if |plus| == 1 then Some(v)
        else match ParseBuild(Split(plus[1], '.'))
          case None => None
          case Some(b) => Some(v.(build := b))
  }

  predicate Valid(s: string) {
    Parse(s).Some?
  }

  // ----- lemmas

  lemma {:induction false} ParseIdentRoundTrip(id: Ident)
    requires WellFormedIdent(id)
    ensures ParseIdent(IdentToString(id)) == Some(id)
  {
    match id
    case Num(n) => NatToStringIsNumeral(n);
    case Alnum(s) =>
  }

  lemma {:induction false} ParseIdentsRoundTrip(ids: seq<Ident>)
    requires forall i :: 0 <= i < |ids| ==> WellFormedIdent(ids[i])
    ensures ParseIdents(IdentStrings(ids)) == Some(ids)
    decreases |ids|
  {
    if ids != [] {
      ParseIdentRoundTrip(ids[0]);
      ParseIdentsRoundTrip(ids[1..]);
      assert IdentStrings(ids)[1..] == IdentStrings(ids[1..]);
      assert [ids[0]] + ids[1..] == ids;
    }
  }

  lemma ParseIdentInverse(t: string, id: Ident)
    requires ParseIdent(t) == Some(id)
    ensures IdentToString(id) == t && WellFormedIdent(id)
  {
    if IsNumeral(t) {
      StringToNatRoundTrip(t);
    }
  }

  lemma {:induction false} ParseIdentsInverse(ts: seq<string>, ids: seq<Ident>)
    requires ParseIdents(ts) == Some(ids)
    ensures IdentStrings(ids) == ts
    ensures forall i :: 0 <= i < |ids| ==> WellFormedIdent(ids[i])
    decreases |ts|
  {
    if ts != [] {
      var id := ParseIdent(ts[0]).value;
      var rest := ParseIdents(ts[1..]).value;
      ParseIdentInverse(ts[0], id);
      ParseIdentsInverse(ts[1..], rest);
      assert ids == [id] + rest;
      forall i | 0 <= i < |ids|
        ensures IdentStrings(ids)[i] == ts[i] && WellFormedIdent(ids[i])
      {
        if i > 0 {
          assert ids[i] == rest[i - 1];
          assert IdentStrings(rest)[i - 1] == ts[1..][i - 1];
        }
      }
    }
  }

  lemma NatToStringAvoids(n: nat)
    ensures '.' !in NatToString(n) && '-' !in NatToString(n) && '+' !in NatToString(n)
  {
    NatToStringIsNumeral(n);
  }

  lemma {:induction false} IdentStringsAvoid(ids: seq<Ident>, c: char)
    requires forall i :: 0 <= i < |ids| ==> WellFormedIdent(ids[i])
    requires c == '.' || c == '+'
    ensures forall i :: 0 <= i < |ids| ==> c !in IdentStrings(ids)[i]
  {
    forall i | 0 <= i < |ids|
      ensures c !in IdentStrings(ids)[i]
    {
      match ids[i]
      case Num(n) => NatToStringIsNumeral(n);
      case Alnum(s) => assert !IsIdentChar(c);
    }
  }

  lemma ParseNumbersRoundTrip(major: nat, minor: nat, patch: nat)
    ensures ParseNumbers(NumbersText(major, minor, patch)) == Some((major, minor, patch))
    ensures '-' !in NumbersText(major, minor, patch) && '+' !in NumbersText(major, minor, patch)
  {
    var a, b, c := NatToString(major), NatToString(minor), NatToString(patch);
    NatToStringIsNumeral(major);
    NatToStringIsNumeral(minor);
    NatToStringIsNumeral(patch);
    NatToStringAvoids(major);
    NatToStringAvoids(minor);
    NatToStringAvoids(patch);
    SplitThree(a, b, c, '.');
  }

  lemma ParseNumbersInverse(t: string)
    requires ParseNumbers(t).Some?
    ensures NumbersText(ParseNumbers(t).value.0, ParseNumbers(t).value.1, ParseNumbers(t).value.2) == t
  {
    var nums := Split(t, '.');
    JoinSplit(t, '.');
    StringToNatRoundTrip(nums[0]);
    StringToNatRoundTrip(nums[1]);
    StringToNatRoundTrip(nums[2]);
    assert Join(nums[2..], '.') == nums[2];
    assert Join(nums[1..], '.') == nums[1] + ['.'] + nums[2];
    assert Join(nums, '.') == nums[0] + ['.'] + (nums[1] + ['.'] + nums[2]);
  }

  lemma BuildAvoids(build: seq<string>, c: char)
    requires forall i :: 0 <= i < |build| ==> IsBuildIdent(build[i])
    requires !IsIdentChar(c)
    ensures forall i :: 0 <= i < |build| ==> c !in build[i]
  {
  }

  lemma ParseCoreRoundTrip(v: SemVer)
    requires WellFormed(v)
    ensures ParseCore(CoreText(v)) == Some(v.(build := []))
    ensures '+' !in CoreText(v)
  {
    var m := NumbersText(v.major, v.minor, v.patch);
    ParseNumbersRoundTrip(v.major, v.minor, v.patch);
    if v.pre == [] {
      assert CoreText(v) == m;
      SplitWithoutSep(m, '-');
    } else {
      var p := Join(IdentStrings(v.pre), '.');
      assert CoreText(v) == m + ['-'] + p;
      SplitAtSep(m, p, '-');
      JoinSplit(p, '-');
      IdentStringsAvoid(v.pre, '.');
      IdentStringsAvoid(v.pre, '+');
      JoinAvoids(IdentStrings(v.pre), '.', '+');
      SplitJoin(IdentStrings(v.pre), '.');
      ParseIdentsRoundTrip(v.pre);
    }
  }

  lemma ParseCoreInverse(t: string)
    requires ParseCore(t).Some?
    ensures WellFormed(ParseCore(t).value) && ParseCore(t).value.build == []
    ensures CoreText(ParseCore(t).value) == t
  {
    ParseCoreWellFormed(t);
    ParseCoreText(t);
  }

  lemma ParseCoreWellFormed(t: string)
    requires ParseCore(t).Some?
    ensures WellFormed(ParseCore(t).value) && ParseCore(t).value.build == []
  {
    var dash := Split(t, '-');
    var n := ParseNumbers(dash[0]).value;
    ParseNumbersInverse(dash[0]);
    JoinSplit(t, '-');
    if |dash| > 1 {
      var pre := ParseIdents(Split(Join(dash[1..], '-'), '.')).value;
      assert ParseCore(t).value == SemVer(n.0, n.1, n.2, pre, []);
      DashedInverse(t, dash, n, pre);
    }
  }

  lemma ParseCoreText(t: string)
    requires ParseCore(t).Some?
    ensures CoreText(ParseCore(t).value) == t
  {
    var dash := Split(t, '-');
    var n := ParseNumbers(dash[0]).value;
    ParseNumbersInverse(dash[0]);
    JoinSplit(t, '-');
    if |dash| > 1 {
      var pre := ParseIdents(Split(Join(dash[1..], '-'), '.')).value;
      assert ParseCore(t).value == SemVer(n.0, n.1, n.2, pre, []);
      DashedInverse(t, dash, n, pre);
    }
  }

  /** The text after the first `-` is the prerelease it parsed to. */
  lemma DashedInverse(t: string, dash: seq<string>, n: (nat, nat, nat), pre: seq<Ident>)
    requires |dash| > 1 && Join(dash, '-') == t
    requires NumbersText(n.0, n.1, n.2) == dash[0]
    requires ParseIdents(Split(Join(dash[1..], '-'), '.')) == Some(pre)
    ensures forall i :: 0 <= i < |pre| ==> WellFormedIdent(pre[i])
    ensures pre != [] && NumbersText(n.0, n.1, n.2) + "-" + Join(IdentStrings(pre), '.') == t
  {
    var p := Join(dash[1..], '-');
    PrereleaseInverse(p, pre);
    assert Join(dash, '-') == dash[0] + ['-'] + p;
  }

  lemma PrereleaseInverse(p: string, pre: seq<Ident>)
    requires ParseIdents(Split(p, '.')) == Some(pre)
    ensures pre != [] && Join(IdentStrings(pre), '.') == p
    ensures forall i :: 0 <= i < |pre| ==> WellFormedIdent(pre[i])
  {
    ParseIdentsInverse(Split(p, '.'), pre);
    JoinSplit(p, '.');
  }

  /** Rendering a well-formed version and parsing the text gives the version back. */
  lemma ParseRender(v: SemVer)
    requires WellFormed(v)
    ensures Parse(Render(v)) == Some(v)
  {
    ParseCoreRoundTrip(v);
    if v.build == [] {
      assert Render(v) == CoreText(v);
      ParseWithoutBuild(CoreText(v), v);
    } else {
      BuildRoundTrip(v.build);
      assert Render(v) == CoreText(v) + ['+'] + Join(v.build, '.');
      ParseWithBuild(CoreText(v), Join(v.build, '.'), v.(build := []), v.build);
    }
  }

  /** A text without `+` parses as its core alone. */
  lemma ParseWithoutBuild(core: string, v: SemVer)
    requires '+' !in core && ParseCore(core) == Some(v)
    ensures Parse(core) == Some(v)
  {
    SplitWithoutSep(core, '+');
  }

  /** A core, `+`, and build text without `+` parse as the core with that build. */
  lemma ParseWithBuild(core: string, b: string, v: SemVer, build: seq<string>)
    requires '+' !in core && ParseCore(core) == Some(v)
    requires Split(b, '+') == [b] && ParseBuild(Split(b, '.')) == Some(build)
    ensures Parse(core + ['+'] + b) == Some(v.(build := build))
  {
    SplitAtSep(core, b, '+');
  }

  /** Build metadata joined at `.` splits back into itself and holds no `+`. */
  lemma BuildRoundTrip(build: seq<string>)
    requires build != [] && forall i :: 0 <= i < |build| ==> IsBuildIdent(build[i])
    ensures '+' !in Join(build, '.')
    ensures Split(Join(build, '.'), '+') == [Join(build, '.')]
    ensures ParseBuild(Split(Join(build, '.'), '.')) == Some(build)
  {
    BuildAvoids(build, '+');
    BuildAvoids(build, '.');
    JoinAvoids(build, '.', '+');
    SplitWithoutSep(Join(build, '.'), '+');
    SplitJoin(build, '.');
  }

  /** Every text that parses is the rendering of what it parses to. */
  lemma RenderParse(s: string)
    requires Parse(s).Some?
    ensures WellFormed(Parse(s).value)
    ensures Render(Parse(s).value) == s
  {
    ParseWellFormed(s);
    ParseText(s);
  }

  lemma ParseWellFormed(s: string)
    requires Parse(s).Some?
    ensures WellFormed(Parse(s).value)
  {
    var plus := Split(s, '+');
    ParseCoreWellFormed(plus[0]);
  }

  lemma ParseText(s: string)
    requires Parse(s).Some?
    ensures Render(Parse(s).value) == s
  {
    var plus := Split(s, '+');
    var core := ParseCore(plus[0]).value;
    JoinSplit(s, '+');
    ParseCoreInverse(plus[0]);
    if |plus| == 2 {
      var b := Split(plus[1], '.');
      JoinSplit(plus[1], '.');
      assert Parse(s).value == core.(build := b);
      BuildText(s, plus, core, b);
    }
  }

  /** A core and build metadata joined at `+` print as the text they came from. */
  lemma BuildText(s: string, plus: seq<string>, core: SemVer, b: seq<string>)
    requires |plus| == 2 && Join(plus, '+') == s
    requires core.build == [] && CoreText(core) == plus[0]
    requires b != [] && Join(b, '.') == plus[1]
    ensures Render(core.(build := b)) == s
  {
    assert Join(plus, '+') == plus[0] + ['+'] + plus[1];
  }
}
