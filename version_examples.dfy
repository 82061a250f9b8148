/** Worked examples of toVersion, getPrereleaseType and increment on concrete version strings. */
module VersionExamples {
  import opened Wrappers
  import opened Text
  import opened SemanticVersion
  import opened Precedence
  import opened Versions

  lemma ParseRelease()
    ensures Parse("1.2.3") == Some(SemVer(1, 2, 3, [], []))
  {
    assert NatToString(1) == "1" && NatToString(2) == "2" && NatToString(3) == "3";
    assert Render(SemVer(1, 2, 3, [], [])) == "1.2.3";
    ParseRender(SemVer(1, 2, 3, [], []));
  }

  /** `1.2.3` has no prerelease type. */
  lemma ReleaseHasNoPrereleaseType()
    ensures Valid("1.2.3") && GetPrereleaseType("1.2.3") == None
  {
    ParseRelease();
    IncrementOfParsed("1.2.3", SemVer(1, 2, 3, [], []), Patch);
  }

  /** `1.2.3` patches to `1.2.4`. */
  lemma PatchExample()
    ensures Valid("1.2.3") && Increment("1.2.3", Patch) == "1.2.4"
  {
    ParseRelease();
    IncrementOfParsed("1.2.3", SemVer(1, 2, 3, [], []), Patch);
    PatchRecord();
  }

  lemma PatchRecord()
    ensures Render(Bump(SemVer(1, 2, 3, [], []), Patch)) == "1.2.4"
  {
    ReleaseBumps(SemVer(1, 2, 3, [], []));
    assert NatToString(1) == "1" && NatToString(2) == "2" && NatToString(4) == "4";
  }

  /** `1.2.3` minors to `1.3.0`. */
  lemma MinorExample()
    ensures Valid("1.2.3") && Increment("1.2.3", Minor) == "1.3.0"
  {
    ParseRelease();
    IncrementOfParsed("1.2.3", SemVer(1, 2, 3, [], []), Minor);
    MinorRecord();
  }

  lemma MinorRecord()
    ensures Render(Bump(SemVer(1, 2, 3, [], []), Minor)) == "1.3.0"
  {
    ReleaseBumps(SemVer(1, 2, 3, [], []));
    assert NatToString(0) == "0" && NatToString(1) == "1" && NatToString(3) == "3";
  }

  /** `1.2.3` majors to `2.0.0`. */
  lemma MajorExample()
    ensures Valid("1.2.3") && Increment("1.2.3", Major) == "2.0.0"
  {
    ParseRelease();
    IncrementOfParsed("1.2.3", SemVer(1, 2, 3, [], []), Major);
    MajorRecord();
  }

  lemma MajorRecord()
    ensures Render(Bump(SemVer(1, 2, 3, [], []), Major)) == "2.0.0"
  {
    ReleaseBumps(SemVer(1, 2, 3, [], []));
    assert NatToString(0) == "0" && NatToString(2) == "2";
  }

  /** `1.2.3` as prerelease gives `1.2.4-beta.0`. */
  lemma ReleasePrereleaseExample()
    ensures Valid("1.2.3") && Increment("1.2.3", Prerelease) == "1.2.4-beta.0"
  {
    ParseRelease();
    IncrementOfParsed("1.2.3", SemVer(1, 2, 3, [], []), Prerelease);
    ReleasePrereleaseRecord();
    Render124Beta0();
  }

  lemma ReleasePrereleaseRecord()
    ensures Bump(SemVer(1, 2, 3, [], []), Prerelease) == SemVer(1, 2, 4, [Alnum("beta"), Num(0)], [])
  {
    PrereleaseOfRelease(SemVer(1, 2, 3, [], []));
  }

  lemma Render124Beta0()
    ensures Render(SemVer(1, 2, 4, [Alnum("beta"), Num(0)], [])) == "1.2.4-beta.0"
  {
    RenderBeta0(1, 2, 4);
    NumbersTexts();
  }

  lemma RenderBeta0(major: nat, minor: nat, patch: nat)
    requires major < 10 && minor < 10 && patch < 10
    ensures Render(SemVer(major, minor, patch, [Alnum("beta"), Num(0)], []))
         == NumbersText(major, minor, patch) + "-beta.0"
  {
    assert NatToString(0) == "0";
    assert IdentStrings([Alnum("beta"), Num(0)]) == ["beta", "0"];
    assert Join(["beta", "0"], '.') == "beta.0";
  }

  lemma NumbersTexts()
    ensures NumbersText(1, 2, 4) == "1.2.4"
    ensures NumbersText(2, 0, 0) == "2.0.0"
    ensures NumbersText(3, 0, 0) == "3.0.0"
  {
    assert NatToString(0) == "0" && NatToString(1) == "1" && NatToString(2) == "2";
    assert NatToString(3) == "3" && NatToString(4) == "4";
  }

  lemma BetaIsAlnum()
    ensures IsAlnumIdent("beta")
  {
    assert !IsDigit("beta"[0]);
  }

  lemma ParseBeta1()
    ensures Parse("2.0.0-beta.1") == Some(SemVer(2, 0, 0, [Alnum("beta"), Num(1)], []))
  {
    RenderBeta1();
    BetaIsAlnum();
    ParseRender(SemVer(2, 0, 0, [Alnum("beta"), Num(1)], []));
  }

  lemma RenderBeta1()
    ensures Render(SemVer(2, 0, 0, [Alnum("beta"), Num(1)], [])) == "2.0.0-beta.1"
  {
    assert NatToString(0) == "0" && NatToString(1) == "1" && NatToString(2) == "2";
    assert IdentStrings([Alnum("beta"), Num(1)]) == ["beta", "1"];
    assert Join(["beta", "1"], '.') == "beta.1";
  }

  /** `2.0.0-beta.1` has prerelease type `beta`. */
  lemma BetaPrereleaseType()
    ensures Valid("2.0.0-beta.1") && GetPrereleaseType("2.0.0-beta.1") == Some(Alnum("beta"))
  {
    ParseBeta1();
    IncrementOfParsed("2.0.0-beta.1", SemVer(2, 0, 0, [Alnum("beta"), Num(1)], []), Prerelease);
  }

  /** `2.0.0-beta.1` as prerelease gives `2.0.0-beta.2`. */
  lemma PrereleaseExample()
    ensures Valid("2.0.0-beta.1") && Increment("2.0.0-beta.1", Prerelease) == "2.0.0-beta.2"
  {
    var v := SemVer(2, 0, 0, [Alnum("beta"), Num(1)], []);
    ParseBeta1();
    IncrementOfParsed("2.0.0-beta.1", v, Prerelease);
    PrereleaseOfLabelAndNumber(v, "beta", 1);
    RenderBeta2();
  }

  lemma RenderBeta2()
    ensures Render(SemVer(2, 0, 0, [Alnum("beta"), Num(2)], [])) == "2.0.0-beta.2"
  {
    assert NatToString(0) == "0" && NatToString(2) == "2";
    assert IdentStrings([Alnum("beta"), Num(2)]) == ["beta", "2"];
    assert Join(["beta", "2"], '.') == "beta.2";
  }

  /** `2.0.0-beta.1` as premajor gives `3.0.0-beta.0`. */
  lemma PremajorExample()
    ensures Valid("2.0.0-beta.1") && Increment("2.0.0-beta.1", Premajor) == "3.0.0-beta.0"
  {
    ParseBeta1();
    IncrementOfParsed("2.0.0-beta.1", SemVer(2, 0, 0, [Alnum("beta"), Num(1)], []), Premajor);
    PremajorRecord();
    Render300Beta0();
  }

  lemma PremajorRecord()
    ensures Bump(SemVer(2, 0, 0, [Alnum("beta"), Num(1)], []), Premajor) == SemVer(3, 0, 0, [Alnum("beta"), Num(0)], [])
  {
    var v := SemVer(2, 0, 0, [Alnum("beta"), Num(1)], []);
    BetaIsAlnum();
    LabelRule(v);
    PreBumps(v);
  }

  lemma Render300Beta0()
    ensures Render(SemVer(3, 0, 0, [Alnum("beta"), Num(0)], [])) == "3.0.0-beta.0"
  {
    RenderBeta0(3, 0, 0);
    NumbersTexts();
  }

  lemma ParseFooblz()
    ensures Parse("2.0.0-beta.fooblz") == Some(SemVer(2, 0, 0, [Alnum("beta"), Alnum("fooblz")], []))
  {
    RenderFooblz();
    BetaIsAlnum();
    assert IsAlnumIdent("fooblz") by { assert !IsDigit("fooblz"[0]); }
    ParseRender(SemVer(2, 0, 0, [Alnum("beta"), Alnum("fooblz")], []));
  }

  lemma RenderFooblz()
    ensures Render(SemVer(2, 0, 0, [Alnum("beta"), Alnum("fooblz")], [])) == "2.0.0-beta.fooblz"
  {
    NumbersTexts();
    FooblzPrereleaseText();
  }

  lemma FooblzPrereleaseText()
    ensures Join(IdentStrings([Alnum("beta"), Alnum("fooblz")]), '.') == "beta.fooblz"
  {
    assert IdentStrings([Alnum("beta"), Alnum("fooblz")]) == ["beta", "fooblz"];
    assert Join(["beta", "fooblz"], '.') == "beta.fooblz";
  }

  lemma FooblzIsNotANumber()
    ensures !IsJsNumber("fooblz")
  {
    assert !IsDecimal("fooblz") by { assert !IsDigit("fooblz"[0]); }
    forall k | 0 < k < 6 ensures !IsDecimal("fooblz"[..k]) {
      assert !IsDigit("fooblz"[..k][0]);
    }
  }

  /** `2.0.0-beta.fooblz` as prerelease gives `2.0.0-beta.0`, of lower precedence. */
  lemma PrereleaseLowersExample()
    ensures Valid("2.0.0-beta.fooblz") && Increment("2.0.0-beta.fooblz", Prerelease) == "2.0.0-beta.0"
    ensures Valid("2.0.0-beta.fooblz") && Precedes(ToSemVer(Increment("2.0.0-beta.fooblz", Prerelease)), ToSemVer("2.0.0-beta.fooblz"))
  {
    var v := SemVer(2, 0, 0, [Alnum("beta"), Alnum("fooblz")], []);
    ParseFooblz();
    IncrementOfParsed("2.0.0-beta.fooblz", v, Prerelease);
    FooblzRecord();
    Parse200Beta0();
    assert Increment("2.0.0-beta.fooblz", Prerelease) == "2.0.0-beta.0" by {
      RenderParse("2.0.0-beta.0");
    }
  }

  lemma FooblzRecord()
    ensures Bump(SemVer(2, 0, 0, [Alnum("beta"), Alnum("fooblz")], []), Prerelease) == SemVer(2, 0, 0, [Alnum("beta"), Num(0)], [])
    ensures Precedes(SemVer(2, 0, 0, [Alnum("beta"), Num(0)], []), SemVer(2, 0, 0, [Alnum("beta"), Alnum("fooblz")], []))
  {
    var v := SemVer(2, 0, 0, [Alnum("beta"), Alnum("fooblz")], []);
    FooblzLowers();
    PrereleaseLowersShape(v);
    PrereleaseLowersPrecedence(v);
  }

  /** `2.0.0-beta.fooblz` is the case where the prerelease step is replaced by [label, 0]. */
  lemma FooblzLowers()
    ensures WellFormed(SemVer(2, 0, 0, [Alnum("beta"), Alnum("fooblz")], []))
    ensures PrereleaseLowers(SemVer(2, 0, 0, [Alnum("beta"), Alnum("fooblz")], []))
  {
    BetaIsAlnum();
    assert IsAlnumIdent("fooblz") by { assert !IsDigit("fooblz"[0]); }
    FooblzIsNotANumber();
  }

  lemma Parse200Beta0()
    ensures Parse("2.0.0-beta.0") == Some(SemVer(2, 0, 0, [Alnum("beta"), Num(0)], []))
  {
    Render200Beta0();
    BetaIsAlnum();
    ParseRender(SemVer(2, 0, 0, [Alnum("beta"), Num(0)], []));
  }

  lemma Render200Beta0()
    ensures Render(SemVer(2, 0, 0, [Alnum("beta"), Num(0)], [])) == "2.0.0-beta.0"
  {
    RenderBeta0(2, 0, 0);
    NumbersTexts();
  }

  lemma ParseFive()
    ensures Parse("1.2.3-5") == Some(SemVer(1, 2, 3, [Num(5)], []))
  {
    RenderFive();
    ParseRender(SemVer(1, 2, 3, [Num(5)], []));
  }

  lemma RenderFive()
    ensures Render(SemVer(1, 2, 3, [Num(5)], [])) == "1.2.3-5"
  {
    assert NatToString(1) == "1" && NatToString(2) == "2" && NatToString(3) == "3";
    assert NatToString(5) == "5";
    assert IdentStrings([Num(5)]) == ["5"];
  }

  /** `1.2.3-5` has the numeric prerelease type 5, so no identifier reaches `inc`: prepatch gives `1.2.4-0`. */
  lemma NumericPrepatchExample()
    ensures Valid("1.2.3-5") && Increment("1.2.3-5", Prepatch) == "1.2.4-0"
  {
    ParseFive();
    IncrementOfParsed("1.2.3-5", SemVer(1, 2, 3, [Num(5)], []), Prepatch);
    NumericPrepatchRecord();
  }

  lemma NumericPrepatchRecord()
    ensures Render(Bump(SemVer(1, 2, 3, [Num(5)], []), Prepatch)) == "1.2.4-0"
  {
    var v := SemVer(1, 2, 3, [Num(5)], []);
    LabelRule(v);
    PreBumps(v);
    assert NatToString(0) == "0" && NatToString(1) == "1" && NatToString(2) == "2";
    assert NatToString(4) == "4";
    assert IdentStrings([Num(0)]) == ["0"];
  }

  /** `1.2.3-5` as prerelease gives `1.2.3-6`. */
  lemma NumericPrereleaseExample()
    ensures Valid("1.2.3-5") && Increment("1.2.3-5", Prerelease) == "1.2.3-6"
  {
    ParseFive();
    IncrementOfParsed("1.2.3-5", SemVer(1, 2, 3, [Num(5)], []), Prerelease);
    NumericPrereleaseRecord();
  }

  lemma NumericPrereleaseRecord()
    ensures Render(Bump(SemVer(1, 2, 3, [Num(5)], []), Prerelease)) == "1.2.3-6"
  {
    var v := SemVer(1, 2, 3, [Num(5)], []);
    PrereleaseOfNumericLabel(v);
    assert LastNumeric(v.pre) == Some(0);
    assert BumpPrerelease(v.pre) == [Num(6)];
    assert NatToString(1) == "1" && NatToString(2) == "2" && NatToString(3) == "3";
    assert NatToString(6) == "6";
    assert IdentStrings([Num(6)]) == ["6"];
  }

  lemma ParseFiveBeta()
    ensures Parse("1.2.3-5.beta") == Some(SemVer(1, 2, 3, [Num(5), Alnum("beta")], []))
  {
    RenderFiveBeta();
    BetaIsAlnum();
    ParseRender(SemVer(1, 2, 3, [Num(5), Alnum("beta")], []));
  }

  lemma RenderFiveBeta()
    ensures Render(SemVer(1, 2, 3, [Num(5), Alnum("beta")], [])) == "1.2.3-5.beta"
  {
    assert NatToString(1) == "1" && NatToString(2) == "2" && NatToString(3) == "3";
    assert NatToString(5) == "5";
    assert IdentStrings([Num(5), Alnum("beta")]) == ["5", "beta"];
    assert Join(["5", "beta"], '.') == "5.beta";
  }

  /** `1.2.3-5.beta` as prerelease gives `1.2.3-6.beta`: the number is bumped in place. */
  lemma NumericFirstPrereleaseExample()
    ensures Valid("1.2.3-5.beta") && Increment("1.2.3-5.beta", Prerelease) == "1.2.3-6.beta"
  {
    ParseFiveBeta();
    IncrementOfParsed("1.2.3-5.beta", SemVer(1, 2, 3, [Num(5), Alnum("beta")], []), Prerelease);
    NumericFirstPrereleaseRecord();
  }

  lemma NumericFirstPrereleaseRecord()
    ensures Render(Bump(SemVer(1, 2, 3, [Num(5), Alnum("beta")], []), Prerelease)) == "1.2.3-6.beta"
  {
    var v := SemVer(1, 2, 3, [Num(5), Alnum("beta")], []);
    PrereleaseOfNumericLabel(v);
    assert LastNumeric(v.pre) == Some(0);
    assert BumpPrerelease(v.pre) == [Num(6), Alnum("beta")];
    assert NatToString(1) == "1" && NatToString(2) == "2" && NatToString(3) == "3";
    assert NatToString(6) == "6";
    assert IdentStrings([Num(6), Alnum("beta")]) == ["6", "beta"];
    assert Join(["6", "beta"], '.') == "6.beta";
  }

  lemma ParseZero()
    ensures Parse("1.2.3-0") == Some(SemVer(1, 2, 3, [Num(0)], []))
  {
    RenderZero();
    ParseRender(SemVer(1, 2, 3, [Num(0)], []));
  }

  lemma RenderZero()
    ensures Render(SemVer(1, 2, 3, [Num(0)], [])) == "1.2.3-0"
  {
    assert NatToString(1) == "1" && NatToString(2) == "2" && NatToString(3) == "3";
    assert NatToString(0) == "0";
    assert IdentStrings([Num(0)]) == ["0"];
  }

  /** `1.2.3-0` has the falsy prerelease type 0, so the label is `beta`: prerelease gives `1.2.3-beta.0`. */
  lemma ZeroPrereleaseExample()
    ensures Valid("1.2.3-0") && Increment("1.2.3-0", Prerelease) == "1.2.3-beta.0"
  {
    ParseZero();
    IncrementOfParsed("1.2.3-0", SemVer(1, 2, 3, [Num(0)], []), Prerelease);
    ZeroPrereleaseRecord();
  }

  lemma ZeroPrereleaseRecord()
    ensures Render(Bump(SemVer(1, 2, 3, [Num(0)], []), Prerelease)) == "1.2.3-beta.0"
  {
    PrereleaseOfZeroLabel(SemVer(1, 2, 3, [Num(0)], []));
    RenderBeta0(1, 2, 3);
    assert NatToString(1) == "1" && NatToString(2) == "2" && NatToString(3) == "3";
  }
}
