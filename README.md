# bolt: version helpers and version-change locator, in Dafny

This project models two parts of bolt, a tool for JavaScript monorepos made of
workspaces.

- **The version helpers** of `src/utils/versions.js`:
  - `toVersion` checks that a string is a valid Semantic Versioning 2.0.0 version;
  - `getPrereleaseType` reads the first prerelease identifier;
  - `increment` computes the next version for one of seven increment kinds. It
    passes node-semver's `inc` the existing prerelease label, or `beta` when
    there is none or it is the number 0. `inc` takes that value as its
    prerelease identifier only when it is a string, so a numeric label passes
    no identifier.
- **The version-change locator** of `src/utils/changes.js`:
  - `getLastVersionCommitForWorkspace` walks the commits that touched a
    workspace's `package.json`, newest first, skips root commits, and returns the
    first commit whose manifest `version` differs from the one at its parent;
  - `getWorkspaceVersionCommits` does that for each workspace in order and
    collects the answers in a map.

The helpers are pure, so they are functions over a version record:

- `SemanticVersion` holds that record, its grammar, and the parser and printer.
  The two are proved inverse both ways (`ParseRender`, `RenderParse`).
- `Precedence` holds the precedence order of section 11 of Semantic Versioning
  2.0.0, proved to be a strict total order up to build metadata.
- `Versions` writes out the rules of node-semver 5.x's `inc`, which `increment`
  delegates to, with the identifier as an optional argument. It also proves what each kind does and when the result
  has higher precedence.

The locator is imperative, so its two operations are methods with loops.
`GetLastVersionCommitForWorkspace` is proved equal to a specification function
(`Changes.LastVersionCommit`, built on `Changes.Locate`), and lemmas then
characterise what that function finds. `GetWorkspaceVersionCommits` is proved to
bind each input workspace to that function's answer and to report the first
failing workspace. The git helpers and `JSON.parse` are functions of a `Host`
value that the methods receive. Each of them can fail, which stands for a
rejected promise. Reading `.version` off a parsed manifest is written out
(`Changes.VersionField`) and fails only on `null`. JavaScript's `!==` on the two
values is written out too (`Changes.StrictlyUnequal`) and cannot fail.

Files:

- `wrappers.dfy`: Option and Result.
- `text.dfy`: splitting, joining and decimal numerals.
- `semantic_version.dfy`, `precedence.dfy`, `versions.dfy`: the version helpers.
- `version_examples.dfy`: concrete cases.
- `changes.dfy`: the locator.

## Model

| member | source | states |
|---|---|---|
| Versions.ToVersion | src/utils/versions.js:15-23 | the result is Ok exactly when the input is the text of a well-formed SemVer 2.0.0 version; an Ok result is the input itself, unchanged; an Err carries the message "Invalid semver version: <input> (See https://github.com/npm/node-semver)" |
| Versions.ValidIsRendering | src/utils/versions.js:16 | a string is valid exactly when it is the printed form of some well-formed version record |
| SemanticVersion.ParseRender | src/utils/versions.js:16 | parsing the printed form of a well-formed version gives back that exact version |
| SemanticVersion.RenderParse | src/utils/versions.js:16 | a string that parses yields a well-formed version whose printed form is the same string, so validity is the grammar of sections 2, 9 and 10 of SemVer 2.0.0 |
| Versions.ToSemVer | src/utils/versions.js:16 | a valid string has a well-formed version record that prints back to the string |
| Versions.GetPrereleaseType | src/utils/versions.js:25-29 | the result is None exactly when the version has no prerelease; otherwise it is the first prerelease identifier, which is the text right after the first `-` following the three numbers |
| Versions.LabelRule | src/utils/versions.js:32-33 | the label is the first prerelease identifier when there is one and it is not the number 0 (JavaScript's or-operator treats 0 as false); otherwise it is `beta`; the label is always a well-formed identifier; `inc` receives no identifier exactly when the label is a nonzero number, and otherwise an alphanumeric identifier |
| Versions.Increment | src/utils/versions.js:31-34 | for a valid input, the result is a valid version, and its record is the input's record bumped by node-semver's rule for the kind, with the label as identifier when it is text and no identifier when it is a number |
| Versions.BumpWellFormed | src/utils/versions.js:33 | every kind of bump of a well-formed version is well-formed |
| Versions.ReleaseBumps | src/utils/versions.js:33 | on a release: `patch` gives (M, m, p+1), `minor` gives (M, m+1, 0), `major` gives (M+1, 0, 0), none of them with a prerelease |
| Versions.PrereleaseInputBumps | src/utils/versions.js:33 | on a version with a prerelease: `patch` drops the prerelease and keeps the numbers; `minor` keeps the minor when patch is 0; `major` keeps the major when minor and patch are 0; other numbers go up as on a release |
| Versions.PreBumps | src/utils/versions.js:32-33 | `prepatch`, `preminor` and `premajor` do the numeric bump; the prerelease becomes [label, 0] for a text label and [0] for a numeric one, as `1.2.3-5` prepatches to `1.2.4-0` |
| Versions.PrereleaseOfRelease | src/utils/versions.js:32-33 | `prerelease` on a release equals `prepatch`, with identifier `beta`: (M, m, p+1) with prerelease beta.0 |
| Versions.PrereleaseOfPrerelease | src/utils/versions.js:32-33 | `prerelease` on a prerelease that does not restart keeps the numbers and increments the last numeric identifier of the prerelease (appends 0 when there is none); it restarts only when there is an identifier and the result would not read `<identifier>.<number-like>` |
| Versions.PrereleaseOfNumericLabel | src/utils/versions.js:32-33 | `prerelease` on a prerelease whose first identifier is a nonzero number bumps in place, with no restart: `1.2.3-5.beta` gives `1.2.3-6.beta` |
| Versions.PrereleaseOfZeroLabel | src/utils/versions.js:32-33 | `prerelease` on a prerelease whose first identifier is the number 0 takes the label `beta` and restarts at `beta.0`, with the same numbers: `1.2.3-0.5` gives `1.2.3-beta.0` |
| Versions.PrereleaseOfLabelAndNumber | src/utils/versions.js:32-33 | `prerelease` on a `-<label>.<n>` version gives `-<label>.<n+1>` with the same numbers |
| Versions.BumpPrereleaseChangesLastNumber | src/utils/versions.js:33 | the prerelease step changes only the last numeric identifier, to its successor, or appends 0 when no identifier is numeric |
| Versions.BumpPrereleaseRaises | src/utils/versions.js:33 | the prerelease step yields a prerelease list of strictly higher precedence, whose identifiers are still well-formed |
| Versions.LastNumeric | src/utils/versions.js:33 | the position found holds a numeric identifier and every identifier after it is alphanumeric; no position means that no identifier is numeric |
| Versions.BumpKeepsFront | src/utils/versions.js:33 | on a prerelease of two or more identifiers, the step keeps an alphanumeric first identifier and an alphanumeric second one, and a numeric second identifier stays numeric |
| Versions.IncrementRaises | src/utils/versions.js:31-34 | every increment of a well-formed version has strictly higher precedence, except `prerelease` in the `PrereleaseLowers` case: first identifier alphanumeric, second alphanumeric and not number-like |
| Versions.PrereleaseLowersShape | src/utils/versions.js:32-33 | in that excepted case the prerelease step restarts, and `prerelease` gives the same numbers with prerelease [first identifier, 0] |
| Versions.PrereleaseLowersPrecedence | src/utils/versions.js:31-34 | in that excepted case the result has strictly LOWER precedence than the input, as `2.0.0-beta.fooblz` gives `2.0.0-beta.0` |
| Versions.PrereleaseLowersExactly | src/utils/versions.js:31-34 | for a well-formed version, `prerelease` gives a lower version exactly in the `PrereleaseLowers` case, and a higher one otherwise |
| Versions.PatchTwice | src/utils/versions.js:33 | two `patch` increments add 2 to the patch of a release, and 1 to the patch of a prerelease |
| Versions.IncrementOfParsed | src/utils/versions.js:25-34 | for a string that parses to a record, `increment` prints the bumped record and `getPrereleaseType` gives the record's first prerelease identifier |
| Precedence.PrecedesTransitive | src/utils/versions.js:33 | version precedence is transitive |
| Precedence.PrecedesAsymmetric | src/utils/versions.js:33 | no two versions each precede the other |
| Precedence.PrecedesTotal | src/utils/versions.js:33 | two versions that neither precede each other differ only in build metadata |
| Precedence.IdentLessIsStrictTotalOrder | src/utils/versions.js:33 | prerelease identifier order (numbers below alphanumerics, numbers by value, text by characters) is a strict total order |
| VersionExamples.PatchExample | src/utils/versions.js:31-34 | `1.2.3` with `patch` gives `1.2.4` |
| VersionExamples.MinorExample | src/utils/versions.js:31-34 | `1.2.3` with `minor` gives `1.3.0` |
| VersionExamples.MajorExample | src/utils/versions.js:31-34 | `1.2.3` with `major` gives `2.0.0` |
| VersionExamples.ReleasePrereleaseExample | src/utils/versions.js:31-34 | `1.2.3` with `prerelease` gives `1.2.4-beta.0` |
| VersionExamples.ReleaseHasNoPrereleaseType | src/utils/versions.js:25-29 | `1.2.3` has no prerelease type |
| VersionExamples.BetaPrereleaseType | src/utils/versions.js:25-29 | the prerelease type of `2.0.0-beta.1` is `beta` |
| VersionExamples.PrereleaseExample | src/utils/versions.js:31-34 | `2.0.0-beta.1` with `prerelease` gives `2.0.0-beta.2` |
| VersionExamples.PremajorExample | src/utils/versions.js:31-34 | `2.0.0-beta.1` with `premajor` gives `3.0.0-beta.0` |
| VersionExamples.PrereleaseLowersExample | src/utils/versions.js:31-34 | `2.0.0-beta.fooblz` with `prerelease` gives `2.0.0-beta.0`, which has lower precedence than the input |
| VersionExamples.NumericPrepatchExample | src/utils/versions.js:31-34 | `1.2.3-5` with `prepatch` gives `1.2.4-0`: the numeric label passes no identifier |
| VersionExamples.NumericPrereleaseExample | src/utils/versions.js:31-34 | `1.2.3-5` with `prerelease` gives `1.2.3-6` |
| VersionExamples.NumericFirstPrereleaseExample | src/utils/versions.js:31-34 | `1.2.3-5.beta` with `prerelease` gives `1.2.3-6.beta` |
| VersionExamples.ZeroPrereleaseExample | src/utils/versions.js:31-34 | `1.2.3-0` with `prerelease` gives `1.2.3-beta.0`: the prerelease type 0 is falsy, so the label is `beta` |
| Changes.Member | src/utils/changes.js:25 | the value read for a key is that of its last occurrence among the object's members, and there is none exactly when no member has the key |
| Changes.VersionField | src/utils/changes.js:25 | reading `version` is rejected exactly on `null`; only an object can have a `version` value |
| Changes.ExamineOutcome | src/utils/changes.js:16-28 | the loop body for one commit: a root commit is passed over; a commit is a match exactly when it has a parent, the manifest version is readable at both, and the two values are unequal under `!==`; it is passed over exactly when it is a root commit or the two values are not unequal; any other outcome is a rejection |
| Changes.ParseErrorFirst | src/utils/changes.js:22-25 | both manifests are parsed before either `version` is read: a commit whose text is not JSON is rejected with the parse error even when its parent's manifest is `null` |
| Changes.LocateFound | src/utils/changes.js:15-31 | a found commit is one of the listed commits, is a match, and every commit before it in list order is passed over |
| Changes.LocatedVersionChanged | src/utils/changes.js:16-27 | a found commit is listed, is not a root commit, and its manifest `version` is unequal under `!==` to the one at its parent |
| Changes.LocateFirstMatch | src/utils/changes.js:15-28 | conversely, the first match after commits that are all passed over is the commit found |
| Changes.LocateSkips | src/utils/changes.js:15-17 | passing over a prefix of the commit list leaves the answer for the rest of the list |
| Changes.LocateNone | src/utils/changes.js:13-31 | the result is null exactly when every commit is passed over, which includes an empty list |
| Changes.LocateFailed | src/utils/changes.js:16-25 | a rejected search stops at a commit whose own lookup, read, parse or `version` read was rejected, with that error, after passing over every commit before it |
| Changes.Parented | src/utils/changes.js:16-17 | the commits whose manifest gets read are listed commits with a parent |
| Changes.CompareVersions | src/utils/changes.js:19-25 | the comparison step for a commit with a parent gives the specification's answer: read the parent's text, then the commit's, parse both in that order, read the commit's `version` and then the parent's, and compare with `!==`; the first rejected step gives the result |
| Changes.GetLastVersionCommitForWorkspace | src/utils/changes.js:6-32 | the result is the located commit for the workspace's listed commits, or the first rejection; manifests are read only for the commits with a parent, in order, among those the loop reached; on a match the loop stops at the first match: every commit before it is passed over, and later commits are never examined; on a rejection the loop stops at the failing commit, after passing over every commit before it; with no match every listed commit is reached |
| Changes.GetWorkspaceVersionCommits | src/utils/changes.js:34-46 | the call succeeds exactly when every workspace's lookup succeeds; its keys are exactly the input workspaces, each bound to its lookup result, with null when there is no version change; on failure the error is that of the first failing workspace in input order, and every earlier lookup succeeded |

## Left out

- `src/utils/git.js` and the process helpers: spawning `git` is external I/O. The locator receives `getCommitsToFile`, `getCommitParent` and `showFileAtCommit` as functions of a `Host`. The helpers it calls are not defined in `src/utils/git.js`. Their exit-code policy is not part of this model. `getCommitParent` returns an `Option<Commit>`, and its `None` stands for every falsy value the helper can return, an empty hash included: the source's `!parentCommit` test skips all of them. A `Some` parent is always a real commit.
- `JSON.parse` is the function `jsonParse` of the `Host`; its grammar is not modelled. JSON numbers are exact reals, not doubles, so two numerals that round to the same double count as unequal here. A `__proto__` member is treated as an ordinary key.
- In JavaScript the workspace map is keyed by object identity. Here `Workspace` is a value identified by its manifest path, so two workspace objects with the same path share one key. The map's insertion order is not modelled either; the input order appears only in which failure is reported.
- `await` is an ordinary sequential call. Concurrency and scheduling are left out.
- Versions.ToVersion: validity is the grammar of SemVer 2.0.0 with unbounded numbers. node-semver's strict `valid` also accepts a leading `v`, so the model rejects `v1.2.3`, which `toVersion` accepts. Both reject a leading `=` and surrounding whitespace. The model also accepts strings longer than node-semver's 256-character limit and numbers above its limit of 2^53 - 1. Near that limit node-semver 5.x differs in two more ways. First, it keeps a numeric prerelease identifier at or above 2^53 - 1 as text. `getPrereleaseType` then returns a string and `increment` takes the text-label path: `1.2.3-9007199254740993` with `prerelease` gives `1.2.3-9007199254740993.0` there, but `1.2.3-9007199254740994` here. Second, a bump past 2^53 - 1 (for example `patch` on a patch of 2^53 - 1) gives a version node-semver would then reject, while `Versions.BumpWellFormed` calls every bump well-formed over unbounded numbers.
- Versions.Increment: a numeric label makes `inc` parse the version in loose mode. For a version that is valid in strict mode, loose parsing gives the same record, so the model parses strictly.
- Versions.IncrementRaises: the precondition excludes `prerelease` on a version whose first identifier is alphanumeric and whose second is alphanumeric and not number-like, for example `2.0.0-beta.fooblz`. node-semver's `inc` lowers precedence there, as `Versions.PrereleaseLowersPrecedence` proves, so the increment does not always raise precedence.
- Versions.GetPrereleaseType: returns the identifier as a value. The source returns a number for a numeric identifier and a string otherwise; `Ident` keeps that distinction.
- Versions.IsJsNumber: approximates JavaScript's `isNaN` on an identifier string. It accepts decimal and exponent forms with an optional sign, `Infinity`, and 0x/0o/0b integers. Leading and trailing whitespace cannot occur in an identifier.
- The commands (`src/commands/changed.js`, `src/commands/version.js`) and the prompts (`src/utils/prompt.js`) are I/O and user interaction. They are not part of this model.
