# glob-test action: target directory and glob pattern

The action's `run()` entry point writes a placeholder file into a target
directory and then lists that directory twice: once with a plain directory
read and once through a glob engine. Before it can glob, it turns its
`filePath` input into a target directory and that directory into a glob
pattern. This project models that path-string logic and proves what it
guarantees:

- **Target directory** (`src/main.ts` line 18): the `filePath` input is used
  untouched when it holds any character other than white space; otherwise
  the working directory `"."` is used. White space is what JavaScript's
  `String.prototype.trim` removes; module `JsStrings` models that built-in.
- **Glob directory** (lines 42-43): every backslash becomes a slash, the run
  of slashes at the end is dropped, and an empty result becomes `"."`.
- **Glob pattern** (line 44): `"*"` for the directory `"."`, otherwise the
  directory followed by `"/*"`.

Module `RunPaths` holds these three steps, their composition `GlobPattern`,
and the lemmas about them: the glob directory is never empty, holds no
backslash and never ends in a slash; the empty-string fallback to `"."` is
taken exactly when the target directory is made of separators only (the
directories `"."`, `"./"` and `".\\"` also end up as `"."`, without it);
otherwise it is the target directory's prefix with backslashes turned into
slashes, and only separators were cut from the end. This description determines the result uniquely. The
normalisation is idempotent. The pattern splits at its last slash back into
the directory and the single wildcard component `"*"`.

## Model

| member | source | states |
|---|---|---|
| JsStrings.AllTrimmableAt | src/main.ts:18 | a string is all white space exactly when each of its characters is one `trim` removes |
| JsStrings.LeadingBlanks | src/main.ts:18 | how much `trim` cuts at the start: that many leading characters are white space, and the next character, if any, is kept |
| JsStrings.TrailingBlanks | src/main.ts:18 | how much `trim` cuts at the end: that many trailing characters are white space, and the character before them, if any, is kept |
| JsStrings.Trim | src/main.ts:18 | the trimmed input is the infix of the input that starts after its leading white space and is followed by white space only; it has length zero exactly when every character of the input is white space, and otherwise starts and ends with a kept character |
| JsStrings.TrimIsEmptyExactlyWhenBlank | src/main.ts:18 | once the leading and the trailing white space are cut, nothing is left exactly when the whole input is white space |
| JsStrings.TrimIdempotent | src/main.ts:18 | trimming twice gives what trimming once gives |
| RunPaths.DefaultTargetDir | src/main.ts:18 | the target directory is the input itself when the input has a non-white-space character and `"."` otherwise, so it is never empty or blank |
| RunPaths.ReplaceBackslashes | src/main.ts:43 | same length as the input; each backslash becomes a slash and every other character is kept in place |
| RunPaths.StripTrailingSlashes | src/main.ts:43 | the result is a prefix of the input, everything cut is a slash, and it does not end in a slash |
| RunPaths.NormalizeGlobDir | src/main.ts:42-43 | never empty, no backslash, no trailing slash; `"."` when the directory is separators only (including empty); otherwise a prefix of the directory with backslashes turned into slashes, with only separators cut from the end |
| RunPaths.FallbackExactlyForSeparators | src/main.ts:43 | the fallback to `"."` is taken (the string left after stripping is empty) exactly when the target directory is made of separators only |
| RunPaths.NormalFormIsUnique | src/main.ts:42-43 | that description has exactly one solution, the normalised directory |
| RunPaths.NormalizeGlobDirIdempotent | src/main.ts:42-43 | normalising a normalised directory changes nothing |
| RunPaths.NormalizeGlobDirExamples | src/main.ts:42-43 | `"/"`, `"\\"` and `""` normalise to `"."`; `"a\\b\\/"` normalises to `"a/b"` |
| RunPaths.GlobPatternFor | src/main.ts:44 | the pattern ends in `*`; it is one character for `"."` and two characters longer than the directory otherwise |
| RunPaths.GlobPatternForSplits | src/main.ts:44 | splitting the pattern at its last slash gives back the (non-empty) directory and the last component `"*"`; no slash means the directory `"."` |
| RunPaths.GlobPatternAddsOneComponent | src/main.ts:44 | the pattern has one more slash than the directory, except for `"."`, whose pattern `"*"` has none |
| RunPaths.GlobPattern | src/main.ts:42-44 | the pattern built from a target directory has no backslash and is `"*"` or ends in `"/*"` with no slash doubled before it |
| RunPaths.GlobPatternListsNormalizedDir | src/main.ts:42-44 | the pattern's directory part is the normalised glob directory and its last component is `"*"` |
| RunPaths.BlankInputGlobsWorkingDir | src/main.ts:18-44 | an empty or blank `filePath` input leads to the pattern `"*"` |
| RunPaths.GlobPatternRootedness | src/main.ts:42-44 | as written, the pattern's directory starts at the root exactly when the target directory does and is not made of separators only |
| RunPaths.RootGlobsWorkingDir | src/main.ts:42-44 | as written, the target directory `"/"` gives the pattern `"*"`, whose directory is not the root |
| RunPaths.NormalizeGlobDirKeepingRoot | src/main.ts:42-43 | corrected normalisation: a non-empty directory of separators only becomes `"/"` and the empty one `"."`; every other directory is normalised as in the original; the result starts at the root exactly when the target directory does |
| RunPaths.GlobPatternForKeepingRoot | src/main.ts:44 | corrected pattern: `"/*"` for `"/"` and the original pattern otherwise; always ends in `*` |
| RunPaths.KeepingRootPreservesRootedness | src/main.ts:42-44 | with the correction, the pattern's directory is the corrected glob directory, its last component is `"*"`, it starts at the root exactly when the target directory does, and a non-empty directory of separators only gets the pattern `"/*"` |

## Findings

| source | as written | input that shows it | evidently intended | confidence | as-written member | corrected member |
|---|---|---|---|---|---|---|
| src/main.ts:42-44 | stripping trailing slashes from the root leaves the empty string, which falls back to `"."`, so the pattern is `"*"` | `filePath` = `"/"` (also `"//"`, and `"\\"` on Windows, where a backslash names the root), for a process allowed to write into the root so that line 28 does not throw: the glob lists the working directory, while the directory read on line 38 lists the root | the pattern should list the target directory, `"/*"` for the root | medium; not executed | RunPaths.GlobPatternRootedness, RunPaths.RootGlobsWorkingDir | RunPaths.NormalizeGlobDirKeepingRoot, RunPaths.GlobPatternForKeepingRoot, RunPaths.KeepingRootPreservesRootedness |

The functions that model the source as written (`NormalizeGlobDir`,
`GlobPatternFor`, `GlobPattern`) stay the model of the action; the corrected
pair agrees with them on every target directory that is not made of
separators only (stated in their contracts).

## Left out

- Reading the `fileName` and `filePath` inputs, logging, warnings, setting
  outputs and reporting failure: calls into the CI platform's toolkit, whose
  code is not part of this model. `DefaultTargetDir` takes the input string
  as a parameter.
- Creating the directory, writing the placeholder file, checking it exists
  and reading the directory: file-system I/O, asynchronous.
- Joining the target directory and file name with Node's `path.join`: a
  platform library call whose source is not part of this model.
- The glob engine (`glob.create`, its search paths and `glob()`): its source,
  `src/glob/glob.js`, is not part of this model; the model stops at the
  pattern handed to it.
- The try/catch around `run()`: control flow around the I/O above.
- JavaScript strings are sequences of UTF-16 code units; the model uses
  Unicode scalar values. Every character `trim` removes lies in the Basic
  Multilingual Plane, so the trimming model agrees with JavaScript on every
  string without lone surrogates; lone surrogates are not representable.
- The glob directory is put into the pattern as it is: glob metacharacters
  in it (`*`, `?`, `[`, `]`, a leading `!`) are not escaped, so a directory
  such as `out[1]` becomes pattern syntax to the glob engine. The lemmas about
  `PatternDir` and `PatternLast` state only how the pattern string splits at
  its last slash, not which entries the glob engine returns for it.
- The two regular-expression replacements are modelled by their effect (all
  backslashes replaced, the trailing run of slashes removed), not by a
  regular-expression engine.
