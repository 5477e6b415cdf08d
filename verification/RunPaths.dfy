/**
  The path-string logic of the action's `run()` entry point: choosing the
  target directory from the `filePath` input, normalising that directory for
  the glob engine, and building the pattern handed to the glob engine for
  that directory. Everything here is pure; the file system, the glob engine
  and the action's inputs and outputs are outside the model.
 */
module RunPaths {
  import opened JsStrings

  // ---------------------------------------------------------------------------
  // Target directory (src/main.ts line 18)
  // ---------------------------------------------------------------------------

  /** The target directory: the `filePath` input as it is, untrimmed, when
      it holds anything besides white space (the input must be non-empty and
      its trimmed form must have a positive length); otherwise the working
      directory ".". */
  function DefaultTargetDir(filePath: string): (targetDir: string)
    ensures !AllTrimmable(filePath) ==> targetDir == filePath
    ensures AllTrimmable(filePath) ==> targetDir == "."
    ensures targetDir != [] && !AllTrimmable(targetDir)
  {
    if |filePath| > 0 && |Trim(filePath)| > 0 then filePath
    else
      assert !IsTrimmable("."[0]);
      "."
  }

  // ---------------------------------------------------------------------------
  // Glob directory (src/main.ts lines 42-43)
  // ---------------------------------------------------------------------------

  /** The two characters the normalisation treats as directory separators. */
  predicate IsSeparator(c: char) {
    c == '/' || c == '\\'
  }

  /** Every character of `s` is a separator (true of the empty string). */
  predicate AllSeparators(s: string) {
    forall i :: 0 <= i < |s| ==> IsSeparator(s[i])
  }

  /** What the global backslash replacement makes of one character. */
  function ForwardSlashed(c: char): (d: char)
    ensures d != '\\'
    ensures d == '/' <==> IsSeparator(c)
  {
    if c == '\\' then '/' else c
  }

  /** The global replacement of backslashes by slashes: every backslash
      becomes a slash and every other character stays where it is. */
  function ReplaceBackslashes(s: string): (r: string)
    ensures |r| == |s|
    ensures forall i :: 0 <= i < |s| ==> r[i] == ForwardSlashed(s[i])
  {
    if s == [] then [] else [ForwardSlashed(s[0])] + ReplaceBackslashes(s[1..])
  }

  /** The replacement of "one or more slashes at the end" by nothing: the
      regular expression has no multi-line flag, so its end anchor matches
      only at the end of the string, and its leftmost match is the whole run
      of slashes that ends the string; the result is `s` without that run. */
  function StripTrailingSlashes(s: string): (r: string)
    ensures |r| <= |s| && r == s[..|r|]
    ensures forall i :: |r| <= i < |s| ==> s[i] == '/'
    ensures r == [] || r[|r| - 1] != '/'
  {
    if s != [] && s[|s| - 1] == '/' then StripTrailingSlashes(s[..|s| - 1]) else s
  }

  /** The glob directory: backslashes replaced, trailing slashes stripped,
      and "." when that leaves the empty string. The result is never empty,
      holds no backslash and does not end in a slash. The empty-string
      fallback is taken exactly when the directory is made only of separators
      (the directories ".", "./" and ".\\" also give "." without it);
      otherwise the result is a prefix of the directory with backslashes turned into
      slashes, and what was cut from the end was separators only. */
  function NormalizeGlobDir(targetDir: string): (n: string)
    ensures n != [] && n[|n| - 1] != '/'
    ensures '\\' !in n
    ensures AllSeparators(targetDir) ==> n == "."
    ensures !AllSeparators(targetDir) ==> NormalizedPrefix(targetDir, n)
  {
    var stripped := StripTrailingSlashes(ReplaceBackslashes(targetDir));
    if stripped == [] then "." else stripped
  }

  /** `n` is `d` with backslashes turned into slashes and a run of separators
      cut from its end. */
  predicate NormalizedPrefix(d: string, n: string) {
    && |n| <= |d|
    && (forall i :: 0 <= i < |n| ==> n[i] == ForwardSlashed(d[i]))
    && (forall i :: |n| <= i < |d| ==> IsSeparator(d[i]))
  }

  /** The declarative description of a normalised glob directory: the
      fallback "." for a directory of separators only, and otherwise the
      normalised prefix that does not end in a slash. */
  predicate IsNormalFormOf(d: string, n: string) {
    if AllSeparators(d) then n == "."
    else n != [] && n[|n| - 1] != '/' && NormalizedPrefix(d, n)
  }

  /** The description determines the result: `NormalizeGlobDir(d)` is the one
      and only string that is a normal form of `d`. */
  lemma NormalFormIsUnique(d: string, n: string)
    ensures IsNormalFormOf(d, NormalizeGlobDir(d))
    ensures IsNormalFormOf(d, n) ==> n == NormalizeGlobDir(d)
  {
  }

  /** Normalising a normalised directory changes nothing. */
  lemma NormalizeGlobDirIdempotent(d: string)
    ensures NormalizeGlobDir(NormalizeGlobDir(d)) == NormalizeGlobDir(d)
  {
  }

  /** The empty-string fallback is taken exactly when the target directory is
      made of separators only (the empty directory included). */
  lemma {:induction false} FallbackExactlyForSeparators(targetDir: string)
    ensures StripTrailingSlashes(ReplaceBackslashes(targetDir)) == [] <==> AllSeparators(targetDir)
  {
    var replaced := ReplaceBackslashes(targetDir);
    var stripped := StripTrailingSlashes(replaced);
    if stripped != [] {
      assert stripped[0] == ForwardSlashed(targetDir[0]);
      assert replaced[|stripped| - 1] != '/';
      assert !IsSeparator(targetDir[|stripped| - 1]);
    }
  }

  /** The examples of the fallback: the root written either way, and the
      empty string, all become "."; a trailing separator run is dropped. */
  lemma NormalizeGlobDirExamples()
    ensures NormalizeGlobDir("/") == "."
    ensures NormalizeGlobDir("\\") == "."
    ensures NormalizeGlobDir("") == "."
    ensures NormalizeGlobDir("a\\b\\/") == "a/b"
  {
    assert AllSeparators("/");
    assert AllSeparators("\\");
    assert ReplaceBackslashes("a\\b\\/") == "a/b//";
    assert StripTrailingSlashes("a/b//") == "a/b";
  }

  // ---------------------------------------------------------------------------
  // Glob pattern (src/main.ts line 44)
  // ---------------------------------------------------------------------------

  /** The glob pattern for a normalised directory: "*" for "." and otherwise
      the directory, a slash and "*", so that its last component is always
      the wildcard "*". */
  function GlobPatternFor(normalizedDir: string): (pattern: string)
    ensures pattern != [] && pattern[|pattern| - 1] == '*'
    ensures |pattern| == if normalizedDir == "." then 1 else |normalizedDir| + 2
  {
    if normalizedDir == "." then "*" else normalizedDir + "/*"
  }

  /** Lines 42-44 together: the pattern the action hands to the glob engine
      for its target directory. It holds no backslash, and the separator it
      adds before "*" is never doubled. */
  function GlobPattern(targetDir: string): (pattern: string)
    ensures '\\' !in pattern
    ensures pattern == "*" ||
      (|pattern| >= 3 && pattern[|pattern| - 2..] == "/*" && pattern[|pattern| - 3] != '/')
  {
    GlobPatternFor(NormalizeGlobDir(targetDir))
  }

  /** Index of the last slash of `s`, or -1 when it has none. */
  function LastSlash(s: string): (k: int)
    ensures -1 <= k < |s|
    ensures k >= 0 ==> s[k] == '/'
    ensures forall i :: k < i < |s| ==> s[i] != '/'
  {
    if s == [] then -1
    else if s[|s| - 1] == '/' then |s| - 1
    else LastSlash(s[..|s| - 1])
  }

  /** The directory part of a pattern: what precedes its last slash ("/" when
      that slash is the first character), or "." when it has no slash. */
  function PatternDir(pattern: string): string {
    var k := LastSlash(pattern);
    if k < 0 then "." else if k == 0 then "/" else pattern[..k]
  }

  /** The last component of a pattern: what follows its last slash. */
  function PatternLast(pattern: string): string {
    pattern[LastSlash(pattern) + 1..]
  }

  /** Splitting a pattern at its last slash gives back the directory it was
      built from and the single last component "*". */
  lemma {:induction false} GlobPatternForSplits(normalizedDir: string)
    requires normalizedDir != []
    ensures PatternDir(GlobPatternFor(normalizedDir)) == normalizedDir
    ensures PatternLast(GlobPatternFor(normalizedDir)) == "*"
  {
    var p := GlobPatternFor(normalizedDir);
    if normalizedDir != "." {
      var k := LastSlash(p);
      assert p[|normalizedDir|] == '/';
      assert k == |normalizedDir|;
      assert p[..k] == normalizedDir;
    }
  }

  /** Number of slashes in `s`. */
  function SlashCount(s: string): nat {
    if s == [] then 0 else (if s[0] == '/' then 1 else 0) + SlashCount(s[1..])
  }

  lemma {:induction false} SlashCountAppend(s: string, t: string)
    ensures SlashCount(s + t) == SlashCount(s) + SlashCount(t)
  {
    if s != [] {
      assert (s + t)[0] == s[0];
      assert (s + t)[1..] == s[1..] + t;
      SlashCountAppend(s[1..], t);
    } else {
      assert s + t == t;
    }
  }

  /** The pattern has exactly one more slash-separated component than the
      directory, unless the directory is ".", where the pattern is the single
      component "*". */
  lemma {:induction false} GlobPatternAddsOneComponent(normalizedDir: string)
    ensures normalizedDir != "." ==>
      SlashCount(GlobPatternFor(normalizedDir)) == SlashCount(normalizedDir) + 1
    ensures normalizedDir == "." ==> SlashCount(GlobPatternFor(normalizedDir)) == 0
  {
    if normalizedDir != "." {
      SlashCountAppend(normalizedDir, "/*");
      assert SlashCount("/*") == 1 by {
        assert "/*"[1..] == "*";
        assert "*"[1..] == [];
      }
    } else {
      assert "*"[1..] == [];
    }
  }

  /** Split at its last slash, the glob pattern gives the normalised
      directory and the last component "*". */
  lemma GlobPatternListsNormalizedDir(targetDir: string)
    ensures PatternDir(GlobPattern(targetDir)) == NormalizeGlobDir(targetDir)
    ensures PatternLast(GlobPattern(targetDir)) == "*"
  {
    GlobPatternForSplits(NormalizeGlobDir(targetDir));
  }

  /** A `filePath` input that is empty or blank makes the action glob "*" in
      the working directory. */
  lemma BlankInputGlobsWorkingDir(filePath: string)
    requires AllTrimmable(filePath)
    ensures GlobPattern(DefaultTargetDir(filePath)) == "*"
  {
  }

  // ---------------------------------------------------------------------------
  // The root directory (src/main.ts lines 42-44)
  // ---------------------------------------------------------------------------

  /** A path that begins at the file-system root: its first character is a
      separator. A leading backslash starts at the root on Windows only; on
      POSIX systems it is an ordinary character of a relative name. */
  predicate IsRooted(s: string) {
    s != [] && IsSeparator(s[0])
  }

  /** As written, the pattern's directory is rooted exactly when the target
      directory is rooted and is not made of separators only: a target
      directory such as "/" or "\\" is searched as the working directory. */
  lemma GlobPatternRootedness(targetDir: string)
    ensures IsRooted(PatternDir(GlobPattern(targetDir))) <==>
      IsRooted(targetDir) && !AllSeparators(targetDir)
  {
  }

  /** The root directory "/" is globbed as "*", the working directory. */
  lemma RootGlobsWorkingDir()
    ensures IsRooted("/") && GlobPattern("/") == "*"
    ensures !IsRooted(PatternDir(GlobPattern("/")))
  {
  }

  /** The normalisation with the root kept: a non-empty directory of
      separators only becomes "/" instead of ".". */
  function NormalizeGlobDirKeepingRoot(targetDir: string): (n: string)
    ensures AllSeparators(targetDir) ==> n == (if targetDir == [] then "." else "/")
    ensures n != [] && '\\' !in n
    ensures n == "/" || n[|n| - 1] != '/'
    ensures IsRooted(n) <==> IsRooted(targetDir)
    ensures !AllSeparators(targetDir) ==> n == NormalizeGlobDir(targetDir)
  {
    var stripped := StripTrailingSlashes(ReplaceBackslashes(targetDir));
    if stripped != [] then
      assert stripped[0] == ForwardSlashed(targetDir[0]);
      stripped
    else if targetDir != [] then
      assert IsSeparator(targetDir[0]) by {
        assert ReplaceBackslashes(targetDir)[0] == '/';
      }
      "/"
    else
      "."
  }

  /** The pattern with the root kept: a slash followed by "*" for the root,
      so that no doubled separator appears. */
  function GlobPatternForKeepingRoot(normalizedDir: string): (pattern: string)
    ensures pattern != [] && pattern[|pattern| - 1] == '*'
    ensures normalizedDir == "/" ==> pattern == "/*"
    ensures normalizedDir != "/" ==> pattern == GlobPatternFor(normalizedDir)
  {
    if normalizedDir == "/" then "/*" else GlobPatternFor(normalizedDir)
  }

  /** With the root kept, the pattern's directory is rooted exactly when the
      target directory is, the pattern still splits into that directory and
      "*", and a non-empty directory of separators only gets the pattern made of a
      slash and "*". */
  lemma {:induction false} KeepingRootPreservesRootedness(targetDir: string)
    ensures var p := GlobPatternForKeepingRoot(NormalizeGlobDirKeepingRoot(targetDir));
      && PatternDir(p) == NormalizeGlobDirKeepingRoot(targetDir)
      && PatternLast(p) == "*"
      && (IsRooted(PatternDir(p)) <==> IsRooted(targetDir))
      && (targetDir != [] && AllSeparators(targetDir) ==> p == "/*")
  {
    var n := NormalizeGlobDirKeepingRoot(targetDir);
    if n == "/" {
      var p := GlobPatternForKeepingRoot(n);
      assert p == "/*";
      assert LastSlash(p) == 0;
    } else {
      GlobPatternForSplits(n);
    }
  }
}
