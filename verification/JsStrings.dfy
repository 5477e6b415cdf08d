/**
  The JavaScript string built-in the action relies on when it defaults its
  target directory: `String.prototype.trim`, which removes white space and
  line terminators from both ends of a string, as the ECMAScript language
  specification defines it through its WhiteSpace and LineTerminator
  productions.
 */
module JsStrings {

  /** The characters `trim` removes: the ECMAScript WhiteSpace code points
      (tab, vertical tab, form feed, space, no-break space, byte order mark
      and the other Unicode "Zs" separators) and the LineTerminator code
      points (line feed, carriage return, line and paragraph separators). */
  predicate IsTrimmable(c: char) {
    c in TrimmableChars
  }

  /** The code points of `IsTrimmable`, the range U+2000 to U+200A written out. */
  const TrimmableChars: set<char> := {
    '\t', '\n', '\U{B}', '\U{C}', '\r', ' ', '\U{A0}', '\U{1680}',
    '\U{2000}', '\U{2001}', '\U{2002}', '\U{2003}', '\U{2004}', '\U{2005}',
    '\U{2006}', '\U{2007}', '\U{2008}', '\U{2009}', '\U{200A}',
    '\U{2028}', '\U{2029}', '\U{202F}', '\U{205F}', '\U{3000}', '\U{FEFF}'
  }

  /** Every character of `s` is one that `trim` removes (true of the empty
      string); `AllTrimmableAt` gives the same by index. */
  predicate AllTrimmable(s: string) {
    s == [] || (IsTrimmable(s[0]) && AllTrimmable(s[1..]))
  }

  /** `AllTrimmable` read character by character. */
  lemma {:induction false} AllTrimmableAt(s: string)
    ensures AllTrimmable(s) <==> forall i :: 0 <= i < |s| ==> IsTrimmable(s[i])
  {
    if s != [] {
      AllTrimmableAt(s[1..]);
      assert forall i :: 1 <= i < |s| ==> s[1..][i - 1] == s[i];
    }
  }

  /** A concatenation is all trimmable exactly when both parts are. */
  lemma {:induction false} AllTrimmableConcat(a: string, b: string)
    ensures AllTrimmable(a + b) <==> AllTrimmable(a) && AllTrimmable(b)
  {
    if a == [] {
      assert a + b == b;
    } else {
      assert (a + b)[0] == a[0];
      assert (a + b)[1..] == a[1..] + b;
      AllTrimmableConcat(a[1..], b);
    }
  }

  /** How many characters the leading half of `trim` cuts: the length of the
      run of trimmable characters at the start of `s`. */
  function LeadingBlanks(s: string): (n: nat)
    ensures n <= |s| && AllTrimmable(s[..n])
    ensures n == |s| || !IsTrimmable(s[n])
  {
    if s != [] && IsTrimmable(s[0]) then
      var n := 1 + LeadingBlanks(s[1..]);
      assert s[..n] == [s[0]] + s[1..][..n - 1];
      AllTrimmableConcat([s[0]], s[1..][..n - 1]);
      n
    else
      0
  }

  /** How many characters the trailing half of `trim` cuts: the length of the
      run of trimmable characters at the end of `s`. */
  function TrailingBlanks(s: string): (n: nat)
    ensures n <= |s| && AllTrimmable(s[|s| - n..])
    ensures n == |s| || !IsTrimmable(s[|s| - n - 1])
  {
    if s != [] && IsTrimmable(s[|s| - 1]) then
      var n := 1 + TrailingBlanks(s[..|s| - 1]);
      assert s[|s| - n..] == s[..|s| - 1][|s| - n..] + [s[|s| - 1]];
      AllTrimmableConcat(s[..|s| - 1][|s| - n..], [s[|s| - 1]]);
      n
    else
      0
  }

  /** `s.trim()`: the infix of `s` left once the leading and the trailing
      trimmable characters are cut; empty exactly when `s` holds nothing but
      trimmable characters, and otherwise starting and ending with a character
      `trim` keeps. */
  function Trim(s: string): (r: string)
    ensures var i := LeadingBlanks(s);
      && i + |r| <= |s| && r == s[i..i + |r|]
      && AllTrimmable(s[..i]) && AllTrimmable(s[i + |r|..])
    ensures r == [] <==> AllTrimmable(s)
    ensures r != [] ==> !IsTrimmable(r[0]) && !IsTrimmable(r[|r| - 1])
  {
    var i := LeadingBlanks(s);
    var j := TrailingBlanks(s[i..]);
    assert s[i..][|s| - i - j..] == s[|s| - j..];
    TrimIsEmptyExactlyWhenBlank(s, i, j);
    s[i..|s| - j]
  }

  /** The emptiness half of `Trim`'s contract, from what the two counts promise
      about `s`: its first `i` characters are trimmable and the next one is not,
      and the last `j` characters of `s[i..]` are trimmable and the one before
      them is not. */
  lemma TrimIsEmptyExactlyWhenBlank(s: string, i: nat, j: nat)
    requires i + j <= |s| && AllTrimmable(s[..i]) && AllTrimmable(s[|s| - j..])
    requires i == |s| || !IsTrimmable(s[i])
    requires i + j == |s| || !IsTrimmable(s[|s| - j - 1])
    ensures i + j == |s| <==> AllTrimmable(s)
  {
    assert s == s[..i] + s[i..];
    AllTrimmableConcat(s[..i], s[i..]);
    if i + j == |s| {
      assert s[i..] == s[|s| - j..];
    } else {
      assert s[i..][0] == s[i];
    }
  }

  /** Trimming an already trimmed string changes nothing. */
  lemma TrimIdempotent(s: string)
    ensures Trim(Trim(s)) == Trim(s)
  {
  }
}
