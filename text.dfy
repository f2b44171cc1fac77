/** String helpers the todo component relies on: `String.prototype.trim`
    and the `toLowerCase` comparison used for duplicate detection. */
module Text {

  /** The code points `trim` strips: the ECMAScript WhiteSpace and
      LineTerminator productions (TAB, LF, VT, FF, CR, the Zs space
      separators, NBSP, ZWNBSP, LS and PS). */
  predicate IsWhitespace(c: char) {
    var n := c as int;
    n == 0x09 || n == 0x0A || n == 0x0B || n == 0x0C || n == 0x0D ||
    n == 0x20 || n == 0xA0 || n == 0x1680 || (0x2000 <= n <= 0x200A) ||
    n == 0x2028 || n == 0x2029 || n == 0x202F || n == 0x205F ||
    n == 0x3000 || n == 0xFEFF
  }

  predicate AllWhitespace(s: string) {
    forall i :: 0 <= i < |s| ==> IsWhitespace(s[i])
  }

  /** A string with no whitespace at either end. */
  predicate IsTrimmed(s: string) {
    s == [] || (!IsWhitespace(s[0]) && !IsWhitespace(s[|s| - 1]))
  }

  /** `r` sits at offset `k` of `s`, and everything of `s` around it is whitespace. */
  predicate IsCoreAt(s: string, r: string, k: int) {
    0 <= k && k + |r| <= |s| && r == s[k..k + |r|] &&
    AllWhitespace(s[..k]) && AllWhitespace(s[k + |r|..])
  }

  /** Drops leading whitespace. */
  function TrimStart(s: string): (r: string)
    ensures |r| <= |s|
  {
    if s == [] || !IsWhitespace(s[0]) then s else TrimStart(s[1..])
  }

  /** Drops trailing whitespace. */
  function TrimEnd(s: string): (r: string)
    ensures |r| <= |s|
  {
    if s == [] || !IsWhitespace(s[|s| - 1]) then s else TrimEnd(s[..|s| - 1])
  }

  /** `TrimStart` keeps a suffix that starts with a non-whitespace
      character, and everything it drops is whitespace. */
  lemma {:induction false} TrimStartSpec(s: string)
    ensures var r := TrimStart(s);
      r == s[|s| - |r|..] && (r == [] || !IsWhitespace(r[0])) && AllWhitespace(s[..|s| - |r|])
  {
    if s != [] && IsWhitespace(s[0]) {
      TrimStartSpec(s[1..]);
      var r := TrimStart(s);
      assert s[..|s| - |r|] == [s[0]] + s[1..][..|s| - 1 - |r|];
    }
  }

  /** `TrimEnd` keeps a prefix that ends with a non-whitespace character,
      and everything it drops is whitespace. */
  lemma {:induction false} TrimEndSpec(s: string)
    ensures var r := TrimEnd(s);
      r == s[..|r|] && (r == [] || !IsWhitespace(r[|r| - 1])) && AllWhitespace(s[|r|..])
  {
    if s != [] && IsWhitespace(s[|s| - 1]) {
      TrimEndSpec(s[..|s| - 1]);
      var r := TrimEnd(s);
      assert s[|r|..] == s[..|s| - 1][|r|..] + [s[|s| - 1]];
    }
  }

  /** `String.prototype.trim`: the part of `s` between its leading and
      trailing whitespace. */
  function Trim(s: string): (r: string)
    ensures |r| <= |s|
  {
    TrimEnd(TrimStart(s))
  }

  /** What `Trim` keeps has no whitespace at its ends and is one contiguous
      piece of the input; what it removes is whitespace. */
  lemma TrimCore(s: string)
    ensures IsTrimmed(Trim(s))
    ensures IsCoreAt(s, Trim(s), |s| - |TrimStart(s)|)
  {
    var t := TrimStart(s);
    var r := TrimEnd(t);
    var k := |s| - |t|;
    TrimStartSpec(s);
    TrimEndSpec(t);
    TrimmedEnds(t, r);
    assert s[k + |r|..] == t[|r|..];
    assert r == s[k..k + |r|];
  }

  /** A prefix of a string that starts with a non-whitespace character, when
      it ends with one too, has no whitespace at its ends. */
  lemma TrimmedEnds(t: string, r: string)
    requires |r| <= |t| && r == t[..|r|] && (t == [] || !IsWhitespace(t[0])) && (r == [] || !IsWhitespace(r[|r| - 1]))
    ensures IsTrimmed(r)
  {
    if r != [] {
      assert r[0] == t[0];
    }
  }

  /** A string with no whitespace at its ends is its own trim. */
  lemma TrimTrimmed(s: string)
    requires IsTrimmed(s)
    ensures Trim(s) == s
  {
    assert IsCoreAt(s, s, 0) by {
      assert s[..0] == [] && s[|s|..] == [] && s[0..|s|] == s;
    }
    TrimUnique(s, s, 0);
  }

  /** The trimmed text is empty exactly when the input is whitespace only. */
  lemma TrimEmptyIff(s: string)
    ensures Trim(s) == [] <==> AllWhitespace(s)
  {
    var k := |s| - |TrimStart(s)|;
    TrimCore(s);
    if Trim(s) == [] {
      CoreBounds(s, [], k);
    } else {
      assert s[k] == Trim(s)[0];
    }
  }

  /** Whatever lies outside a core is whitespace, position by position. */
  lemma CoreBounds(s: string, r: string, k: int)
    requires IsCoreAt(s, r, k)
    ensures forall i :: 0 <= i < |s| && !(k <= i < k + |r|) ==> IsWhitespace(s[i])
  {
    forall i | 0 <= i < |s| && !(k <= i < k + |r|) ensures IsWhitespace(s[i]) {
      if i < k { assert s[i] == s[..k][i]; } else { assert s[i] == s[k + |r|..][i - k - |r|]; }
    }
  }

  /** Trimming is characterised by its two ensures: any piece of `s` with no
      whitespace at its ends and only whitespace around it is `Trim(s)`. */
  lemma TrimUnique(s: string, r: string, k: int)
    requires IsTrimmed(r) && IsCoreAt(s, r, k)
    ensures r == Trim(s)
  {
    var t := Trim(s);
    var j := |s| - |TrimStart(s)|;
    TrimCore(s);
    CoreBounds(s, r, k);
    TrimEmptyIff(s);
    if r != [] {
      assert !IsWhitespace(s[k]) && !IsWhitespace(s[k + |r| - 1]);
      assert t != [];
      CoreBounds(s, t, j);
      assert !IsWhitespace(s[j]) && !IsWhitespace(s[j + |t| - 1]);
      assert k == j && |r| == |t|;
    }
  }

  /** Trimming twice is trimming once. */
  lemma TrimIdempotent(s: string)
    ensures Trim(Trim(s)) == Trim(s)
  {
    TrimCore(s);
    TrimTrimmed(Trim(s));
  }

  /** An upper- or lower-case letter of the ASCII range. */
  predicate IsAsciiLetter(c: char) {
    'A' <= c <= 'Z' || 'a' <= c <= 'z'
  }

  /** Two characters that are the same, or the upper- and lower-case forms
      of one ASCII letter. */
  predicate SameIgnoringCase(c: char, e: char) {
    c == e ||
    (IsAsciiLetter(c) && IsAsciiLetter(e) && (c as int - e as int == 32 || e as int - c as int == 32))
  }

  /** ASCII lower-casing of one character: an upper-case ASCII letter goes
      to its lower-case form and every other character is kept. */
  function LowerChar(c: char): (d: char)
    ensures 'A' <= c <= 'Z' ==> 'a' <= d <= 'z' && d as int - c as int == 32
    ensures !('A' <= c <= 'Z') ==> d == c
  {
    if 'A' <= c <= 'Z' then (c as int + 32) as char else c
  }

  /** Two characters lower-case alike exactly when they are equal ignoring
      case. */
  lemma LowerCharSame(c: char, e: char)
    ensures LowerChar(c) == LowerChar(e) <==> SameIgnoringCase(c, e)
  {
  }

  /** `String.prototype.toLowerCase`, restricted to ASCII letters. */
  function ToLower(s: string): (r: string)
    ensures |r| == |s|
    ensures forall i :: 0 <= i < |r| ==> !('A' <= r[i] <= 'Z')
  {
    seq(|s|, i requires 0 <= i < |s| => LowerChar(s[i]))
  }

  /** Each character of the lower-cased text is the input's character at
      the same position, or its other case. */
  lemma ToLowerChars(s: string)
    ensures forall i :: 0 <= i < |s| ==> SameIgnoringCase(ToLower(s)[i], s[i])
  {
  }

  /** Lower-casing twice is lower-casing once. */
  lemma ToLowerIdempotent(s: string)
    ensures ToLower(ToLower(s)) == ToLower(s)
  {
    assert forall i :: 0 <= i < |s| ==> LowerChar(LowerChar(s[i])) == LowerChar(s[i]);
  }

  /** Two texts lower-case alike exactly when they have the same length and
      agree character by character ignoring the case of ASCII letters. */
  lemma ToLowerEqualIff(a: string, b: string)
    ensures ToLower(a) == ToLower(b) <==>
      |a| == |b| && forall i :: 0 <= i < |a| ==> SameIgnoringCase(a[i], b[i])
  {
    forall i | 0 <= i < |a| && i < |b| {
      LowerCharSame(a[i], b[i]);
    }
    if ToLower(a) == ToLower(b) {
      forall i | 0 <= i < |a| ensures SameIgnoringCase(a[i], b[i]) {
        assert ToLower(a)[i] == ToLower(b)[i];
      }
    }
  }

  /** `a.toLowerCase() === b.toLowerCase()`: the texts have the same length
      and differ at most in the case of ASCII letters. */
  predicate EqualsIgnoreCase(a: string, b: string): (r: bool)
    ensures r <==>
      |a| == |b| && forall i :: 0 <= i < |a| ==> SameIgnoringCase(a[i], b[i])
  {
    ToLowerEqualIff(a, b);
    ToLower(a) == ToLower(b)
  }

  /** Equal strings are equal ignoring case; the converse fails ("Buy milk"
      and "buy milk"). */
  lemma EqualsIgnoreCaseStrict()
    ensures EqualsIgnoreCase("Buy milk", "buy milk") && "Buy milk" != "buy milk"
  {
    assert ToLower("Buy milk") == "buy milk";
    assert ToLower("buy milk") == "buy milk";
  }
}
