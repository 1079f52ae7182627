/**
 * The two JavaScript string builtins the admission rules rely on:
 * `String.prototype.toLowerCase` (ASCII letters only) and
 * `String.prototype.trim` (the full set of characters ECMAScript counts as
 * white space or line terminators).
 */
module JsString {

  predicate IsAsciiUpper(c: char)
  {
    'A' <= c <= 'Z'
  }

  function LowerChar(c: char): (r: char)
    ensures !IsAsciiUpper(r)
    ensures IsAsciiUpper(c) ==> r as int == c as int + 32
    ensures !IsAsciiUpper(c) ==> r == c
  {
    if IsAsciiUpper(c) then (c as int + 32) as char else c
  }

  /** `s.toLowerCase()`, restricted to the ASCII letters A-Z. */
  function ToLowerCase(s: string): (r: string)
    ensures |r| == |s|
    ensures forall i :: 0 <= i < |s| ==> r[i] == LowerChar(s[i])
  {
    if s == [] then [] else [LowerChar(s[0])] + ToLowerCase(s[1..])
  }

  /** Lowercasing leaves a string alone exactly when it has no upper-case ASCII letter. */
  lemma ToLowerCaseIdentity(s: string)
    ensures ToLowerCase(s) == s <==> forall i :: 0 <= i < |s| ==> !IsAsciiUpper(s[i])
  {
    if forall i :: 0 <= i < |s| ==> !IsAsciiUpper(s[i]) {
      assert forall i :: 0 <= i < |s| ==> ToLowerCase(s)[i] == s[i];
    } else {
      var i :| 0 <= i < |s| && IsAsciiUpper(s[i]);
      assert ToLowerCase(s)[i] != s[i];
    }
  }

  /** Lowercasing twice is lowercasing once. */
  lemma ToLowerCaseIdempotent(s: string)
    ensures ToLowerCase(ToLowerCase(s)) == ToLowerCase(s)
  {
    var once := ToLowerCase(s);
    assert forall i :: 0 <= i < |s| ==> ToLowerCase(once)[i] == once[i];
  }

  /** ECMAScript WhiteSpace and LineTerminator code points: what `trim` removes. */
  predicate IsWhiteSpace(c: char)
  {
    || c == '\t' || c == '\n' || c == '\U{000B}' || c == '\U{000C}' || c == '\r'
    || c == ' ' || c == '\U{00A0}' || c == '\U{1680}'
    || ('\U{2000}' <= c <= '\U{200A}')
    || c == '\U{2028}' || c == '\U{2029}' || c == '\U{202F}' || c == '\U{205F}'
    || c == '\U{3000}' || c == '\U{FEFF}'
  }

  /** Drops the white space at the front: what remains is a suffix of `s`. */
  function TrimStart(s: string): (r: string)
    ensures |r| <= |s| && r == s[|s| - |r|..]
    ensures r == [] || !IsWhiteSpace(r[0])
    ensures forall i :: 0 <= i < |s| - |r| ==> IsWhiteSpace(s[i])
  {
    if s != [] && IsWhiteSpace(s[0]) then
      var r := TrimStart(s[1..]);
      WhiteSpaceFront(s, |s| - 1 - |r|);
      r
    else
      s
  }

  /** A white space character followed by `n` more of them starts `s` with `n + 1`. */
  lemma WhiteSpaceFront(s: string, n: nat)
    requires n < |s| && IsWhiteSpace(s[0])
    requires forall i :: 0 <= i < n ==> IsWhiteSpace(s[1..][i])
    ensures forall i :: 0 <= i < n + 1 ==> IsWhiteSpace(s[i])
  {
    forall i | 0 < i < n + 1
      ensures IsWhiteSpace(s[i])
    {
      assert s[i] == s[1..][i - 1];
    }
  }

  /** Drops the white space at the back: what remains is a prefix of `s`. */
  function TrimEnd(s: string): (r: string)
    ensures |r| <= |s| && r == s[..|r|]
    ensures r == [] || !IsWhiteSpace(r[|r| - 1])
    ensures forall i :: |r| <= i < |s| ==> IsWhiteSpace(s[i])
  {
    if s != [] && IsWhiteSpace(s[|s| - 1]) then
      var r := TrimEnd(s[..|s| - 1]);
      WhiteSpaceBack(s, s[..|s| - 1], |r|);
      r
    else
      s
  }

  /** White space from index `m` of `front`, the string `s` without its last character, and a white space last character. */
  lemma WhiteSpaceBack(s: string, front: string, m: nat)
    requires m < |s| && front == s[..|s| - 1] && IsWhiteSpace(s[|s| - 1])
    requires forall i :: m <= i < |front| ==> IsWhiteSpace(front[i])
    ensures forall i :: m <= i < |s| ==> IsWhiteSpace(s[i])
  {
    forall i | m <= i < |s| - 1
      ensures IsWhiteSpace(s[i])
    {
      assert s[i] == front[i];
    }
  }

  /**
   * `s.trim()`: the piece of `s` left between its leading and its trailing
   * white space, which neither starts nor ends with white space itself.
   */
  function Trim(s: string): (r: string)
    ensures r == [] || (!IsWhiteSpace(r[0]) && !IsWhiteSpace(r[|r| - 1]))
    ensures |r| <= |s|
    ensures var k := |s| - |TrimStart(s)|; k + |r| <= |s| && r == s[k..k + |r|]
  {
    var t := TrimStart(s);
    var r := TrimEnd(t);
    TrimmedPiece(s, t, r);
    r
  }

  /** Everything `trim` drops, at the front and at the back of `s`, is white space. */
  lemma TrimDropsOnlyWhiteSpace(s: string)
    ensures var k := |s| - |TrimStart(s)|; var r := Trim(s);
      && (forall i :: 0 <= i < k ==> IsWhiteSpace(s[i]))
      && (forall i :: k + |r| <= i < |s| ==> IsWhiteSpace(s[i]))
  {
    TrimmedPiece(s, TrimStart(s), TrimEnd(TrimStart(s)));
  }

  /**
   * Cutting white space from the front of `s` (leaving `t`) and then from the
   * back of `t` (leaving `r`) leaves a slice of `s` with white space on both sides.
   */
  lemma TrimmedPiece(s: string, t: string, r: string)
    requires |t| <= |s| && t == s[|s| - |t|..]
    requires forall i :: 0 <= i < |s| - |t| ==> IsWhiteSpace(s[i])
    requires |r| <= |t| && r == t[..|r|]
    requires forall i :: |r| <= i < |t| ==> IsWhiteSpace(t[i])
    ensures var k := |s| - |t|;
      && k + |r| <= |s| && r == s[k..k + |r|]
      && (forall i :: 0 <= i < k ==> IsWhiteSpace(s[i]))
      && (forall i :: k + |r| <= i < |s| ==> IsWhiteSpace(s[i]))
  {
    var k := |s| - |t|;
    forall i | k + |r| <= i < |s|
      ensures IsWhiteSpace(s[i])
    {
      assert s[i] == t[i - k];
    }
  }

  /** `trim` is the identity exactly on strings that neither start nor end with white space. */
  lemma TrimIdentity(s: string)
    ensures Trim(s) == s <==> (s == [] || (!IsWhiteSpace(s[0]) && !IsWhiteSpace(s[|s| - 1])))
  {
    if s != [] && !IsWhiteSpace(s[0]) && !IsWhiteSpace(s[|s| - 1]) {
      assert TrimStart(s) == s;
      assert TrimEnd(s) == s;
    }
  }
}
