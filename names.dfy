/** The string operations the login handlers apply to a requested display name. */
module Names {

  import opened Wrappers

  /** The reserved name that makes a user an administrator. */
  const ADMIN_USERNAME := "admin"

  /** The ECMAScript WhiteSpace and LineTerminator code points: what `String.prototype.trim` strips. */
  predicate IsJsSpace(c: char) {
    || c == '\t' || c == '\n' || c == '\U{000B}' || c == '\U{000C}' || c == '\r' || c == ' '
    || c == '\U{00A0}' || c == '\U{1680}' || ('\U{2000}' <= c <= '\U{200A}')
    || c == '\U{2028}' || c == '\U{2029}' || c == '\U{202F}' || c == '\U{205F}'
    || c == '\U{3000}' || c == '\U{FEFF}'
  }

  /** True when every character of `s` is white space (vacuously for ""). */
  predicate AllSpace(s: string) {
    forall i | 0 <= i < |s| :: IsJsSpace(s[i])
  }

  function TrimStart(s: string): (r: string)
    ensures |r| <= |s| && r == s[|s| - |r|..]
    ensures AllSpace(s[..|s| - |r|])
    ensures r == [] || !IsJsSpace(r[0])
  {
    if |s| > 0 && IsJsSpace(s[0]) then
      var r := TrimStart(s[1..]);
      assert s[..|s| - |r|] == [s[0]] + s[1..][..|s| - 1 - |r|];
      r
    else s
  }

  function TrimEnd(s: string): (r: string)
    ensures |r| <= |s| && r == s[..|r|]
    ensures AllSpace(s[|r|..])
    ensures r == [] || !IsJsSpace(r[|r| - 1])
  {
    if |s| > 0 && IsJsSpace(s[|s| - 1]) then TrimEnd(s[..|s| - 1]) else s
  }

  /** `String.prototype.trim`: `s` without its leading and trailing white space. */
  function Trim(s: string): (r: string)
    ensures |r| <= |s|
    ensures r == [] <==> AllSpace(s)
    ensures r != [] ==> !IsJsSpace(r[0]) && !IsJsSpace(r[|r| - 1])
  {
    var t := TrimStart(s);
    var r := TrimEnd(t);
    TrimSplit(s, t, r);
    r
  }

  /** `s` is `t` behind white space and `t` is `r` before white space, so `s` is `r` padded by white space. */
  lemma TrimSplit(s: string, t: string, r: string)
    requires |t| <= |s| && t == s[|s| - |t|..] && AllSpace(s[..|s| - |t|])
    requires |r| <= |t| && r == t[..|r|] && AllSpace(t[|r|..])
    ensures r == s[|s| - |t|..|s| - |t| + |r|]
    ensures AllSpace(s[|s| - |t| + |r|..])
    ensures r == [] ==> AllSpace(s)
  {
    assert s[|s| - |t| + |r|..] == t[|r|..];
    if r == [] {
      forall j | 0 <= j < |s| ensures IsJsSpace(s[j]) {
        if j < |s| - |t| { assert s[j] == s[..|s| - |t|][j]; } else { assert s[j] == t[|r|..][j - (|s| - |t|)]; }
      }
    }
  }

  /** `Trim(s)` is `s` with a white-space prefix and a white-space suffix cut off. */
  lemma TrimStripsPadding(s: string)
    ensures var r := Trim(s);
      exists i | 0 <= i <= |s| - |r| :: r == s[i..i + |r|] && AllSpace(s[..i]) && AllSpace(s[i + |r|..])
  {
    var t := TrimStart(s);
    assert Trim(s) == TrimEnd(t);
    PaddingOf(s, t, Trim(s));
  }

  /** A suffix `t` of `s` behind white space, and a prefix `r` of `t` before white space, make `r`
      a piece of `s` with white space on both sides. */
  lemma PaddingOf(s: string, t: string, r: string)
    requires |t| <= |s| && t == s[|s| - |t|..] && AllSpace(s[..|s| - |t|])
    requires |r| <= |t| && r == t[..|r|] && AllSpace(t[|r|..])
    ensures exists i | 0 <= i <= |s| - |r| :: r == s[i..i + |r|] && AllSpace(s[..i]) && AllSpace(s[i + |r|..])
  {
    var i := |s| - |t|;
    assert s[i + |r|..] == t[|r|..];
    assert r == s[i..i + |r|];
  }

  /** The guard `!username || username.trim() === ''`: a missing, empty or all-blank name. */
  predicate IsBlank(username: Option<string>) {
    username.None? || Trim(username.value) == ""
  }

  function LowerChar(c: char): char {
    if 'A' <= c <= 'Z' then (c as int + 32) as char else c
  }

  /** `String.prototype.toLowerCase` on the ASCII letters; other characters are kept. */
  function ToLower(s: string): (r: string)
    ensures |r| == |s|
    ensures forall i | 0 <= i < |s| :: r[i] == LowerChar(s[i])
  {
    if s == [] then [] else [LowerChar(s[0])] + ToLower(s[1..])
  }

  /** The push-model admin test `name.toLowerCase() === ADMIN_USERNAME`. */
  predicate IsAdminIgnoringCase(name: string) {
    ToLower(name) == ADMIN_USERNAME
  }

  /** The case-insensitive admin test accepts exactly the 32 spellings of "admin" in mixed case. */
  lemma AdminIgnoringCase(name: string)
    ensures IsAdminIgnoringCase(name) <==>
      |name| == 5 && forall i | 0 <= i < 5 :: name[i] == "admin"[i] || name[i] == "ADMIN"[i]
  {
    if IsAdminIgnoringCase(name) {
      forall i | 0 <= i < 5 ensures name[i] == "admin"[i] || name[i] == "ADMIN"[i] {
        assert LowerChar(name[i]) == "admin"[i];
      }
    }
    if |name| == 5 && forall i | 0 <= i < 5 :: name[i] == "admin"[i] || name[i] == "ADMIN"[i] {
      var l := ToLower(name);
      assert forall i | 0 <= i < 5 :: l[i] == "admin"[i];
      assert l == ADMIN_USERNAME;
    }
  }
}
