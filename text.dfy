/** Strings as the backend (Python) and the web client (JavaScript) use them:
    substring tests (`w in s`, `s.includes(w)`), prefix and suffix tests,
    lower-casing and Python's `str.strip()`. Only the ASCII range is modelled. */
module Text {

  /** `s.startswith(p)` */
  predicate HasPrefix(s: string, p: string) {
    |p| <= |s| && s[..|p|] == p
  }

  /** `s.endswith(p)` */
  predicate HasSuffix(s: string, p: string) {
    |p| <= |s| && s[|s| - |p|..] == p
  }

  /** `s.endswith(tuple(ps))`: some suffix in the tuple matches */
  predicate HasAnySuffix(s: string, ps: seq<string>) {
    exists p | p in ps :: HasSuffix(s, p)
  }

  /** w occurs in s starting at index i */
  predicate OccursAt(s: string, w: string, i: int) {
    0 <= i && i + |w| <= |s| && s[i..i + |w|] == w
  }

  /** Python's `w in s`, JavaScript's `s.includes(w)` */
  predicate Contains(s: string, w: string) {
    exists i | 0 <= i <= |s| - |w| :: OccursAt(s, w, i)
  }

  /** A string contains every string that occurs in one of its substrings. */
  lemma ContainsTransitive(s: string, u: string, w: string)
    requires Contains(s, u) && Contains(u, w)
    ensures Contains(s, w)
  {
    var i :| 0 <= i <= |s| - |u| && OccursAt(s, u, i);
    var j :| 0 <= j <= |u| - |w| && OccursAt(u, w, j);
    forall k | 0 <= k < |w|
      ensures s[i + j + k] == w[k]
    {
      assert u[j..j + |w|][k] == w[k];
      assert s[i..i + |u|][j + k] == u[j + k];
    }
    assert s[i + j..i + j + |w|] == w;
    assert OccursAt(s, w, i + j);
  }

  /** A character of w missing from s rules out `w in s`. */
  lemma MissingCharRulesOut(s: string, w: string, c: char)
    requires c in w && c !in s
    ensures !Contains(s, w)
  {
    var k :| 0 <= k < |w| && w[k] == c;
    forall i | 0 <= i <= |s| - |w|
      ensures !OccursAt(s, w, i)
    {
      assert s[i..i + |w|][k] == s[i + k] != c;
    }
  }


  /** ASCII lower-casing of one character (`str.lower`, `toLowerCase` on ASCII) */
  function LowerChar(c: char): (d: char)
    ensures !('A' <= d <= 'Z')
    ensures 'a' <= d <= 'z' ==> ('a' <= c <= 'z' || 'A' <= c <= 'Z')
    ensures !('A' <= c <= 'Z') ==> d == c
    ensures 'A' <= c <= 'Z' ==> d as int == c as int + 32
  {
    if 'A' <= c <= 'Z' then (c as int + 32) as char else c
  }

  function Lower(s: string): (r: string)
    ensures |r| == |s|
    ensures forall i :: 0 <= i < |s| ==> r[i] == LowerChar(s[i])
  {
    seq(|s|, i requires 0 <= i < |s| => LowerChar(s[i]))
  }

  /** Lower-casing twice is lower-casing once. */
  lemma LowerIdempotent(s: string)
    ensures Lower(Lower(s)) == Lower(s)
  {
    assert forall i :: 0 <= i < |s| ==> LowerChar(LowerChar(s[i])) == LowerChar(s[i]);
  }

  /** Python's whitespace test `str.isspace` restricted to ASCII:
      space, \t \n \v \f \r and the separators \x1c to \x1f. */
  predicate IsSpace(c: char) {
    c == ' ' || 9 <= c as int <= 13 || 28 <= c as int <= 31
  }

  function TrimStart(s: string): (r: string)
    ensures |r| <= |s| && r == s[|s| - |r|..]
    ensures r != [] ==> !IsSpace(r[0])
    ensures forall k :: 0 <= k < |s| - |r| ==> IsSpace(s[k])
    decreases |s|
  {
    if |s| > 0 && IsSpace(s[0]) then TrimStart(s[1..]) else s
  }

  function TrimEnd(s: string): (r: string)
    ensures |r| <= |s| && r == s[..|r|]
    ensures r != [] ==> !IsSpace(r[|r| - 1])
    ensures forall k :: |r| <= k < |s| ==> IsSpace(s[k])
    decreases |s|
  {
    if |s| > 0 && IsSpace(s[|s| - 1]) then TrimEnd(s[..|s| - 1]) else s
  }

  /** Python's `str.strip()` */
  function Strip(s: string): (r: string)
    ensures |r| <= |s|
    ensures r != [] ==> !IsSpace(r[0]) && !IsSpace(r[|r| - 1])
    ensures s == [] || (!IsSpace(s[0]) && !IsSpace(s[|s| - 1])) ==> r == s
  {
    TrimEnd(TrimStart(s))
  }

  predicate NoSpace(w: string) {
    forall k :: 0 <= k < |w| ==> !IsSpace(w[k])
  }

  /** Removing leading whitespace cannot create or destroy an occurrence
      of a non-empty word without whitespace. */
  lemma {:induction false} TrimStartKeepsWord(s: string, w: string)
    requires |w| > 0 && NoSpace(w)
    ensures Contains(TrimStart(s), w) <==> Contains(s, w)
    decreases |s|
  {
    if |s| > 0 && IsSpace(s[0]) {
      TrimStartKeepsWord(s[1..], w);
      DropSpaceKeepsWord(s, w);
    }
  }

  lemma DropSpaceKeepsWord(s: string, w: string)
    requires |w| > 0 && NoSpace(w) && |s| > 0 && IsSpace(s[0])
    ensures Contains(s[1..], w) <==> Contains(s, w)
  {
    var t := s[1..];
    if Contains(t, w) {
      var i :| 0 <= i <= |t| - |w| && OccursAt(t, w, i);
      assert s[i + 1..i + 1 + |w|] == t[i..i + |w|];
      assert OccursAt(s, w, i + 1);
    }
    if Contains(s, w) {
      if |w| <= |s| {
        assert s[0..|w|][0] == s[0];
      }
      assert !OccursAt(s, w, 0);
      var i :| 0 <= i <= |s| - |w| && OccursAt(s, w, i);
      assert t[i - 1..i - 1 + |w|] == s[i..i + |w|];
      assert OccursAt(t, w, i - 1);
    }
  }

  lemma {:induction false} TrimEndKeepsWord(s: string, w: string)
    requires |w| > 0 && NoSpace(w)
    ensures Contains(TrimEnd(s), w) <==> Contains(s, w)
    decreases |s|
  {
    if |s| > 0 && IsSpace(s[|s| - 1]) {
      TrimEndKeepsWord(s[..|s| - 1], w);
      var t := s[..|s| - 1];
      if Contains(t, w) {
        var i :| 0 <= i <= |t| - |w| && OccursAt(t, w, i);
        OccursInPrefix(s, |s| - 1, w, i);
        assert OccursAt(s, w, i);
      }
      if Contains(s, w) {
        if |w| <= |s| {
          assert s[|s| - |w|..|s|][|w| - 1] == s[|s| - 1];
        }
        assert !OccursAt(s, w, |s| - |w|);
        var i :| 0 <= i <= |s| - |w| && OccursAt(s, w, i);
        OccursInPrefix(s, |s| - 1, w, i);
        assert OccursAt(t, w, i);
      }
    }
  }

  /** An occurrence that ends within the first `n` characters is one in the prefix too. */
  lemma OccursInPrefix(s: string, n: nat, w: string, i: nat)
    requires i + |w| <= n <= |s|
    ensures OccursAt(s[..n], w, i) <==> OccursAt(s, w, i)
  {
    assert s[..n][i..i + |w|] == s[i..i + |w|];
  }

  /** `w in s.strip()` agrees with `w in s` for a word without whitespace. */
  lemma StripKeepsWord(s: string, w: string)
    requires |w| > 0 && NoSpace(w)
    ensures Contains(Strip(s), w) <==> Contains(s, w)
  {
    TrimStartKeepsWord(s, w);
    TrimEndKeepsWord(TrimStart(s), w);
  }
}
