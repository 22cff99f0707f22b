/** Whitespace stripping as performed by Python's `str.strip()` with no argument. */
module Text {

  /** The characters `str.isspace()` accepts, which `str.strip()` removes from both ends. */
  predicate IsSpace(c: char) {
    || ('\t' <= c <= '\r')
    || ('\U{1C}' <= c <= '\U{1F}')
    || c == ' '
    || c == '\U{85}'
    || c == '\U{A0}'
    || c == '\U{1680}'
    || ('\U{2000}' <= c <= '\U{200A}')
    || c == '\U{2028}'
    || c == '\U{2029}'
    || c == '\U{202F}'
    || c == '\U{205F}'
    || c == '\U{3000}'
  }

  predicate AllSpace(s: string) {
    forall i :: 0 <= i < |s| ==> IsSpace(s[i])
  }

  /** Neither end of `s` is whitespace. */
  predicate IsStripped(s: string) {
    |s| == 0 || (!IsSpace(s[0]) && !IsSpace(s[|s| - 1]))
  }

  /** Drops leading whitespace: the result is a suffix of `s` that does not
      start with whitespace; `TrimStartDropsSpace` says what was dropped. */
  function TrimStart(s: string): (r: string)
    ensures |r| <= |s| && r == s[|s| - |r|..]
    ensures |r| == 0 || !IsSpace(r[0])
  {
    if |s| > 0 && IsSpace(s[0]) then TrimStart(s[1..]) else s
  }

  /** Everything `TrimStart` drops is whitespace. */
  lemma {:induction false} TrimStartDropsSpace(s: string)
    ensures AllSpace(s[..|s| - |TrimStart(s)|])
    decreases |s|
  {
    if |s| > 0 && IsSpace(s[0]) {
      var rest := s[1..];
      var k := |rest| - |TrimStart(rest)|;
      TrimStartDropsSpace(rest);
      assert forall i :: 0 < i < k + 1 ==> s[i] == rest[..k][i - 1];
    }
  }

  /** Drops trailing whitespace: the result is a prefix of `s` that does not
      end with whitespace; `TrimEndDropsSpace` says what was dropped. */
  function TrimEnd(s: string): (r: string)
    ensures |r| <= |s| && r == s[..|r|]
    ensures |r| == 0 || !IsSpace(r[|r| - 1])
  {
    if |s| > 0 && IsSpace(s[|s| - 1]) then TrimEnd(s[..|s| - 1]) else s
  }

  /** Everything `TrimEnd` drops is whitespace. */
  lemma {:induction false} TrimEndDropsSpace(s: string)
    ensures AllSpace(s[|TrimEnd(s)|..])
    decreases |s|
  {
    if |s| > 0 && IsSpace(s[|s| - 1]) {
      var rest := s[..|s| - 1];
      var n := |TrimEnd(rest)|;
      TrimEndDropsSpace(rest);
      assert forall i :: n <= i < |s| - 1 ==> s[i] == rest[n..][i - n];
    }
  }

  /** `str.strip()`: whitespace removed from both ends. The result neither
      starts nor ends with whitespace; `StripFactor` says what was removed. */
  function Strip(s: string): (r: string)
    ensures IsStripped(r)
    ensures |r| <= |s|
  {
    var t := TrimEnd(s);
    var r := TrimStart(t);
    assert |r| > 0 ==> r[|r| - 1] == t[|t| - 1];
    r
  }

  /** The stripped login is the factor of the input left after removing
      whitespace, and only whitespace, from both ends. */
  lemma StripFactor(s: string)
    ensures var r := Strip(s);
            exists i :: 0 <= i <= |s| - |r| && r == s[i..i + |r|] && AllSpace(s[..i]) && AllSpace(s[i + |r|..])
  {
    var t := TrimEnd(s);
    var r := TrimStart(t);
    assert r == Strip(s);
    var i := |t| - |r|;
    TrimEndDropsSpace(s);
    assert AllSpace(s[|t|..]);
    TrimStartDropsSpace(t);
    assert AllSpace(t[..i]);
    assert t == s[..|t|];
    assert r == t[i..];
    assert r == s[i..i + |r|];
    assert s[..i] == t[..i];
    assert AllSpace(s[..i]);
    assert s[i + |r|..] == s[|t|..];
    assert AllSpace(s[i + |r|..]);
    assert 0 <= i <= |s| - |r| && r == s[i..i + |r|] && AllSpace(s[..i]) && AllSpace(s[i + |r|..]);
  }

  /** Stripping a string that has no surrounding whitespace changes nothing. */
  lemma StripStripped(s: string)
    requires IsStripped(s)
    ensures Strip(s) == s
  {
  }

  /** Stripping twice is stripping once. */
  lemma StripIdempotent(s: string)
    ensures Strip(Strip(s)) == Strip(s)
  {
  }
}
