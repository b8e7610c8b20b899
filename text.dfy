/** The string primitives the loader and the aggregators apply to cell text:
    whitespace stripping, and the ASCII case mappings used to compare a cell
    with "NA", "male" or "female". */
module Text {

  /** The characters Python's str.isspace accepts, which are the ones str.strip removes. */
  predicate IsSpace(c: char) {
    || c == ' ' || c == '\t' || c == '\n' || c == '\r' || c == '\U{0B}' || c == '\U{0C}'
    || c == '\U{1C}' || c == '\U{1D}' || c == '\U{1E}' || c == '\U{1F}'
    || c == '\U{85}' || c == '\U{A0}' || c == '\U{1680}'
    || ('\U{2000}' <= c <= '\U{200A}')
    || c == '\U{2028}' || c == '\U{2029}' || c == '\U{202F}' || c == '\U{205F}' || c == '\U{3000}'
  }

  ghost predicate AllSpace(s: string) {
    forall i :: 0 <= i < |s| ==> IsSpace(s[i])
  }

  /** Drops the leading whitespace. */
  function TrimStart(s: string): string {
    if |s| > 0 && IsSpace(s[0]) then TrimStart(s[1..]) else s
  }

  /** Drops the trailing whitespace. */
  function TrimEnd(s: string): string {
    if |s| > 0 && IsSpace(s[|s| - 1]) then TrimEnd(s[..|s| - 1]) else s
  }

  /** Python's str.strip() with no argument. */
  function Strip(s: string): string {
    TrimEnd(TrimStart(s))
  }

  /** TrimStart keeps a suffix of s. */
  lemma {:induction false} TrimStartSuffix(s: string)
    ensures |TrimStart(s)| <= |s| && TrimStart(s) == s[|s| - |TrimStart(s)|..]
  {
    if |s| > 0 && IsSpace(s[0]) {
      var t := s[1..];
      TrimStartSuffix(t);
      assert TrimStart(s) == TrimStart(t);
      assert t[|t| - |TrimStart(t)|..] == s[|s| - |TrimStart(t)|..];
    }
  }

  /** What TrimStart drops is all whitespace. */
  lemma {:induction false} TrimStartDropsSpace(s: string)
    ensures |TrimStart(s)| <= |s|
    ensures AllSpace(s[..|s| - |TrimStart(s)|])
  {
    if |s| > 0 && IsSpace(s[0]) {
      var t := s[1..];
      TrimStartDropsSpace(t);
      var r := TrimStart(t);
      assert TrimStart(s) == r;
      var dropped := s[..|s| - |r|];
      forall i | 0 <= i < |dropped| ensures IsSpace(dropped[i]) {
        if i > 0 {
          assert dropped[i] == t[..|t| - |r|][i - 1];
        }
      }
    }
  }

  /** What TrimStart keeps is empty or starts with a non-space. */
  lemma {:induction false} TrimStartBoundary(s: string)
    ensures TrimStart(s) == [] || !IsSpace(TrimStart(s)[0])
  {
    if |s| > 0 && IsSpace(s[0]) {
      TrimStartBoundary(s[1..]);
    }
  }

  /** TrimStart keeps a suffix: what it drops is all whitespace, and what it
      keeps is empty or starts with a non-space. */
  lemma TrimStartShape(s: string)
    ensures |TrimStart(s)| <= |s| && TrimStart(s) == s[|s| - |TrimStart(s)|..]
    ensures AllSpace(s[..|s| - |TrimStart(s)|])
    ensures TrimStart(s) == [] || !IsSpace(TrimStart(s)[0])
  {
    TrimStartSuffix(s);
    TrimStartDropsSpace(s);
    TrimStartBoundary(s);
  }

  /** TrimEnd keeps a prefix of s. */
  lemma {:induction false} TrimEndPrefix(s: string)
    ensures |TrimEnd(s)| <= |s| && TrimEnd(s) == s[..|TrimEnd(s)|]
  {
    if |s| > 0 && IsSpace(s[|s| - 1]) {
      var t := s[..|s| - 1];
      TrimEndPrefix(t);
      assert TrimEnd(s) == TrimEnd(t);
      assert t[..|TrimEnd(t)|] == s[..|TrimEnd(t)|];
    }
  }

  /** What TrimEnd drops is all whitespace. */
  lemma {:induction false} TrimEndDropsSpace(s: string)
    ensures |TrimEnd(s)| <= |s|
    ensures AllSpace(s[|TrimEnd(s)|..])
  {
    if |s| > 0 && IsSpace(s[|s| - 1]) {
      var t := s[..|s| - 1];
      TrimEndDropsSpace(t);
      var r := TrimEnd(t);
      assert TrimEnd(s) == r;
      var dropped := s[|r|..];
      forall j | 0 <= j < |dropped| ensures IsSpace(dropped[j]) {
        if j < |dropped| - 1 {
          assert dropped[j] == t[|r|..][j];
        }
      }
    }
  }

  /** What TrimEnd keeps is empty or ends with a non-space. */
  lemma {:induction false} TrimEndBoundary(s: string)
    ensures TrimEnd(s) == [] || !IsSpace(TrimEnd(s)[|TrimEnd(s)| - 1])
  {
    if |s| > 0 && IsSpace(s[|s| - 1]) {
      TrimEndBoundary(s[..|s| - 1]);
    }
  }

  /** TrimEnd keeps a prefix, symmetrically. */
  lemma TrimEndShape(s: string)
    ensures |TrimEnd(s)| <= |s| && TrimEnd(s) == s[..|TrimEnd(s)|]
    ensures AllSpace(s[|TrimEnd(s)|..])
    ensures TrimEnd(s) == [] || !IsSpace(TrimEnd(s)[|TrimEnd(s)| - 1])
  {
    TrimEndPrefix(s);
    TrimEndDropsSpace(s);
    TrimEndBoundary(s);
  }

  /** Stripping cuts s into whitespace, the result, and whitespace, and the
      result neither starts nor ends with whitespace. */
  lemma StripShape(s: string)
    ensures exists i, j :: 0 <= i <= j <= |s| && Strip(s) == s[i..j]
                           && AllSpace(s[..i]) && AllSpace(s[j..])
    ensures Strip(s) == [] || (!IsSpace(Strip(s)[0]) && !IsSpace(Strip(s)[|Strip(s)| - 1]))
  {
    var t := TrimStart(s);
    var r := TrimEnd(t);
    TrimStartShape(s);
    TrimEndShape(t);
    var i := |s| - |t|;
    var j := i + |r|;
    assert t == s[i..];
    assert r == s[i..j];
    assert s[j..] == t[|r|..];
    if r != [] {
      assert r[0] == t[0];
    }
  }

  /** A string strips to nothing exactly when it is whitespace only. */
  lemma StripEmptyIff(s: string)
    ensures Strip(s) == [] <==> AllSpace(s)
  {
    var t := TrimStart(s);
    TrimStartShape(s);
    TrimEndShape(t);
    if AllSpace(s) {
    } else {
      var k :| 0 <= k < |s| && !IsSpace(s[k]);
      assert k >= |s| - |t|;
      assert t[k - (|s| - |t|)] == s[k];
      var r := TrimEnd(t);
      assert t[0..] == t;
    }
  }

  /** A name padded with one space on each side strips back to the name. */
  lemma StripPadded(name: string)
    requires |name| > 0 && !IsSpace(name[0]) && !IsSpace(name[|name| - 1])
    ensures Strip(name) == name
    ensures Strip(" " + name + " ") == name
  {
    var padded := " " + name + " ";
    assert padded[1..] == name + " ";
    assert (name + " ")[0] == name[0];
    assert TrimStart(padded) == name + " ";
    assert (name + " ")[..|name|] == name;
    assert TrimEnd(name + " ") == name;
  }

  function UpperChar(c: char): char {
    if 'a' <= c <= 'z' then (c as int - 32) as char else c
  }

  function LowerChar(c: char): char {
    if 'A' <= c <= 'Z' then (c as int + 32) as char else c
  }

  /** str.upper() on the ASCII letters; every other character is kept. */
  function Upper(s: string): (r: string)
    ensures |r| == |s|
    ensures forall i :: 0 <= i < |s| ==> r[i] == UpperChar(s[i])
  {
    if s == [] then [] else [UpperChar(s[0])] + Upper(s[1..])
  }

  /** str.lower() on the ASCII letters; every other character is kept. */
  function Lower(s: string): (r: string)
    ensures |r| == |s|
    ensures forall i :: 0 <= i < |s| ==> r[i] == LowerChar(s[i])
  {
    if s == [] then [] else [LowerChar(s[0])] + Lower(s[1..])
  }

  /** The missing-value token: some spelling of "NA" in any letter case. */
  predicate IsNASpelling(t: string) {
    |t| == 2 && (t[0] == 'n' || t[0] == 'N') && (t[1] == 'a' || t[1] == 'A')
  }

  /** Upper-casing to "NA" is the same as being one of the four spellings na, nA, Na, NA. */
  lemma UpperIsNA(t: string)
    ensures Upper(t) == "NA" <==> IsNASpelling(t)
  {
    if IsNASpelling(t) {
      assert Upper(t) == [UpperChar(t[0]), UpperChar(t[1])];
    }
    if Upper(t) == "NA" {
      assert |t| == 2;
      assert UpperChar(t[0]) == 'N' && UpperChar(t[1]) == 'A';
    }
  }
}
