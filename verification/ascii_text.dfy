/** The string methods the console exercises rely on (`str.isdigit`, `str.lower`,
    `str.strip`, `str.title`), restricted to their behaviour on ASCII characters. */
module AsciiText {

  predicate IsDigit(c: char) { '0' <= c <= '9' }

  predicate IsUpper(c: char) { 'A' <= c <= 'Z' }

  predicate IsLower(c: char) { 'a' <= c <= 'z' }

  /** A cased character: one that `str.title` starts or continues a word with. */
  predicate IsLetter(c: char) { IsUpper(c) || IsLower(c) }

  /** The characters `str.strip()` removes, among the ASCII ones. */
  predicate IsSpace(c: char) {
    c == ' ' || 9 <= c as int <= 13 || 28 <= c as int <= 31
  }

  function LowerChar(c: char): char {
    if IsUpper(c) then (c as int - 'A' as int + 'a' as int) as char else c
  }

  function UpperChar(c: char): char {
    if IsLower(c) then (c as int - 'a' as int + 'A' as int) as char else c
  }

  function Lower(s: string): string {
    seq(|s|, i requires 0 <= i < |s| => LowerChar(s[i]))
  }

  /** Every character of `t` is a space. */
  predicate AllSpace(t: string) {
    forall k :: 0 <= k < |t| ==> IsSpace(t[k])
  }

  /** `str.strip()`: the longest slice of `s` with no space at either end. */
  function Strip(s: string): (r: string)
    ensures exists i, j :: 0 <= i <= j <= |s| && r == s[i..j] && AllSpace(s[..i]) && AllSpace(s[j..])
    ensures r != [] ==> !IsSpace(r[0]) && !IsSpace(r[|r| - 1])
  {
    var left := StripLeft(s);
    var right := StripRight(left);
    var i := |s| - |left|;
    var j := i + |right|;
    assert s[i..j] == right && s[j..] == left[|right|..];
    right
  }

  function StripLeft(s: string): (r: string)
    ensures |r| <= |s| && r == s[|s| - |r|..]
    ensures AllSpace(s[..|s| - |r|])
    ensures r != [] ==> !IsSpace(r[0])
  {
    if s == [] || !IsSpace(s[0]) then s
    else
      var r := StripLeft(s[1..]);
      assert s[..|s| - |r|] == [s[0]] + s[1..][..|s| - 1 - |r|];
      r
  }

  function StripRight(s: string): (r: string)
    ensures |r| <= |s| && r == s[..|r|]
    ensures AllSpace(s[|r|..])
    ensures r != [] ==> !IsSpace(r[|r| - 1])
  {
    if s == [] || !IsSpace(s[|s| - 1]) then s
    else
      var r := StripRight(s[..|s| - 1]);
      assert s[|r|..] == s[..|s| - 1][|r|..] + [s[|s| - 1]];
      r
  }

  /** `str.title()`: every letter that follows a letter is lowered, every other
      letter is raised; characters that are not letters are kept. `afterLetter`
      says whether the character before `s` was a letter. */
  function TitleFrom(s: string, afterLetter: bool): (r: string)
    ensures |r| == |s|
    ensures forall k :: 0 <= k < |s| && !IsLetter(s[k]) ==> r[k] == s[k]
    ensures forall k :: 0 <= k < |s| ==> LowerChar(r[k]) == LowerChar(s[k])
  {
    if s == [] then []
    else
      var c := if !IsLetter(s[0]) then s[0] else if afterLetter then LowerChar(s[0]) else UpperChar(s[0]);
      [c] + TitleFrom(s[1..], IsLetter(s[0]))
  }

  /** Which way `str.title` turns each letter: lowered right after a letter, raised
      anywhere else (at the start, or after a space, digit or punctuation mark). */
  lemma {:induction false} TitleFromLetters(s: string, afterLetter: bool)
    ensures var r := TitleFrom(s, afterLetter);
      forall k :: 0 <= k < |s| && IsLetter(s[k]) ==>
        r[k] == if (if k == 0 then afterLetter else IsLetter(s[k - 1]))
                then LowerChar(s[k]) else UpperChar(s[k])
  {
    if s != [] {
      var r := TitleFrom(s, afterLetter);
      var tail := s[1..];
      TitleFromLetters(tail, IsLetter(s[0]));
      assert r[1..] == TitleFrom(tail, IsLetter(s[0]));
      forall k | 1 <= k < |s| && IsLetter(s[k])
        ensures r[k] == if IsLetter(s[k - 1]) then LowerChar(s[k]) else UpperChar(s[k])
      {
        assert tail[k - 1] == s[k] && r[1..][k - 1] == r[k];
        if k > 1 {
          assert tail[k - 2] == s[k - 1];
        }
      }
    }
  }

  function Title(s: string): (r: string)
    ensures |r| == |s|
  {
    TitleFrom(s, false)
  }

  /** Case-insensitive comparison is blind to `str.title`. */
  lemma LowerOfTitle(s: string)
    ensures Lower(Title(s)) == Lower(s)
  {
  }

  /** `str.title` changes case only, so digits stay where they are. */
  lemma TitleKeepsDigits(s: string)
    ensures forall k :: 0 <= k < |s| ==> (IsDigit(Title(s)[k]) <==> IsDigit(s[k]))
  {
  }
}
