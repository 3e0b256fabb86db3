/**
 * The string operations the collector and the classifier rely on, restricted to
 * ASCII: case folding (`str.lower`), substring search (`in`), whitespace
 * trimming (`str.strip`), whitespace splitting (`str.split()`), the word
 * tokenizer `re.findall(r"\w+", ...)` and `str.join`.
 */
module Text {

  /** Python's `str.isspace` on ASCII: space, \t \n \v \f \r and the separators \x1c-\x1f. */
  predicate IsSpace(c: char) {
    c == ' ' || (9 <= c as int <= 13) || (28 <= c as int <= 31)
  }

  /** The characters the regular-expression class `\w` matches on ASCII. */
  predicate IsWordChar(c: char) {
    ('a' <= c <= 'z') || ('A' <= c <= 'Z') || ('0' <= c <= '9') || c == '_'
  }

  predicate IsUpper(c: char) {
    'A' <= c <= 'Z'
  }

  /** Python's `str.lower` on one ASCII character. */
  function LowerChar(c: char): (d: char)
    ensures !IsUpper(d)
  {
    if IsUpper(c) then (c as int + 32) as char else c
  }

  /**
   * Python's `str.lower` on ASCII text: the result has no upper-case letter,
   * and a character changes exactly when it is an upper-case letter, so text
   * without upper-case letters is left as it is.
   */
  function Lower(s: string): (r: string)
    ensures |r| == |s|
    ensures forall i :: 0 <= i < |r| ==> !IsUpper(r[i])
    ensures forall i :: 0 <= i < |s| ==> (r[i] == s[i] <==> !IsUpper(s[i]))
    ensures (forall i :: 0 <= i < |s| ==> !IsUpper(s[i])) ==> r == s
  {
    seq(|s|, i requires 0 <= i < |s| => LowerChar(s[i]))
  }

  lemma LowerConcat(a: string, b: string)
    ensures Lower(a + b) == Lower(a) + Lower(b)
  {
    assert forall i :: 0 <= i < |a + b| ==> Lower(a + b)[i] == (Lower(a) + Lower(b))[i];
  }

  /** `pat` occurs in `text` starting at index `i`. */
  predicate OccursAt(text: string, pat: string, i: nat) {
    i + |pat| <= |text| && text[i..i + |pat|] == pat
  }

  /** Python's `pat in text` on strings. */
  predicate Contains(text: string, pat: string) {
    exists i: nat | i <= |text| :: OccursAt(text, pat, i)
  }

  /** The empty string occurs in every string. */
  lemma ContainsEmpty(text: string)
    ensures Contains(text, "")
  {
    assert OccursAt(text, "", 0);
  }

  /** Every string occurs in itself. */
  lemma ContainsSelf(text: string)
    ensures Contains(text, text)
  {
    assert OccursAt(text, text, 0);
  }

  /** An occurrence inside either part of a concatenation is an occurrence in the whole. */
  lemma ContainsInConcat(a: string, b: string, pat: string)
    requires Contains(a, pat) || Contains(b, pat)
    ensures Contains(a + b, pat)
  {
    if Contains(a, pat) {
      var i: nat :| i <= |a| && OccursAt(a, pat, i);
      assert (a + b)[i..i + |pat|] == a[i..i + |pat|];
      assert OccursAt(a + b, pat, i);
    } else {
      var i: nat :| i <= |b| && OccursAt(b, pat, i);
      assert (a + b)[|a| + i..|a| + i + |pat|] == b[i..i + |pat|];
      assert OccursAt(a + b, pat, |a| + i);
    }
  }

  predicate AllSpace(s: string) {
    forall i :: 0 <= i < |s| ==> IsSpace(s[i])
  }

  /** Python's `s.lstrip()`. */
  function TrimLeft(s: string): string {
    if s != [] && IsSpace(s[0]) then TrimLeft(s[1..]) else s
  }

  /** Python's `s.rstrip()`. */
  function TrimRight(s: string): string {
    if s != [] && IsSpace(s[|s| - 1]) then TrimRight(s[..|s| - 1]) else s
  }

  /** Python's `s.strip()`. */
  function Strip(s: string): string {
    TrimRight(TrimLeft(s))
  }

  /** `lstrip` removes a whitespace prefix and stops at the first other character. */
  lemma {:induction false} TrimLeftSpec(s: string)
    ensures |TrimLeft(s)| <= |s| && TrimLeft(s) == s[|s| - |TrimLeft(s)|..]
    ensures AllSpace(s[..|s| - |TrimLeft(s)|])
    ensures TrimLeft(s) != [] ==> !IsSpace(TrimLeft(s)[0])
    decreases |s|
  {
    if s != [] && IsSpace(s[0]) {
      TrimLeftSpec(s[1..]);
      var n := |s| - |TrimLeft(s)|;
      assert s[1..][|s| - 1 - |TrimLeft(s)|..] == s[n..];
      assert s[..n] == [s[0]] + s[1..][..n - 1];
    }
  }

  /** `rstrip` removes a whitespace suffix and stops at the last other character. */
  lemma {:induction false} TrimRightSpec(s: string)
    ensures |TrimRight(s)| <= |s| && TrimRight(s) == s[..|TrimRight(s)|]
    ensures AllSpace(s[|TrimRight(s)|..])
    ensures TrimRight(s) != [] ==> !IsSpace(TrimRight(s)[|TrimRight(s)| - 1])
    decreases |s|
  {
    if s != [] && IsSpace(s[|s| - 1]) {
      var init := s[..|s| - 1];
      TrimRightSpec(init);
      var n := |TrimRight(s)|;
      assert init[..n] == s[..n];
      assert s[n..] == init[n..] + [s[|s| - 1]];
    }
  }

  /** A stripped string neither begins nor ends with whitespace. */
  lemma StripEnds(s: string)
    ensures Strip(s) == [] || (!IsSpace(Strip(s)[0]) && !IsSpace(Strip(s)[|Strip(s)| - 1]))
  {
    TrimLeftSpec(s);
    TrimRightSpec(TrimLeft(s));
    var t := TrimLeft(s);
    if Strip(s) != [] {
      assert Strip(s)[0] == t[0];
    }
  }

  lemma TrimLeftSplit(s: string) returns (lead: string)
    ensures s == lead + TrimLeft(s) && AllSpace(lead)
  {
    TrimLeftSpec(s);
    lead := s[..|s| - |TrimLeft(s)|];
  }

  lemma TrimRightSplit(s: string) returns (trail: string)
    ensures s == TrimRight(s) + trail && AllSpace(trail)
  {
    TrimRightSpec(s);
    trail := s[|TrimRight(s)|..];
  }

  /** `Strip` removes only whitespace, and only at the two ends. */
  lemma StripSplit(s: string) returns (lead: string, trail: string)
    ensures s == lead + Strip(s) + trail
    ensures AllSpace(lead) && AllSpace(trail)
  {
    lead := TrimLeftSplit(s);
    trail := TrimRightSplit(TrimLeft(s));
  }

  /** The two character classes whose maximal runs the source takes apart. */
  datatype CharClass =
    | WordChars      // re.findall(r"\w+", s)
    | NonSpaceChars  // s.split()

  predicate InClass(cls: CharClass, c: char) {
    match cls
    case WordChars => IsWordChar(c)
    case NonSpaceChars => !IsSpace(c)
  }

  predicate AllOutside(cls: CharClass, s: string) {
    forall i :: 0 <= i < |s| ==> !InClass(cls, s[i])
  }

  predicate AllInside(cls: CharClass, s: string) {
    forall i :: 0 <= i < |s| ==> InClass(cls, s[i])
  }

  /** Whitespace belongs to neither class, so neither tokenizer sees it. */
  lemma SpaceOutside(cls: CharClass, s: string)
    requires AllSpace(s)
    ensures AllOutside(cls, s)
  {
  }

  /** The length of the longest prefix of `s` inside `cls`. */
  function RunLength(cls: CharClass, s: string): (n: nat)
    ensures n <= |s|
    ensures AllInside(cls, s[..n])
    ensures n < |s| ==> !InClass(cls, s[n])
  {
    if s == [] || !InClass(cls, s[0]) then 0 else 1 + RunLength(cls, s[1..])
  }

  /**
   * The maximal runs of characters of `cls`, left to right: for WordChars what
   * `re.findall(r"\w+", s)` returns, for NonSpaceChars what `s.split()` returns.
   */
  function Runs(cls: CharClass, s: string): (runs: seq<string>)
    ensures forall k :: 0 <= k < |runs| ==> runs[k] != [] && AllInside(cls, runs[k])
    decreases |s|
  {
    if s == [] then []
    else if !InClass(cls, s[0]) then Runs(cls, s[1..])
    else
      var n := RunLength(cls, s);
      [s[..n]] + Runs(cls, s[n..])
  }

  /**
   * Independent count of the runs: scanning left to right, the positions whose
   * character is in `cls` while the previous one (`prevIn`) was not.
   */
  function CountRunStarts(cls: CharClass, s: string, prevIn: bool): nat
  {
    if s == [] then 0
    else (if InClass(cls, s[0]) && !prevIn then 1 else 0) + CountRunStarts(cls, s[1..], InClass(cls, s[0]))
  }

  lemma {:induction false} SkipRun(cls: CharClass, s: string)
    ensures CountRunStarts(cls, s, true) == CountRunStarts(cls, s[RunLength(cls, s)..], false)
    decreases |s|
  {
    if s != [] && InClass(cls, s[0]) {
      SkipRun(cls, s[1..]);
      assert s[1..][RunLength(cls, s[1..])..] == s[RunLength(cls, s)..];
    }
  }

  /** The tokenizer returns exactly one token per run start. */
  lemma {:induction false} RunsCount(cls: CharClass, s: string)
    ensures |Runs(cls, s)| == CountRunStarts(cls, s, false)
    decreases |s|
  {
    if s == [] {
    } else if !InClass(cls, s[0]) {
      RunsCount(cls, s[1..]);
    } else {
      var n := RunLength(cls, s);
      SkipRun(cls, s[1..]);
      assert s[1..][RunLength(cls, s[1..])..] == s[n..];
      RunsCount(cls, s[n..]);
    }
  }

  /** Characters outside the class in front of the text add no run. */
  lemma {:induction false} RunsSkipOutside(cls: CharClass, ws: string, s: string)
    requires AllOutside(cls, ws)
    ensures Runs(cls, ws + s) == Runs(cls, s)
    decreases |ws|
  {
    if ws != [] {
      assert (ws + s)[0] == ws[0] && !InClass(cls, ws[0]);
      assert (ws + s)[1..] == ws[1..] + s;
      assert AllOutside(cls, ws[1..]) by {
        forall i | 0 <= i < |ws[1..]| ensures !InClass(cls, ws[1..][i]) {
          assert ws[1..][i] == ws[i + 1];
        }
      }
      RunsSkipOutside(cls, ws[1..], s);
    } else {
      assert ws + s == s;
    }
  }

  lemma {:induction false} RunLengthAppend(cls: CharClass, s: string, t: string)
    requires t == [] || !InClass(cls, t[0])
    ensures RunLength(cls, s + t) == RunLength(cls, s)
    decreases |s|
  {
    if s != [] {
      assert (s + t)[1..] == s[1..] + t;
      RunLengthAppend(cls, s[1..], t);
    }
  }

  /** Characters outside the class after the text add no run. */
  lemma {:induction false} RunsAppendOutside(cls: CharClass, s: string, ws: string)
    requires AllOutside(cls, ws)
    ensures Runs(cls, s + ws) == Runs(cls, s)
    decreases |s|
  {
    if s == [] {
      assert s + ws == ws + [];
      RunsSkipOutside(cls, ws, []);
    } else if !InClass(cls, s[0]) {
      assert (s + ws)[0] == s[0];
      assert (s + ws)[1..] == s[1..] + ws;
      RunsAppendOutside(cls, s[1..], ws);
    } else {
      assert (s + ws)[0] == s[0];
      RunLengthAppend(cls, s, ws);
      var n := RunLength(cls, s);
      assert (s + ws)[..n] == s[..n];
      assert (s + ws)[n..] == s[n..] + ws;
      RunsAppendOutside(cls, s[n..], ws);
      assert Runs(cls, s + ws) == [s[..n]] + Runs(cls, s[n..] + ws);
    }
  }

  lemma {:induction false} RunLengthOfRun(cls: CharClass, tok: string, rest: string)
    requires AllInside(cls, tok)
    requires rest == [] || !InClass(cls, rest[0])
    ensures RunLength(cls, tok + rest) == |tok|
    decreases |tok|
  {
    if tok != [] {
      assert (tok + rest)[1..] == tok[1..] + rest;
      RunLengthOfRun(cls, tok[1..], rest);
    } else {
      assert tok + rest == rest;
    }
  }

  /** A run followed by the end or by a character outside the class is the first token. */
  lemma LeadingRun(cls: CharClass, tok: string, rest: string)
    requires tok != [] && AllInside(cls, tok)
    requires rest == [] || !InClass(cls, rest[0])
    ensures Runs(cls, tok + rest) == [tok] + Runs(cls, rest)
  {
    RunLengthOfRun(cls, tok, rest);
    assert (tok + rest)[..|tok|] == tok;
    assert (tok + rest)[|tok|..] == rest;
  }

  /** Stripping whitespace changes neither `split()` nor `findall(r"\w+")`. */
  lemma StripKeepsRuns(cls: CharClass, s: string)
    ensures Runs(cls, Strip(s)) == Runs(cls, s)
  {
    var lead, trail := StripSplit(s);
    SpaceOutside(cls, lead);
    SpaceOutside(cls, trail);
    RunsSkipOutside(cls, lead, Strip(s) + trail);
    RunsAppendOutside(cls, Strip(s), trail);
    assert s == lead + (Strip(s) + trail);
  }

  /** Python's `sep.join(parts)`. */
  function Join(parts: seq<string>, sep: string): string
  {
    if parts == [] then ""
    else if |parts| == 1 then parts[0]
    else parts[0] + sep + Join(parts[1..], sep)
  }
}
