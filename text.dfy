/** String primitives the pipeline takes from Python's `str`: `isspace`, `isdigit`,
    `isalpha`, `lower`, `strip`, `split()`, `startswith`, `endswith` and the substring
    test `sub in s`. Character classes are approximated (ASCII letters plus every code
    point from U+00C0 on except the two arithmetic signs); lowering maps ASCII only. */
module Text {

  predicate IsSpace(c: char) {
    c == ' ' || c == '\t' || c == '\n' || c == '\r' || c == '\U{0B}' || c == '\U{0C}'
  }

  predicate IsDigit(c: char) {
    '0' <= c <= '9'
  }

  predicate IsUpper(c: char) {
    'A' <= c <= 'Z'
  }

  predicate IsLetter(c: char) {
    ('a' <= c <= 'z') || IsUpper(c) || (c >= '\U{C0}' && c != '\U{D7}' && c != '\U{F7}')
  }

  function LowerChar(c: char): char {
    if IsUpper(c) then (c as int + 32) as char else c
  }

  /** `s.lower()` */
  function Lower(s: string): string {
    seq(|s|, i requires 0 <= i < |s| => LowerChar(s[i]))
  }

  /** `s.isalpha()`: non-empty and made of letters only */
  predicate IsAlpha(s: string) {
    |s| > 0 && forall i :: 0 <= i < |s| ==> IsLetter(s[i])
  }

  /** `any(ch.isdigit() for ch in s)` */
  predicate HasDigit(s: string) {
    exists i :: 0 <= i < |s| && IsDigit(s[i])
  }

  predicate IsLowerCase(s: string) {
    forall i :: 0 <= i < |s| ==> !IsUpper(s[i])
  }

  predicate StartsWith(s: string, prefix: string) {
    |prefix| <= |s| && s[..|prefix|] == prefix
  }

  predicate EndsWith(s: string, suffix: string) {
    |suffix| <= |s| && s[|s| - |suffix|..] == suffix
  }

  /** Python's `sub in s` */
  predicate Contains(s: string, sub: string) {
    exists i :: 0 <= i <= |s| && StartsWith(s[i..], sub)
  }

  function StripLeft(s: string): (r: string)
    ensures |r| <= |s|
    ensures r == [] || !IsSpace(r[0])
  {
    if s != [] && IsSpace(s[0]) then StripLeft(s[1..]) else s
  }

  function StripRight(s: string): (r: string)
    ensures |r| <= |s|
  {
    if s != [] && IsSpace(s[|s| - 1]) then StripRight(s[..|s| - 1]) else s
  }

  /** `s.strip()` */
  function Strip(s: string): string {
    StripRight(StripLeft(s))
  }

  /** End of the whitespace-free run that starts at `i`. */
  function TokenEnd(s: string, i: nat): (j: nat)
    requires i <= |s|
    ensures i <= j <= |s|
    decreases |s| - i
  {
    if i < |s| && !IsSpace(s[i]) then TokenEnd(s, i + 1) else i
  }

  /** `s.split()`: the maximal whitespace-free runs of `s`, in order. */
  function Split(s: string): seq<string>
    decreases |s|
  {
    var t := StripLeft(s);
    if t == [] then []
    else
      var n := TokenEnd(t, 0);
      [t[..n]] + Split(t[n..])
  }

  /** `s.replace(a, b)` for one-character `a` and `b` */
  function ReplaceChar(s: string, a: char, b: char): string {
    seq(|s|, i requires 0 <= i < |s| => if s[i] == a then b else s[i])
  }

  /** `s.replace(' ', '')` */
  function RemoveSpaces(s: string): string {
    if s == [] then []
    else (if s[0] == ' ' then [] else [s[0]]) + RemoveSpaces(s[1..])
  }

  lemma LowerIsLowerCase(s: string)
    ensures IsLowerCase(Lower(s))
  {
  }

  lemma LowerKeepsLetters(s: string)
    ensures IsAlpha(Lower(s)) <==> IsAlpha(s)
  {
    assert forall i :: 0 <= i < |s| ==> (IsLetter(Lower(s)[i]) <==> IsLetter(s[i]));
  }

  lemma LowerOfLowerCase(s: string)
    requires IsLowerCase(s)
    ensures Lower(s) == s
  {
  }

  lemma LowerAppend(a: string, b: string)
    ensures Lower(a + b) == Lower(a) + Lower(b)
  {
  }

  predicate IsWord(w: string) {
    w != [] && forall i :: 0 <= i < |w| ==> !IsSpace(w[i])
  }

  /** `" ".join(words)` */
  function JoinWords(words: seq<string>): string {
    if words == [] then []
    else if |words| == 1 then words[0]
    else words[0] + " " + JoinWords(words[1..])
  }

  lemma {:induction false} TokenEndOfWord(tok: string, rest: string, i: nat)
    requires IsWord(tok) && i <= |tok|
    requires rest == [] || IsSpace(rest[0])
    ensures TokenEnd(tok + rest, i) == |tok|
    decreases |tok| - i
  {
    if i < |tok| {
      TokenEndOfWord(tok, rest, i + 1);
    }
  }

  lemma SplitWordThen(tok: string, rest: string)
    requires IsWord(tok)
    requires rest == [] || IsSpace(rest[0])
    ensures Split(tok + rest) == [tok] + Split(rest)
  {
    var s := tok + rest;
    assert StripLeft(s) == s;
    TokenEndOfWord(tok, rest, 0);
    assert s[..|tok|] == tok;
    assert s[|tok|..] == rest;
  }

  /** Splitting words joined by single spaces gives the words back. */
  lemma {:induction false} SplitJoinWords(words: seq<string>)
    requires forall i :: 0 <= i < |words| ==> IsWord(words[i])
    ensures Split(JoinWords(words)) == words
  {
    if words == [] {
    } else if |words| == 1 {
      SplitWordThen(words[0], []);
      assert words[0] + [] == words[0];
    } else {
      var rest := " " + JoinWords(words[1..]);
      SplitWordThen(words[0], rest);
      assert words[0] + " " + JoinWords(words[1..]) == words[0] + rest;
      assert StripLeft(rest) == StripLeft(JoinWords(words[1..]));
      SplitJoinWords(words[1..]);
      assert [words[0]] + words[1..] == words;
    }
  }
}
