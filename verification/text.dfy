/** Character classes and the few Python string operations the extractors
    rely on (`in`, `lower`, `strip`, `split`, `startswith`), over Dafny
    strings, which are sequences of Unicode scalar values as Python's are. */
module Text {
  import opened Wrappers

  predicate IsDigit(c: char) { '0' <= c <= '9' }
  predicate IsUpper(c: char) { 'A' <= c <= 'Z' }
  predicate IsLetter(c: char) { IsUpper(c) || 'a' <= c <= 'z' }
  predicate IsAlnum(c: char) { IsDigit(c) || IsLetter(c) }
  /** A character of a regular-expression word (`\w`). */
  predicate IsWordChar(c: char) { IsAlnum(c) || c == '_' }

  /** The characters Python's `str.isspace` and the regex class `\s` accept. */
  predicate IsSpace(c: char) {
    || ('\U{0009}' <= c <= '\U{000D}')
    || ('\U{001C}' <= c <= '\U{0020}')
    || c == '\U{0085}' || c == '\U{00A0}' || c == '\U{1680}'
    || ('\U{2000}' <= c <= '\U{200A}')
    || c == '\U{2028}' || c == '\U{2029}' || c == '\U{202F}'
    || c == '\U{205F}' || c == '\U{3000}'
  }

  /** The character classes the fixed patterns of the extractors use. */
  datatype CharClass = Digits | DigitsOrDots | Alnums | AlnumsOrDots | Spaces

  predicate In(c: char, k: CharClass) {
    match k
    case Digits => IsDigit(c)
    case DigitsOrDots => IsDigit(c) || c == '.'
    case Alnums => IsAlnum(c)
    case AlnumsOrDots => IsAlnum(c) || c == '.'
    case Spaces => IsSpace(c)
  }

  predicate AllIn(s: string, k: CharClass) {
    forall i :: 0 <= i < |s| ==> In(s[i], k)
  }

  /** Length of the longest run of class `k` starting at `i` (a greedy `k*`). */
  function Run(s: string, i: nat, k: CharClass): (n: nat)
    requires i <= |s|
    ensures i + n <= |s|
    ensures AllIn(s[i..i + n], k)
    ensures i + n == |s| || !In(s[i + n], k)
    decreases |s| - i
  {
    if i < |s| && In(s[i], k) then
      var n2 := Run(s, i + 1, k);
      assert s[i..i + n2 + 1] == [s[i]] + s[i + 1..i + 1 + n2];
      n2 + 1
    else 0
  }

  /** No run of class `k` from `i` is longer than the one `Run` finds. */
  lemma RunIsLongest(s: string, i: nat, j: nat, k: CharClass)
    requires i <= j <= |s|
    requires AllIn(s[i..j], k)
    ensures j <= i + Run(s, i, k)
  {
  }

  lemma AllInSlice(s: string, i: nat, j: nat, k: CharClass)
    requires i <= j <= |s|
    requires AllIn(s, k)
    ensures AllIn(s[i..j], k)
  {
    assert forall x :: 0 <= x < j - i ==> s[i..j][x] == s[i + x];
  }

  function LowerChar(c: char): char {
    if IsUpper(c) then (c as int + 32) as char else c
  }

  /** ASCII lower-casing, character by character. */
  function Lower(s: string): (r: string)
    ensures |r| == |s|
    ensures forall i :: 0 <= i < |s| ==> r[i] == LowerChar(s[i])
  {
    seq(|s|, i requires 0 <= i < |s| => LowerChar(s[i]))
  }

  /** `sub` occurs in `s` starting at index `i`. */
  predicate OccursAt(s: string, sub: string, i: int) {
    0 <= i && i + |sub| <= |s| && s[i..i + |sub|] == sub
  }

  /** Index of the first occurrence of `sub` in `s` at or after `from`. */
  function FindFrom(s: string, sub: string, from: nat): (r: Option<nat>)
    ensures r.Some? ==> from <= r.value && OccursAt(s, sub, r.value)
    ensures r.Some? ==> forall j :: from <= j < r.value ==> !OccursAt(s, sub, j)
    ensures r.None? ==> forall j :: from <= j ==> !OccursAt(s, sub, j)
    decreases |s| - from
  {
    if from + |sub| > |s| then None
    else if s[from..from + |sub|] == sub then Some(from)
    else FindFrom(s, sub, from + 1)
  }

  /** Index of the first `c` in `s` at or after `j`. */
  function IndexFrom(s: string, c: char, j: nat): (r: Option<nat>)
    ensures r.Some? ==> j <= r.value < |s| && s[r.value] == c
    ensures r.Some? ==> forall x :: j <= x < r.value ==> s[x] != c
    ensures r.None? ==> forall x :: j <= x < |s| ==> s[x] != c
    decreases |s| - j
  {
    if j >= |s| then None else if s[j] == c then Some(j) else IndexFrom(s, c, j + 1)
  }

  lemma {:induction false} IndexFromFirst(s: string, c: char, j: nat, e: nat)
    requires j <= e < |s| && s[e] == c
    requires forall x :: j <= x < e ==> s[x] != c
    ensures IndexFrom(s, c, j) == Some(e)
    decreases e - j
  {
    if j < e {
      IndexFromFirst(s, c, j + 1, e);
    }
  }

  lemma {:induction false} IndexFromAbsent(s: string, c: char, j: nat)
    requires forall x :: j <= x < |s| ==> s[x] != c
    ensures IndexFrom(s, c, j).None?
    decreases |s| - j
  {
    if j < |s| {
      IndexFromAbsent(s, c, j + 1);
    }
  }

  /** `w` (given in lower case) occurs at `i`, ignoring ASCII case. */
  predicate WordAt(s: string, i: nat, w: string) {
    i + |w| <= |s| && Lower(s[i..i + |w|]) == w
  }

  /** Python's `sub in s`. */
  function Contains(s: string, sub: string): (b: bool)
    ensures b <==> exists i :: OccursAt(s, sub, i)
  {
    var r := FindFrom(s, sub, 0);
    if r.Some? then assert OccursAt(s, sub, r.value); true else false
  }

  /** `any(w in s for w in words)`. */
  predicate ContainsAny(s: string, words: seq<string>) {
    exists w :: w in words && Contains(s, w)
  }

  /** Python's `s.startswith(p)`. */
  predicate StartsWith(s: string, p: string) {
    |p| <= |s| && s[..|p|] == p
  }

  predicate EndsWith(s: string, p: string) {
    |p| <= |s| && s[|s| - |p|..] == p
  }

  /** Length of the longest run of class `k` ending just before index `j`. */
  function RunBack(s: string, j: nat, k: CharClass): (n: nat)
    requires j <= |s|
    ensures n <= j
    ensures forall x :: j - n <= x < j ==> In(s[x], k)
    ensures n == j || !In(s[j - n - 1], k)
  {
    if j > 0 && In(s[j - 1], k) then RunBack(s, j - 1, k) + 1 else 0
  }

  /** Python's `s.strip()`: drop leading and trailing whitespace. */
  function Strip(s: string): (r: string)
    ensures |r| <= |s|
    ensures |r| == 0 || (!IsSpace(r[0]) && !IsSpace(r[|r| - 1]))
  {
    var a := Run(s, 0, Spaces);
    if a == |s| then []
    else
      var b := |s| - RunBack(s, |s|, Spaces);
      assert In(s[a], Spaces) == false;
      s[a..b]
  }

  /** Python's `s.rstrip(c)` for a single character `c`. */
  function RStripChar(s: string, c: char): (r: string)
    ensures StartsWith(s, r)
    ensures |r| == 0 || r[|r| - 1] != c
    ensures forall i :: |r| <= i < |s| ==> s[i] == c
  {
    if |s| > 0 && s[|s| - 1] == c then RStripChar(s[..|s| - 1], c) else s
  }

  /** Python's `s.lstrip(c)` for a single character `c`. */
  function LStripChar(s: string, c: char): (r: string)
    ensures EndsWith(s, r)
    ensures |r| == 0 || r[0] != c
    ensures forall i :: 0 <= i < |s| - |r| ==> s[i] == c
  {
    if |s| > 0 && s[0] == c then LStripChar(s[1..], c) else s
  }

  /** `s.split(sep)[0]`: the text before the first `sep`, or all of `s`. */
  function Before(s: string, sep: string): (r: string)
    requires |sep| > 0
    ensures StartsWith(s, r)
    ensures !Contains(s, sep) ==> r == s
    ensures Contains(s, sep) ==> OccursAt(s, sep, |r|) && forall j :: 0 <= j < |r| ==> !OccursAt(s, sep, j)
  {
    match FindFrom(s, sep, 0)
    case None => s
    case Some(i) => s[..i]
  }

  /** The text after the first `sep`; `s` has to contain `sep`. */
  function After(s: string, sep: string): (r: string)
    requires |sep| > 0 && Contains(s, sep)
    ensures s == Before(s, sep) + sep + r
  {
    var i := FindFrom(s, sep, 0).value;
    assert s == s[..i] + s[i..i + |sep|] + s[i + |sep|..];
    s[i + |sep|..]
  }

  /** `s.split(sep)[1]`: the piece between the first and the second `sep`. */
  function SecondPiece(s: string, sep: string): string
    requires |sep| > 0 && Contains(s, sep)
  {
    Before(After(s, sep), sep)
  }

  /** When `sep` first occurs at `i`, `Before` and `After` cut there. */
  lemma CutAt(s: string, sep: string, i: nat)
    requires |sep| > 0 && OccursAt(s, sep, i)
    requires forall j :: 0 <= j < i ==> !OccursAt(s, sep, j)
    ensures Contains(s, sep)
    ensures Before(s, sep) == s[..i]
    ensures After(s, sep) == s[i + |sep|..]
  {
    FindFirst(s, sep, 0, i);
  }

  lemma {:induction false} FindFirst(s: string, sub: string, from: nat, i: nat)
    requires from <= i && OccursAt(s, sub, i)
    requires forall j :: from <= j < i ==> !OccursAt(s, sub, j)
    ensures FindFrom(s, sub, from) == Some(i)
    decreases i - from
  {
    if from < i {
      assert !OccursAt(s, sub, from);
      FindFirst(s, sub, from + 1, i);
    }
  }

  /** A one-character `sep` occurs exactly where that character is. */
  lemma OccursChar(s: string, c: char, j: nat)
    ensures OccursAt(s, [c], j) <==> j < |s| && s[j] == c
  {
    if j < |s| {
      assert s[j..j + 1] == [s[j]];
    }
  }
}
