/**
 Byte-level vocabulary shared by the parsers and the printers.

 A byte is a `char`.  The parsers only distinguish bytes below 128, and every byte from
 128 upwards is neither a character nor a control, so quantifying over all strings covers
 every byte string.
 */
module Bytes {

  datatype Option<+T> = None | Some(value: T)

  // Character classes of algorithm.hpp.

  predicate IsChar(c: char) {
    c as int <= 127
  }

  predicate IsControl(c: char) {
    c as int <= 31 || c as int == 127
  }

  predicate IsSpecial(c: char) {
    || c == '(' || c == ')' || c == '<' || c == '>' || c == '@'
    || c == ',' || c == ';' || c == ':' || c == '\\' || c == '"'
    || c == '/' || c == '[' || c == ']' || c == '?' || c == '='
    || c == '{' || c == '}' || c == ' ' || c == '\t'
  }

  /** The characters allowed in a method or in a header name. */
  predicate IsToken(c: char) {
    IsChar(c) && !IsControl(c) && !IsSpecial(c)
  }

  const TOKEN_MARKS := "!#$%&'*+-.^_`|~"

  /** These are the token characters of section 3.2.6 of RFC 7230. */
  lemma TokensExactly(c: char)
    ensures IsToken(c)
       <==> 'A' <= c <= 'Z' || 'a' <= c <= 'z' || '0' <= c <= '9' || exists k | 0 <= k < 15 :: c == TOKEN_MARKS[k]
  {
    var t := TOKEN_MARKS;
    if IsToken(c) && !('A' <= c <= 'Z' || 'a' <= c <= 'z' || '0' <= c <= '9') {
      assert c == t[0] || c == t[1] || c == t[2] || c == t[3] || c == t[4] || c == t[5] || c == t[6] || c == t[7]
          || c == t[8] || c == t[9] || c == t[10] || c == t[11] || c == t[12] || c == t[13] || c == t[14];
    }
  }

  predicate IsDigit(c: char) {
    '0' <= c <= '9'
  }

  predicate IsHexDigit(c: char) {
    '0' <= c <= '9' || 'a' <= c <= 'f' || 'A' <= c <= 'F'
  }

  const CRLF: string := ['\r', '\n']

  function Min(a: int, b: int): int {
    if a <= b then a else b
  }

  /** The concatenation of a list of pieces. */
  function Flatten<T>(pieces: seq<seq<T>>): seq<T> {
    if pieces == [] then [] else pieces[0] + Flatten(pieces[1..])
  }

  lemma {:induction false} FlattenAppend<T>(xs: seq<seq<T>>, ys: seq<seq<T>>)
    ensures Flatten(xs + ys) == Flatten(xs) + Flatten(ys)
  {
    if xs == [] {
      assert xs + ys == ys;
    } else {
      assert (xs + ys)[0] == xs[0] && (xs + ys)[1..] == xs[1..] + ys;
      FlattenAppend(xs[1..], ys);
    }
  }

  lemma Assoc<T>(a: seq<T>, b: seq<T>, c: seq<T>)
    ensures (a + b) + c == a + (b + c)
  {
  }

  lemma SliceOfSlice(s: string, i: nat, k: nat, j: nat, l: nat)
    requires i <= j <= l <= k <= |s|
    ensures s[i..k][j - i..l - i] == s[j..l]
  {
    var whole := s[i..k];
    forall o | 0 <= o < l - j ensures whole[j - i..l - i][o] == s[j..l][o] {
      assert whole[j - i + o] == s[j + o];
    }
  }

  // Numbers as text, in base ten or sixteen.

  function DigitChar(d: nat): (c: char)
    requires d < 16
    ensures IsHexDigit(c) && (d < 10 ==> IsDigit(c)) && DigitValue(c) == d
  {
    if d < 10 then ('0' as int + d) as char else ('a' as int + (d - 10)) as char
  }

  function DigitValue(c: char): (d: nat)
    requires IsHexDigit(c)
    ensures d < 16
  {
    if c <= '9' then c as int - '0' as int
    else if c <= 'F' then c as int - 'A' as int + 10
    else c as int - 'a' as int + 10
  }

  /** The digits of `n` without leading zeros, as printed by `%lx` and by `to_string`. */
  function Digits(base: nat, n: nat): (s: string)
    requires base == 10 || base == 16
    ensures |s| > 0 && (forall c | c in s :: IsHexDigit(c) && (base == 10 ==> IsDigit(c)))
  {
    if n < base then [DigitChar(n)] else Digits(base, n / base) + [DigitChar(n % base)]
  }

  function Value(base: nat, s: string): nat
    requires forall c | c in s :: IsHexDigit(c)
  {
    if s == [] then 0 else base * Value(base, s[..|s| - 1]) + DigitValue(s[|s| - 1])
  }

  lemma {:induction false} ValueOfDigits(base: nat, n: nat)
    requires base == 10 || base == 16
    ensures Value(base, Digits(base, n)) == n
  {
    var s := Digits(base, n);
    if n < base {
      assert s[..|s| - 1] == [];
    } else {
      assert s[..|s| - 1] == Digits(base, n / base);
      ValueOfDigits(base, n / base);
    }
  }

  /** No zeros in front, and letters in lower case. */
  lemma {:induction false} DigitsArePlain(base: nat, n: nat)
    requires base == 10 || base == 16
    ensures Digits(base, n)[0] == '0' <==> n == 0
    ensures n == 0 ==> |Digits(base, n)| == 1
    ensures forall k | 0 <= k < |Digits(base, n)| :: Lower(Digits(base, n)[k]) == Digits(base, n)[k]
  {
    if n >= base {
      DigitsArePlain(base, n / base);
    }
  }

  /** The end of the longest stretch from `i` on whose characters all satisfy `p`. */
  function Span(s: string, i: nat, p: char -> bool): (k: nat)
    requires i <= |s|
    ensures i <= k <= |s| && (forall j | i <= j < k :: p(s[j])) && (k < |s| ==> !p(s[k]))
    decreases |s| - i
  {
    if i == |s| || !p(s[i]) then i else Span(s, i + 1, p)
  }

  // Case-insensitive comparison, byte by byte.

  function Lower(c: char): char {
    if 'A' <= c <= 'Z' then (c as int + 32) as char else c
  }

  predicate IEquals(a: string, b: string) {
    |a| == |b| && forall i | 0 <= i < |a| :: Lower(a[i]) == Lower(b[i])
  }

  /** Case does not count for the twenty-six letters, and nothing else is alike. */
  lemma SameLetter(c: char, d: char)
    ensures Lower(c) == Lower(d)
       <==> c == d || ('A' <= c <= 'Z' && d as int == c as int + 32) || ('A' <= d <= 'Z' && c as int == d as int + 32)
  {
  }

  // Substring search, as std::search and std::string::find do it.

  predicate MatchesAt(s: string, pat: string, i: nat) {
    i + |pat| <= |s| && s[i..i + |pat|] == pat
  }

  /** The first index at or after `from` where `pat` occurs, or `|s|` when there is none. */
  function Search(s: string, pat: string, from: nat): (i: nat)
    requires from <= |s|
    ensures from <= i <= |s| && (i < |s| ==> i + |pat| <= |s|)
    decreases |s| - from
  {
    if from == |s| || MatchesAt(s, pat, from) then from else Search(s, pat, from + 1)
  }

  /** The search stops at the first match. */
  lemma {:induction false} SearchFirst(s: string, pat: string, from: nat, k: nat)
    requires from <= k < |s| && MatchesAt(s, pat, k)
    requires forall j | from <= j < k :: !MatchesAt(s, pat, j)
    ensures Search(s, pat, from) == k
    decreases k - from
  {
    if from < k {
      SearchFirst(s, pat, from + 1, k);
    }
  }

  /** What it finds is a match, and there is none before it. */
  lemma {:induction false} SearchFinds(s: string, pat: string, from: nat)
    requires from <= |s| && pat != ""
    ensures var i := Search(s, pat, from);
      (i < |s| ==> MatchesAt(s, pat, i)) && forall k | from <= k < i :: !MatchesAt(s, pat, k)
    decreases |s| - from
  {
    if from < |s| && !MatchesAt(s, pat, from) {
      SearchFinds(s, pat, from + 1);
    }
  }

  lemma Mismatch(body: string, b: string, j: nat, o: nat)
    requires o < |b| && j + o < |body| && body[j + o] != b[o]
    ensures !MatchesAt(body, b, j)
  {
    if j + |b| <= |body| {
      assert body[j..j + |b|][o] == body[j + o];
    }
  }

  predicate Contains(s: string, pat: string) {
    exists i | 0 <= i <= |s| :: MatchesAt(s, pat, i)
  }
}
