/**
 Cookie headers cookie by cookie, an independent reading of what `parse_cookie_header` does byte
 by byte: names without their spaces, values with either quote character or with none, and text
 that is ignored behind a closing quote.  The two readings agree on every text.
 */
module CookieGrammar {
  import opened Bytes
  import opened HeaderMachine
  import opened Forms
  import opened Cookies

  /** The attributes that RFC 2109 and its successors put into a Set-Cookie header. */
  const ATTRIBUTES := ["Comment", "Domain", "Max-Age", "Path", "Secure", "Version", "Expires", "HttpOnly"]

  /** No cookie: no name at all, a name that starts with a dollar sign, and, in a Set-Cookie header, an attribute. */
  lemma AttributesExactly(name: string, setCookie: bool)
    ensures IsCookieAttribute(name, setCookie)
       <==> |name| == 0 || name[0] == '$' || (setCookie && exists k | 0 <= k < 8 :: IEquals(name, ATTRIBUTES[k]))
  {
    if |name| > 0 && name[0] != '$' && setCookie && IsCookieAttribute(name, setCookie) {
      assert || IEquals(name, ATTRIBUTES[0]) || IEquals(name, ATTRIBUTES[1]) || IEquals(name, ATTRIBUTES[2])
             || IEquals(name, ATTRIBUTES[3]) || IEquals(name, ATTRIBUTES[4]) || IEquals(name, ATTRIBUTES[5])
             || IEquals(name, ATTRIBUTES[6]) || IEquals(name, ATTRIBUTES[7]);
    }
  }

  // The reading.

  predicate InCookieName(c: char) {
    c != '=' && c != ';' && c != ',' && !IsControl(c)
  }

  predicate InPlainValue(c: char) {
    c != ';' && c != ',' && !IsControl(c)
  }

  predicate NotSeparator(c: char) {
    c != ';' && c != ','
  }

  predicate IsSpace(c: char) {
    c == ' '
  }

  /** The text from `j` to `i` without its spaces. */
  function Spaceless(s: string, j: nat, i: nat): (t: string)
    requires j <= i <= |s|
  {
    if i == j then "" else Spaceless(s, j, i - 1) + (if s[i - 1] == ' ' then "" else [s[i - 1]])
  }

  /** One cookie: the header is refused there, or it is the last one, or the next one starts at `next`. */
  datatype Item = Refused | Last(name: string, value: string) | Followed(name: string, value: string, next: nat)

  /** The name, up to an equals sign, a separator or the end. */
  function CookieAt(s: string, i: nat): (r: Item)
    requires i <= |s|
    ensures r.Followed? ==> i < r.next <= |s|
  {
    var e := Span(s, i, InCookieName);
    var name := Spaceless(s, i, e);
    if |name| > 1024 then Refused
    else if e == |s| then Last(name, "")
    else if s[e] == '=' then ValueAt(s, name, Span(s, e + 1, IsSpace))
    else if s[e] == ';' || s[e] == ',' then Followed(name, "", e + 1)
    else Refused
  }

  /** The value, from its first character that is no space. */
  function ValueAt(s: string, name: string, j: nat): (r: Item)
    requires j <= |s|
    ensures r.Followed? ==> j < r.next <= |s|
  {
    if j < |s| && (s[j] == '\'' || s[j] == '"') then QuotedAt(s, name, s[j], j + 1)
    else
      var e := Span(s, j, InPlainValue);
      if e - j > 1024 * 1024 then Refused
      else if e == |s| then Last(name, s[j..e])
      else if s[e] == ';' || s[e] == ',' then Followed(name, s[j..e], e + 1)
      else Refused
  }

  /** A quoted value, in which everything but the quote character may occur. */
  function QuotedAt(s: string, name: string, quote: char, j: nat): (r: Item)
    requires j <= |s|
    ensures r.Followed? ==> j < r.next <= |s|
  {
    var e := Span(s, j, c => c != quote);
    if e - j > 1024 * 1024 then Refused
    else if e == |s| then Last(name, s[j..e])
    else
      var k := Span(s, e + 1, NotSeparator);
      if k == |s| then Last(name, s[j..e]) else Followed(name, s[j..e], k + 1)
  }

  /** All cookies from `i` on, behind those in `pairs`. */
  function CookiesFrom(setCookie: bool, pairs: seq<Field>, s: string, i: nat): FormOut
    requires i <= |s|
    decreases |s| - i
  {
    match CookieAt(s, i)
    case Refused => FormOut(false, pairs)
    case Last(name, value) => FormOut(true, Store(setCookie, pairs, name, value))
    case Followed(name, value, next) => CookiesFrom(setCookie, Store(setCookie, pairs, name, value), s, next)
  }

  // The scan of `Cookies`, abstractly: `OneByte` is the only place where a step is taken.

  datatype Step = Refuse | To(phase: Phase, name: string, value: string, pairs: seq<Field>)

  /** One turn of the loop. */
  function StepOf(setCookie: bool, phase: Phase, name: string, value: string, pairs: seq<Field>, c: char): Step {
    match phase
    case InName =>
      if c == '=' then To(InValue, name, value, pairs)
      else if IsSeparator(c) then To(InName, "", value, Store(setCookie, pairs, name, value))
      else if c == ' ' then To(InName, name, value, pairs)
      else if IsControl(c) || |name| >= COOKIE_NAME_MAX then Refuse
      else To(InName, name + [c], value, pairs)
    case InValue =>
      if IsSeparator(c) then To(InName, "", "", Store(setCookie, pairs, name, value))
      else if IsQuote(c) && value == "" then To(InQuotes(c), name, value, pairs)
      else if c == ' ' && value == "" then To(InValue, name, value, pairs)
      else if IsControl(c) || |value| >= COOKIE_VALUE_MAX then Refuse
      else To(InValue, name, value + [c], pairs)
    case InQuotes(quote) =>
      if c == quote then To(Skipping, "", "", Store(setCookie, pairs, name, value))
      else if |value| >= COOKIE_VALUE_MAX then Refuse
      else To(phase, name, value + [c], pairs)
    case Skipping =>
      To(if IsSeparator(c) then InName else Skipping, name, value, pairs)
  }

  datatype Reader = Reader(scan: (Phase, string, string, seq<Field>, nat) -> FormOut, setCookie: bool, s: string) {

    /** What the scan is at `i`, in terms of itself behind that byte. */
    function Unfolded(p: Phase, name: string, value: string, pairs: seq<Field>, i: nat): FormOut
      requires i <= |s|
    {
      if i == |s| then FormOut(true, Store(setCookie, pairs, name, value))
      else
        var t := StepOf(setCookie, p, name, value, pairs, s[i]);
        if t.Refuse? then FormOut(false, pairs) else scan(t.phase, t.name, t.value, t.pairs, i + 1)
    }

    ghost predicate Obeys() {
      forall p, name, value, pairs, i: nat {:trigger Looked(p, name, value, pairs, i)} :: i <= |s| ==>
        scan(p, name, value, pairs, i) == Unfolded(p, name, value, pairs, i)
    }
  }

  predicate Looked(p: Phase, name: string, value: string, pairs: seq<Field>, i: nat) {
    true
  }

  lemma OneByte(r: Reader, p: Phase, name: string, value: string, pairs: seq<Field>, i: nat)
    requires r.Obeys() && i < |r.s|
    ensures r.scan(p, name, value, pairs, i) == (
              var t := StepOf(r.setCookie, p, name, value, pairs, r.s[i]);
              if t.Refuse? then FormOut(false, pairs) else r.scan(t.phase, t.name, t.value, t.pairs, i + 1))
  {
    assert Looked(p, name, value, pairs, i);
  }

  lemma AtEnd(r: Reader, p: Phase, name: string, value: string, pairs: seq<Field>)
    requires r.Obeys()
    ensures r.scan(p, name, value, pairs, |r.s|) == FormOut(true, Store(r.setCookie, pairs, name, value))
  {
    assert Looked(p, name, value, pairs, |r.s|);
  }

  lemma {:induction false} SpacelessGrows(s: string, j: nat, i: nat, e: nat)
    requires j <= i <= e <= |s|
    ensures |Spaceless(s, j, i)| <= |Spaceless(s, j, e)|
    decreases e - i
  {
    if i < e {
      SpacelessGrows(s, j, i, e - 1);
    }
  }

  lemma SliceSnoc(s: string, j: nat, i: nat)
    requires j <= i < |s|
    ensures s[j..i + 1] == s[j..i] + [s[i]]
  {
  }

  /** The name, or a refusal when it is too long. */
  lemma {:induction false} NameRun(r: Reader, pairs: seq<Field>, j: nat, i: nat, e: nat)
    requires r.Obeys() && j <= i <= e <= |r.s| && forall k | i <= k < e :: InCookieName(r.s[k])
    requires |Spaceless(r.s, j, i)| <= 1024
    ensures r.scan(InName, Spaceless(r.s, j, i), "", pairs, i) ==
      if |Spaceless(r.s, j, e)| > 1024 then FormOut(false, pairs)
      else r.scan(InName, Spaceless(r.s, j, e), "", pairs, e)
    decreases e - i
  {
    if i < e {
      OneByte(r, InName, Spaceless(r.s, j, i), "", pairs, i);
      SpacelessGrows(r.s, j, i + 1, e);
      var name := Spaceless(r.s, j, i);
      if r.s[i] == ' ' {
        assert name + "" == name;
        NameRun(r, pairs, j, i + 1, e);
      } else if |name| < 1024 {
        NameRun(r, pairs, j, i + 1, e);
      }
    }
  }

  lemma {:induction false} SpacesRun(r: Reader, name: string, pairs: seq<Field>, i: nat, e: nat)
    requires r.Obeys() && i <= e <= |r.s| && forall k | i <= k < e :: r.s[k] == ' '
    ensures r.scan(InValue, name, "", pairs, i) == r.scan(InValue, name, "", pairs, e)
    decreases e - i
  {
    if i < e {
      OneByte(r, InValue, name, "", pairs, i);
      SpacesRun(r, name, pairs, i + 1, e);
    }
  }

  /** An unquoted value. */
  lemma {:induction false} PlainRun(r: Reader, name: string, pairs: seq<Field>, j: nat, i: nat, e: nat)
    requires r.Obeys() && j <= i <= e <= |r.s| && forall k | i <= k < e :: InPlainValue(r.s[k])
    requires i - j <= 1024 * 1024 && (i == j < e ==> r.s[j] != ' ' && !IsQuote(r.s[j]))
    ensures r.scan(InValue, name, r.s[j..i], pairs, i) ==
      if e - j > 1024 * 1024 then FormOut(false, pairs) else r.scan(InValue, name, r.s[j..e], pairs, e)
    decreases e - i
  {
    if i < e {
      OneByte(r, InValue, name, r.s[j..i], pairs, i);
      SliceSnoc(r.s, j, i);
      if i - j < 1024 * 1024 {
        PlainRun(r, name, pairs, j, i + 1, e);
      }
    }
  }

  lemma {:induction false} QuotedRun(r: Reader, name: string, quote: char, pairs: seq<Field>, j: nat, i: nat, e: nat)
    requires r.Obeys() && j <= i <= e <= |r.s| && i - j <= 1024 * 1024 && forall k | i <= k < e :: r.s[k] != quote
    ensures r.scan(InQuotes(quote), name, r.s[j..i], pairs, i) ==
      if e - j > 1024 * 1024 then FormOut(false, pairs) else r.scan(InQuotes(quote), name, r.s[j..e], pairs, e)
    decreases e - i
  {
    if i < e {
      OneByte(r, InQuotes(quote), name, r.s[j..i], pairs, i);
      SliceSnoc(r.s, j, i);
      if i - j < 1024 * 1024 {
        QuotedRun(r, name, quote, pairs, j, i + 1, e);
      }
    }
  }

  lemma {:induction false} SkippedRun(r: Reader, pairs: seq<Field>, i: nat, e: nat)
    requires r.Obeys() && i <= e <= |r.s| && forall k | i <= k < e :: NotSeparator(r.s[k])
    ensures r.scan(Skipping, "", "", pairs, i) == r.scan(Skipping, "", "", pairs, e)
    decreases e - i
  {
    if i < e {
      OneByte(r, Skipping, "", "", pairs, i);
      SkippedRun(r, pairs, i + 1, e);
    }
  }

  /** `o` is what the cookie `t` leads to. */
  predicate Leads(r: Reader, o: FormOut, pairs: seq<Field>, t: Item) {
    match t
    case Refused => o == FormOut(false, pairs)
    case Last(name, value) => o == FormOut(true, Store(r.setCookie, pairs, name, value))
    case Followed(name, value, next) => o == r.scan(InName, "", "", Store(r.setCookie, pairs, name, value), next)
  }

  lemma QuotedAtRun(r: Reader, name: string, quote: char, pairs: seq<Field>, j: nat)
    requires r.Obeys() && j <= |r.s|
    ensures Leads(r, r.scan(InQuotes(quote), name, "", pairs, j), pairs, QuotedAt(r.s, name, quote, j))
  {
    var e := Span(r.s, j, c => c != quote);
    assert r.s[j..j] == "";
    QuotedRun(r, name, quote, pairs, j, j, e);
    if e - j <= 1024 * 1024 {
      if e == |r.s| {
        AtEnd(r, InQuotes(quote), name, r.s[j..e], pairs);
      } else {
        var stored := Store(r.setCookie, pairs, name, r.s[j..e]);
        OneByte(r, InQuotes(quote), name, r.s[j..e], pairs, e);
        SkippedThenNext(r, stored, e + 1);
      }
    }
  }

  /** What is ignored behind a closing quote. */
  lemma SkippedThenNext(r: Reader, pairs: seq<Field>, i: nat)
    requires r.Obeys() && i <= |r.s|
    ensures var k := Span(r.s, i, NotSeparator);
      r.scan(Skipping, "", "", pairs, i)
      == if k == |r.s| then FormOut(true, pairs) else r.scan(InName, "", "", pairs, k + 1)
  {
    var k := Span(r.s, i, NotSeparator);
    SkippedRun(r, pairs, i, k);
    if k == |r.s| {
      AtEnd(r, Skipping, "", "", pairs);
    } else {
      OneByte(r, Skipping, "", "", pairs, k);
    }
  }

  lemma ValueAtRun(r: Reader, name: string, pairs: seq<Field>, j: nat)
    requires r.Obeys() && j <= |r.s| && (j < |r.s| ==> r.s[j] != ' ')
    ensures Leads(r, r.scan(InValue, name, "", pairs, j), pairs, ValueAt(r.s, name, j))
  {
    if j < |r.s| && IsQuote(r.s[j]) {
      OneByte(r, InValue, name, "", pairs, j);
      QuotedAtRun(r, name, r.s[j], pairs, j + 1);
    } else {
      var e := Span(r.s, j, InPlainValue);
      assert r.s[j..j] == "";
      PlainRun(r, name, pairs, j, j, e);
      if e - j <= 1024 * 1024 {
        PlainEnd(r, name, pairs, j, e);
      }
    }
  }

  lemma PlainEnd(r: Reader, name: string, pairs: seq<Field>, j: nat, e: nat)
    requires r.Obeys() && j <= e <= |r.s| && e - j <= 1024 * 1024 && (e < |r.s| ==> !InPlainValue(r.s[e]))
    ensures r.scan(InValue, name, r.s[j..e], pairs, e) ==
      if e == |r.s| then FormOut(true, Store(r.setCookie, pairs, name, r.s[j..e]))
      else if IsSeparator(r.s[e]) then r.scan(InName, "", "", Store(r.setCookie, pairs, name, r.s[j..e]), e + 1)
      else FormOut(false, pairs)
  {
    if e == |r.s| {
      AtEnd(r, InValue, name, r.s[j..e], pairs);
    } else {
      OneByte(r, InValue, name, r.s[j..e], pairs, e);
    }
  }

  lemma CookieAtRun(r: Reader, pairs: seq<Field>, i: nat)
    requires r.Obeys() && i <= |r.s|
    ensures Leads(r, r.scan(InName, "", "", pairs, i), pairs, CookieAt(r.s, i))
  {
    var e := Span(r.s, i, InCookieName);
    var name := Spaceless(r.s, i, e);
    assert Spaceless(r.s, i, i) == "";
    NameRun(r, pairs, i, i, e);
    if |name| <= 1024 {
      if e == |r.s| {
        AtEnd(r, InName, name, "", pairs);
      } else {
        OneByte(r, InName, name, "", pairs, e);
        if r.s[e] == '=' {
          var j := Span(r.s, e + 1, IsSpace);
          SpacesRun(r, name, pairs, e + 1, j);
          ValueAtRun(r, name, pairs, j);
        }
      }
    }
  }

  lemma {:induction false} CookiesRun(r: Reader, pairs: seq<Field>, i: nat)
    requires r.Obeys() && i <= |r.s|
    ensures r.scan(InName, "", "", pairs, i) == CookiesFrom(r.setCookie, pairs, r.s, i)
    decreases |r.s| - i
  {
    CookieAtRun(r, pairs, i);
    var t := CookieAt(r.s, i);
    if t.Followed? {
      CookiesRun(r, Store(r.setCookie, pairs, t.name, t.value), t.next);
    }
  }

  lemma OneStep(setCookie: bool, p: Phase, name: string, value: string, pairs: seq<Field>, s: string, i: nat)
    requires i < |s|
    ensures CookieScan(setCookie, p, name, value, pairs, s[i..]) == (
              var t := StepOf(setCookie, p, name, value, pairs, s[i]);
              if t.Refuse? then FormOut(false, pairs)
              else CookieScan(setCookie, t.phase, t.name, t.value, t.pairs, s[i + 1..]))
  {
    assert s[i..][0] == s[i] && s[i..][1..] == s[i + 1..];
  }

  lemma ScanObeys(setCookie: bool, s: string) returns (r: Reader)
    ensures r.Obeys() && r.s == s && r.setCookie == setCookie
    ensures r.scan(InName, "", "", [], 0) == ParseCookies(s, setCookie)
  {
    r := Reader((p: Phase, name: string, value: string, pairs: seq<Field>, i: nat) =>
                  if i <= |s| then CookieScan(setCookie, p, name, value, pairs, s[i..]) else FormOut(true, []),
                setCookie, s);
    forall p, name, value, pairs, i: nat | i <= |s|
      ensures r.scan(p, name, value, pairs, i) == r.Unfolded(p, name, value, pairs, i)
    {
      if i < |s| {
        OneStep(setCookie, p, name, value, pairs, s, i);
      }
    }
    assert s[0..] == s;
  }

  /**
   For every text, of a request or of a Set-Cookie header: the loop over the bytes accepts it if
   and only if the reading cookie by cookie does, and inserts the same cookies.
   */
  lemma CookiesAreGrammar(s: string, setCookie: bool)
    ensures ParseCookies(s, setCookie) == CookiesFrom(setCookie, [], s, 0)
  {
    var r := ScanObeys(setCookie, s);
    CookiesRun(r, [], 0);
  }
}
