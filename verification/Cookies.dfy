/**
 Cookie headers: `parse_cookie_header` and `is_cookie_attribute` in src/http_parser.cpp, and
 `make_set_cookie_header` in http_message.hpp.
 */
module Cookies {
  import opened Bytes
  import opened HeaderMachine
  import opened Forms

  const COOKIE_NAME_MAX := 1024
  const COOKIE_VALUE_MAX := 1024 * 1024

  datatype Phase = InName | InValue | InQuotes(quote: char) | Skipping

  predicate IsCookieAttribute(name: string, setCookie: bool) {
    || name == "" || name[0] == '$'
    || (setCookie && (
          || IEquals(name, "Comment") || IEquals(name, "Domain") || IEquals(name, "Max-Age")
          || IEquals(name, "Path") || IEquals(name, "Secure") || IEquals(name, "Version")
          || IEquals(name, "Expires") || IEquals(name, "HttpOnly")))
  }

  function Store(setCookie: bool, pairs: seq<Field>, name: string, value: string): seq<Field> {
    if IsCookieAttribute(name, setCookie) then pairs else pairs + [Field(name, value)]
  }

  predicate IsSeparator(c: char) {
    c == ';' || c == ','
  }

  predicate IsQuote(c: char) {
    c == '\'' || c == '"'
  }

  /** The parser from any intermediate state to the end of the header. */
  function CookieScan(setCookie: bool, phase: Phase, name: string, value: string,
                      pairs: seq<Field>, s: string): FormOut
    decreases |s|
  {
    if s == [] then FormOut(true, Store(setCookie, pairs, name, value))
    else
      var c, rest := s[0], s[1..];
      match phase
      case InName =>
        if c == '=' then CookieScan(setCookie, InValue, name, value, pairs, rest)
        else if IsSeparator(c) then CookieScan(setCookie, InName, "", value, Store(setCookie, pairs, name, value), rest)
        else if c == ' ' then CookieScan(setCookie, InName, name, value, pairs, rest)
        else if IsControl(c) || |name| >= COOKIE_NAME_MAX then FormOut(false, pairs)
        else CookieScan(setCookie, InName, name + [c], value, pairs, rest)
      case InValue =>
        if IsSeparator(c) then CookieScan(setCookie, InName, "", "", Store(setCookie, pairs, name, value), rest)
        else if IsQuote(c) && value == "" then CookieScan(setCookie, InQuotes(c), name, value, pairs, rest)
        else if c == ' ' && value == "" then CookieScan(setCookie, InValue, name, value, pairs, rest)
        else if IsControl(c) || |value| >= COOKIE_VALUE_MAX then FormOut(false, pairs)
        else CookieScan(setCookie, InValue, name, value + [c], pairs, rest)
      case InQuotes(quote) =>
        if c == quote then CookieScan(setCookie, Skipping, "", "", Store(setCookie, pairs, name, value), rest)
        else if |value| >= COOKIE_VALUE_MAX then FormOut(false, pairs)
        else CookieScan(setCookie, phase, name, value + [c], pairs, rest)
      case Skipping =>
        CookieScan(setCookie, if IsSeparator(c) then InName else Skipping, name, value, pairs, rest)
  }

  function ParseCookies(s: string, setCookie: bool): FormOut {
    CookieScan(setCookie, InName, "", "", [], s)
  }

  /** `parse_cookie_header`: the loop over the bytes, with the quote character as in the source. */
  method ParseCookieHeader(text: string, setCookie: bool) returns (ok: bool, pairs: seq<Field>)
    ensures FormOut(ok, pairs) == ParseCookies(text, setCookie)
  {
    var i, phase, name, value := 0, InName, "", "";
    pairs := [];
    while i < |text|
      invariant 0 <= i <= |text|
      invariant CookieScan(setCookie, phase, name, value, pairs, text[i..]) == ParseCookies(text, setCookie)
    {
      var c := text[i];
      assert text[i..][0] == c && text[i..][1..] == text[i + 1..];
      match phase {
        case InName =>
          if c == '=' {
            phase := InValue;
          } else if IsSeparator(c) {
            if name != "" {
              if !IsCookieAttribute(name, setCookie) {
                pairs := pairs + [Field(name, value)];
              }
              name := "";
            }
          } else if c != ' ' {
            if IsControl(c) || |name| >= COOKIE_NAME_MAX {
              return false, pairs;
            }
            name := name + [c];
          }
        case InValue =>
          if IsSeparator(c) {
            if !IsCookieAttribute(name, setCookie) {
              pairs := pairs + [Field(name, value)];
            }
            name, value, phase := "", "", InName;
          } else if IsQuote(c) {
            if value == "" {
              phase := InQuotes(c);
            } else if |value| >= COOKIE_VALUE_MAX {
              return false, pairs;
            } else {
              value := value + [c];
            }
          } else if c != ' ' || value != "" {
            if IsControl(c) || |value| >= COOKIE_VALUE_MAX {
              return false, pairs;
            }
            value := value + [c];
          }
        case InQuotes(quote) =>
          if c == quote {
            if !IsCookieAttribute(name, setCookie) {
              pairs := pairs + [Field(name, value)];
            }
            name, value, phase := "", "", Skipping;
          } else if |value| >= COOKIE_VALUE_MAX {
            return false, pairs;
          } else {
            value := value + [c];
          }
        case Skipping =>
          if IsSeparator(c) {
            phase := InName;
          }
      }
      i := i + 1;
    }
    if !IsCookieAttribute(name, setCookie) {
      pairs := pairs + [Field(name, value)];
    }
    return true, pairs;
  }

  // Printing a Set-Cookie header.

  /** An attribute that follows the cookie: "; name=text". */
  function Attribute(name: string, text: string): string {
    "; " + name + "=" + text
  }

  function SetCookieAttributes(path: string, maxAge: Option<nat>): string {
    Attribute("Version", "1")
    + (if path == "" then "" else Attribute("Path", path))
    + (if maxAge.None? then "" else Attribute("Max-Age", Digits(10, maxAge.value)))
  }

  function SetCookieHeader(name: string, value: string, path: string, maxAge: Option<nat>): string {
    name + "=\"" + value + "\"" + SetCookieAttributes(path, maxAge)
  }

  predicate NameChars(name: string) {
    forall c | c in name :: c != '=' && !IsSeparator(c) && c != ' ' && !IsControl(c)
  }

  predicate CookieName(name: string) {
    0 < |name| <= COOKIE_NAME_MAX && NameChars(name)
  }

  /** Unquoted text that the parser reads through: no separator, no quote, no control. */
  predicate PlainText(text: string) {
    |text| <= COOKIE_VALUE_MAX && forall c | c in text :: !IsSeparator(c) && !IsQuote(c) && !IsControl(c)
  }

  lemma {:induction false} ReadName(setCookie: bool, a: string, name: string, pairs: seq<Field>, rest: string)
    requires |a| + |name| <= COOKIE_NAME_MAX
    requires NameChars(name)
    ensures CookieScan(setCookie, InName, a, "", pairs, name + ['='] + rest)
         == CookieScan(setCookie, InValue, a + name, "", pairs, rest)
    decreases |name|
  {
    var s := name + ['='] + rest;
    if name == "" {
      assert s[1..] == rest && a + name == a;
    } else {
      assert name[0] in name && forall c | c in name[1..] :: c in name;
      assert s[0] == name[0] && s[1..] == name[1..] + ['='] + rest;
      ReadName(setCookie, a + [name[0]], name[1..], pairs, rest);
      assert a + [name[0]] + name[1..] == a + name;
    }
  }

  lemma {:induction false} ReadQuoted(setCookie: bool, name: string, a: string, value: string, pairs: seq<Field>,
                                      rest: string)
    requires |a| + |value| <= COOKIE_VALUE_MAX && '"' !in value
    ensures CookieScan(setCookie, InQuotes('"'), name, a, pairs, value + ['"'] + rest)
         == CookieScan(setCookie, Skipping, "", "", Store(setCookie, pairs, name, a + value), rest)
    decreases |value|
  {
    var s := value + ['"'] + rest;
    if value == "" {
      assert s[1..] == rest && a + value == a;
    } else {
      assert s[0] == value[0] && s[1..] == value[1..] + ['"'] + rest;
      ReadQuoted(setCookie, name, a + [value[0]], value[1..], pairs, rest);
      assert a + [value[0]] + value[1..] == a + value;
    }
  }

  /** The text of an attribute is read through and stored nowhere. */
  lemma {:induction false} ReadAttributeText(name: string, a: string, text: string, pairs: seq<Field>, rest: string)
    requires IsCookieAttribute(name, true) && |a| + |text| <= COOKIE_VALUE_MAX
    requires forall c | c in text :: !IsSeparator(c) && !IsQuote(c) && !IsControl(c)
    requires rest == "" || rest[0] == ';'
    ensures CookieScan(true, InValue, name, a, pairs, text + rest)
         == CookieScan(true, Skipping, "", "", pairs, rest)
    decreases |text|
  {
    if text == "" {
      assert text + rest == rest;
    } else {
      assert (text + rest)[0] == text[0] && (text + rest)[1..] == text[1..] + rest;
      if text[0] == ' ' && a == "" {
        ReadAttributeText(name, a, text[1..], pairs, rest);
      } else {
        ReadAttributeText(name, a + [text[0]], text[1..], pairs, rest);
      }
    }
  }

  lemma ReadAttribute(name: string, text: string, pairs: seq<Field>, rest: string)
    requires CookieName(name) && IsCookieAttribute(name, true) && PlainText(text)
    requires rest == "" || rest[0] == ';'
    ensures CookieScan(true, Skipping, "", "", pairs, Attribute(name, text) + rest)
         == CookieScan(true, Skipping, "", "", pairs, rest)
  {
    var s := Attribute(name, text) + rest;
    var s2 := name + ['='] + (text + rest);
    assert s[0] == ';' && s[1..][0] == ' ' && s[1..][1..] == s2;
    ReadName(true, "", name, pairs, text + rest);
    assert "" + name == name;
    ReadAttributeText(name, "", text, pairs, rest);
  }

  lemma AttributeNames()
    ensures CookieName("Version") && IsCookieAttribute("Version", true)
    ensures CookieName("Path") && IsCookieAttribute("Path", true)
    ensures CookieName("Max-Age") && IsCookieAttribute("Max-Age", true)
    ensures PlainText("1")
  {
    assert IEquals("Version", "Version") && IEquals("Path", "Path") && IEquals("Max-Age", "Max-Age");
  }

  /** The optional path and age, after the version. */
  lemma ReadPathAndAge(path: string, age: string, pairs: seq<Field>)
    requires PlainText(path) && PlainText(age)
    ensures var pathText := if path == "" then "" else Attribute("Path", path);
      var ageText := if age == "" then "" else Attribute("Max-Age", age);
      CookieScan(true, Skipping, "", "", pairs, pathText + ageText) == FormOut(true, pairs)
  {
    AttributeNames();
    var ageText := if age == "" then "" else Attribute("Max-Age", age);
    assert CookieScan(true, Skipping, "", "", pairs, ageText) == FormOut(true, pairs) by {
      if age != "" {
        ReadAttribute("Max-Age", age, pairs, "");
        assert ageText + "" == ageText;
      }
    }
    if path != "" {
      ReadAttribute("Path", path, pairs, ageText);
    } else {
      assert "" + ageText == ageText;
    }
  }

  lemma ReadAttributes(path: string, maxAge: Option<nat>, pairs: seq<Field>)
    requires PlainText(path) && (maxAge.Some? ==> PlainText(Digits(10, maxAge.value)))
    ensures CookieScan(true, Skipping, "", "", pairs, SetCookieAttributes(path, maxAge)) == FormOut(true, pairs)
  {
    var age := if maxAge.None? then "" else Digits(10, maxAge.value);
    var pathText := if path == "" then "" else Attribute("Path", path);
    var ageText := if maxAge.None? then "" else Attribute("Max-Age", age);
    Assoc(Attribute("Version", "1"), pathText, ageText);
    AttributeNames();
    ReadAttribute("Version", "1", pairs, pathText + ageText);
    ReadPathAndAge(path, age, pairs);
  }

  /**
   Parsing a printed Set-Cookie header yields exactly the one cookie, whatever the value
   (spaces, separators and controls included) as long as it has no double quote.
   */
  lemma SetCookieRoundTrip(name: string, value: string, path: string, maxAge: Option<nat>)
    requires CookieName(name) && !IsCookieAttribute(name, true)
    requires '"' !in value && |value| <= COOKIE_VALUE_MAX
    requires PlainText(path) && (maxAge.Some? ==> |Digits(10, maxAge.value)| <= COOKIE_VALUE_MAX)
    ensures ParseCookies(SetCookieHeader(name, value, path, maxAge), true) == FormOut(true, [Field(name, value)])
  {
    var attributes := SetCookieAttributes(path, maxAge);
    var quoted := value + ['"'] + attributes;
    assert SetCookieHeader(name, value, path, maxAge) == name + ['='] + (['"'] + quoted);
    ReadName(true, "", name, [], ['"'] + quoted);
    assert "" + name == name && "" + value == value && (['"'] + quoted)[1..] == quoted;
    ReadQuoted(true, name, "", value, [], attributes);
    assert [] + [Field(name, value)] == [Field(name, value)];
    ReadAttributes(path, maxAge, [Field(name, value)]);
  }

  // Cookie headers of requests, and what any header can yield.

  /** An unquoted cookie value: quotes and spaces may occur, but not at its start. */
  predicate UnquotedValue(value: string) {
    && |value| <= COOKIE_VALUE_MAX && (forall c | c in value :: !IsSeparator(c) && !IsControl(c))
    && (value != "" ==> value[0] != ' ' && !IsQuote(value[0]))
  }

  predicate LegalCookie(f: Field) {
    CookieName(f.name) && UnquotedValue(f.value)
  }

  /** The list form of section 4.3.4 of RFC 2109, without quotes. */
  function CookieList(cookies: seq<Field>): string {
    if cookies == [] then ""
    else
      var more := if |cookies| == 1 then "" else [';', ' '] + CookieList(cookies[1..]);
      cookies[0].name + ['='] + (cookies[0].value + more)
  }

  /** The cookies that are no attributes, in order. */
  function Genuine(setCookie: bool, cookies: seq<Field>): seq<Field> {
    if cookies == [] then []
    else (if IsCookieAttribute(cookies[0].name, setCookie) then [] else [cookies[0]]) + Genuine(setCookie, cookies[1..])
  }

  lemma {:induction false} ReadUnquoted(setCookie: bool, name: string, a: string, value: string, pairs: seq<Field>,
                                        rest: string)
    requires |a| + |value| <= COOKIE_VALUE_MAX && (forall c | c in value :: !IsSeparator(c) && !IsControl(c))
    requires a == "" && value != "" ==> value[0] != ' ' && !IsQuote(value[0])
    requires rest == "" || rest[0] == ';'
    ensures CookieScan(setCookie, InValue, name, a, pairs, value + rest)
         == CookieScan(setCookie, InValue, name, a + value, pairs, rest)
    decreases |value|
  {
    if value == "" {
      assert value + rest == rest && a + value == a;
    } else {
      assert value[0] in value && forall c | c in value[1..] :: c in value;
      assert (value + rest)[0] == value[0] && (value + rest)[1..] == value[1..] + rest;
      ReadUnquoted(setCookie, name, a + [value[0]], value[1..], pairs, rest);
      assert a + [value[0]] + value[1..] == a + value;
    }
  }

  lemma ReadCookie(setCookie: bool, f: Field, pairs: seq<Field>, rest: string)
    requires LegalCookie(f) && (rest == "" || rest[0] == ';')
    ensures CookieScan(setCookie, InName, "", "", pairs, f.name + ['='] + (f.value + rest))
         == CookieScan(setCookie, InValue, f.name, f.value, pairs, rest)
  {
    ReadName(setCookie, "", f.name, pairs, f.value + rest);
    assert "" + f.name == f.name && "" + f.value == f.value;
    ReadUnquoted(setCookie, f.name, "", f.value, pairs, rest);
  }

  lemma NextCookie(setCookie: bool, f: Field, pairs: seq<Field>, later: string)
    ensures CookieScan(setCookie, InValue, f.name, f.value, pairs, [';', ' '] + later)
         == CookieScan(setCookie, InName, "", "", Store(setCookie, pairs, f.name, f.value), later)
  {
    var rest := [';', ' '] + later;
    assert rest[0] == ';' && rest[1..][0] == ' ' && rest[1..][1..] == later;
  }

  /** Parsing a list of cookies yields them in order, attributes left out. */
  lemma {:induction false} ReadCookieList(setCookie: bool, cookies: seq<Field>, pairs: seq<Field>)
    requires forall f | f in cookies :: LegalCookie(f)
    ensures CookieScan(setCookie, InName, "", "", pairs, CookieList(cookies))
         == FormOut(true, pairs + Genuine(setCookie, cookies))
    decreases |cookies|
  {
    if cookies == [] {
      assert pairs + [] == pairs;
    } else {
      var f, stored := cookies[0], Store(setCookie, pairs, cookies[0].name, cookies[0].value);
      var later := CookieList(cookies[1..]);
      assert f in cookies && forall g | g in cookies[1..] :: g in cookies;
      var kept := if IsCookieAttribute(f.name, setCookie) then [] else [f];
      assert stored == pairs + kept;
      if |cookies| == 1 {
        ReadCookie(setCookie, f, pairs, "");
        assert cookies[1..] == [] && kept + [] == kept;
      } else {
        ReadCookie(setCookie, f, pairs, [';', ' '] + later);
        NextCookie(setCookie, f, pairs, later);
        ReadCookieList(setCookie, cookies[1..], stored);
        Assoc(pairs, kept, Genuine(setCookie, cookies[1..]));
      }
    }
  }

  lemma CookieListRoundTrip(setCookie: bool, cookies: seq<Field>)
    requires forall f | f in cookies :: LegalCookie(f)
    ensures ParseCookies(CookieList(cookies), setCookie) == FormOut(true, Genuine(setCookie, cookies))
  {
    ReadCookieList(setCookie, cookies, []);
    assert [] + Genuine(setCookie, cookies) == Genuine(setCookie, cookies);
  }

  /** A cookie any header may yield: a proper name, within the limits, and no attribute. */
  predicate Yielded(setCookie: bool, f: Field) {
    CookieName(f.name) && !IsCookieAttribute(f.name, setCookie) && |f.value| <= COOKIE_VALUE_MAX
  }

  predicate AllYielded(setCookie: bool, pairs: seq<Field>) {
    forall k | 0 <= k < |pairs| :: Yielded(setCookie, pairs[k])
  }

  lemma StoreYields(setCookie: bool, pairs: seq<Field>, name: string, value: string)
    requires |name| <= COOKIE_NAME_MAX && NameChars(name) && |value| <= COOKIE_VALUE_MAX && AllYielded(setCookie, pairs)
    ensures AllYielded(setCookie, Store(setCookie, pairs, name, value))
  {
  }

  lemma NameGrows(name: string, c: char)
    requires NameChars(name) && c != '=' && !IsSeparator(c) && c != ' ' && !IsControl(c)
    ensures NameChars(name + [c])
  {
  }

  /** Whatever the text, accepted or not, only such cookies are inserted. */
  lemma {:induction false} OnlyCookiesInserted(setCookie: bool, phase: Phase, name: string, value: string,
                                               pairs: seq<Field>, s: string)
    requires |name| <= COOKIE_NAME_MAX && NameChars(name) && |value| <= COOKIE_VALUE_MAX
    requires AllYielded(setCookie, pairs)
    ensures AllYielded(setCookie, CookieScan(setCookie, phase, name, value, pairs, s).pairs)
    decreases |s|
  {
    StoreYields(setCookie, pairs, name, value);
    if s != [] {
      var c, rest := s[0], s[1..];
      var stored := Store(setCookie, pairs, name, value);
      match phase
      case InName =>
        if c == '=' {
          OnlyCookiesInserted(setCookie, InValue, name, value, pairs, rest);
        } else if IsSeparator(c) {
          OnlyCookiesInserted(setCookie, InName, "", value, stored, rest);
        } else if c == ' ' {
          OnlyCookiesInserted(setCookie, InName, name, value, pairs, rest);
        } else if !IsControl(c) && |name| < COOKIE_NAME_MAX {
          NameGrows(name, c);
          OnlyCookiesInserted(setCookie, InName, name + [c], value, pairs, rest);
        }
      case InValue =>
        if IsSeparator(c) {
          OnlyCookiesInserted(setCookie, InName, "", "", stored, rest);
        } else if IsQuote(c) && value == "" {
          OnlyCookiesInserted(setCookie, InQuotes(c), name, value, pairs, rest);
        } else if c == ' ' && value == "" {
          OnlyCookiesInserted(setCookie, InValue, name, value, pairs, rest);
        } else if !IsControl(c) && |value| < COOKIE_VALUE_MAX {
          OnlyCookiesInserted(setCookie, InValue, name, value + [c], pairs, rest);
        }
      case InQuotes(quote) =>
        if c == quote {
          OnlyCookiesInserted(setCookie, Skipping, "", "", stored, rest);
        } else if |value| < COOKIE_VALUE_MAX {
          OnlyCookiesInserted(setCookie, phase, name, value + [c], pairs, rest);
        }
      case Skipping =>
        OnlyCookiesInserted(setCookie, if IsSeparator(c) then InName else Skipping, name, value, pairs, rest);
    }
  }

  /** How the attributes look that the printer writes. */
  lemma PrintedAttributes(path: string, age: nat)
    requires path != ""
    ensures SetCookieAttributes("", None) == "; Version=1"
    ensures SetCookieAttributes(path, None) == "; Version=1" + ("; Path=" + path)
    ensures SetCookieAttributes(path, Some(age))
         == "; Version=1" + (("; Path=" + path) + ("; Max-Age=" + Digits(10, age)))
  {
    var p, n := Attribute("Path", path), Attribute("Max-Age", Digits(10, age));
    PrintedAttribute(path, Digits(10, age));
    assert Attribute("Version", "1") + "" + "" == Attribute("Version", "1");
    assert Attribute("Version", "1") + p + "" == Attribute("Version", "1") + p;
    Assoc(Attribute("Version", "1"), p, n);
  }

  lemma PrintedAttribute(path: string, age: string)
    ensures Attribute("Version", "1") == "; Version=1"
    ensures Attribute("Path", path) == "; Path=" + path
    ensures Attribute("Max-Age", age) == "; Max-Age=" + age
  {
    assert "; " + "Path" + "=" == "; Path=";
    assert "; " + "Max-Age" + "=" == "; Max-Age=";
  }
}
