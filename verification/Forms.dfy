/**
 URL-encoded forms and query strings: `parse_url_encoded` in src/http_parser.cpp against the
 grammar of such forms, and against `make_query_string` in http_message.hpp.

 `url_decode` and `url_encode` come from another library and are parameters here.
 */
module Forms {
  import opened Bytes
  import opened HeaderMachine

  const QUERY_NAME_MAX := 1024
  const QUERY_VALUE_MAX := 1024 * 1024

  /** The return value, and the pairs inserted (also those inserted before a failure). */
  datatype FormOut = FormOut(ok: bool, pairs: seq<Field>)

  predicate Ignored(c: char) {
    c == '\r' || c == '\n' || c == '\t'
  }

  function Insert(dec: string -> string, pairs: seq<Field>, name: string, value: string): seq<Field> {
    if name == "" then pairs else pairs + [Field(dec(name), dec(value))]
  }

  /** The parser from any intermediate state to the end of the input. */
  function Scan(dec: string -> string, inValue: bool, name: string, value: string,
                pairs: seq<Field>, s: string): FormOut
    decreases |s|
  {
    if s == [] then FormOut(true, Insert(dec, pairs, name, value))
    else
      var c := s[0];
      if !inValue then
        if c == '=' then Scan(dec, true, name, value, pairs, s[1..])
        else if c == '&' then Scan(dec, false, "", value, Insert(dec, pairs, name, value), s[1..])
        else if Ignored(c) then Scan(dec, false, name, value, pairs, s[1..])
        else if IsControl(c) || |name| >= QUERY_NAME_MAX then FormOut(false, pairs)
        else Scan(dec, false, name + [c], value, pairs, s[1..])
      else
        if c == '&' then Scan(dec, false, "", "", Insert(dec, pairs, name, value), s[1..])
        else if c == ',' then Scan(dec, true, name, "", Insert(dec, pairs, name, value), s[1..])
        else if Ignored(c) then Scan(dec, true, name, value, pairs, s[1..])
        else if IsControl(c) || |value| >= QUERY_VALUE_MAX then FormOut(false, pairs)
        else Scan(dec, true, name, value + [c], pairs, s[1..])
  }

  function ParseForm(dec: string -> string, s: string): FormOut {
    Scan(dec, false, "", "", [], s)
  }

  // The grammar: drop line ends and tabs, split at '&', then at the first '=', then at ','.

  function Strip(s: string): string {
    if s == [] then []
    else if Ignored(s[0]) then Strip(s[1..])
    else [s[0]] + Strip(s[1..])
  }

  /** The index of the first `sep`, or the length when there is none. */
  function Cut(s: string, sep: char): (i: nat)
    ensures i <= |s| && (i < |s| ==> s[i] == sep) && sep !in s[..i]
  {
    if s == [] || s[0] == sep then 0 else 1 + Cut(s[1..], sep)
  }

  function Split(s: string, sep: char): (parts: seq<string>)
    ensures |parts| > 0
    decreases |s|
  {
    var i := Cut(s, sep);
    if i == |s| then [s] else [s[..i]] + Split(s[i + 1..], sep)
  }

  function NamedValues(dec: string -> string, name: string, values: seq<string>): seq<Field> {
    if name == "" || values == [] then []
    else [Field(dec(name), dec(values[0]))] + NamedValues(dec, name, values[1..])
  }

  function SegmentPairs(dec: string -> string, segment: string): seq<Field> {
    var i := Cut(segment, '=');
    NamedValues(dec, segment[..i], if i == |segment| then [""] else Split(segment[i + 1..], ','))
  }

  /** The first segment of a text, up to the first '&'. */
  function FirstSegment(text: string): string {
    text[..Cut(text, '&')]
  }

  function TextPairs(dec: string -> string, text: string): seq<Field>
    decreases |text|, 1
  {
    SegmentPairs(dec, FirstSegment(text)) + LaterPairs(dec, text)
  }

  /** The pairs of the segments after the first. */
  function LaterPairs(dec: string -> string, text: string): seq<Field>
    decreases |text|, 0
  {
    var i := Cut(text, '&');
    if i == |text| then [] else TextPairs(dec, text[i + 1..])
  }

  /** The pairs a form denotes. */
  function FormPairs(dec: string -> string, s: string): seq<Field> {
    TextPairs(dec, Strip(s))
  }

  predicate ValuesLegal(values: seq<string>) {
    forall v | v in values :: |v| <= QUERY_VALUE_MAX
  }

  predicate SegmentLegal(segment: string) {
    var i := Cut(segment, '=');
    i <= QUERY_NAME_MAX && (i < |segment| ==> ValuesLegal(Split(segment[i + 1..], ',')))
  }

  predicate TextLegal(text: string)
    decreases |text|, 1
  {
    SegmentLegal(FirstSegment(text)) && LaterLegal(text)
  }

  predicate LaterLegal(text: string)
    decreases |text|, 0
  {
    var i := Cut(text, '&');
    i < |text| ==> TextLegal(text[i + 1..])
  }

  /** The forms the parser accepts: no control bytes, and names and values within their limits. */
  predicate FormLegal(s: string) {
    NoControls(s) && TextLegal(Strip(s))
  }

  // The two views of a suffix that starts inside a value.

  function RestPairs(dec: string -> string, name: string, text: string): seq<Field> {
    NamedValues(dec, name, Split(FirstSegment(text), ',')) + LaterPairs(dec, text)
  }

  predicate RestLegal(text: string) {
    ValuesLegal(Split(FirstSegment(text), ',')) && LaterLegal(text)
  }

  lemma {:induction false} CutAfter(a: string, b: string, sep: char)
    requires sep !in a
    ensures Cut(a + b, sep) == |a| + Cut(b, sep)
  {
    if a == [] {
      assert a + b == b;
    } else {
      assert (a + b)[0] == a[0] && (a + b)[1..] == a[1..] + b;
      CutAfter(a[1..], b, sep);
    }
  }

  lemma CutNone(a: string, sep: char)
    requires sep !in a
    ensures Cut(a, sep) == |a|
  {
    CutAfter(a, "", sep);
    assert a + "" == a;
  }

  /** A prefix without '&' belongs to the first segment and changes nothing after it. */
  lemma PrefixOfSegment(dec: string -> string, p: string, rest: string)
    requires '&' !in p
    ensures FirstSegment(p + rest) == p + FirstSegment(rest)
    ensures LaterPairs(dec, p + rest) == LaterPairs(dec, rest)
    ensures LaterLegal(p + rest) <==> LaterLegal(rest)
  {
    var i := Cut(rest, '&');
    CutAfter(p, rest, '&');
    if i < |rest| {
      assert (p + rest)[|p| + i + 1..] == rest[i + 1..];
    }
  }

  /** A segment that ends in '&'. */
  lemma SegmentThenAmpersand(dec: string -> string, segment: string, rest: string)
    requires '&' !in segment
    ensures FirstSegment(segment + ['&'] + rest) == segment
    ensures LaterPairs(dec, segment + ['&'] + rest) == TextPairs(dec, rest)
    ensures LaterLegal(segment + ['&'] + rest) <==> TextLegal(rest)
  {
    SplitAt(segment, rest, '&');
  }

  /** A segment that ends with the text. */
  lemma LastSegment(dec: string -> string, segment: string)
    requires '&' !in segment
    ensures FirstSegment(segment) == segment && LaterPairs(dec, segment) == [] && LaterLegal(segment)
  {
    CutNone(segment, '&');
    assert segment[..|segment|] == segment;
  }

  lemma SplitAt(a: string, b: string, sep: char)
    requires sep !in a
    ensures Cut(a + [sep] + b, sep) == |a|
    ensures (a + [sep] + b)[..|a|] == a && (a + [sep] + b)[|a| + 1..] == b
    ensures Split(a + [sep] + b, sep) == [a] + Split(b, sep)
  {
    assert a + [sep] + b == a + ([sep] + b);
    CutAfter(a, [sep] + b, sep);
  }

  lemma ConsValues(dec: string -> string, name: string, value: string, more: seq<string>)
    ensures NamedValues(dec, name, [value] + more) == NamedValues(dec, name, [value]) + NamedValues(dec, name, more)
    ensures ValuesLegal([value] + more) <==> |value| <= QUERY_VALUE_MAX && ValuesLegal(more)
  {
    assert ([value] + more)[1..] == more;
    assert forall v :: v in [value] + more <==> v == value || v in more;
  }

  lemma InsertIsNamed(dec: string -> string, pairs: seq<Field>, name: string, value: string)
    ensures Insert(dec, pairs, name, value) == pairs + NamedValues(dec, name, [value])
  {
  }

  /** At an '&', a value ends and a new segment starts. */
  lemma ValueThenAmpersand(dec: string -> string, name: string, value: string, rest: string)
    requires '&' !in value && ',' !in value
    ensures RestPairs(dec, name, value + ['&'] + rest) == NamedValues(dec, name, [value]) + TextPairs(dec, rest)
    ensures RestLegal(value + ['&'] + rest) <==> |value| <= QUERY_VALUE_MAX && TextLegal(rest)
  {
    SegmentThenAmpersand(dec, value, rest);
    CutNone(value, ',');
  }

  /** At a ',', a value ends and another one of the same name starts. */
  lemma ValueThenComma(dec: string -> string, name: string, value: string, rest: string)
    requires '&' !in value && ',' !in value
    ensures RestPairs(dec, name, value + [','] + rest) == NamedValues(dec, name, [value]) + RestPairs(dec, name, rest)
    ensures RestLegal(value + [','] + rest) <==> |value| <= QUERY_VALUE_MAX && RestLegal(rest)
  {
    PrefixOfSegment(dec, value + [','], rest);
    SplitAt(value, FirstSegment(rest), ',');
    ConsValues(dec, name, value, Split(FirstSegment(rest), ','));
    Assoc(NamedValues(dec, name, [value]), NamedValues(dec, name, Split(FirstSegment(rest), ',')),
          LaterPairs(dec, rest));
  }

  lemma SegmentWithEquals(dec: string -> string, name: string, tail: string)
    requires '=' !in name
    ensures SegmentPairs(dec, name + ['='] + tail) == NamedValues(dec, name, Split(tail, ','))
    ensures SegmentLegal(name + ['='] + tail) <==> |name| <= QUERY_NAME_MAX && ValuesLegal(Split(tail, ','))
  {
    SplitAt(name, tail, '=');
  }

  /** At an '=', the name ends. */
  lemma NameThenEquals(dec: string -> string, name: string, rest: string)
    requires '&' !in name && '=' !in name
    ensures TextPairs(dec, name + ['='] + rest) == RestPairs(dec, name, rest)
    ensures TextLegal(name + ['='] + rest) <==> |name| <= QUERY_NAME_MAX && RestLegal(rest)
  {
    PrefixOfSegment(dec, name + ['='], rest);
    SegmentWithEquals(dec, name, FirstSegment(rest));
  }

  lemma SegmentWithoutEquals(dec: string -> string, name: string)
    requires '=' !in name
    ensures SegmentPairs(dec, name) == NamedValues(dec, name, [""])
    ensures SegmentLegal(name) <==> |name| <= QUERY_NAME_MAX
  {
    CutNone(name, '=');
    assert name[..|name|] == name;
  }

  /** At an '&', a segment without '=' ends: a name with an empty value. */
  lemma NameThenAmpersand(dec: string -> string, name: string, rest: string)
    requires '&' !in name && '=' !in name
    ensures TextPairs(dec, name + ['&'] + rest) == NamedValues(dec, name, [""]) + TextPairs(dec, rest)
    ensures TextLegal(name + ['&'] + rest) <==> |name| <= QUERY_NAME_MAX && TextLegal(rest)
  {
    SegmentThenAmpersand(dec, name, rest);
    SegmentWithoutEquals(dec, name);
  }

  lemma NameEnds(dec: string -> string, name: string)
    requires '&' !in name && '=' !in name
    ensures TextPairs(dec, name) == NamedValues(dec, name, [""])
    ensures TextLegal(name) <==> |name| <= QUERY_NAME_MAX
  {
    LastSegment(dec, name);
    SegmentWithoutEquals(dec, name);
  }

  lemma ValueEnds(dec: string -> string, name: string, value: string)
    requires '&' !in value && ',' !in value
    ensures RestPairs(dec, name, value) == NamedValues(dec, name, [value])
    ensures RestLegal(value) <==> |value| <= QUERY_VALUE_MAX
  {
    LastSegment(dec, value);
    CutNone(value, ',');
  }

  /** A plain character of a form: neither a delimiter, nor ignored, nor a control. */
  predicate Clean(s: string) {
    forall c | c in s :: c != '&' && c != '=' && c != ',' && !Ignored(c) && !IsControl(c)
  }

  /**
   From any state inside a name: success exactly on legal text, and then the grammar's pairs.
   */
  lemma {:induction false} ScanName(dec: string -> string, name: string, pairs: seq<Field>, s: string)
    requires '&' !in name && '=' !in name && |name| <= QUERY_NAME_MAX
    ensures var out := Scan(dec, false, name, "", pairs, s);
      && (out.ok <==> NoControls(s) && TextLegal(name + Strip(s)))
      && (out.ok ==> out.pairs == pairs + TextPairs(dec, name + Strip(s)))
    decreases |s|
  {
    if s == [] {
      assert name + Strip(s) == name;
      NameEnds(dec, name);
      InsertIsNamed(dec, pairs, name, "");
    } else {
      var c, rest := s[0], Strip(s[1..]);
      NoControlsHead(s);
      if Ignored(c) {
        ScanName(dec, name, pairs, s[1..]);
      } else {
        assert name + Strip(s) == name + [c] + rest;
        if c == '=' {
          NameThenEquals(dec, name, rest);
          ScanValue(dec, name, "", pairs, s[1..]);
          assert "" + rest == rest;
        } else if c == '&' {
          NameThenAmpersand(dec, name, rest);
          ScanName(dec, "", Insert(dec, pairs, name, ""), s[1..]);
          assert "" + rest == rest;
          InsertIsNamed(dec, pairs, name, "");
          Assoc(pairs, NamedValues(dec, name, [""]), TextPairs(dec, rest));
        } else if |name| >= QUERY_NAME_MAX {
          LongName(dec, name + [c], rest);
        } else if !IsControl(c) {
          ScanName(dec, name + [c], pairs, s[1..]);
        }
      }
    }
  }

  lemma {:induction false} ScanValue(dec: string -> string, name: string, value: string, pairs: seq<Field>, s: string)
    requires '&' !in value && ',' !in value && |value| <= QUERY_VALUE_MAX
    ensures var out := Scan(dec, true, name, value, pairs, s);
      && (out.ok <==> NoControls(s) && RestLegal(value + Strip(s)))
      && (out.ok ==> out.pairs == pairs + RestPairs(dec, name, value + Strip(s)))
    decreases |s|
  {
    if s == [] {
      assert value + Strip(s) == value;
      ValueEnds(dec, name, value);
      InsertIsNamed(dec, pairs, name, value);
    } else {
      var c, rest := s[0], Strip(s[1..]);
      NoControlsHead(s);
      if Ignored(c) {
        ScanValue(dec, name, value, pairs, s[1..]);
      } else {
        assert value + Strip(s) == value + [c] + rest;
        if c == '&' {
          ValueThenAmpersand(dec, name, value, rest);
          ScanName(dec, "", Insert(dec, pairs, name, value), s[1..]);
          assert "" + rest == rest;
          InsertIsNamed(dec, pairs, name, value);
          Assoc(pairs, NamedValues(dec, name, [value]), TextPairs(dec, rest));
        } else if c == ',' {
          ValueThenComma(dec, name, value, rest);
          ScanValue(dec, name, "", Insert(dec, pairs, name, value), s[1..]);
          assert "" + rest == rest;
          InsertIsNamed(dec, pairs, name, value);
          Assoc(pairs, NamedValues(dec, name, [value]), RestPairs(dec, name, rest));
        } else if |value| >= QUERY_VALUE_MAX {
          LongValue(dec, value + [c], rest);
        } else if !IsControl(c) {
          ScanValue(dec, name, value + [c], pairs, s[1..]);
        }
      }
    }
  }

  predicate NoControls(s: string) {
    forall c | c in s :: Ignored(c) || !IsControl(c)
  }

  lemma NoControlsHead(s: string)
    requires s != []
    ensures NoControls(s) <==> (Ignored(s[0]) || !IsControl(s[0])) && NoControls(s[1..])
  {
    assert s == [s[0]] + s[1..];
  }

  lemma LongName(dec: string -> string, name: string, rest: string)
    requires '&' !in name && '=' !in name && |name| > QUERY_NAME_MAX
    ensures !TextLegal(name + rest)
  {
    PrefixOfSegment(dec, name, rest);
    CutAfter(name, FirstSegment(rest), '=');
  }

  lemma LongFirstValue(value: string, rest: string)
    requires ',' !in value && |value| > QUERY_VALUE_MAX
    ensures !ValuesLegal(Split(value + rest, ','))
  {
    CutAfter(value, rest, ',');
    var first := Split(value + rest, ',')[0];
    assert first == (value + rest)[..Cut(value + rest, ',')];
    assert first in Split(value + rest, ',');
  }

  lemma LongValue(dec: string -> string, value: string, rest: string)
    requires '&' !in value && ',' !in value && |value| > QUERY_VALUE_MAX
    ensures !RestLegal(value + rest)
  {
    PrefixOfSegment(dec, value, rest);
    LongFirstValue(value, FirstSegment(rest));
  }

  /**
   Form decoding equals its grammar: the parser succeeds exactly on legal forms, and then it
   has inserted exactly the pairs the form denotes, in order.
   */
  lemma ParseFormIsGrammar(dec: string -> string, s: string)
    ensures ParseForm(dec, s).ok <==> FormLegal(s)
    ensures FormLegal(s) ==> ParseForm(dec, s).pairs == FormPairs(dec, s)
  {
    ScanName(dec, "", [], s);
    assert "" + Strip(s) == Strip(s);
  }

  /** `parse_url_encoded`: the loop over the bytes, with the dictionary as a sequence of pairs. */
  method ParseUrlEncoded(dec: string -> string, text: string) returns (ok: bool, pairs: seq<Field>)
    ensures ok <==> FormLegal(text)
    ensures ok ==> pairs == FormPairs(dec, text)
    ensures FormOut(ok, pairs) == ParseForm(dec, text)
  {
    ParseFormIsGrammar(dec, text);
    var i, inValue, name, value := 0, false, "", "";
    pairs := [];
    while i < |text|
      invariant 0 <= i <= |text|
      invariant Scan(dec, inValue, name, value, pairs, text[i..]) == ParseForm(dec, text)
    {
      var c := text[i];
      assert text[i..][0] == c && text[i..][1..] == text[i + 1..];
      if !inValue {
        if c == '=' {
          inValue := true;
        } else if c == '&' {
          if name != "" {
            pairs := pairs + [Field(dec(name), dec(value))];
            name := "";
          }
        } else if Ignored(c) {
        } else if IsControl(c) || |name| >= QUERY_NAME_MAX {
          return false, pairs;
        } else {
          name := name + [c];
        }
      } else {
        if c == '&' {
          if name != "" {
            pairs := pairs + [Field(dec(name), dec(value))];
            name := "";
          }
          value := "";
          inValue := false;
        } else if c == ',' {
          if name != "" {
            pairs := pairs + [Field(dec(name), dec(value))];
          }
          value := "";
        } else if Ignored(c) {
        } else if IsControl(c) || |value| >= QUERY_VALUE_MAX {
          return false, pairs;
        } else {
          value := value + [c];
        }
      }
      i := i + 1;
    }
    if name != "" {
      pairs := pairs + [Field(dec(name), dec(value))];
    }
    return true, pairs;
  }

  // Printing.

  function QueryPair(enc: string -> string, f: Field): string {
    enc(f.name) + ['='] + enc(f.value)
  }

  function QueryString(enc: string -> string, pairs: seq<Field>): string {
    if pairs == [] then ""
    else if |pairs| == 1 then QueryPair(enc, pairs[0])
    else QueryPair(enc, pairs[0]) + ['&'] + QueryString(enc, pairs[1..])
  }

  /** `make_query_string`: an appending loop. */
  method MakeQueryString(enc: string -> string, pairs: seq<Field>) returns (query: string)
    ensures query == QueryString(enc, pairs)
  {
    query := "";
    var i := 0;
    while i < |pairs|
      invariant 0 <= i <= |pairs|
      invariant i == 0 ==> query == ""
      invariant i > 0 ==> query + Tail(enc, pairs[i..]) == QueryString(enc, pairs)
    {
      assert pairs[i..][0] == pairs[i] && pairs[i..][1..] == pairs[i + 1..];
      ghost var before := query;
      if i != 0 {
        query := query + ['&'];
      }
      query := query + enc(pairs[i].name);
      query := query + ['='];
      query := query + enc(pairs[i].value);
      if i == 0 {
        assert pairs[0..] == pairs && query == QueryPair(enc, pairs[0]);
        FirstPair(enc, pairs);
      } else {
        assert query == before + (['&'] + QueryPair(enc, pairs[i]));
        Assoc(before, ['&'] + QueryPair(enc, pairs[i]), Tail(enc, pairs[i + 1..]));
      }
      i := i + 1;
    }
    assert pairs[|pairs|..] == [];
  }

  /** What the loop still appends once the first pair is out. */
  function Tail(enc: string -> string, pairs: seq<Field>): string {
    if pairs == [] then "" else ['&'] + QueryPair(enc, pairs[0]) + Tail(enc, pairs[1..])
  }

  lemma {:induction false} FirstPair(enc: string -> string, pairs: seq<Field>)
    requires pairs != []
    ensures QueryString(enc, pairs) == QueryPair(enc, pairs[0]) + Tail(enc, pairs[1..])
    decreases |pairs|
  {
    if |pairs| == 1 {
      assert pairs[1..] == [];
    } else {
      FirstPair(enc, pairs[1..]);
    }
  }

  /**
   What the round trip needs of the URL codec, on one pair: decoding inverts encoding, the
   encoded text is free of delimiters and controls, a name does not encode to nothing, and
   the encoded sizes are within the parser's limits.
   */
  predicate Encodable(enc: string -> string, dec: string -> string, f: Field) {
    && dec(enc(f.name)) == f.name && dec(enc(f.value)) == f.value
    && Clean(enc(f.name)) && Clean(enc(f.value))
    && 0 < |enc(f.name)| <= QUERY_NAME_MAX && |enc(f.value)| <= QUERY_VALUE_MAX
  }

  lemma {:induction false} StripNothing(s: string)
    requires forall c | c in s :: !Ignored(c)
    ensures Strip(s) == s
  {
    if s != [] {
      StripNothing(s[1..]);
    }
  }

  lemma PairAlone(enc: string -> string, dec: string -> string, f: Field)
    requires Encodable(enc, dec, f)
    ensures TextLegal(QueryPair(enc, f)) && TextPairs(dec, QueryPair(enc, f)) == [f]
  {
    NameThenEquals(dec, enc(f.name), enc(f.value));
    ValueEnds(dec, enc(f.name), enc(f.value));
  }

  lemma PairThenRest(enc: string -> string, dec: string -> string, f: Field, rest: string)
    requires Encodable(enc, dec, f)
    ensures TextLegal(QueryPair(enc, f) + ['&'] + rest) <==> TextLegal(rest)
    ensures TextPairs(dec, QueryPair(enc, f) + ['&'] + rest) == [f] + TextPairs(dec, rest)
  {
    var name, value := enc(f.name), enc(f.value);
    Assoc(name + ['='], value, ['&']);
    Assoc(name + ['='], value + ['&'], rest);
    NameThenEquals(dec, name, value + ['&'] + rest);
    ValueThenAmpersand(dec, name, value, rest);
    assert NamedValues(dec, name, [value]) == [f];
  }

  lemma {:induction false} QueryStringText(enc: string -> string, dec: string -> string, pairs: seq<Field>)
    requires forall f | f in pairs :: Encodable(enc, dec, f)
    ensures TextLegal(QueryString(enc, pairs)) && TextPairs(dec, QueryString(enc, pairs)) == pairs
    decreases |pairs|
  {
    if pairs == [] {
      NameEnds(dec, "");
    } else if |pairs| == 1 {
      PairAlone(enc, dec, pairs[0]);
    } else {
      QueryStringText(enc, dec, pairs[1..]);
      PairThenRest(enc, dec, pairs[0], QueryString(enc, pairs[1..]));
    }
  }

  lemma {:induction false} QueryStringChars(enc: string -> string, dec: string -> string, pairs: seq<Field>)
    requires forall f | f in pairs :: Encodable(enc, dec, f)
    ensures forall c | c in QueryString(enc, pairs) :: !Ignored(c) && !IsControl(c)
    decreases |pairs|
  {
    if pairs != [] {
      assert Encodable(enc, dec, pairs[0]);
      QueryStringChars(enc, dec, pairs[1..]);
    }
  }

  /** Parsing a printed query string recovers the pairs. */
  lemma QueryStringRoundTrip(enc: string -> string, dec: string -> string, pairs: seq<Field>)
    requires forall f | f in pairs :: Encodable(enc, dec, f)
    ensures ParseForm(dec, QueryString(enc, pairs)) == FormOut(true, pairs)
  {
    var q := QueryString(enc, pairs);
    QueryStringText(enc, dec, pairs);
    QueryStringChars(enc, dec, pairs);
    StripNothing(q);
    ParseFormIsGrammar(dec, q);
  }

  // What the grammar says, case by case.

  /** Dropped are CR, LF and tabs, wherever they stand, and nothing else. */
  lemma {:induction false} StripDrops(a: string, c: char, b: string)
    ensures Strip(a + [c] + b) ==
      if c == '\r' || c == '\n' || c == '\t' then Strip(a + b) else Strip(a) + ([c] + Strip(b))
    decreases |a|
  {
    var s := a + [c] + b;
    if a == "" {
      assert s[0] == c && s[1..] == b && a + b == b;
    } else {
      assert s[0] == a[0] && s[1..] == a[1..] + [c] + b;
      assert (a + b)[0] == a[0] && (a + b)[1..] == a[1..] + b;
      StripDrops(a[1..], c, b);
    }
  }

  /** A control anywhere else makes the form illegal. */
  lemma ControlsAreIllegal(s: string)
    ensures NoControls(s) <==> forall k | 0 <= k < |s| ::
      (s[k] as int > 31 && s[k] as int != 127) || s[k] == '\r' || s[k] == '\n' || s[k] == '\t'
  {
    forall k | 0 <= k < |s| && NoControls(s)
      ensures (s[k] as int > 31 && s[k] as int != 127) || s[k] == '\r' || s[k] == '\n' || s[k] == '\t'
    {
      assert s[k] in s;
    }
  }

  /** The values of a segment, with a comma in between. */
  function Joined(values: seq<string>): string
    requires values != []
  {
    if |values| == 1 then values[0] else values[0] + [','] + Joined(values[1..])
  }

  lemma {:induction false} SplitJoined(values: seq<string>)
    requires values != [] && forall k | 0 <= k < |values| :: ',' !in values[k]
    ensures Split(Joined(values), ',') == values
  {
    if |values| == 1 {
      CutNone(values[0], ',');
    } else {
      SplitJoined(values[1..]);
      SplitAt(values[0], Joined(values[1..]), ',');
    }
  }

  /** A nameless segment gives no pairs, and any other one a pair for each of its values. */
  lemma {:induction false} NamedValuesAt(dec: string -> string, name: string, values: seq<string>)
    ensures name == "" ==> NamedValues(dec, name, values) == []
    ensures name != "" ==>
      && |NamedValues(dec, name, values)| == |values|
      && forall k | 0 <= k < |values| :: NamedValues(dec, name, values)[k] == Field(dec(name), dec(values[k]))
    decreases |values|
  {
    if values != [] {
      NamedValuesAt(dec, name, values[1..]);
    }
  }

  /** What a segment with an equals sign means, and when it is legal. */
  lemma SegmentMeans(dec: string -> string, name: string, values: seq<string>)
    requires '=' !in name && values != [] && forall k | 0 <= k < |values| :: ',' !in values[k]
    ensures var pairs := SegmentPairs(dec, name + ['='] + Joined(values));
      if name == "" then pairs == []
      else |pairs| == |values| && forall k | 0 <= k < |values| :: pairs[k] == Field(dec(name), dec(values[k]))
    ensures SegmentLegal(name + ['='] + Joined(values))
       <==> |name| <= 1024 && forall k | 0 <= k < |values| :: |values[k]| <= 1024 * 1024
  {
    SegmentWithEquals(dec, name, Joined(values));
    SplitJoined(values);
    NamedValuesAt(dec, name, values);
    assert forall k | 0 <= k < |values| :: values[k] in values;
  }

  /** A segment without one is a name with an empty value. */
  lemma NameMeans(dec: string -> string, name: string)
    requires '=' !in name
    ensures SegmentPairs(dec, name) == if name == "" then [] else [Field(dec(name), dec(""))]
    ensures SegmentLegal(name) <==> |name| <= 1024
  {
    SegmentWithoutEquals(dec, name);
    assert [""][1..] == [];
  }

  /** Segments are read one after the other. */
  lemma TextMeans(dec: string -> string, segment: string, rest: string)
    requires '&' !in segment
    ensures TextPairs(dec, segment) == SegmentPairs(dec, segment) && (TextLegal(segment) <==> SegmentLegal(segment))
    ensures TextPairs(dec, segment + ['&'] + rest) == SegmentPairs(dec, segment) + TextPairs(dec, rest)
    ensures TextLegal(segment + ['&'] + rest) <==> SegmentLegal(segment) && TextLegal(rest)
  {
    LastSegment(dec, segment);
    SegmentThenAmpersand(dec, segment, rest);
    assert SegmentPairs(dec, segment) + [] == SegmentPairs(dec, segment);
  }

  /** How a query string looks, where nothing needs encoding. */
  lemma PrintedQuery(enc: string -> string)
    requires enc("a") == "a" && enc("b") == "b" && enc("c") == "c" && enc("d") == "d"
    ensures QueryString(enc, [Field("a", "b"), Field("c", "d")]) == "a=b&c=d"
  {
    assert [Field("a", "b"), Field("c", "d")][1..] == [Field("c", "d")];
  }
}
