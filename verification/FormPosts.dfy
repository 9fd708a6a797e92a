/**
 Forms and cookies through the whole parser: what `finish` and the end of the head do with the
 parsers for queries, url-encoded and multipart bodies, and Cookie headers, for the parser's own
 hook, which keeps every body in the message.
 */
module FormPosts {
  import opened Bytes
  import opened HeaderMachine
  import opened Headers
  import opened RequestText
  import opened Parsing
  import opened Messages
  import opened Forms
  import opened Cookies
  import opened Multipart
  import opened Pipelines
  import opened HttpServer
  import MultipartGrammar
  import MultipartText

  /** The settings of a plain `http_parser`. */
  function ParserConfig(max: nat, saveRaw: bool, env: Foreign): Config {
    Standard(max, false, saveRaw, env, _ => Proceed)
  }

  /** The content type when `finish` looks at it: trailers count. */
  function ContentType(env: Foreign, x: Sent): string {
    Get(env.find, x.q.fields + x.Trailers(), "Content-Type")
  }

  /** The form in what the message keeps of the body. */
  function PostedForm(max: nat, env: Foreign, x: Sent): FormEnd {
    FormOf(env.find, env.dec, x.q.fields + x.Trailers(), x.Cut(max))
  }

  /** The body can be completed: a chunked one has to fit the maximum. */
  predicate Completable(max: nat, x: Sent) {
    x.body.InChunks? ==> |x.Data()| <= max
  }

  /**
   Any request whose header fields announce its body, fixed-length or chunked, within the
   maximum or not: what the message ends up with, and whether an exception leaves `parse`.
   */
  lemma BodyIsParsed(max: nat, saveRaw: bool, env: Foreign, x: Sent, rest: string)
    requires env.Lawful() && Legal(x.q) && Announced(x)
    ensures var r := ParseRun(ParserConfig(max, saveRaw, env), NewReader(), x.Text() + rest);
      if !Completable(max, x) then r.verdict.More? || r.verdict.Fail?
      else
        var form := PostedForm(max, env, x);
        && r.verdict == (if form.raised then Raised else Done) && r.n == |x.Text()|
        && r.p.msg.content == x.Cut(max) && r.p.msg.head == x.TrailedHead()
        && r.p.msg.cookies == CookiesOf(x.q.fields)
        && r.p.msg.queries == ParseForm(env.dec, x.q.query).pairs + form.pairs
  {
    var cfg := ParserConfig(max, saveRaw, env);
    AnnouncedIsLegal(cfg, env, x);
    KeptIsParsed(cfg, (_, _) => Proceed, x, rest);
  }

  lemma WholeBody(max: nat, x: Sent)
    requires |x.Data()| <= max
    ensures Completable(max, x) && x.Cut(max) == x.Data()
  {
    assert x.Data()[..|x.Data()|] == x.Data();
  }

  /** A posted url-encoded form: the pairs of the query string, then the pairs of the form. */
  lemma FormPost(max: nat, saveRaw: bool, enc: string -> string, env: Foreign, x: Sent, inQuery: seq<Field>,
                 inBody: seq<Field>, rest: string)
    requires env.Lawful() && Legal(x.q) && Announced(x) && "application/x-www-form-urlencoded" <= ContentType(env, x)
    requires (forall f | f in inQuery :: Encodable(enc, env.dec, f)) && x.q.query == QueryString(enc, inQuery)
    requires (forall f | f in inBody :: Encodable(enc, env.dec, f)) && x.Data() == QueryString(enc, inBody)
    requires |x.Data()| <= max
    ensures var r := ParseRun(ParserConfig(max, saveRaw, env), NewReader(), x.Text() + rest);
      r.verdict == Done && r.n == |x.Text()| && r.p.msg.queries == inQuery + inBody
  {
    BodyIsParsed(max, saveRaw, env, x, rest);
    WholeBody(max, x);
    QueryStringRoundTrip(enc, env.dec, inQuery);
    QueryStringRoundTrip(enc, env.dec, inBody);
  }

  lemma MultipartForm(max: nat, env: Foreign, x: Sent)
    ensures var r := ParseMultipart(ContentType(env, x), x.Cut(max));
      FORM_DATA <= ContentType(env, x) ==> PostedForm(max, env, x) == FormEnd(r.pairs, r.Threw?)
    ensures !(FORM_DATA <= ContentType(env, x)) ==> !PostedForm(max, env, x).raised
  {
    var ctype := ContentType(env, x);
    assert FORM_DATA <= ctype ==> ctype[0] == 'm';
    assert URLENCODED <= ctype ==> ctype[0] == 'a';
  }

  /** A posted multipart form: the pairs of the query string, then the named text fields. */
  lemma MultipartPost(max: nat, saveRaw: bool, env: Foreign, x: Sent, pre: string, b: string,
                      parts: seq<MultipartText.FormPart>, rest: string)
    requires env.Lawful() && Legal(x.q) && Announced(x) && "multipart/form-data" <= ContentType(env, x)
    requires NamesBoundary(ContentType(env, x), pre, b) && MultipartText.NoLineEnd(b)
    requires forall k | 0 <= k < |parts| :: MultipartText.PlainPart("--" + b, parts[k])
    requires x.Data() == MultipartText.EncodeParts("--" + b, parts) && |x.Data()| <= max
    ensures var r := ParseRun(ParserConfig(max, saveRaw, env), NewReader(), x.Text() + rest);
      && r.verdict == Done && r.n == |x.Text()|
      && r.p.msg.queries == ParseForm(env.dec, x.q.query).pairs + MultipartText.TextFields(parts)
  {
    BodyIsParsed(max, saveRaw, env, x, rest);
    WholeBody(max, x);
    MultipartForm(max, env, x);
    MultipartText.MultipartRoundTrip(ContentType(env, x), pre, b, parts);
  }

  /** The body has a named text part with the boundary right behind the CR LF of its blank line. */
  predicate HasNegativeField(body: string, b: string)
    requires |b| >= 2
  {
    var parts := MultipartGrammar.FormOfBody(body, b).parts;
    exists k | 0 <= k < |parts| :: parts[k].Negative()
  }

  lemma ThrowsIfNegative(contentType: string, body: string)
    ensures ParseMultipart(contentType, body).Threw?
       <==> BoundaryOf(contentType).Some? && HasNegativeField(body, BoundaryOf(contentType).value)
  {
    MultipartGrammar.ThrowsExactly(contentType, body);
  }

  /**
   For every request, however its body is framed and however long it is: `parse` itself is left
   by an exception if and only if the body can be completed, its type is that of a multipart
   form, and what the message keeps of it has a field of negative length.
   */
  lemma ParseRaisesExactly(max: nat, saveRaw: bool, env: Foreign, x: Sent, rest: string)
    requires env.Lawful() && Legal(x.q) && Announced(x)
    ensures var r := ParseRun(ParserConfig(max, saveRaw, env), NewReader(), x.Text() + rest);
      var b := BoundaryOf(ContentType(env, x));
      r.verdict == Raised
      <==> (Completable(max, x) && "multipart/form-data" <= ContentType(env, x)
            && b.Some? && HasNegativeField(x.Cut(max), b.value))
  {
    BodyIsParsed(max, saveRaw, env, x, rest);
    MultipartForm(max, env, x);
    ThrowsIfNegative(ContentType(env, x), x.Cut(max));
  }

  /** A request gets the cookies of all its Cookie headers, in order. */
  lemma {:induction false} CookieHeaders(fields: seq<Field>, lists: seq<seq<Field>>)
    requires Each(Values(fields, "Cookie"), lists)
    ensures CookiesOf(fields) == Flatten(lists)
    decreases |fields|
  {
    if fields != [] {
      var later := Values(fields[1..], "Cookie");
      if IEquals(fields[0].name, "Cookie") {
        EachTail(fields[0].value, later, lists);
        CookieHeaders(fields[1..], lists[1..]);
      } else {
        assert [] + later == later;
        assert [] + CookiesOf(fields[1..]) == CookiesOf(fields[1..]);
        CookieHeaders(fields[1..], lists);
      }
    }
  }

  /** The lists are those of the cookies in the values. */
  predicate Each(values: seq<string>, lists: seq<seq<Field>>) {
    |lists| == |values| && forall k | 0 <= k < |lists| :: lists[k] == ParseCookies(values[k], false).pairs
  }

  lemma EachTail(value: string, later: seq<string>, lists: seq<seq<Field>>)
    requires Each([value] + later, lists)
    ensures lists != [] && lists[0] == ParseCookies(value, false).pairs && Each(later, lists[1..])
  {
    var all := [value] + later;
    assert all[0] == value && forall k | 0 <= k < |later| :: later[k] == all[k + 1];
  }

  /** Cookies sent, in any number of headers, are cookies received. */
  lemma CookiesArrive(fields: seq<Field>, sent: seq<seq<Field>>, received: seq<seq<Field>>)
    requires |Values(fields, "Cookie")| == |sent| == |received|
    requires forall k | 0 <= k < |sent| :: Values(fields, "Cookie")[k] == CookieList(sent[k])
    requires forall k | 0 <= k < |sent| :: LegalCookies(sent[k]) && received[k] == Genuine(false, sent[k])
    ensures CookiesOf(fields) == Flatten(received)
  {
    forall k | 0 <= k < |received|
      ensures received[k] == ParseCookies(Values(fields, "Cookie")[k], false).pairs
    {
      CookieListRoundTrip(false, sent[k]);
    }
    CookieHeaders(fields, received);
  }

  predicate LegalCookies(cookies: seq<Field>) {
    forall f | f in cookies :: LegalCookie(f)
  }
}
