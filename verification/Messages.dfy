/**
 What the parser reads off a message: header lookup, body framing, form and cookie pairs, and
 the keep-alive rule, as in http_message.hpp and src/http_parser.cpp.
 */
module Messages {
  import opened Bytes
  import opened HeaderMachine
  import opened Headers
  import opened Forms
  import opened Cookies
  import opened Multipart
  import opened Parsing

  function FramingOf(find: Lookup, parseLength: string -> Option<nat>, fields: seq<Field>): Framing {
    var te := find(fields, "Transfer-Encoding");
    var cl := find(fields, "Content-Length");
    if te.Some? && (Search(te.value, "chunked", 0) < |te.value| || Search(te.value, "Chunked", 0) < |te.value|) then
      Chunked
    else if cl.None? then NoBody
    else
      var n := parseLength(cl.value);
      if n.None? then BadLength else Length(n.value)
  }

  /** The pairs of all Cookie headers. */
  function CookiesOf(fields: seq<Field>): seq<Field> {
    if fields == [] then []
    else (if IEquals(fields[0].name, "Cookie") then ParseCookies(fields[0].value, false).pairs else [])
         + CookiesOf(fields[1..])
  }

  const URLENCODED := "application/x-www-form-urlencoded"
  const FORM_DATA := "multipart/form-data"

  /** The pairs of a form body, by its content type. */
  function FormOf(find: Lookup, dec: string -> string, fields: seq<Field>, body: string): FormEnd {
    var ctype := Get(find, fields, "Content-Type");
    if URLENCODED <= ctype then FormEnd(ParseForm(dec, body).pairs, false)
    else if FORM_DATA <= ctype then
      var r := ParseMultipart(ctype, body);
      FormEnd(r.pairs, r.Threw?)
    else FormEnd([], false)
  }

  /** The foreign functions: header lookup, `url_decode` and `parse_uint64`. */
  datatype Foreign = Foreign(find: Lookup, dec: string -> string, parseLength: string -> Option<nat>) {

    /** What is assumed of them: a header that is there is found, and printed numbers are read. */
    ghost predicate Lawful() {
      && FindsOne(find)
      && forall n | 0 <= n < 0x1_0000_0000_0000_0000 :: parseLength(Digits(10, n)) == Some(n)
    }
  }

  /** The settings of the source. */
  function Standard(max: nat, headersOnly: bool, saveRaw: bool, env: Foreign, hook: Message -> Hook): Config {
    Config(max, headersOnly, saveRaw,
      fields => FramingOf(env.find, env.parseLength, fields),
      query => ParseForm(env.dec, query).pairs,
      CookiesOf,
      (fields, body) => FormOf(env.find, env.dec, fields, body),
      hook)
  }

  /** `check_keep_alive`. */
  function KeepAlive(env: Foreign): Message -> bool {
    (m: Message) =>
      && Get(env.find, m.head.fields, "Connection") != "close"
      && (m.head.major > 1 || (m.head.major >= 1 && m.head.minor >= 1))
  }
}
