/**
 `http_request` as a printer: setters that drop the cached first line, the one that does not,
 and the head it prints.
 */
module HttpRequest {
  import opened Bytes
  import opened RequestText

  /** Two requests that differ in their resource print different first lines. */
  lemma FirstLineTellsResource(q: Request, resource: string)
    ensures FirstLine(q.(resource := resource)) == FirstLine(q) <==> resource == q.resource
  {
    var tail := (if q.query == "" then "" else ['?'] + q.query) + ([' '] + VersionText(q.major, q.minor));
    LinePieces(q, tail);
    LinePieces(q.(resource := resource), tail);
    if FirstLine(q.(resource := resource)) == FirstLine(q) {
      var a, b, n := FirstLine(q), FirstLine(q.(resource := resource)), |q.verb| + 1;
      assert |resource| == |q.resource|;
      assert a[n..n + |q.resource|] == q.resource && b[n..n + |resource|] == resource;
    }
  }

  lemma LinePieces(q: Request, tail: string)
    requires tail == (if q.query == "" then "" else ['?'] + q.query) + ([' '] + VersionText(q.major, q.minor))
    ensures FirstLine(q) == (q.verb + [' ']) + (q.resource + tail)
  {
    var query := if q.query == "" then "" else ['?'] + q.query;
    Assoc(q.resource, query, [' '] + VersionText(q.major, q.minor));
    Assoc(q.verb, [' '], q.resource + tail);
  }

  class HttpRequest {
    var request: Request
    var originalResource: string  // the resource first asked for, before any redirect
    var firstLine: string  // cached; empty when it has to be rebuilt

    constructor ()
      ensures Current() && request == Request("GET", "", "", 1, 1, []) && originalResource == ""
    {
      request, originalResource, firstLine := Request("GET", "", "", 1, 1, []), "", "";
    }

    /** The cache is empty or holds what the fields print to. */
    predicate Current()
      reads this
    {
      firstLine == "" || firstLine == FirstLine(request)
    }

    method SetMethod(verb: string)
      modifies `request, `firstLine
      ensures Current() && request == old(request).(verb := verb)
    {
      request, firstLine := request.(verb := verb), "";
    }

    method SetResource(resource: string)
      modifies this
      ensures Current() && request == old(request).(resource := resource) && originalResource == resource
    {
      request, originalResource, firstLine := request.(resource := resource), resource, "";
    }

    method SetQueryString(query: string)
      modifies `request, `firstLine
      ensures Current() && request == old(request).(query := query)
    {
      request, firstLine := request.(query := query), "";
    }

    /** `change_resource` keeps the cached line: it stays current exactly when there is nothing to update. */
    method ChangeResource(resource: string)
      requires Current()
      modifies `request
      ensures request == old(request).(resource := resource)
      ensures Current() <==> firstLine == "" || resource == old(request.resource)
    {
      FirstLineTellsResource(request, resource);
      request := request.(resource := resource);
    }

    /** `get_first_line`, rebuilding the cache by appends when it is empty. */
    method GetFirstLine() returns (line: string)
      modifies `firstLine
      ensures line == firstLine && (old(firstLine) != "" ==> line == old(firstLine))
      ensures old(Current()) ==> Current() && line == FirstLine(request)
    {
      if firstLine == "" {
        var text := request.verb;
        text := text + [' '];
        text := text + request.resource;
        if request.query != "" {
          text := text + ['?'];
          text := text + request.query;
        }
        text := text + [' '];
        text := text + VersionText(request.major, request.minor);
        assert text == FirstLine(request);
        firstLine := text;
      }
      line := firstLine;
    }

    /** The printed head: first line, then the headers. */
    method PrintHead() returns (text: string)
      requires Current()
      modifies `firstLine
      ensures Current() && text == HeadText(request)
    {
      text := GetFirstLine();
      var headers := AppendHeaders(request.fields);
      text := text + (CRLF + headers);
    }
  }
}
