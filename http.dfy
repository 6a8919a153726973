/** What the daemons write back through mongoose's `mg_printf`, and how a
    request's URI is copied into the fixed request buffer. */
module Http {
  import opened Wrappers
  import opened CStrings

  /** `URL_STRING_MAX` and `POST_DATA_STRING_MAX` from util.h. */
  const URL_STRING_MAX: nat := 8192
  const POST_DATA_STRING_MAX: nat := 16384

  /** `req = calloc(URL_STRING_MAX + 1); strncpy(req, uri, URL_STRING_MAX)`:
      the URI's C string, cut to URL_STRING_MAX characters. */
  function RequestPath(uri: string): (req: string)
    ensures req <= CStr(uri) && |req| <= URL_STRING_MAX
    ensures |CStr(uri)| <= URL_STRING_MAX ==> req == CStr(uri)
  {
    var c := CStr(uri);
    if |c| <= URL_STRING_MAX then c else c[..URL_STRING_MAX]
  }

  /** The request buffer holds no NUL, so strncmp against it compares text. */
  lemma RequestPathNulFree(uri: string)
    ensures NUL !in RequestPath(uri)
  {
    var c := CStr(uri);
    var r := RequestPath(uri);
    forall i | 0 <= i < |r| ensures r[i] != NUL {
      assert r[i] == c[i];
    }
  }

  /** One response. `Text` carries the status code, the Content-Type, the
      Content-Length the header declares, an optional Location header and
      the bytes of the body. `JsonArray` is a 200 application/json reply
      whose body is json-c's serialisation of the pairs followed by CRLF,
      declared as that length. `NoReply` means the handler writes nothing;
      `Undefined` means the C code reaches undefined behaviour before it
      replies (a NULL string passed to `strlen`, a write past an
      allocation). */
  datatype Reply =
    | NoReply
    | Undefined
    | Text(status: nat, contentType: string, declaredLength: int, location: Option<string>, body: string)
    | JsonArray(pairs: seq<(string, string)>)

  function Plain(status: nat, declaredLength: int, body: string): Reply
  {
    Text(status, "text/plain", declaredLength, None, body)
  }

  /** The header's Content-Length is the body's length. */
  predicate LengthConsistent(r: Reply)
  {
    r.Text? ==> r.declaredLength == |r.body|
  }
}
