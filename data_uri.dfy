/** The string handling the offscreen writer applies to an image payload:
    the `data:image/` test, `data.split(',')` into header and body, and
    `header.split(':')[1].split(';')[0]` for the media type. The payload is a
    data URI as section 3 of RFC 2397 describes it,
    `data:[<mediatype>][;base64],<data>`. */
module DataUri {
  import opened Wrappers

  const ImagePrefix: string := "data:image/"

  predicate StartsWith(s: string, prefix: string) {
    |prefix| <= |s| && s[..|prefix|] == prefix
  }

  /** The writer's image test (the payload is always a string here). */
  predicate IsImagePayload(data: string) {
    StartsWith(data, ImagePrefix)
  }

  /** The position of the first `c` in `s`, or `|s|` when there is none. */
  function FirstIndex(s: string, c: char): (i: nat)
    ensures i <= |s|
    ensures forall k :: 0 <= k < i ==> s[k] != c
    ensures i < |s| ==> s[i] == c
  {
    if |s| == 0 then 0
    else if s[0] == c then 0
    else 1 + FirstIndex(s[1..], c)
  }

  /** `s.split(c)[0]`: the text before the first `c`. */
  function FirstField(s: string, c: char): string {
    s[..FirstIndex(s, c)]
  }

  /** `s.split(c)[1]`: the text between the first and the second `c`;
      `None` where JavaScript gives `undefined` (no `c` at all). */
  function SecondField(s: string, c: char): Option<string> {
    var i := FirstIndex(s, c);
    if i == |s| then None else Some(FirstField(s[i + 1..], c))
  }

  /** `const [header, base64Data] = data.split(',')`. */
  function SplitDataUri(data: string): (string, Option<string>) {
    (FirstField(data, ','), SecondField(data, ','))
  }

  /** `header.split(':')[1].split(';')[0]`; `None` where `[1]` is undefined
      and the second `split` throws. */
  function MediaType(header: string): Option<string> {
    match SecondField(header, ':')
    case None => None
    case Some(f) => Some(FirstField(f, ';'))
  }

  /** A payload takes the image path exactly when it is the image prefix
      followed by anything. */
  lemma ImagePayloadIff(data: string, rest: string)
    ensures IsImagePayload(ImagePrefix + rest)
    ensures IsImagePayload(data) ==> data == ImagePrefix + data[|ImagePrefix|..]
  {
    assert (ImagePrefix + rest)[..|ImagePrefix|] == ImagePrefix;
  }

  lemma FirstIndexOfAbsent(h: string, c: char)
    requires c !in h
    ensures FirstIndex(h, c) == |h|
  {
  }

  lemma FirstIndexOfJoin(h: string, c: char, x: string)
    requires c !in h
    ensures FirstIndex(h + [c] + x, c) == |h|
  {
    var s := h + [c] + x;
    assert s[|h|] == c;
  }

  /** Splitting `h + c + x` on `c`, where `h` has no `c`: the first field is
      `h` and the second is `x` up to its own first `c`. */
  lemma FieldsOfJoin(h: string, c: char, x: string)
    requires c !in h
    ensures FirstField(h + [c] + x, c) == h
    ensures SecondField(h + [c] + x, c) == Some(FirstField(x, c))
  {
    FirstIndexOfJoin(h, c, x);
    var s := h + [c] + x;
    assert s[..|h|] == h;
    assert s[|h| + 1..] == x;
  }

  /** `header,body` splits into the header and the body. */
  lemma SplitOfJoin(header: string, body: string)
    requires ',' !in header && ',' !in body
    ensures SplitDataUri(header + "," + body) == (header, Some(body))
  {
    assert header + "," + body == header + [','] + body;
    FieldsOfJoin(header, ',', body);
    FirstIndexOfAbsent(body, ',');
    assert body[..|body|] == body;
  }

  /** A further `,rest` after the body is dropped. */
  lemma SplitOfJoinRest(header: string, body: string, rest: string)
    requires ',' !in header && ',' !in body
    ensures SplitDataUri(header + "," + body + "," + rest) == (header, Some(body))
  {
    assert header + "," + body + "," + rest == header + [','] + (body + [','] + rest);
    FieldsOfJoin(header, ',', body + [','] + rest);
    FieldsOfJoin(body, ',', rest);
  }

  /** The header is the text before the first `,` and the body the text after
      it, up to any further `,`; a payload without `,` has no body. */
  lemma {:induction false} SplitDataUriParts(header: string, body: string, rest: string)
    requires ',' !in header && ',' !in body
    ensures SplitDataUri(header + "," + body) == (header, Some(body))
    ensures SplitDataUri(header + "," + body + "," + rest) == (header, Some(body))
    ensures SplitDataUri(header) == (header, None)
  {
    SplitOfJoin(header, body);
    SplitOfJoinRest(header, body, rest);
    FirstIndexOfAbsent(header, ',');
    assert header[..|header|] == header;
  }

  /** For a header `data:<t>;<params>` whose type `t` has no `:` or `;`, the
      media type read off is `t`, whatever the parameters hold. */
  lemma {:induction false} MediaTypeOfHeader(t: string, params: string)
    requires ':' !in t && ';' !in t
    ensures MediaType("data:" + t + ";" + params) == Some(t)
  {
    var header := "data:" + t + ";" + params;
    var after := t + ";" + params;
    assert header == "data" + [':'] + after;
    FieldsOfJoin("data", ':', after);
    // `split(':')[1]` runs to the next `:`, which lies past `t;`.
    var f := FirstField(after, ':');
    assert after[|t|] == ';';
    assert forall k :: 0 <= k < |t| ==> after[k] == t[k];
    assert FirstIndex(after, ':') > |t|;
    assert f == t + [';'] + f[|t| + 1..];
    FieldsOfJoin(t, ';', f[|t| + 1..]);
  }

  lemma FirstFieldKeepsPrefix(s: string, c: char, p: string)
    requires StartsWith(s, p) && c !in p
    ensures StartsWith(FirstField(s, c), p)
  {
    assert FirstField(s, c)[..|p|] == s[..|p|];
  }

  /** Every image payload has a media type, and it starts with `image/`:
      the media-type step of the image path never throws. */
  lemma {:induction false} ImagePayloadMediaType(data: string)
    requires IsImagePayload(data)
    ensures MediaType(SplitDataUri(data).0).Some?
    ensures StartsWith(MediaType(SplitDataUri(data).0).value, "image/")
  {
    var header := SplitDataUri(data).0;
    FirstFieldKeepsPrefix(data, ',', ImagePrefix);
    assert header[..4] == "data";
    assert header[4] == ':';
    assert header == "data" + [':'] + header[5..];
    FieldsOfJoin("data", ':', header[5..]);
    assert header[5..][..6] == "image/";
    FirstFieldKeepsPrefix(header[5..], ':', "image/");
    FirstFieldKeepsPrefix(FirstField(header[5..], ':'), ';', "image/");
  }
}
