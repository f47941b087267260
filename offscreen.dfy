/** The offscreen document: the only context that touches the clipboard.
    Its listener accepts addressed copy requests; `handleCopy` writes an
    image or text and always acknowledges with one `copy-done`. */
module Offscreen {
  import opened Wrappers
  import Base64
  import opened DataUri
  import opened Messages

  /** How the host's clipboard calls behave on this call. */
  datatype Host = Host(
    writeRejects: bool,        // navigator.clipboard.write rejects (permission, bad item)
    writeTextAvailable: bool,  // navigator.clipboard && navigator.clipboard.writeText
    writeTextRejects: bool)    // navigator.clipboard.writeText rejects

  /** The "binary string" `atob` returns: one character per byte, its code
      the byte's value. */
  function BinaryString(bs: seq<Base64.Byte>): (s: string)
    ensures |s| == |bs|
    ensures forall i :: 0 <= i < |bs| ==> s[i] as int == bs[i]
  {
    seq(|bs|, i requires 0 <= i < |bs| => bs[i] as char)
  }

  /** `atob`; `None` where it throws. */
  function Atob(s: string): Option<string> {
    match Base64.Decode(s)
    case None => None
    case Some(bs) => Some(BinaryString(bs))
  }

  /** What `atob(base64Data)` is given: the body, or, when the payload has no
      `,`, `undefined`, which converts to the string "undefined". */
  function AtobArgument(body: Option<string>): string {
    body.GetOr("undefined")
  }

  /** A payload without a body always makes the image path throw. */
  lemma MissingBodyThrows()
    ensures Atob(AtobArgument(None)).None?
  {
  }

  /** The byte loop: one entry per character of `binary`, its char code. */
  method CharCodes(binary: string) returns (codes: seq<int>)
    ensures |codes| == |binary|
    ensures forall i :: 0 <= i < |binary| ==> codes[i] == binary[i] as int
  {
    codes := [];
    var i := 0;
    while i < |binary|
      invariant 0 <= i <= |binary|
      invariant |codes| == i
      invariant forall k :: 0 <= k < i ==> codes[k] == binary[k] as int
    {
      codes := codes + [binary[i] as int];
      i := i + 1;
    }
  }

  /** The clipboard write the image path reaches, with its media type and
      decoded bytes; `None` where the path throws before writing. */
  function ImageWrite(data: string): Option<ClipboardCall> {
    var parts := SplitDataUri(data);
    match MediaType(parts.0)
    case None => None
    case Some(t) =>
      match Base64.Decode(AtobArgument(parts.1))
      case None => None
      case Some(bytes) => Some(WriteImage(t, bytes))
  }

  /** The clipboard calls one `handleCopy` makes. */
  function Attempts(data: string, host: Host): seq<ClipboardCall> {
    if IsImagePayload(data) then
      match ImageWrite(data)
      case Some(w) => [w]
      case None => []
    else
      [SelectionCopy(data)] + (if host.writeTextAvailable then [WriteText(data)] else [])
  }

  /** Whether the `try` block of `handleCopy` throws (and the error is
      caught and logged). */
  predicate Throws(data: string, host: Host) {
    if IsImagePayload(data) then ImageWrite(data).None? || host.writeRejects
    else host.writeTextAvailable && host.writeTextRejects
  }

  /** The image path writes whatever media type and bytes its two steps
      produce. */
  lemma ImageWriteOfSteps(data: string, t: string, body: string, bytes: seq<Base64.Byte>)
    requires MediaType(SplitDataUri(data).0) == Some(t)
    requires SplitDataUri(data).1 == Some(body)
    requires Base64.Decode(body) == Some(bytes)
    ensures ImageWrite(data) == Some(WriteImage(t, bytes))
  {
  }

  /** `data:<t>;base64,<body>` is the header `data:<t>;base64`, a `,` and
      the body, and the header has no `,` when `t` has none. */
  lemma ImageUriShape(t: string, body: string)
    requires ',' !in t
    ensures ',' !in "data:" + t + ";" + "base64"
    ensures "data:" + t + ";base64," + body == ("data:" + t + ";" + "base64") + "," + body
  {
  }

  /** An image data URI whose body has no `,` and decodes to `bytes` is
      written with its media type and those bytes. */
  lemma ImageWriteOfBody(t: string, body: string, bytes: seq<Base64.Byte>)
    requires ':' !in t && ';' !in t && ',' !in t && ',' !in body
    requires Base64.Decode(body) == Some(bytes)
    ensures ImageWrite("data:" + t + ";base64," + body) == Some(WriteImage(t, bytes))
  {
    var header := "data:" + t + ";" + "base64";
    ImageUriShape(t, body);
    SplitOfJoin(header, body);
    MediaTypeOfHeader(t, "base64");
    ImageWriteOfSteps(header + "," + body, t, body, bytes);
  }

  /** An image data URI built from a media type and any bytes is written
      with exactly that media type and exactly those bytes. */
  lemma {:induction false} ImageWriteOfDataUri(t: string, bytes: seq<Base64.Byte>)
    requires ':' !in t && ';' !in t && ',' !in t
    ensures ImageWrite("data:" + t + ";base64," + Base64.Encode(bytes)) == Some(WriteImage(t, bytes))
  {
    var body := Base64.Encode(bytes);
    assert ',' !in body by {
      Base64.EncodeAlphabet(bytes);
    }
    Base64.DecodeEncode(bytes);
    ImageWriteOfBody(t, body, bytes);
  }

  /** Such a payload takes the image path when its type starts `image/`. */
  lemma ImageDataUriIsImagePayload(t: string, body: string)
    requires StartsWith(t, "image/")
    ensures IsImagePayload("data:" + t + ";base64," + body)
  {
    var data := "data:" + t + ";base64," + body;
    assert data[..|ImagePrefix|] == "data:" + t[..6];
  }

  /** The text path always makes the selection copy, and also `writeText`
      with the same text when it is available; it never writes an image. */
  lemma TextPathAttempts(data: string, host: Host)
    requires !IsImagePayload(data)
    ensures |Attempts(data, host)| == if host.writeTextAvailable then 2 else 1
    ensures Attempts(data, host)[0] == SelectionCopy(data)
    ensures host.writeTextAvailable ==> Attempts(data, host)[1] == WriteText(data)
    ensures forall i :: 0 <= i < |Attempts(data, host)| ==> Attempts(data, host)[i].text == data
  {
  }

  /** The writer context. */
  class Writer {
    var outbox: seq<Msg>
    var calls: seq<ClipboardCall>

    constructor ()
      ensures outbox == [] && calls == []
    {
      outbox := [];
      calls := [];
    }

    /** The runtime listener: only addressed copy requests are handled; every
        other message is ignored. */
    method OnMessage(m: Msg, host: Host)
      modifies this
      ensures ForWriter(m) ==> outbox == old(outbox) + [CopyDone]
      ensures ForWriter(m) ==> calls == old(calls) + Attempts(m.data, host)
      ensures !ForWriter(m) ==> outbox == old(outbox) && calls == old(calls)
    {
      if ForWriter(m) {
        var _ := HandleCopy(m.data, host);
      }
    }

    /** `handleCopy`: one image or text write, then exactly one `copy-done`
        whatever happened; `caught` tells whether an error was caught. */
    method HandleCopy(data: string, host: Host) returns (caught: bool)
      modifies this
      ensures outbox == old(outbox) + [CopyDone]
      ensures calls == old(calls) + Attempts(data, host)
      ensures caught == Throws(data, host)
    {
      caught := false;
      if IsImagePayload(data) {
        var parts := SplitDataUri(data);
        var mediaType := MediaType(parts.0);
        var binary := Atob(AtobArgument(parts.1));
        if mediaType.None? || binary.None? {
          caught := true;
        } else {
          var bytes := CharCodes(binary.value);
          ghost var decoded := Base64.Decode(AtobArgument(parts.1)).value;
          assert bytes == decoded;
          calls := calls + [WriteImage(mediaType.value, bytes)];
          caught := host.writeRejects;
        }
      } else {
        calls := calls + [SelectionCopy(data)];
        if host.writeTextAvailable {
          calls := calls + [WriteText(data)];
          caught := host.writeTextRejects;
        }
      }
      outbox := outbox + [CopyDone];
    }
  }
}
