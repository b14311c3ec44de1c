/** The request side of `lambda_handler`: the three input checks, in order,
    each answered with status 400, and the hand-over of accepted text to the
    detector and the redactor. The detector is a remote service and is a
    parameter here: any function from text to an entity list. */
module Handler {
  import opened Spans
  import opened Redactor
  import opened Whitespace
  import opened Utf8

  /** Upper bound on the UTF-8 size of the text, in bytes. */
  const MaxTextBytes := 100000

  /** The request event: its string-valued keys. */
  type Event = map<string, string>

  datatype Rejection = NoText | EmptyText | TextTooLarge

  datatype Gate = Accept(text: string) | Reject(reason: Rejection)

  datatype Body =
    | ErrorBody(error: string)
    | ResultBody(originalText: string, detectedEntities: seq<Entity>, redactedText: string)

  datatype Response = Response(statusCode: int, body: Body)

  /** The error message each rejection reports. */
  function Message(r: Rejection): string {
    match r
    case NoText => "No text provided in the event"
    case EmptyText => "Empty text provided"
    case TextTooLarge => "Text exceeds maximum size of 100KB"
  }

  /** The input checks of the handler, first failure wins: a missing `text`
      key, then text that is empty or all whitespace, then text whose UTF-8
      encoding exceeds the limit. */
  function CheckRequest(event: Event): (g: Gate)
    ensures g == Reject(NoText) <==> "text" !in event
    ensures g == Reject(EmptyText) <==> "text" in event && Blank(event["text"])
    ensures g == Reject(TextTooLarge)
        <==> "text" in event && !Blank(event["text"]) && |Encode(event["text"])| > MaxTextBytes
    ensures g.Accept?
        <==> "text" in event && !Blank(event["text"]) && |Encode(event["text"])| <= MaxTextBytes
    ensures g.Accept? ==> g.text == event["text"]
  {
    if "text" !in event then Reject(NoText)
    else
      var text := event["text"];
      ByteLengthIsEncodedLength(text);
      if Strip(text) == [] then Reject(EmptyText)
      else if ByteLength(text) > MaxTextBytes then Reject(TextTooLarge)
      else Accept(text)
  }

  /** The handler up to its response, with the detector as a parameter. */
  function Handle(event: Event, detect: string -> seq<Entity>): (r: Response)
    ensures r.statusCode == 400 || r.statusCode == 200
    ensures r.statusCode == 400 <==> CheckRequest(event).Reject?
    ensures r.statusCode == 400 ==> r.body == ErrorBody(Message(CheckRequest(event).reason))
    ensures r.statusCode == 200 ==>
      && "text" in event
      && r.body.ResultBody?
      && r.body.originalText == event["text"]
      && r.body.detectedEntities == detect(event["text"])
      && r.body.redactedText == Redact(event["text"], detect(event["text"]))
  {
    match CheckRequest(event)
    case Reject(reason) => Response(400, ErrorBody(Message(reason)))
    case Accept(text) =>
      var entities := detect(text);
      Response(200, ResultBody(text, entities, Redact(text, entities)))
  }

  /** A rejected request never depends on what the detector would say: its
      response is the same for every detector. */
  lemma RejectedNeverDetects(event: Event, d1: string -> seq<Entity>, d2: string -> seq<Entity>)
    requires CheckRequest(event).Reject?
    ensures Handle(event, d1) == Handle(event, d2)
    ensures Handle(event, d1).statusCode == 400
  {
  }

  /** A run of `n` copies of `c`. */
  function Repeat(c: char, n: nat): (s: string)
    ensures |s| == n
    ensures forall i :: 0 <= i < n ==> s[i] == c
  {
    if n == 0 then [] else [c] + Repeat(c, n - 1)
  }

  /** Size boundary: a run of `n` copies of `a` is rejected as empty when `n` is
      0, accepted up to exactly 100000 bytes, and rejected as too large from
      100001 bytes on. */
  lemma SizeBoundary(n: nat)
    ensures n == 0 ==> CheckRequest(map["text" := Repeat('a', n)]) == Reject(EmptyText)
    ensures 1 <= n <= MaxTextBytes ==> CheckRequest(map["text" := Repeat('a', n)]) == Accept(Repeat('a', n))
    ensures n > MaxTextBytes ==> CheckRequest(map["text" := Repeat('a', n)]) == Reject(TextTooLarge)
  {
    var text := Repeat('a', n);
    AsciiByteLength(text);
    if n > 0 {
      assert !IsSpace(text[0]);
    }
  }

  /** A text that is present but empty or only whitespace, of any kind and
      any size, is rejected as empty: the emptiness check comes before the
      size check. */
  lemma WhitespaceBeforeSize(t: string)
    ensures Blank(t) ==> CheckRequest(map["text" := t]) == Reject(EmptyText)
    ensures Blank(t) && |Encode(t)| > MaxTextBytes ==> CheckRequest(map["text" := t]) != Reject(TextTooLarge)
  {
    var event := map["text" := t];
    assert "text" in event && event["text"] == t;
  }
}
