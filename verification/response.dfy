/**
  The two completion handlers' reading of a server reply. The JSON parser
  is abstracted: a reply carries either `Malformed` (the parser threw) or
  the parsed document. Each handler classifies what it got; the classes
  are what the handler logs, and only a string `description` is ever
  passed on to the screen.
 */
module Response {
  import opened Wrappers

  datatype Json =
    | JNull
    | JBool(b: bool)
    | JNumber(literal: string)
    | JString(text: string)
    | JArray(items: seq<Json>)
    | JObject(members: map<string, Json>)

  /**
    A document the parser accepts at the top level. The code calls it without
    allowing fragments, so a bare string, number, boolean or null is rejected.
   */
  type TopLevel = j: Json | j.JObject? || j.JArray? witness JArray([])

  /** What the JSON parser made of the response data: `Malformed` for anything it rejects, otherwise an object or an array. */
  datatype Payload = Malformed | Parsed(document: TopLevel)

  /** What a completion handler is called with: whether the transport reported an error, and the data if any. */
  datatype Reply = Reply(transportFailed: bool, data: Option<Payload>)

  /** The three ways a reply can fail before any key is looked at. */
  datatype Failure = TransportError | NoData | NotJson

  /** The document a reply delivers: no transport error, some data, and data the parser accepted. */
  function Document(reply: Reply): Option<Json> {
    if !reply.transportFailed && reply.data.Some? && reply.data.value.Parsed? then Some(reply.data.value.document)
    else None
  }

  /** The value under `key`, when the delivered document is an object that has the key. */
  function Member(reply: Reply, key: string): Option<Json> {
    match Document(reply)
    case Some(JObject(m)) => if key in m then Some(m[key]) else None
    case _ => None
  }

  /** The text under `key`, when that member is a JSON string. */
  function StringMember(reply: Reply, key: string): Option<string> {
    match Member(reply, key)
    case Some(JString(t)) => Some(t)
    case _ => None
  }

  datatype Received = Failed(failure: Failure) | Delivered(document: Json)

  /** The guard chain both handlers open with, in the order they test it. */
  function Receive(reply: Reply): (r: Received)
    ensures r.Delivered? <==> Document(reply).Some?
    ensures r.Delivered? ==> r.document == Document(reply).value
    ensures r.Failed? && r.failure == TransportError <==> reply.transportFailed
    ensures r.Failed? && r.failure == NotJson <==> !reply.transportFailed && reply.data == Some(Malformed)
  {
    if reply.transportFailed then Failed(TransportError)
    else
      match reply.data
      case None => Failed(NoData)
      case Some(Malformed) => Failed(NotJson)
      case Some(Parsed(doc)) => Delivered(doc)
  }

  datatype DescribeOutcome =
    | Described(text: string)
    | DescribeRefused(message: string)
    | DescribeUnexpected
    | DescribeFailed(failure: Failure)

  /**
    The description handler: a string `description` wins; otherwise a string `error` is logged
    as the server's refusal; any other document, an array included, is unexpected.
   */
  function ClassifyDescribe(reply: Reply): (o: DescribeOutcome)
    ensures o.Described? <==> StringMember(reply, "description").Some?
    ensures o.Described? ==> o.text == StringMember(reply, "description").value
    ensures o.DescribeRefused? <==> StringMember(reply, "description").None? && StringMember(reply, "error").Some?
    ensures o.DescribeRefused? ==> o.message == StringMember(reply, "error").value
    ensures o.DescribeFailed? <==> Document(reply).None?
  {
    match Receive(reply)
    case Failed(why) => DescribeFailed(why)
    case Delivered(doc) =>
      if doc.JObject? && "description" in doc.members && doc.members["description"].JString? then
        Described(doc.members["description"].text)
      else if doc.JObject? && "error" in doc.members && doc.members["error"].JString? then
        DescribeRefused(doc.members["error"].text)
      else
        DescribeUnexpected
  }

  datatype PredictOutcome =
    | Predicted(emotion: Json)
    | PredictRefused(error: Json)
    | PredictUnexpected
    | PredictIgnored
    | PredictFailed(failure: Failure)

  /**
    The prediction handler: any `emotion` member wins, whatever its value and even beside an
    `error`; otherwise any `error` member is a refusal; an object with neither is unexpected; a
    document that is not an object (so an array) is dropped without a word.
   */
  function ClassifyPredict(reply: Reply): (o: PredictOutcome)
    ensures o.Predicted? <==> Member(reply, "emotion").Some?
    ensures o.Predicted? ==> o.emotion == Member(reply, "emotion").value
    ensures o.PredictRefused? <==> Member(reply, "emotion").None? && Member(reply, "error").Some?
    ensures o.PredictRefused? ==> o.error == Member(reply, "error").value
    ensures o.PredictUnexpected? <==>
              Document(reply).Some? && Document(reply).value.JObject?
              && Member(reply, "emotion").None? && Member(reply, "error").None?
    ensures o.PredictIgnored? <==> Document(reply).Some? && !Document(reply).value.JObject?
    ensures o.PredictFailed? <==> Document(reply).None?
  {
    match Receive(reply)
    case Failed(why) => PredictFailed(why)
    case Delivered(doc) =>
      match doc
      case JObject(m) =>
        if "emotion" in m then Predicted(m["emotion"])
        else if "error" in m then PredictRefused(m["error"])
        else PredictUnexpected
      case _ => PredictIgnored
  }
}
