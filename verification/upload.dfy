/**
  The two upload requests of the screen: the WAV file to the emotion
  prediction endpoint and the recorded video to the description endpoint.
  Both are POSTs with a single-part `multipart/form-data` body whose
  boundary is `Boundary-` followed by a fresh UUID; the UUID is a parameter
  here. What the file read returned is a parameter as well: `None` when
  the file could not be read.

  `ParseRequest` is the receiving side: it takes the boundary from the
  `Content-Type` header and reads the body with `ParseBody`. The bytes
  read back are the bytes sent only when they hold no delimiter line for
  that boundary; nothing in the app checks this, it relies on the UUID.
 */
module Upload {
  import opened Wrappers
  import opened Utf8
  import opened Multipart
  import opened Resolver

  const PredictEndpoint: string := "http://127.0.0.1:5010/predict"
  const DescribeEndpoint: string := "http://10.180.8.173:5020/describe_video"
  const TimeoutSeconds: nat := 300

  const BoundaryPrefix: string := "Boundary-"
  const FormDataPrefix: string := "multipart/form-data; boundary="

  /** The parts of a request the code sets; everything else is left at the platform's defaults. */
  datatype Request = Request(url: string, httpMethod: string, contentType: string, body: seq<byte>, timeoutSeconds: nat)

  /** Every boundary starts with `Boundary-`, and the UUID can be read back after it. */
  function Boundary(uuid: string): (b: string)
    ensures |b| == |BoundaryPrefix| + |uuid|
    ensures b[..|BoundaryPrefix|] == BoundaryPrefix && b[|BoundaryPrefix|..] == uuid
  {
    BoundaryPrefix + uuid
  }

  function ContentType(boundary: string): string {
    FormDataPrefix + boundary
  }

  /** The boundary announced by a `Content-Type` header value. */
  function BoundaryOf(contentType: string): Option<string> {
    var n := |FormDataPrefix|;
    if n <= |contentType| && contentType[..n] == FormDataPrefix then Some(contentType[n..]) else None
  }

  function ParseRequest(r: Request): Option<FormData> {
    var boundary :- BoundaryOf(r.contentType);
    ParseBody(boundary, r.body)
  }

  /** The WAV upload. An unreadable file still produces a request, whose body is only the closing delimiter. */
  function PredictRequest(uuid: string, wav: FileUrl, wavData: Option<seq<byte>>): (r: Request)
    ensures r.url == PredictEndpoint && r.httpMethod == "POST" && r.timeoutSeconds == TimeoutSeconds
    ensures BoundaryOf(r.contentType) == Some(Boundary(uuid))
    ensures wavData.None? ==> r.body == Encode("--" + Boundary(uuid) + "--\r\n")
  {
    var boundary := Boundary(uuid);
    var part := if wavData.Some? then Some(FormFile("file", wav.name, "audio/wav", wavData.value)) else None;
    AnnouncedBoundary(boundary);
    assert ClosingDelimiter(boundary) == "--" + boundary + "--\r\n";
    Request(PredictEndpoint, "POST", ContentType(boundary), EncodeBody(boundary, part), TimeoutSeconds)
  }

  /** The video upload. An unreadable video produces no request at all. */
  function DescribeRequest(uuid: string, video: FileUrl, videoData: Option<seq<byte>>): (r: Option<Request>)
    ensures r.Some? <==> videoData.Some?
    ensures r.Some? ==> r.value.url == DescribeEndpoint && r.value.httpMethod == "POST"
    ensures r.Some? ==> r.value.timeoutSeconds == TimeoutSeconds
    ensures r.Some? ==> BoundaryOf(r.value.contentType) == Some(Boundary(uuid))
  {
    var data :- videoData;
    var boundary := Boundary(uuid);
    AnnouncedBoundary(boundary);
    Some(Request(DescribeEndpoint, "POST", ContentType(boundary),
                 EncodeBody(boundary, Some(FormFile("video", video.name, "video/mp4", data))), TimeoutSeconds))
  }

  /** The header announces exactly the boundary the body was written with. */
  lemma AnnouncedBoundary(boundary: string)
    ensures BoundaryOf(ContentType(boundary)) == Some(boundary)
  {
    assert ContentType(boundary)[..|FormDataPrefix|] == FormDataPrefix;
    assert ContentType(boundary)[|FormDataPrefix|..] == boundary;
  }

  /**
    `ParseRequest` reads back the file field `file` of type `audio/wav` carrying the file's bytes,
    or no part at all when the file could not be read. The file name must hold no '"',
    which the code writes unescaped, and the bytes no delimiter for the request's boundary.
   */
  lemma PredictRequestRoundTrip(uuid: string, wav: FileUrl, wavData: Option<seq<byte>>)
    requires '"' !in wav.name
    requires wavData.Some? ==> DelimiterFree(Boundary(uuid), wavData.value)
    ensures ParseRequest(PredictRequest(uuid, wav, wavData))
         == Some(if wavData.Some? then SingleFile(FormFile("file", wav.name, "audio/wav", wavData.value)) else EmptyForm)
  {
    var boundary := Boundary(uuid);
    var part := if wavData.Some? then Some(FormFile("file", wav.name, "audio/wav", wavData.value)) else None;
    AnnouncedBoundary(boundary);
    ParseEncodeBody(boundary, part);
  }

  /** `ParseRequest` reads back the file field `video` of type `video/mp4` carrying the video's bytes unchanged. */
  lemma DescribeRequestRoundTrip(uuid: string, video: FileUrl, data: seq<byte>)
    requires '"' !in video.name && DelimiterFree(Boundary(uuid), data)
    ensures DescribeRequest(uuid, video, Some(data)).Some?
    ensures ParseRequest(DescribeRequest(uuid, video, Some(data)).value)
         == Some(SingleFile(FormFile("video", video.name, "video/mp4", data)))
  {
    var boundary := Boundary(uuid);
    AnnouncedBoundary(boundary);
    ParseEncodeBody(boundary, Some(FormFile("video", video.name, "video/mp4", data)));
  }

  /** A video whose bytes hold the request's own delimiter is not read back as sent. */
  lemma DescribeRequestNeedsDelimiterFree(uuid: string, video: FileUrl, data: seq<byte>)
    requires '"' !in video.name && !DelimiterFree(Boundary(uuid), data)
    ensures DescribeRequest(uuid, video, Some(data)).Some?
    ensures ParseRequest(DescribeRequest(uuid, video, Some(data)).value)
         != Some(SingleFile(FormFile("video", video.name, "video/mp4", data)))
  {
    var boundary := Boundary(uuid);
    AnnouncedBoundary(boundary);
    EmbeddedDelimiterBreaksRoundTrip(boundary, FormFile("video", video.name, "video/mp4", data));
  }
}
