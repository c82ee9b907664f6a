/**
  The calendar screen as a state machine. Its state is the four fields the
  screen keeps (selected day, whether the details card is shown, the URL of
  that day's video if one was found, the last description received) and it
  reacts to four events: a new day picked in the date picker, a tap on
  "Describe Video", and the two upload endpoints' replies. A tap may send a
  request; nothing else leaves the screen.
 */
module Screen {
  import opened Wrappers
  import opened Utf8
  import opened DateName
  import opened Resolver
  import opened Multipart
  import opened Upload
  import opened Response

  datatype ScreenState = ScreenState(
    selectedDate: CalendarDate,
    isExpanded: bool,
    videoURL: Option<FileUrl>,
    videoDescription: string)

  /** At launch: today is selected, the card is hidden, no lookup has run yet and there is no description. */
  function Initial(today: CalendarDate): ScreenState {
    ScreenState(today, false, None, "")
  }

  datatype Event =
    | DateSelected(date: CalendarDate, files: set<string>)          // the documents directory's names at that moment
    | DescribeTapped(uuid: string, videoData: Option<seq<byte>>)    // the boundary's UUID and what reading the video returned
    | DescriptionReplied(reply: Reply)
    | PredictionReplied(reply: Reply)

  /** The state after an event, and the request the event sent, if any. */
  datatype Transition = Transition(state: ScreenState, sent: Option<Request>)

  /** "View Video" and "Describe Video" are both disabled exactly when no video was found. */
  predicate ViewVideoEnabled(s: ScreenState) {
    s.videoURL.Some?
  }

  predicate DescribeEnabled(s: ScreenState) {
    s.videoURL.Some?
  }

  const Placeholder: string := "Awaiting video description..."

  /** The text of the details card, which is only shown once a day has been picked. */
  function DescriptionCard(s: ScreenState): (r: Option<string>)
    ensures r.Some? <==> s.isExpanded
    ensures r.Some? ==> r.value != ""
    ensures r.Some? ==> (r.value == s.videoDescription <==> s.videoDescription != "")
    ensures r.Some? && s.videoDescription == "" ==> r.value == Placeholder
  {
    if !s.isExpanded then None
    else if s.videoDescription != "" then Some(s.videoDescription)
    else Some(Placeholder)
  }

  /**
    A day picked in the date picker. The change handler only runs when the value changes; it
    shows the card for good and looks the new day's video up again. The description is kept.
   */
  function SelectDate(documents: string, s: ScreenState, d: CalendarDate, files: set<string>): (r: ScreenState)
    ensures d == s.selectedDate ==> r == s
    ensures d != s.selectedDate ==> r.selectedDate == d && r.isExpanded
    ensures d != s.selectedDate ==> (ViewVideoEnabled(r) <==> FileName(d) in files)
    ensures d != s.selectedDate && r.videoURL.Some? ==>
              r.videoURL.value.directory == documents && ParseFileName(r.videoURL.value.name) == Some(d)
    ensures r.videoDescription == s.videoDescription
  {
    if d == s.selectedDate then s
    else s.(selectedDate := d, isExpanded := true, videoURL := VideoFor(documents, files, d))
  }

  /** A tap on "Describe Video": without a video nothing happens; an unreadable video sends nothing either. */
  function Describe(s: ScreenState, uuid: string, videoData: Option<seq<byte>>): (r: Option<Request>)
    ensures r.Some? <==> s.videoURL.Some? && videoData.Some?
    ensures r.Some? ==> r.value.url == DescribeEndpoint
  {
    match s.videoURL
    case None => None
    case Some(url) => DescribeRequest(uuid, url, videoData)
  }

  /** The description handler: only a string `description` reaches the screen, and then replaces the old one. */
  function ReceiveDescription(s: ScreenState, reply: Reply): (r: ScreenState)
    ensures StringMember(reply, "description").Some? ==> r == s.(videoDescription := StringMember(reply, "description").value)
    ensures StringMember(reply, "description").None? ==> r == s
  {
    match ClassifyDescribe(reply)
    case Described(text) => s.(videoDescription := text)
    case _ => s
  }

  function Step(documents: string, s: ScreenState, e: Event): (t: Transition)
    ensures !e.DescribeTapped? ==> t.sent.None?
    ensures e.DescribeTapped? ==> t.state == s
    ensures !e.DateSelected? ==> t.state.(videoDescription := s.videoDescription) == s
  {
    match e
    case DateSelected(d, files) => Transition(SelectDate(documents, s, d, files), None)
    case DescribeTapped(uuid, data) => Transition(s, Describe(s, uuid, data))
    case DescriptionReplied(reply) => Transition(ReceiveDescription(s, reply), None)
    case PredictionReplied(reply) => Transition(s, None)
  }

  /** The state after a sequence of events, first event first. */
  function Run(documents: string, s: ScreenState, events: seq<Event>): ScreenState
    decreases |events|
  {
    if events == [] then s else Run(documents, Step(documents, s, events[0]).state, events[1..])
  }

  /** The screen's invariant: a found video is the selected day's file in the documents directory, and none is found before a day is picked. */
  predicate Coherent(documents: string, s: ScreenState) {
    && (s.videoURL.Some? ==> s.videoURL.value == FileUrl(documents, FileName(s.selectedDate)))
    && (!s.isExpanded ==> s.videoURL.None?)
  }

  lemma StepKeepsCoherent(documents: string, s: ScreenState, e: Event)
    requires Coherent(documents, s)
    ensures Coherent(documents, Step(documents, s, e).state)
  {
  }

  lemma {:induction false} RunKeepsCoherent(documents: string, s: ScreenState, events: seq<Event>)
    requires Coherent(documents, s)
    ensures Coherent(documents, Run(documents, s, events))
    decreases |events|
  {
    if events != [] {
      StepKeepsCoherent(documents, s, events[0]);
      RunKeepsCoherent(documents, Step(documents, s, events[0]).state, events[1..]);
    }
  }

  /** Every state reachable from launch enables the buttons only for the selected day's own video. */
  lemma ReachableIsCoherent(documents: string, today: CalendarDate, events: seq<Event>)
    ensures var s := Run(documents, Initial(today), events);
            s.videoURL.Some? ==> s.videoURL.value.directory == documents
                                 && ParseFileName(s.videoURL.value.name) == Some(s.selectedDate)
  {
    RunKeepsCoherent(documents, Initial(today), events);
    var s := Run(documents, Initial(today), events);
    if s.videoURL.Some? {
      FileNameRoundTrip(s.selectedDate);
    }
  }

  /** Once shown, the card is never hidden again. */
  lemma {:induction false} RunKeepsExpanded(documents: string, s: ScreenState, events: seq<Event>)
    requires s.isExpanded
    ensures Run(documents, s, events).isExpanded
    decreases |events|
  {
    if events != [] {
      RunKeepsExpanded(documents, Step(documents, s, events[0]).state, events[1..]);
    }
  }

  /**
    In a coherent state a tap sends a request exactly when a video was found and read, and the
    request reads back as the `video` field named after the selected day, with the video's
    bytes, as long as those bytes hold no delimiter for the request's boundary.
   */
  lemma DescribeSendsSelectedVideo(documents: string, s: ScreenState, uuid: string, data: seq<byte>)
    requires Coherent(documents, s) && s.videoURL.Some? && DelimiterFree(Boundary(uuid), data)
    ensures var t := Step(documents, s, DescribeTapped(uuid, Some(data)));
            t.sent.Some?
            && ParseRequest(t.sent.value) == Some(SingleFile(FormFile("video", FileName(s.selectedDate), "video/mp4", data)))
  {
    DescribeRequestRoundTrip(uuid, s.videoURL.value, data);
  }

  /** The description of the last reply that carried a string `description`, or `initial` if none did. */
  function LatestDescription(events: seq<Event>, initial: string): string {
    if events == [] then initial
    else
      var e := events[|events| - 1];
      if e.DescriptionReplied? && StringMember(e.reply, "description").Some? then StringMember(e.reply, "description").value
      else LatestDescription(events[..|events| - 1], initial)
  }

  lemma {:induction false} RunAppend(documents: string, s: ScreenState, events: seq<Event>, e: Event)
    ensures Run(documents, s, events + [e]) == Step(documents, Run(documents, s, events), e).state
    decreases |events|
  {
    if events == [] {
      assert [] + [e] == [e];
    } else {
      assert (events + [e])[1..] == events[1..] + [e];
      RunAppend(documents, Step(documents, s, events[0]).state, events[1..], e);
    }
  }

  /**
    The description on screen is always the one from the latest reply that carried a string
    `description`: picking another day, tapping, failed or refused replies and prediction
    replies never clear or alter it.
   */
  lemma {:induction false} RunShowsLatestDescription(documents: string, s: ScreenState, events: seq<Event>)
    ensures Run(documents, s, events).videoDescription == LatestDescription(events, s.videoDescription)
    decreases |events|
  {
    if events != [] {
      var init := events[..|events| - 1];
      var e := events[|events| - 1];
      assert events == init + [e];
      RunAppend(documents, s, init, e);
      RunShowsLatestDescription(documents, s, init);
    }
  }

  /**
    At launch the change handler has not run, so picking today again finds nothing: the buttons
    stay disabled even when today's video exists.
   */
  lemma LaunchLeavesTodayUnresolved(documents: string, today: CalendarDate, files: set<string>)
    ensures var s := Step(documents, Initial(today), DateSelected(today, files)).state;
            !ViewVideoEnabled(s) && !DescribeEnabled(s) && !s.isExpanded
  {
  }
}
