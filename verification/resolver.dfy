/**
  Finding the video recorded on a given day: the day's file name, looked up
  in the app's documents directory. The directory listing is a parameter
  (the names present when the lookup runs); nothing is cached.
 */
module Resolver {
  import opened Wrappers
  import opened DateName

  /** A file in a directory; `name` is the URL's last path component. */
  datatype FileUrl = FileUrl(directory: string, name: string)

  /** The URL the lookup yields: present exactly when the day's file exists. */
  function VideoFor(documents: string, files: set<string>, d: CalendarDate): (r: Option<FileUrl>)
    ensures r.Some? <==> FileName(d) in files
    ensures r.Some? ==> r.value.directory == documents && r.value.name in files
    ensures r.Some? ==> ParseFileName(r.value.name) == Some(d)
  {
    var name := FileName(d);
    FileNameRoundTrip(d);
    if name in files then Some(FileUrl(documents, name)) else None
  }
}
