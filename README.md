# SimpleWebServer, modelled in Dafny

SimpleWebServer is a small static-file HTTP server. For each request it
does the following:

- It strips the leading slashes from the URL path and uses `index.html`
  when nothing is left.
- It joins the result onto the configured root directory. When no file
  exists there, it falls back to the root's `error_404.html` and sets
  status 404.
- It writes audit messages to a per-date log file: the body of a POST, the
  query of a GET that has one, and always a summary line.
- It serves the resolved file gzip-compressed, with a content type taken
  from its extension, and closes the response.

This project models one call of `HandleRequest` and everything it relies
on. Six files make up the model, one Dafny module each except `paths.dfy`,
which holds two:

- `paths.dfy`:
  - `Wrappers`: the `Option` type.
  - `Paths`: `Path.Combine` and `Path.GetExtension` as .NET implements them
    on Unix, where `/` is the only separator and a path is rooted when it
    starts with `/`.
- `observation.dfy` (`Observation`): the observable steps of a request
  (`Effect`) and the `Observer` that records them.
- `content_type.dfy` (`ContentType`): `ToLowerInvariant` and the
  `GetContentType` switch.
- `resolution.dfy` (`Resolution`): `TrimStart('/')`, the `index.html`
  default, and the fallback to the not-found page. The filesystem is the
  set of paths at which a regular file exists.
- `audit_log.dfy` (`AuditLog`):
  - the clock, as a `Clock` object whose successive readings are an input;
  - the `yyyy-MM-dd` and `HH:mm:ss` formats, each with a parser and a round
    trip;
  - the log directory as a map from file name to the records appended to
    it;
  - `LogData` as a method of the `LogStore` class.
- `request_handler.dfy` (`RequestHandler`):
  - the audit messages of a request;
  - the ordered trace of observable steps of one request (`Steps`);
  - the `Response` state;
  - the `SimpleWebServer` class, whose `HandleRequest` method runs the
    three phases of the source in order. The phases are the methods
    `ResolveFile`, `LogRequest` and `ServeFile`.

The steps are recorded by the methods that make them. Each write method of
the `Response` (status, content type, header, body, close) and
`LogStore.LogData` append their own step to a ghost `Observer` that the two
share. The contract of `HandleRequest` says that the observed steps grow by
exactly `Steps(root, files, request)`. A body that called the response's
or the log store's methods in another order, or once more, would not
verify. A field assigned directly is not observed. For the response, such
an assignment is caught another way: `Response.Valid` requires the five
fields to be what `Replay` of the steps observed since the response was
created leaves, every write method and phase requires and keeps it, and
`HandleRequest` ensures it. For the log store, the contract of
`HandleRequest` pins its files. The one step not made by a modelled object
is the failed open of the resolved file, which `ServeFile` records itself.
The contract also ties the new response fields, the clock and the log to
functions of the request and the old state. The lemmas about `Steps`,
`Replay` and the log functions prove what the server promises:

1. A 404 is the only status ever set, and only as the first step.
2. Every log write comes before every write to the response.
3. The content type is that of the path actually served, not the one
   requested, so the not-found page goes out as `text/html`.
4. Gzip is announced exactly when a file is streamed.
5. Each audit message lands, once and in order, in the file of the date
   read when its `LogData` call began.

The model follows the code, which lacks some hardening one might expect:

- `TrimStart('/')` removes every leading slash, not just one.
- There is no path-traversal guard.
- There is no 500 response.
- There is no guaranteed `Close` when opening the file fails.

The model does not add any of these. `DotDotIsNotRejected` states the
missing guard as a fact about the handler's own text: a `..` segment in
the path it is given is joined onto the root unchecked. Whether such a
path can reach the handler depends on how `System.Uri` builds
`AbsolutePath`, which is not part of this model (see "Left out").

## Model

| member | source | states |
|---|---|---|
| Paths.Combine | simple_web_server/simple_web_server/Program.cs:51 | a relative non-empty second part is appended to the first, with a separator added unless the first is empty or already ends in one; a rooted second part replaces the first |
| Paths.GetExtension | simple_web_server/simple_web_server/Program.cs:120 | the result is empty or an extension of the path: a suffix that starts with '.', has more characters, and holds no other '.' and no separator |
| Paths.GetExtensionComplete | simple_web_server/simple_web_server/Program.cs:120 | whenever the path has an extension, GetExtension returns exactly it |
| Paths.GetExtensionOfSuffix | simple_web_server/simple_web_server/Program.cs:120 | directories in front of a name holding a '.' or a separator never change its extension |
| ContentType.GetContentType | simple_web_server/simple_web_server/Program.cs:117-131 | the type is the table entry for the lower-cased extension, and application/octet-stream when the table has none |
| ContentType.ContentTypeIsDefaultExactly | simple_web_server/simple_web_server/Program.cs:130 | the default type appears exactly when the lower-cased extension is not one of the six keys |
| ContentType.ToLowerInvariantLowers | simple_web_server/simple_web_server/Program.cs:120 | ToLowerInvariant keeps the length, turns each upper-case ASCII letter into its lower-case partner, keeps every other character, and leaves no upper-case ASCII letter |
| ContentType.ToLowerInvariantIdempotent | simple_web_server/simple_web_server/Program.cs:120 | lower-casing twice is lower-casing once |
| ContentType.GetExtensionOfLowered | simple_web_server/simple_web_server/Program.cs:120 | taking the extension and lower-casing commute |
| ContentType.ContentTypeIgnoresCase | simple_web_server/simple_web_server/Program.cs:120 | a path and its lower-cased form get the same content type |
| ContentType.ContentTypeOfKnownExtension | simple_web_server/simple_web_server/Program.cs:122-129 | any name ending in one of the six extensions gets that extension's type, whatever precedes it |
| ContentType.UpperAndLowerPng | simple_web_server/simple_web_server/Program.cs:120-127 | FILE.PNG and file.png are both image/png |
| ContentType.NoExtensionIsDefault | simple_web_server/simple_web_server/Program.cs:130 | a path without an extension (including one ending in '.') gets application/octet-stream |
| Resolution.TrimStartSlashes | simple_web_server/simple_web_server/Program.cs:43 | the result is a suffix of the input, everything removed is '/', and it does not itself start with '/' |
| Resolution.TrimStartSlashesAt | simple_web_server/simple_web_server/Program.cs:43 | TrimStart('/') keeps the path from its first character that is not '/' onwards |
| Resolution.RequestedFile | simple_web_server/simple_web_server/Program.cs:43-48 | the requested name is never empty or rooted; a URL path of slashes only, or an empty one, requests index.html; any other path is requested from its first character that is not '/' onwards |
| Resolution.Resolve | simple_web_server/simple_web_server/Program.cs:50-57 | the request is found exactly when root-joined name exists, and then that path is served; otherwise the root's error_404.html is |
| Resolution.ExtraLeadingSlash | simple_web_server/simple_web_server/Program.cs:43 | one more leading '/' never changes the requested file |
| Resolution.RootResolvesAsIndex | simple_web_server/simple_web_server/Program.cs:43-57 | `/`, `//` and the empty path resolve exactly as `/index.html` does |
| Resolution.DotDotIsRequested | simple_web_server/simple_web_server/Program.cs:43 | a path starting `/../` keeps its `..` segment in the requested name |
| Resolution.DotDotIsNotRejected | simple_web_server/simple_web_server/Program.cs:43-57 | given an absolute path starting `/../`, the handler's text joins it onto the root unchecked and serves it whenever that file exists |
| AuditLog.DateStampRoundTrip | simple_web_server/simple_web_server/Program.cs:109 | the yyyy-MM-dd stamp parses back to the reading's date |
| AuditLog.LogFileNameFormat | simple_web_server/simple_web_server/Program.cs:109 | the log file name is 19 characters: "logs/", a date stamp that parses back to the date of the reading, and ".log" |
| AuditLog.LogFileNameIsCombined | simple_web_server/simple_web_server/Program.cs:109 | the log file name is Path.Combine("logs", stamp + ".log") |
| AuditLog.LogFileNameIdentifiesDate | simple_web_server/simple_web_server/Program.cs:109 | two readings name the same log file if and only if they fall on the same date |
| AuditLog.LogLine | simple_web_server/simple_web_server/Program.cs:113 | a record is the 8-character HH:mm:ss time, " - ", exactly the message, and a newline, 12 characters longer than the message |
| AuditLog.LogLineRoundTrip | simple_web_server/simple_web_server/Program.cs:113 | a record parses back to its HH:mm:ss time of day and exactly its message |
| AuditLog.Clock.Now | simple_web_server/simple_web_server/Program.cs:109 | each reading of DateTime.Now is the next unused reading of the clock |
| AuditLog.AppendRecord | simple_web_server/simple_web_server/Program.cs:113 | after AppendAllText the named file exists and holds its old records followed by exactly the new one |
| AuditLog.AppendRecordIsAppendOnly | simple_web_server/simple_web_server/Program.cs:113 | AppendAllText removes no file and no record, and the only file it can create is the named one |
| AuditLog.AppendRecordKeepsOthers | simple_web_server/simple_web_server/Program.cs:113 | AppendAllText leaves every file other than the named one as it was |
| AuditLog.AppendAllIsAppendOnly | simple_web_server/simple_web_server/Program.cs:106-113 | however many LogData calls are made, every file keeps its existing records as a prefix |
| AuditLog.AppendAllConcat | simple_web_server/simple_web_server/Program.cs:67-84 | running the calls for `a` and then those for `b` is running the calls for `a + b` |
| AuditLog.AppendAllToOneFile | simple_web_server/simple_web_server/Program.cs:109-113 | calls whose file readings name one file add their records to its end in call order and touch no other file |
| AuditLog.SameDateLog | simple_web_server/simple_web_server/Program.cs:109-113 | when all readings fall on one date, that date's file gains exactly the messages' records in order, each timed by its call's second reading, and other dates' files are untouched |
| AuditLog.LogStore.LogData | simple_web_server/simple_web_server/Program.cs:106-114 | names the file from the first reading, creates the directory, appends the record timed by the second reading, uses two readings, and is append-only; the observer gains exactly its Log step |
| RequestHandler.AuditMessages | simple_web_server/simple_web_server/Program.cs:59-84 | a request logs one or two messages and the last is the summary line |
| RequestHandler.MessageKinds | simple_web_server/simple_web_server/Program.cs:60-84 | "POST data: " + body is logged iff the method is POST, "Query data: " + query iff it is GET with a non-empty query; any line of either kind is exactly that message; the summary is last and the only one of its kind |
| RequestHandler.StepsLogAuditMessages | simple_web_server/simple_web_server/Program.cs:59-84 | the Log steps of a request are exactly its audit messages, in order |
| RequestHandler.StepsShape | simple_web_server/simple_web_server/Program.cs:40-102 | the steps of a request are a 404 when the requested file is missing, one Log per audit message, and four serving steps ending in the close, or only the failed open when the served file does not exist |
| RequestHandler.StepsOrder | simple_web_server/simple_web_server/Program.cs:52-102 | a status is only ever set to 404, only as the first step, and exactly when the requested file is missing; every Log step precedes every response write |
| RequestHandler.ContentTypeOfServedPath | simple_web_server/simple_web_server/Program.cs:87-102 | the content type of the resolved path, the gzip header, the streaming of that file and the close appear exactly when the resolved file exists, so gzip is announced exactly when a file is streamed |
| RequestHandler.PagesAreHtml | simple_web_server/simple_web_server/Program.cs:47-55 | index.html and error_404.html are text/html under any root |
| RequestHandler.NotFoundPageIsHtml | simple_web_server/simple_web_server/Program.cs:52-90 | a missing file whose not-found page exists is answered as text/html |
| RequestHandler.GetRootServesIndex | simple_web_server/simple_web_server/Program.cs:40-102 | GET / with index.html present: no status set, one summary log, then text/html, gzip, the index body, close |
| RequestHandler.SetHeader | simple_web_server/simple_web_server/Program.cs:92 | AddHeader is Headers.Set: afterwards the new pair is present, at most one entry has that name (compared without case), and exactly the entries of other names remain |
| RequestHandler.SetHeaderLookup | simple_web_server/simple_web_server/Program.cs:92 | after AddHeader, looking up the same name in any case gives the new value, and every other name gives what it gave before |
| RequestHandler.ReplayClosed | simple_web_server/simple_web_server/Program.cs:102 | the response that the observed steps leave is closed exactly when a close was observed |
| RequestHandler.ReplayStatus | simple_web_server/simple_web_server/Program.cs:56 | a status other than 200 in the response that the observed steps leave is one that was observed being set |
| RequestHandler.Response.SetStatusCode | simple_web_server/simple_web_server/Program.cs:56 | sets the status code, keeps the other four fields, and the observer gains exactly its SetStatusCode step; Valid is kept |
| RequestHandler.Response.SetContentType | simple_web_server/simple_web_server/Program.cs:90 | sets the content type, keeps the other four fields, and the observer gains exactly its SetContentType step; Valid is kept |
| RequestHandler.Response.AddHeader | simple_web_server/simple_web_server/Program.cs:92 | the response's headers become SetHeader of the old ones, the other four fields are kept, and the observer gains exactly its AddHeader step; Valid is kept |
| RequestHandler.Response.StreamCompressed | simple_web_server/simple_web_server/Program.cs:95-98 | sets the body to the file streamed, keeps the other four fields, and the observer gains exactly its StreamCompressed step; Valid is kept |
| RequestHandler.Response.Close | simple_web_server/simple_web_server/Program.cs:102 | closes the response, keeps the other four fields, and the observer gains exactly its close step; Valid is kept |
| RequestHandler.SimpleWebServer.ResolveFile | simple_web_server/simple_web_server/Program.cs:43-57 | returns the resolved path and sets status 404 exactly when the requested file is missing, touching nothing else on the response; the observer gains that status step, recorded by the response; Valid is kept |
| RequestHandler.SimpleWebServer.LogMessage | simple_web_server/simple_web_server/Program.cs:106-114 | one LogData call extends the request's log run by one message: the observer gains its Log step, recorded by LogData, the clock two readings, and the log its record |
| RequestHandler.SimpleWebServer.LogRequest | simple_web_server/simple_web_server/Program.cs:59-84 | makes one LogData call per audit message, in order, two clock readings each; the observer gains one Log step per message and the log becomes the result of those calls |
| RequestHandler.SimpleWebServer.ServeFile | simple_web_server/simple_web_server/Program.cs:86-102 | when the file exists, sets its content type, sets Content-Encoding: gzip (replacing any earlier value), streams it and closes, and the observer gains exactly those four steps in that order; otherwise the open fails, that failure is the only step, and nothing is written; Valid holds before and after |
| RequestHandler.SimpleWebServer.HandleRequest | simple_web_server/simple_web_server/Program.cs:40-103 | with the response and the log reporting to one observer, the steps they record are exactly Steps(root, files, request), so the status comes first, every log write precedes every response write, and no write is repeated; the status, content type, headers, body and close state, the clock and the log are as those steps leave them, and Valid holds afterwards, so the response fields are what Replay of the observed steps leaves |

## Left out

- `Main` (Program.cs lines 15-37) is left out: reading the two configuration files, `int.Parse` of the port, the `HttpListener` set-up and the accept loop are start-up I/O. The root directory and the existing files are fields of the server object.
- The `Task.Run` dispatch is left out. One `HandleRequest` call is modelled. Concurrent requests share the log without a lock, and nothing is claimed about interleaved appends.
- The request body is taken as decoded text: reading the stream with `ContentEncoding` is stream I/O.
- `Url.Query` is taken as the text the property returns (with its leading `?`). `RemoteEndPoint` and `Url` are taken as the text their string conversion returns.
- Gzip compression and `CopyToAsync` are left out; the body is recorded only as the path of the file whose compressed bytes are sent.
- `File.Exists` and the later `FileStream` open see the same set of files, so the race between them is not modelled. A failed open is the `OpenFailed` step, after which the request ends with the response unclosed, as the exception leaves it; other I/O failures are not modelled.
- `DateTime.Now` is the `Clock` input: its readings are arbitrary calendar fields. `Day` is bounded by 31 and is not checked against the month's length. Culture-specific calendars and digits are not modelled: the formats are the invariant ASCII digits.
- The `:` in `HH:mm:ss` (Program.cs line 113) is, in .NET, the current culture's time separator rather than a literal colon. The model always writes `:`, as the invariant culture does.
- `Request.Url.AbsolutePath` (Program.cs line 43) is taken as free text. `System.Uri` removes `.` and `..` segments from http URLs and keeps the path percent-escaped, so a path such as `/../x` cannot reach the handler through `HttpListener`, and `a b.html` is looked up as `a%20b.html`. Neither the normalisation nor the escaping is modelled.
- `ToLowerInvariant` lower-cases the ASCII letters only; the rest of Unicode case mapping is not modelled.
- `System.IO.Path` is modelled as it behaves on Unix; Windows separators and drive roots are not.
- `Directory.CreateDirectory` is the `directoryExists` flag set on every call; directory permissions and creation errors are not modelled.
- Records are kept per file as a sequence of appended strings; byte encoding and the file's concatenated text are not modelled. One record per message is not one line per message: a message holding `\n`, such as a POST body, writes several lines into the file, and these can look like other records (a forged `Request from` line, say). Splitting the file's text back into records is not modelled.
- The `Response` keeps its content type in a field of its own. In .NET, setting `ContentType` also sets the `Content-Type` entry of the header collection, so `HeaderValue(headers, "Content-Type")` is the type there but `None` in the model.
- RequestHandler.SetHeader: when a header of that name already exists, .NET replaces its value where it stands and keeps the name as first written. The model drops the old entry and adds the new pair at the end, so only the position and the spelling of the name differ. Header names are compared with ASCII case folding only. The server always starts from a fresh response with no headers, where the two agree.
- RequestHandler.SimpleWebServer.HandleRequest: modelled as three helper methods called in order (resolution, logging, serving) rather than one method body. Each helper's contract covers the statements of its phase.
