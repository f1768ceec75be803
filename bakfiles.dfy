/**
 * The BAK-file page (src/pages/ListBAKFiles.tsx): normalising the listing
 * returned by `GET /list`, turning the progress stream of
 * `POST /convert/file/stream` into per-file progress and message maps,
 * fetching the converted artifact from `POST /convert/file`, naming the saved
 * file, and the cleanup that always ends a download.
 *
 * The network, the stream reader and the text decoder are replaced by their
 * observable results: the HTTP outcome of each request, the sequence of
 * already-decoded chunks the reader delivers, and how the read loop ends.
 * `JSON.parse` of an event body is the parameter `parse`; `None` stands for a
 * body that makes the parse (or the property access after it) throw.
 */
module BakFiles {
  import opened Wrappers
  import opened JsString

  // ---------------------------------------------------------------------------
  // Listing
  // ---------------------------------------------------------------------------

  /** A backup file on the server and whether its converted archive already exists. */
  datatype BakFile = BakFile(bak: string, isZipExist: bool)

  /** One element of the listing's `data` array: a bare name or a full record. */
  datatype ListEntry = Name(name: string) | Record(file: BakFile)

  /** The listing's `data` field: an array of entries, or any other JSON value. */
  datatype ListData = NotAnArray | EntryArray(entries: seq<ListEntry>)

  /** The JSON body of the listing response (timestamp and request id left out). */
  datatype ListResponse = ListResponse(success: bool, statusCode: int, message: string, data: ListData)

  /**
   * What `fetch` and `response.json()` deliver: a rejection (network failure),
   * or a response with its `ok` flag, its status and the parsed body, which is
   * a failure with the parser's message when the body is not JSON.
   */
  datatype ListReply =
    | ListRejected(reason: string)
    | ListResponded(ok: bool, status: nat, json: Result<ListResponse, string>)

  /** The element-wise step of the listing's `map`. */
  function NormaliseEntry(e: ListEntry): BakFile
  {
    match e
    case Name(s) => BakFile(s, false)
    case Record(f) => f
  }

  /**
   * The listing's `map`: bare names become records without an archive, records
   * pass through; length and order are kept.
   */
  function Normalise(raw: seq<ListEntry>): (r: seq<BakFile>)
    ensures |r| == |raw|
    ensures forall i :: 0 <= i < |raw| && raw[i].Name? ==> r[i] == BakFile(raw[i].name, false)
    ensures forall i :: 0 <= i < |raw| && raw[i].Record? ==> r[i] == raw[i].file
  {
    if raw == [] then [] else [NormaliseEntry(raw[0])] + Normalise(raw[1..])
  }

  /** `fetchBakFiles`: the listing, or the message of the error it throws. */
  function FetchBakFiles(reply: ListReply): Result<seq<BakFile>, string>
  {
    match reply
    case ListRejected(reason) => Failure(reason)
    case ListResponded(ok, status, json) =>
      if !ok then Failure("Request failed: " + NatToString(status))
      else match json
        case Failure(e) => Failure(e)
        case Success(body) =>
          if !body.success || !body.data.EntryArray? then Failure("Unexpected API response")
          else Success(Normalise(body.data.entries))
  }

  /**
   * The listing succeeds exactly when the response is ok, its body parses,
   * `success` is true and `data` is an array, and then it is the normalised
   * array; each failure carries the message the source throws.
   */
  lemma FetchBakFilesOutcome(reply: ListReply)
    ensures FetchBakFiles(reply).Success? <==>
      reply.ListResponded? && reply.ok && reply.json.Success?
      && reply.json.value.success && reply.json.value.data.EntryArray?
    ensures FetchBakFiles(reply).Success? ==>
      FetchBakFiles(reply).value == Normalise(reply.json.value.data.entries)
    ensures reply.ListResponded? && !reply.ok ==>
      FetchBakFiles(reply) == Failure("Request failed: " + NatToString(reply.status))
    ensures (reply.ListResponded? && reply.ok && reply.json.Success?
             && !(reply.json.value.success && reply.json.value.data.EntryArray?)) ==>
      FetchBakFiles(reply) == Failure("Unexpected API response")
  {
  }

  /** A listing made only of full records is returned unchanged. */
  lemma {:induction false} NormaliseRecords(files: seq<BakFile>)
    ensures Normalise(seq(|files|, i requires 0 <= i < |files| => Record(files[i]))) == files
  {
    var raw := seq(|files|, i requires 0 <= i < |files| => Record(files[i]));
    var r := Normalise(raw);
    assert forall i :: 0 <= i < |files| ==> r[i] == files[i];
  }

  // ---------------------------------------------------------------------------
  // Progress stream
  // ---------------------------------------------------------------------------

  /** The JSON shape of one progress event; a field is `None` unless it has the right type. */
  datatype StreamEvent = StreamEvent(eventType: Option<string>, percent: Option<int>, message: Option<string>)

  /** The two per-file maps the page keeps: `progressByFile` and `messageByFile`. */
  datatype Progress = Progress(percent: map<string, int>, message: map<string, string>)

  const DataPrefix: string := "data: "
  const FrameSeparator: string := "\n\n"

  /**
   * The event a segment of a chunk carries: only a segment starting with
   * "data: " is parsed, from offset 6; a parse failure yields nothing.
   */
  function SegmentEvent(segment: string, parse: string -> Option<StreamEvent>): Option<StreamEvent>
  {
    if StartsWith(segment, DataPrefix) then parse(segment[|DataPrefix|..]) else None
  }

  /** One event's effect on the maps: a numeric percent and a string message each replace the entry for `fileName`. */
  function ApplyEvent(p: Progress, fileName: string, e: StreamEvent): Progress
  {
    Progress(
      if e.percent.Some? then p.percent[fileName := e.percent.value] else p.percent,
      if e.message.Some? then p.message[fileName := e.message.value] else p.message)
  }

  /** The effect of one segment: its event's, or none for a skipped segment. */
  function ApplySegment(p: Progress, fileName: string, segment: string, parse: string -> Option<StreamEvent>): Progress
  {
    match SegmentEvent(segment, parse)
    case None => p
    case Some(e) => ApplyEvent(p, fileName, e)
  }

  /** The segments of a chunk applied in order. */
  function ApplySegments(p: Progress, fileName: string, segments: seq<string>, parse: string -> Option<StreamEvent>): Progress
  {
    if segments == [] then p
    else ApplySegment(ApplySegments(p, fileName, segments[..|segments| - 1], parse), fileName, segments[|segments| - 1], parse)
  }

  /** One decoded chunk, split on "\n\n" on its own. */
  function ApplyChunk(p: Progress, fileName: string, chunk: string, parse: string -> Option<StreamEvent>): Progress
  {
    ApplySegments(p, fileName, Split(chunk, FrameSeparator), parse)
  }

  /** The chunks of the stream applied in the order they are read. */
  function ApplyChunks(p: Progress, fileName: string, chunks: seq<string>, parse: string -> Option<StreamEvent>): Progress
  {
    if chunks == [] then p
    else ApplyChunk(ApplyChunks(p, fileName, chunks[..|chunks| - 1], parse), fileName, chunks[|chunks| - 1], parse)
  }

  // An independent reading of the stream: first the list of events it carries,
  // then the last value of each field.

  /** The events carried by a list of segments, in order. */
  function SegmentEvents(segments: seq<string>, parse: string -> Option<StreamEvent>): seq<StreamEvent>
  {
    if segments == [] then []
    else
      SegmentEvents(segments[..|segments| - 1], parse)
      + match SegmentEvent(segments[|segments| - 1], parse)
        case None => []
        case Some(e) => [e]
  }

  /** The events carried by a stream: each chunk's own segments, chunk after chunk. */
  function StreamEvents(chunks: seq<string>, parse: string -> Option<StreamEvent>): seq<StreamEvent>
  {
    if chunks == [] then []
    else StreamEvents(chunks[..|chunks| - 1], parse) + SegmentEvents(Split(chunks[|chunks| - 1], FrameSeparator), parse)
  }

  /** The percent of the last event that has one. */
  function LastPercent(events: seq<StreamEvent>): Option<int>
  {
    if events == [] then None
    else if events[|events| - 1].percent.Some? then events[|events| - 1].percent
    else LastPercent(events[..|events| - 1])
  }

  /** The message of the last event that has one. */
  function LastMessage(events: seq<StreamEvent>): Option<string>
  {
    if events == [] then None
    else if events[|events| - 1].message.Some? then events[|events| - 1].message
    else LastMessage(events[..|events| - 1])
  }

  /** Events applied in order. */
  function ApplyEvents(p: Progress, fileName: string, events: seq<StreamEvent>): Progress
  {
    if events == [] then p
    else ApplyEvent(ApplyEvents(p, fileName, events[..|events| - 1]), fileName, events[|events| - 1])
  }

  /** The maps after a run of events, stated without replaying them: the last value of each field wins. */
  function LastWins(p: Progress, fileName: string, events: seq<StreamEvent>): Progress
  {
    Progress(
      match LastPercent(events) case None => p.percent case Some(v) => p.percent[fileName := v],
      match LastMessage(events) case None => p.message case Some(m) => p.message[fileName := m])
  }

  lemma {:induction false} ApplyEventsLastWins(p: Progress, fileName: string, events: seq<StreamEvent>)
    ensures ApplyEvents(p, fileName, events) == LastWins(p, fileName, events)
  {
    if events != [] {
      ApplyEventsLastWins(p, fileName, events[..|events| - 1]);
    }
  }

  lemma {:induction false} ApplyEventsAppend(p: Progress, fileName: string, a: seq<StreamEvent>, b: seq<StreamEvent>)
    ensures ApplyEvents(p, fileName, a + b) == ApplyEvents(ApplyEvents(p, fileName, a), fileName, b)
    decreases |b|
  {
    if b == [] {
      assert a + b == a;
    } else {
      assert (a + b)[..|a + b| - 1] == a + b[..|b| - 1];
      ApplyEventsAppend(p, fileName, a, b[..|b| - 1]);
    }
  }

  lemma {:induction false} ApplySegmentsAsEvents(p: Progress, fileName: string, segments: seq<string>, parse: string -> Option<StreamEvent>)
    ensures ApplySegments(p, fileName, segments, parse) == ApplyEvents(p, fileName, SegmentEvents(segments, parse))
  {
    if segments != [] {
      var init := segments[..|segments| - 1];
      ApplySegmentsAsEvents(p, fileName, init, parse);
      var evs := SegmentEvents(init, parse);
      match SegmentEvent(segments[|segments| - 1], parse)
      case None =>
        assert evs + [] == evs;
      case Some(e) =>
        assert (evs + [e])[..|evs + [e]| - 1] == evs;
    }
  }

  lemma {:induction false} ApplyChunksAsEvents(p: Progress, fileName: string, chunks: seq<string>, parse: string -> Option<StreamEvent>)
    ensures ApplyChunks(p, fileName, chunks, parse) == ApplyEvents(p, fileName, StreamEvents(chunks, parse))
  {
    if chunks != [] {
      var init := chunks[..|chunks| - 1];
      var segs := Split(chunks[|chunks| - 1], FrameSeparator);
      ApplyChunksAsEvents(p, fileName, init, parse);
      ApplySegmentsAsEvents(ApplyChunks(p, fileName, init, parse), fileName, segs, parse);
      ApplyEventsAppend(p, fileName, StreamEvents(init, parse), SegmentEvents(segs, parse));
    }
  }

  /**
   * Reading a stream sets each map's entry for `fileName` to the last value of
   * that field among the events the stream carries, leaves it alone when no
   * event has that field, and never touches another file's entry. Segments
   * that do not start with "data: " or fail to parse contribute no event.
   */
  lemma StreamLastWins(p: Progress, fileName: string, chunks: seq<string>, parse: string -> Option<StreamEvent>)
    ensures ApplyChunks(p, fileName, chunks, parse) == LastWins(p, fileName, StreamEvents(chunks, parse))
  {
    ApplyChunksAsEvents(p, fileName, chunks, parse);
    ApplyEventsLastWins(p, fileName, StreamEvents(chunks, parse));
  }

  /** Reading a stream changes no entry but the downloading file's. */
  lemma StreamTouchesOnlyFile(p: Progress, fileName: string, chunks: seq<string>, parse: string -> Option<StreamEvent>, other: string)
    requires other != fileName
    ensures var q := ApplyChunks(p, fileName, chunks, parse);
      (other in q.percent <==> other in p.percent) && (other in p.percent ==> q.percent[other] == p.percent[other])
      && (other in q.message <==> other in p.message) && (other in p.message ==> q.message[other] == p.message[other])
  {
    StreamLastWins(p, fileName, chunks, parse);
  }

  /** A chunk in which no segment starts with "data: " leaves both maps as they were. */
  lemma {:induction false} ChunkWithoutDataIgnored(p: Progress, fileName: string, chunk: string, parse: string -> Option<StreamEvent>)
    requires forall k :: 0 <= k < |Split(chunk, FrameSeparator)| ==> !StartsWith(Split(chunk, FrameSeparator)[k], DataPrefix)
    ensures ApplyChunk(p, fileName, chunk, parse) == p
  {
    var segs := Split(chunk, FrameSeparator);
    NoDataSegmentsNoEvents(segs, parse);
    ApplySegmentsAsEvents(p, fileName, segs, parse);
  }

  lemma {:induction false} NoDataSegmentsNoEvents(segs: seq<string>, parse: string -> Option<StreamEvent>)
    requires forall k :: 0 <= k < |segs| ==> !StartsWith(segs[k], DataPrefix)
    ensures SegmentEvents(segs, parse) == []
  {
    if segs != [] {
      NoDataSegmentsNoEvents(segs[..|segs| - 1], parse);
    }
  }

  /**
   * Frames are never joined across reads: a "data: " frame whose prefix is cut
   * between two chunks, at any position, is dropped, while the same bytes read
   * as one chunk update the progress.
   */
  lemma SplitFrameNotReassembled(p: Progress, fileName: string, payload: string, parse: string -> Option<StreamEvent>, cut: nat)
    requires 0 < cut < |DataPrefix|
    requires forall k :: 0 <= k < |payload| ==> payload[k] != '\n'
    requires parse(payload).Some? && parse(payload).value.percent.Some?
    ensures ApplyChunks(p, fileName, [DataPrefix[..cut], DataPrefix[cut..] + payload], parse) == p
    ensures ApplyChunks(p, fileName, [DataPrefix + payload], parse).percent
      == p.percent[fileName := parse(payload).value.percent.value]
  {
    var head := DataPrefix[..cut];
    var second := DataPrefix[cut..] + payload;
    var whole := DataPrefix + payload;
    assert second[0] == DataPrefix[cut];
    forall k | 0 <= k < |second|
      ensures second[k] != '\n'
    {
      if k >= |DataPrefix| - cut { assert second[k] == payload[k - (|DataPrefix| - cut)]; }
    }
    UnprefixedChunkIgnored(p, fileName, head, parse);
    UnprefixedChunkIgnored(p, fileName, second, parse);
    assert [head, second][..1] == [head];
    assert [head][..0] == [];
    assert ApplyChunks(p, fileName, [head], parse) == ApplyChunk(p, fileName, head, parse);
    NotContainsFirstChar(whole, FrameSeparator) by {
      forall k | 0 <= k < |whole|
        ensures whole[k] != FrameSeparator[0]
      {
        if k >= |DataPrefix| { assert whole[k] == payload[k - |DataPrefix|]; }
      }
    }
    SplitWithoutSeparator(whole, FrameSeparator);
    assert StartsWith(whole, DataPrefix) && whole[|DataPrefix|..] == payload;
    assert [whole][..0] == [];
    assert ApplyChunks(p, fileName, [whole], parse) == ApplySegment(p, fileName, whole, parse);
  }

  /** A chunk with no line break that does not start with "data: " leaves both maps as they were. */
  lemma UnprefixedChunkIgnored(p: Progress, fileName: string, chunk: string, parse: string -> Option<StreamEvent>)
    requires forall k :: 0 <= k < |chunk| ==> chunk[k] != '\n'
    requires !StartsWith(chunk, DataPrefix)
    ensures ApplyChunk(p, fileName, chunk, parse) == p
  {
    NotContainsFirstChar(chunk, FrameSeparator);
    SplitWithoutSeparator(chunk, FrameSeparator);
    assert [chunk][..0] == [];
    assert SegmentEvent(chunk, parse) == None;
    assert ApplySegments(p, fileName, [chunk], parse) == ApplySegment(p, fileName, chunk, parse);
  }

  // ---------------------------------------------------------------------------
  // Output name
  // ---------------------------------------------------------------------------

  /** `name.replace(/\.bak$/i, ".rar")`: a trailing ".bak" in any letter case becomes ".rar". */
  function ReplaceBakSuffixIgnoringCase(name: string): string
  {
    if EndsWithIgnoreCase(name, ".bak") then name[..|name| - 4] + ".rar" else name
  }

  /** `name.replace(/\.BAK$/g, ".rar")`: a trailing upper-case ".BAK" becomes ".rar". */
  function ReplaceUpperBakSuffix(name: string): string
  {
    if EndsWith(name, ".BAK") then name[..|name| - 4] + ".rar" else name
  }

  /**
   * The suggested download name: both replacements, then "result.rar" when
   * the result is the empty string (which happens only for an empty input).
   */
  function SuggestedName(fileName: string): (r: string)
    ensures r != ""
    ensures EndsWithIgnoreCase(fileName, ".bak") ==> r == fileName[..|fileName| - 4] + ".rar"
    ensures !EndsWithIgnoreCase(fileName, ".bak") && fileName != "" ==> r == fileName
    ensures fileName == "" ==> r == "result.rar"
  {
    var renamed := ReplaceUpperBakSuffix(ReplaceBakSuffixIgnoringCase(fileName));
    if renamed == "" then "result.rar" else renamed
  }

  /** The second, case-sensitive replacement never changes what the first one produced. */
  lemma UpperReplaceRedundant(name: string)
    ensures ReplaceUpperBakSuffix(ReplaceBakSuffixIgnoringCase(name)) == ReplaceBakSuffixIgnoringCase(name)
  {
    var once := ReplaceBakSuffixIgnoringCase(name);
    if EndsWithIgnoreCase(name, ".bak") {
      assert once[|once| - 4..] == ".rar";
    }
  }

  /** Renaming a renamed file changes nothing further. */
  lemma SuggestedNameIdempotent(fileName: string)
    ensures SuggestedName(SuggestedName(fileName)) == SuggestedName(fileName)
  {
  }

  /** A trailing ".bak" is recognised in every letter case. */
  lemma SuggestedNameRenames()
    ensures SuggestedName("db.bak") == "db.rar"
    ensures SuggestedName("DUMP.BAK") == "DUMP.rar"
    ensures SuggestedName(".bak") == ".rar"
  {
    assert "db.bak"[2..] == ".bak";
    assert "DUMP.BAK"[4..] == ".BAK";
    assert ToLower(".BAK") == ".bak";
    assert ".bak"[0..] == ".bak";
  }

  /** Names without a trailing ".bak" are kept, even when ".bak" occurs earlier. */
  lemma SuggestedNameKeeps()
    ensures SuggestedName("noext") == "noext"
    ensures SuggestedName("a.bak.zip") == "a.bak.zip"
    ensures SuggestedName("") == "result.rar"
  {
    assert ToLower("noext"[1..])[0] == 'o';
    assert ToLower("a.bak.zip"[5..])[1] == 'z';
  }

  // ---------------------------------------------------------------------------
  // The download: stream phase, artifact phase, cleanup
  // ---------------------------------------------------------------------------

  /** What the stream request produced: a rejection, or a response with `ok`, status and whether it has a body. */
  datatype StreamOpen = StreamRejected(reason: string) | StreamResponded(ok: bool, status: nat, hasBody: bool)

  /** How the read loop ends: the reader reports `done`, or a read rejects. */
  datatype ReadEnd = Done | ReadFailed(reason: string)

  /**
   * What the convert request produced: a rejection (of the request or of
   * reading its body), or a response with `ok`, status and the binary body.
   */
  datatype ConvertReply = ConvertRejected(reason: string) | ConvertResponded(ok: bool, status: nat, blob: seq<bv8>)

  /** The outward effects of a download, in the order they happen. */
  datatype Effect =
    | PostStream(filename: string)
    | PostConvert(filename: string)
    | SaveFile(name: string, blob: seq<bv8>)
    | Alert(text: string)

  /** The maps and the effects a download leaves behind. */
  datatype Outcome = Outcome(progress: Progress, effects: seq<Effect>)

  /** The `finally` block's map updates: the downloading file's entries go back to 0 and "". */
  function Cleanup(p: Progress, fileName: string): Progress
  {
    Progress(p.percent[fileName := 0], p.message[fileName := ""])
  }

  /** The error thrown before any read: a rejected request, a non-ok status or a missing body. */
  function StreamOpenError(open: StreamOpen): Option<string>
  {
    match open
    case StreamRejected(reason) => Some(reason)
    case StreamResponded(ok, status, hasBody) =>
      if !ok || !hasBody then Some("Progress stream failed: " + NatToString(status)) else None
  }

  /** The effects of the artifact phase, once the convert request has been issued. */
  function ConvertEffects(fileName: string, reply: ConvertReply): seq<Effect>
  {
    match reply
    case ConvertRejected(reason) => [Alert(reason)]
    case ConvertResponded(ok, status, blob) =>
      if !ok then [Alert("Convert failed: " + NatToString(status))]
      else [SaveFile(SuggestedName(fileName), blob)]
  }

  /** `onDownloadClick` as a function of the replies it receives. */
  function DownloadOutcome(p: Progress, fileName: string, open: StreamOpen, chunks: seq<string>, end: ReadEnd,
                           reply: ConvertReply, parse: string -> Option<StreamEvent>): Outcome
  {
    match StreamOpenError(open)
    case Some(message) => Outcome(Cleanup(p, fileName), [PostStream(fileName), Alert(message)])
    case None =>
      var streamed := ApplyChunks(p, fileName, chunks, parse);
      match end
      case ReadFailed(reason) => Outcome(Cleanup(streamed, fileName), [PostStream(fileName), Alert(reason)])
      case Done => Outcome(Cleanup(streamed, fileName), [PostStream(fileName), PostConvert(fileName)] + ConvertEffects(fileName, reply))
  }

  /**
   * Whatever the replies, a download ends with the file's progress at 0 and its
   * message at "", and every other file's entries exactly as they were before.
   */
  lemma DownloadCleansUp(p: Progress, fileName: string, open: StreamOpen, chunks: seq<string>, end: ReadEnd,
                         reply: ConvertReply, parse: string -> Option<StreamEvent>)
    ensures DownloadOutcome(p, fileName, open, chunks, end, reply, parse).progress == Cleanup(p, fileName)
  {
    StreamLastWins(p, fileName, chunks, parse);
    CleanupAfterLastWins(p, fileName, StreamEvents(chunks, parse));
    assert Cleanup(ApplyChunks(p, fileName, chunks, parse), fileName) == Cleanup(p, fileName);
  }

  /** Resetting a file's entries forgets whatever the events had written to them. */
  lemma CleanupAfterLastWins(p: Progress, fileName: string, events: seq<StreamEvent>)
    ensures Cleanup(LastWins(p, fileName, events), fileName) == Cleanup(p, fileName)
  {
    var q := LastWins(p, fileName, events);
    assert q.percent[fileName := 0] == p.percent[fileName := 0];
    assert q.message[fileName := ""] == p.message[fileName := ""];
  }

  /**
   * The stream request is always issued first. A failure to open the stream is
   * reported before anything is read and the convert request is never issued;
   * the convert request is issued exactly when the stream opened and the read
   * loop ended on `done`, and it is the second effect.
   */
  lemma DownloadPhaseOrder(p: Progress, fileName: string, open: StreamOpen, chunks: seq<string>, end: ReadEnd,
                           reply: ConvertReply, parse: string -> Option<StreamEvent>)
    ensures var effects := DownloadOutcome(p, fileName, open, chunks, end, reply, parse).effects;
      && |effects| == 3 - (if StreamOpenError(open).Some? || end.ReadFailed? then 1 else 0)
      && effects[0] == PostStream(fileName)
      && (StreamOpenError(open).Some? ==> effects == [PostStream(fileName), Alert(StreamOpenError(open).value)])
      && (PostConvert(fileName) in effects <==> StreamOpenError(open).None? && end == Done)
      && (PostConvert(fileName) in effects ==> effects[1] == PostConvert(fileName))
  {
  }

  /** A file is saved only after a successful convert response, under the suggested name, with the response body. */
  lemma DownloadSavesOnSuccess(p: Progress, fileName: string, open: StreamOpen, chunks: seq<string>, end: ReadEnd,
                               reply: ConvertReply, parse: string -> Option<StreamEvent>)
    ensures var effects := DownloadOutcome(p, fileName, open, chunks, end, reply, parse).effects;
      (exists k :: 0 <= k < |effects| && effects[k].SaveFile?) <==>
        StreamOpenError(open).None? && end == Done && reply.ConvertResponded? && reply.ok
    ensures var effects := DownloadOutcome(p, fileName, open, chunks, end, reply, parse).effects;
      StreamOpenError(open).None? && end == Done && reply.ConvertResponded? && reply.ok ==>
        effects[2] == SaveFile(SuggestedName(fileName), reply.blob)
  {
    var effects := DownloadOutcome(p, fileName, open, chunks, end, reply, parse).effects;
    if StreamOpenError(open).None? && end == Done && reply.ConvertResponded? && reply.ok {
      assert effects[2].SaveFile?;
    }
  }

  // ---------------------------------------------------------------------------
  // What the page shows
  // ---------------------------------------------------------------------------

  /** `progressByFile[name] ?? 0`. */
  function PercentOf(p: Progress, name: string): int
  {
    if name in p.percent then p.percent[name] else 0
  }

  /**
   * The number shown in the modal: the active file's percent, or 0 when no
   * file is active; an empty name counts as no file, as JavaScript's
   * truthiness has it. Percents are integers here, so rounding changes nothing.
   */
  function ActiveProgress(downloadingName: Option<string>, p: Progress): (r: int)
    ensures downloadingName.None? || downloadingName == Some("") ==> r == 0
    ensures downloadingName.Some? && downloadingName.value != "" ==> r == PercentOf(p, downloadingName.value)
  {
    match downloadingName
    case None => 0
    case Some(name) => if name == "" then 0 else PercentOf(p, name)
  }

  /** `messageByFile[active] ?? ""` for the active file, else "". */
  function ActiveMessage(downloadingName: Option<string>, p: Progress): string
  {
    match downloadingName
    case None => ""
    case Some(name) => if name != "" && name in p.message then p.message[name] else ""
  }

  /** The progress bar's width in percent: the shown value clamped into [0, 100]. */
  function BarWidth(shown: int): (w: int)
    ensures 0 <= w <= 100
    ensures 0 <= shown <= 100 ==> w == shown
    ensures shown > 100 ==> w == 100
    ensures shown < 0 ==> w == 0
  {
    var atLeastZero := if shown > 0 then shown else 0;
    if atLeastZero < 100 then atLeastZero else 100
  }

  /** A row of the list: the percent badge (shown only above 0), the message (shown when non-empty) and the button. */
  datatype RowView = RowView(percentBadge: Option<int>, message: Option<string>, buttonDisabled: bool, buttonLabel: string)

  function RowOf(downloadingName: Option<string>, p: Progress, name: string): RowView
  {
    var pct := PercentOf(p, name);
    var busy := downloadingName == Some(name);
    RowView(
      if pct > 0 then Some(pct) else None,
      if name in p.message && p.message[name] != "" then Some(p.message[name]) else None,
      busy,
      if busy then "Downloading..." else "Download")
  }

  /**
   * While a file is downloading, the dialog shows the last percent and the last
   * message the stream has sent for it, or the entries from before the
   * download for a field the stream has not sent yet.
   */
  lemma DialogShowsLastSent(p: Progress, fileName: string, chunks: seq<string>, parse: string -> Option<StreamEvent>)
    requires fileName != ""
    ensures var q := ApplyChunks(p, fileName, chunks, parse);
      var events := StreamEvents(chunks, parse);
      && ActiveProgress(Some(fileName), q) == (if LastPercent(events).Some? then LastPercent(events).value else PercentOf(p, fileName))
      && ActiveMessage(Some(fileName), q)
         == (if LastMessage(events).Some? then LastMessage(events).value
             else if fileName in p.message then p.message[fileName] else "")
  {
    StreamLastWins(p, fileName, chunks, parse);
  }

  /** Once a download of `fileName` has finished, its row shows no percent, no message and an enabled button. */
  lemma RowAfterDownload(p: Progress, fileName: string, open: StreamOpen, chunks: seq<string>, end: ReadEnd,
                         reply: ConvertReply, parse: string -> Option<StreamEvent>)
    ensures RowOf(None, DownloadOutcome(p, fileName, open, chunks, end, reply, parse).progress, fileName)
      == RowView(None, None, false, "Download")
  {
    DownloadCleansUp(p, fileName, open, chunks, end, reply, parse);
  }

  /** One "data: " frame followed by the separator contributes exactly the event its body parses to. */
  lemma {:induction false} TerminatedFrame(p: Progress, fileName: string, body: string, parse: string -> Option<StreamEvent>)
    requires forall k :: 0 <= k < |body| ==> body[k] != '\n'
    ensures ApplyChunk(p, fileName, DataPrefix + body + FrameSeparator, parse) == ApplySegment(p, fileName, DataPrefix + body, parse)
    ensures SegmentEvent(DataPrefix + body, parse) == parse(body)
  {
    var frame := DataPrefix + body;
    forall k | 0 <= k < |frame|
      ensures frame[k] != FrameSeparator[0]
    {
      if k >= |DataPrefix| { assert frame[k] == body[k - |DataPrefix|]; }
    }
    SplitTerminated(frame, FrameSeparator);
    var segs := [frame, ""];
    assert frame + FrameSeparator == DataPrefix + body + FrameSeparator;
    assert segs[..1] == [frame];
    assert [frame][..0] == [];
    assert !StartsWith("", DataPrefix);
    assert StartsWith(frame, DataPrefix) && frame[|DataPrefix|..] == body;
    calc {
      ApplySegments(p, fileName, segs, parse);
      ApplySegment(ApplySegments(p, fileName, [frame], parse), fileName, "", parse);
      ApplySegments(p, fileName, [frame], parse);
      ApplySegment(ApplySegments(p, fileName, [], parse), fileName, frame, parse);
    }
  }

  const FirstBody: string := "{\"percent\":10}"
  const SecondBody: string := "{\"percent\":55,\"message\":\"packing\"}"
  const FirstChunk: string := DataPrefix + FirstBody + FrameSeparator
  const SecondChunk: string := DataPrefix + SecondBody + FrameSeparator

  /** A parser that reads the two example bodies as a bare percent and as a percent with a message. */
  predicate ReadsExampleBodies(parse: string -> Option<StreamEvent>)
  {
    && parse(FirstBody) == Some(StreamEvent(None, Some(10), None))
    && parse(SecondBody) == Some(StreamEvent(None, Some(55), Some("packing")))
  }

  /** After the first example chunk the percent is 10; after the second it is 55 with the message "packing". */
  lemma TwoFrameProgress(p: Progress, fileName: string, parse: string -> Option<StreamEvent>)
    requires ReadsExampleBodies(parse)
    ensures ApplyChunks(p, fileName, [FirstChunk], parse).percent == p.percent[fileName := 10]
    ensures ApplyChunks(p, fileName, [FirstChunk], parse).message == p.message
    ensures ApplyChunks(p, fileName, [FirstChunk, SecondChunk], parse)
      == Progress(p.percent[fileName := 55], p.message[fileName := "packing"])
  {
    assert forall k :: 0 <= k < |FirstBody| ==> FirstBody[k] != '\n';
    assert forall k :: 0 <= k < |SecondBody| ==> SecondBody[k] != '\n';
    TerminatedFrame(p, fileName, FirstBody, parse);
    var q := ApplyChunk(p, fileName, FirstChunk, parse);
    TerminatedFrame(q, fileName, SecondBody, parse);
    assert [FirstChunk, SecondChunk][..1] == [FirstChunk];
    assert [FirstChunk][..0] == [];
    assert ApplyChunks(p, fileName, [FirstChunk], parse) == q;
  }

  /**
   * The two example frames, one per read, then a successful convert: the
   * modal shows 10%, then 55% with "packing"; the artifact is saved as
   * "db.rar"; and the page's entries for the file are reset.
   */
  lemma TwoFrameDownload(p: Progress, parse: string -> Option<StreamEvent>, blob: seq<bv8>)
    requires ReadsExampleBodies(parse)
    ensures ActiveProgress(Some("db.bak"), ApplyChunks(p, "db.bak", [FirstChunk], parse)) == 10
    ensures ActiveProgress(Some("db.bak"), ApplyChunks(p, "db.bak", [FirstChunk, SecondChunk], parse)) == 55
    ensures ActiveMessage(Some("db.bak"), ApplyChunks(p, "db.bak", [FirstChunk, SecondChunk], parse)) == "packing"
    ensures DownloadOutcome(p, "db.bak", StreamResponded(true, 200, true), [FirstChunk, SecondChunk], Done,
                            ConvertResponded(true, 200, blob), parse)
      == Outcome(Cleanup(p, "db.bak"), [PostStream("db.bak"), PostConvert("db.bak"), SaveFile("db.rar", blob)])
  {
    TwoFrameProgress(p, "db.bak", parse);
    TwoFrameEffects(p, [FirstChunk, SecondChunk], parse, blob);
    DownloadCleansUp(p, "db.bak", StreamResponded(true, 200, true), [FirstChunk, SecondChunk], Done,
                     ConvertResponded(true, 200, blob), parse);
  }

  /** Whatever the stream carried, a successful download of "db.bak" issues both requests and saves "db.rar". */
  lemma TwoFrameEffects(p: Progress, chunks: seq<string>, parse: string -> Option<StreamEvent>, blob: seq<bv8>)
    ensures DownloadOutcome(p, "db.bak", StreamResponded(true, 200, true), chunks, Done,
                            ConvertResponded(true, 200, blob), parse).effects
      == [PostStream("db.bak"), PostConvert("db.bak"), SaveFile("db.rar", blob)]
  {
    SuggestedNameRenames();
    assert StreamOpenError(StreamResponded(true, 200, true)) == None;
    DoneEffects(p, "db.bak", StreamResponded(true, 200, true), chunks, ConvertResponded(true, 200, blob), parse);
    assert ConvertEffects("db.bak", ConvertResponded(true, 200, blob)) == [SaveFile("db.rar", blob)];
  }

  /** Once the stream opened and was read to the end, the effects do not depend on what it carried. */
  lemma DoneEffects(p: Progress, fileName: string, open: StreamOpen, chunks: seq<string>,
                    reply: ConvertReply, parse: string -> Option<StreamEvent>)
    requires StreamOpenError(open) == None
    ensures DownloadOutcome(p, fileName, open, chunks, Done, reply, parse).effects
      == [PostStream(fileName), PostConvert(fileName)] + ConvertEffects(fileName, reply)
  {
  }

  /** A stream request answered with HTTP 500 aborts at once: no read, no convert request, an alert, and the cleanup. */
  lemma StreamFailsWith500(p: Progress, fileName: string, chunks: seq<string>, end: ReadEnd,
                           reply: ConvertReply, parse: string -> Option<StreamEvent>)
    ensures DownloadOutcome(p, fileName, StreamResponded(false, 500, true), chunks, end, reply, parse)
      == Outcome(Cleanup(p, fileName), [PostStream(fileName), Alert("Progress stream failed: 500")])
  {
    assert NatToString(500) == NatToString(50) + [DigitChar(0)];
    assert NatToString(50) == NatToString(5) + [DigitChar(0)];
    assert NatToString(500) == "500";
    var text := "Progress stream failed: " + NatToString(500);
    assert text == "Progress stream failed: " + "500";
    assert "Progress stream failed: " + "500" == "Progress stream failed: 500";
    assert StreamOpenError(StreamResponded(false, 500, true)) == Some(text);
  }

  // ---------------------------------------------------------------------------
  // The page's state and the download handler
  // ---------------------------------------------------------------------------

  /** The page's download state: `downloadingName`, `progressByFile`, `messageByFile`. */
  class DownloadController {
    var downloadingName: Option<string>
    var progressByFile: map<string, int>
    var messageByFile: map<string, string>

    function Maps(): Progress
      reads this
    {
      Progress(progressByFile, messageByFile)
    }

    /** The initial state: nothing downloading and both maps empty. */
    constructor ()
      ensures downloadingName == None && progressByFile == map[] && messageByFile == map[]
    {
      downloadingName := None;
      progressByFile := map[];
      messageByFile := map[];
    }

    /** The inner loop over one chunk's "\n\n"-separated segments. */
    method ProcessChunk(fileName: string, chunk: string, parse: string -> Option<StreamEvent>)
      modifies this
      ensures Maps() == ApplyChunk(old(Maps()), fileName, chunk, parse)
      ensures downloadingName == old(downloadingName)
    {
      var lines := Split(chunk, FrameSeparator);
      var i := 0;
      while i < |lines|
        invariant 0 <= i <= |lines|
        invariant Maps() == ApplySegments(old(Maps()), fileName, lines[..i], parse)
        invariant downloadingName == old(downloadingName)
      {
        var line := lines[i];
        assert lines[..i + 1][..i] == lines[..i];
        if StartsWith(line, DataPrefix) {
          var parsed := parse(line[|DataPrefix|..]);
          if parsed.Some? {
            var event := parsed.value;
            if event.percent.Some? {
              progressByFile := progressByFile[fileName := event.percent.value];
            }
            if event.message.Some? {
              messageByFile := messageByFile[fileName := event.message.value];
            }
          }
        }
        i := i + 1;
      }
      assert lines[..|lines|] == lines;
    }

    /**
     * `onDownloadClick(fileName)`: mark the file as downloading, read and apply
     * the stream, then request the artifact and save it; any failure becomes
     * an alert, and the cleanup runs in every case.
     */
    method OnDownloadClick(fileName: string, open: StreamOpen, chunks: seq<string>, end: ReadEnd,
                           reply: ConvertReply, parse: string -> Option<StreamEvent>) returns (effects: seq<Effect>)
      modifies this
      ensures downloadingName == None
      ensures Maps() == DownloadOutcome(old(Maps()), fileName, open, chunks, end, reply, parse).progress
      ensures effects == DownloadOutcome(old(Maps()), fileName, open, chunks, end, reply, parse).effects
    {
      downloadingName := Some(fileName);
      effects := [PostStream(fileName)];
      var failure := StreamOpenError(open);
      if failure.None? {
        var i := 0;
        while i < |chunks|
          invariant 0 <= i <= |chunks|
          invariant Maps() == ApplyChunks(old(Maps()), fileName, chunks[..i], parse)
          invariant downloadingName == Some(fileName)
        {
          assert chunks[..i + 1][..i] == chunks[..i];
          ProcessChunk(fileName, chunks[i], parse);
          i := i + 1;
        }
        assert chunks[..|chunks|] == chunks;
        match end {
          case ReadFailed(reason) =>
            failure := Some(reason);
          case Done =>
            effects := effects + [PostConvert(fileName)];
            match reply {
              case ConvertRejected(reason) =>
                failure := Some(reason);
              case ConvertResponded(ok, status, blob) =>
                if !ok {
                  failure := Some("Convert failed: " + NatToString(status));
                } else {
                  effects := effects + [SaveFile(SuggestedName(fileName), blob)];
                }
            }
        }
      }
      if failure.Some? {
        effects := effects + [Alert(failure.value)];
      }
      downloadingName := None;
      progressByFile := progressByFile[fileName := 0];
      messageByFile := messageByFile[fileName := ""];
    }
  }
}
