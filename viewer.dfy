/**
 * `ThumbnailBox`: the result list of a running search. `start` records the
 * search, flips the buttons and schedules the statistics task; its worker
 * drains the result stream, renders each result's thumbnail with its patch
 * overlays and appends it to the list, and calls `stop` however it ends.
 * Threads are not modelled: the worker runs to completion in one call, and a
 * tick of the statistics task is a separate call.
 */
module Viewer {
  import opened Wrappers
  import opened Binary
  import opened Graphics
  import opened Patches
  import opened Statistics

  const ThumbnailAttribute := "thumbnail.jpeg"

  /** `ObjectIdentifier`: opaque, passed through untouched. */
  datatype ObjectIdentifier = ObjectIdentifier(token: string)

  /** A `Result`: its byte-valued attributes (`getValue` gives `null` for a name not here) and its identifier. */
  datatype SearchResult = SearchResult(attributes: map<string, seq<byte>>, id: ObjectIdentifier)

  /** `ResultIcon`: the annotated thumbnail and the identifier of its result. */
  datatype ResultIcon = ResultIcon(thumbnail: Image, id: ObjectIdentifier)

  /** `ImageIO.read`: `None` when it returns `null` or throws `IOException`. */
  type ImageCodec = seq<byte> -> Option<Image>

  /** What `getNextResult()` does once the results are exhausted: return `null`, or throw. */
  datatype StreamEnd = EndsWithNull | EndsWithException

  /** The results a search still has to deliver, and how it ends. */
  datatype Stream = Stream(results: seq<SearchResult>, end: StreamEnd)

  /** One call of `getNextResult()`. */
  datatype Fetch = Next(result: SearchResult) | NullResult | Threw

  /** How the worker's `while (true)` loop ended. */
  datatype LoopExit = ReachedNull | FetchThrew | PatchThrew

  /** What the worker appends to the list model, and how its loop ended. */
  datatype Ingestion = Ingestion(icons: seq<ResultIcon>, exit: LoopExit)

  // ---------------------------------------------------------------------
  // Specification of the worker

  /** The image patches are drawn on: the decoded thumbnail, or a blank 200x150 placeholder. */
  function Thumbnail(r: SearchResult, decode: ImageCodec): Image
  {
    if ThumbnailAttribute in r.attributes && decode(r.attributes[ThumbnailAttribute]).Some?
    then decode(r.attributes[ThumbnailAttribute]).value
    else Placeholder
  }

  /**
   * The patch attributes drawn in order onto `img`: absent ones are skipped,
   * and `None` is the exception of a payload that underflows.
   */
  function DrawAttributes(img: Image, attributes: map<string, seq<byte>>, names: seq<string>): Option<Image>
    decreases |names|
  {
    if names == [] then Some(img)
    else if names[0] !in attributes then DrawAttributes(img, attributes, names[1..])
    else
      match DecodePatches(attributes[names[0]])
      case BufferUnderflow => None
      case Decoded(p) => DrawAttributes(img.(outlines := img.outlines + RectsOf(p.quads)), attributes, names[1..])
  }

  /** The item published for one result, or `None` when drawing its patches throws. */
  function RenderedIcon(r: SearchResult, names: seq<string>, decode: ImageCodec): Option<ResultIcon>
  {
    match DrawAttributes(Thumbnail(r, decode), r.attributes, names)
    case None => None
    case Some(img) => Some(ResultIcon(img, r.id))
  }

  /** What `getNextResult()` gives on a stream: its first result, or how the stream ends. */
  function FetchFrom(s: Stream): (f: Fetch)
    ensures f.Next? <==> s.results != []
    ensures f.Next? ==> f.result == s.results[0]
    ensures f.NullResult? <==> s.results == [] && s.end == EndsWithNull
  {
    if s.results != [] then Next(s.results[0])
    else if s.end == EndsWithNull then NullResult
    else Threw
  }

  /** The stream after one call of `getNextResult()`: an exhausted stream stays as it is. */
  function Advance(s: Stream): (t: Stream)
    ensures t.end == s.end
    ensures s.results != [] ==> |t.results| == |s.results| - 1 && t.results == s.results[1..]
    ensures s.results == [] ==> t == s
  {
    if s.results == [] then s else Stream(s.results[1..], s.end)
  }

  /** The worker's loop over what the search still has to deliver. */
  function Ingest(s: Stream, names: seq<string>, decode: ImageCodec): Ingestion
    decreases |s.results|
  {
    match FetchFrom(s)
    case NullResult => Ingestion([], ReachedNull)
    case Threw => Ingestion([], FetchThrew)
    case Next(r) =>
      match RenderedIcon(r, names, decode)
      case None => Ingestion([], PatchThrew)
      case Some(icon) =>
        var rest := Ingest(Advance(s), names, decode);
        Ingestion([icon] + rest.icons, rest.exit)
  }

  // ---------------------------------------------------------------------
  // Properties of the worker

  /**
   * The worker publishes one item per result, in fetch order, up to the
   * first result whose patches fail to decode; that failure ends the loop, and
   * otherwise the loop ends the way the stream does.
   */
  lemma {:induction false} IngestPublishesInOrder(s: Stream, names: seq<string>, decode: ImageCodec)
    decreases |s.results|
    ensures |Ingest(s, names, decode).icons| <= |s.results|
    ensures forall i :: 0 <= i < |Ingest(s, names, decode).icons| ==>
              RenderedIcon(s.results[i], names, decode) == Some(Ingest(s, names, decode).icons[i])
    ensures Ingest(s, names, decode).exit == PatchThrew <==> |Ingest(s, names, decode).icons| < |s.results|
    ensures |Ingest(s, names, decode).icons| < |s.results| ==>
              RenderedIcon(s.results[|Ingest(s, names, decode).icons|], names, decode) == None
    ensures Ingest(s, names, decode).exit == ReachedNull <==>
              s.end == EndsWithNull && |Ingest(s, names, decode).icons| == |s.results|
  {
    if s.results != [] && RenderedIcon(s.results[0], names, decode).Some? {
      var rest := Stream(s.results[1..], s.end);
      IngestPublishesInOrder(rest, names, decode);
    }
  }

  /** When every result renders, the worker publishes exactly one item per result and ends as the stream does. */
  lemma EveryResultPublished(s: Stream, names: seq<string>, decode: ImageCodec)
    requires forall i :: 0 <= i < |s.results| ==> RenderedIcon(s.results[i], names, decode).Some?
    ensures |Ingest(s, names, decode).icons| == |s.results|
    ensures Ingest(s, names, decode).exit == if s.end == EndsWithNull then ReachedNull else FetchThrew
  {
    IngestPublishesInOrder(s, names, decode);
  }

  /** Drawing patches changes only the outlines, and only by adding to them. */
  lemma {:induction false} DrawAttributesKeepsImage(img: Image, attributes: map<string, seq<byte>>, names: seq<string>)
    requires DrawAttributes(img, attributes, names).Some?
    decreases |names|
    ensures var out := DrawAttributes(img, attributes, names).value;
      out.width == img.width && out.height == img.height && out.pixels == img.pixels &&
      |img.outlines| <= |out.outlines| && out.outlines[..|img.outlines|] == img.outlines
  {
    if names != [] {
      if names[0] !in attributes {
        DrawAttributesKeepsImage(img, attributes, names[1..]);
      } else {
        var p := DecodePatches(attributes[names[0]]).patches;
        var next := img.(outlines := img.outlines + RectsOf(p.quads));
        DrawAttributesKeepsImage(next, attributes, names[1..]);
        var out := DrawAttributes(next, attributes, names[1..]).value;
        assert out.outlines[..|img.outlines|] == out.outlines[..|next.outlines|][..|img.outlines|];
      }
    }
  }

  /** A result with no thumbnail, or one the codec rejects, is published on a blank 200x150 image. */
  lemma PlaceholderForMissingThumbnail(r: SearchResult, names: seq<string>, decode: ImageCodec)
    requires ThumbnailAttribute !in r.attributes || decode(r.attributes[ThumbnailAttribute]).None?
    requires RenderedIcon(r, names, decode).Some?
    ensures var icon := RenderedIcon(r, names, decode).value;
      icon.thumbnail.width == PlaceholderWidth && icon.thumbnail.height == PlaceholderHeight &&
      icon.thumbnail.pixels == Blank && icon.id == r.id
  {
    DrawAttributesKeepsImage(Placeholder, r.attributes, names);
  }

  /** Patch attributes the result does not carry are skipped. */
  lemma {:induction false} AbsentAttributesSkipped(img: Image, attributes: map<string, seq<byte>>, names: seq<string>)
    requires forall j :: 0 <= j < |names| ==> names[j] !in attributes
    decreases |names|
    ensures DrawAttributes(img, attributes, names) == Some(img)
  {
    if names != [] {
      AbsentAttributesSkipped(img, attributes, names[1..]);
    }
  }

  /** Drawing fails exactly when some present patch attribute underflows. */
  lemma {:induction false} PatchFailureIsFatal(img: Image, attributes: map<string, seq<byte>>, names: seq<string>)
    decreases |names|
    ensures DrawAttributes(img, attributes, names).None? <==>
      exists j :: 0 <= j < |names| && names[j] in attributes && DecodePatches(attributes[names[j]]).BufferUnderflow?
  {
    if names != [] {
      var next := if names[0] in attributes && DecodePatches(attributes[names[0]]).Decoded?
        then img.(outlines := img.outlines + RectsOf(DecodePatches(attributes[names[0]]).patches.quads))
        else img;
      PatchFailureIsFatal(next, attributes, names[1..]);
      if exists j :: 1 <= j < |names| && names[j] in attributes && DecodePatches(attributes[names[j]]).BufferUnderflow? {
        var j :| 1 <= j < |names| && names[j] in attributes && DecodePatches(attributes[names[j]]).BufferUnderflow?;
        assert names[1..][j - 1] == names[j];
      }
    }
  }

  // ---------------------------------------------------------------------
  // The imperative worker

  /**
   * The body of one iteration of the worker for a fetched result: the
   * thumbnail (or placeholder), then each patch attribute drawn onto it.
   */
  method RenderResult(r: SearchResult, patchAttributes: seq<string>, decode: ImageCodec) returns (icon: Option<ResultIcon>)
    ensures icon == RenderedIcon(r, patchAttributes, decode)
  {
    var thumb: Option<Image> := None;
    if ThumbnailAttribute in r.attributes {
      thumb := decode(r.attributes[ThumbnailAttribute]);
    }
    var img := if thumb.None? then Placeholder else thumb.value;
    var g := new Canvas(img);
    for j := 0 to |patchAttributes|
      invariant DrawAttributes(img, r.attributes, patchAttributes) == DrawAttributes(g.image, r.attributes, patchAttributes[j..])
    {
      var p := patchAttributes[j];
      assert patchAttributes[j..][1..] == patchAttributes[j + 1..];
      if p in r.attributes {
        var ok := DrawPatches(g, r.attributes[p]);
        if !ok {
          return None;
        }
      }
    }
    assert patchAttributes[|patchAttributes|..] == [];
    icon := Some(ResultIcon(g.image, r.id));
  }

  /** Moving one item from the front of the rest to the end of what is done keeps the whole. */
  lemma AppendShift<T>(done: seq<T>, x: T, rest: seq<T>)
    ensures done + ([x] + rest) == (done + [x]) + rest
  {
  }

  /** The search session: a stream of results, closed by `close()`. */
  class Search {
    const results: seq<SearchResult>
    const end: StreamEnd
    var cursor: nat
    var closeCount: nat

    ghost predicate Valid()
      reads this
    {
      cursor <= |results|
    }

    /** What the search still has to deliver; a closed search only throws `SearchClosedException`. */
    ghost function Pending(): Stream
      reads this
      requires Valid()
    {
      if closeCount > 0 then Stream([], EndsWithException) else Stream(results[cursor..], end)
    }

    constructor (results: seq<SearchResult>, end: StreamEnd)
      ensures Valid() && this.results == results && this.end == end
      ensures cursor == 0 && closeCount == 0 && Pending() == Stream(results, end)
    {
      this.results := results;
      this.end := end;
      cursor := 0;
      closeCount := 0;
    }

    /** `getNextResult()`. */
    method GetNextResult() returns (f: Fetch)
      requires Valid()
      modifies this`cursor
      ensures Valid()
      ensures f == FetchFrom(old(Pending())) && Pending() == Advance(old(Pending()))
    {
      if closeCount > 0 {
        return Threw;
      }
      if cursor == |results| {
        return if end == EndsWithNull then NullResult else Threw;
      }
      f := Next(results[cursor]);
      assert results[cursor..][1..] == results[cursor + 1..];
      cursor := cursor + 1;
    }

    /** `getStatistics()`, given what the servers answer; a closed search throws `SearchClosedException`. */
    method GetStatistics(answer: StatsFetch) returns (f: StatsFetch)
      ensures closeCount > 0 ==> f == SearchClosed
      ensures closeCount == 0 ==> f == answer
    {
      f := if closeCount > 0 then SearchClosed else answer;
    }

    /** `close()`: counted, since `stop` calls it each time it runs. */
    method Close()
      modifies this`closeCount
      ensures closeCount == old(closeCount) + 1
    {
      closeCount := closeCount + 1;
    }
  }

  class ThumbnailBox {
    var search: Search?
    /** `statsTimerFuture != null`. */
    var timerScheduled: bool
    /** Whether `cancel(true)` has been called on the current timer future. */
    var timerCancelled: bool
    var startEnabled: bool
    var stopEnabled: bool
    var statsView: StatsView
    /** The `DefaultListModel` the list shows. */
    var published: seq<ResultIcon>

    ghost predicate Valid()
      reads this, search
    {
      (search != null ==> search.Valid()) && (timerScheduled ==> search != null)
    }

    /** A box with no search yet, over buttons in the given states. */
    constructor (startEnabled: bool, stopEnabled: bool)
      ensures Valid() && search == null && !timerScheduled && !timerCancelled
      ensures this.startEnabled == startEnabled && this.stopEnabled == stopEnabled
      ensures statsView == Unset && published == []
    {
      search := null;
      timerScheduled, timerCancelled := false, false;
      this.startEnabled, this.stopEnabled := startEnabled, stopEnabled;
      statsView := Unset;
      published := [];
    }

    /** `start` up to launching the worker: the search, the buttons, the statistics task and a new list model. */
    method Start(s: Search)
      requires s.Valid()
      modifies this
      ensures Valid() && search == s
      ensures !startEnabled && stopEnabled
      ensures statsView == Indeterminate(InitializingMessage)
      ensures timerScheduled && !timerCancelled
      ensures published == []
    {
      search := s;
      startEnabled := false;
      stopEnabled := true;
      statsView := Indeterminate(InitializingMessage);
      timerScheduled, timerCancelled := true, false;
      published := [];
    }

    /**
     * `stop()`: closes the search (again, if it already was), cancels the
     * timer when there is one, and enables start and disables stop. With no
     * search, `search.close()` throws before anything changes; `ok` is false.
     */
    method Stop() returns (ok: bool)
      requires Valid()
      modifies this, search
      ensures Valid() && search == old(search)
      ensures published == old(published) && statsView == old(statsView) && timerScheduled == old(timerScheduled)
      ensures ok <==> old(search) != null
      ensures !ok ==> timerCancelled == old(timerCancelled) && startEnabled == old(startEnabled) && stopEnabled == old(stopEnabled)
      ensures ok ==> search.closeCount == old(search.closeCount) + 1 && search.cursor == old(search.cursor)
      ensures ok ==> timerCancelled == (old(timerCancelled) || timerScheduled) && startEnabled && !stopEnabled
    {
      if search == null {
        return false;
      }
      search.Close();
      if timerScheduled {
        timerCancelled := true;
      }
      startEnabled := true;
      stopEnabled := false;
      ok := true;
    }

    /**
     * The worker `start` launches (`doInBackground` with `process`): it
     * appends one item per result until the stream ends or a patch fails to
     * decode, and then, on every path, calls `stop()`.
     */
    method RunWorker(patchAttributes: seq<string>, decode: ImageCodec) returns (exit: LoopExit)
      requires Valid() && search != null
      modifies this, search
      ensures Valid() && search == old(search)
      ensures published == old(published) + Ingest(old(search.Pending()), patchAttributes, decode).icons
      ensures exit == Ingest(old(search.Pending()), patchAttributes, decode).exit
      ensures search.closeCount == old(search.closeCount) + 1
      ensures timerScheduled == old(timerScheduled) && timerCancelled == (old(timerCancelled) || timerScheduled)
      ensures startEnabled && !stopEnabled && statsView == old(statsView)
    {
      ghost var whole := Ingest(search.Pending(), patchAttributes, decode);
      while true
        invariant search.Valid()
        invariant published + Ingest(search.Pending(), patchAttributes, decode).icons == old(published) + whole.icons
        invariant whole.exit == Ingest(search.Pending(), patchAttributes, decode).exit
        decreases |search.Pending().results|
        modifies this`published, search`cursor
      {
        var f := search.GetNextResult();
        if f.NullResult? || f.Threw? {
          exit := if f.NullResult? then ReachedNull else FetchThrew;
          break;
        }
        var icon := RenderResult(f.result, patchAttributes, decode);
        if icon.None? {
          exit := PatchThrew;
          break;
        }
        AppendShift(published, icon.value, Ingest(search.Pending(), patchAttributes, decode).icons);
        published := published + [icon.value];
      }
      var _ := Stop();
    }

    /**
     * One run of the statistics task, when the timer is scheduled and not
     * cancelled: the snapshot when some server has a non-zero total, the
     * waiting message otherwise, and nothing when the fetch throws.
     */
    method Tick(answer: StatsFetch)
      requires Valid()
      modifies this`statsView
      ensures !timerScheduled || timerCancelled ==> statsView == old(statsView)
      ensures timerScheduled && !timerCancelled ==>
        statsView == ApplyUpdate(old(statsView), TickUpdate(if search.closeCount > 0 then SearchClosed else answer))
    {
      if !timerScheduled || timerCancelled {
        return;
      }
      var f := search.GetStatistics(answer);
      match f {
        case Fetched(serverStats) =>
          var hasStats := HasStats(serverStats);
          if hasStats {
            statsView := Counts(serverStats);
          } else {
            statsView := Indeterminate(WaitingMessage);
          }
        case SearchClosed =>
          return;
        case IOFailure =>
        case Interrupted =>
      }
    }
  }

  /** A search that delivers two results and ends with `null`, stopped again from outside afterwards. */
  method StopAfterWorker(first: SearchResult, second: SearchResult, decode: ImageCodec)
    requires RenderedIcon(first, [], decode).Some? && RenderedIcon(second, [], decode).Some?
  {
    var search := new Search([first, second], EndsWithNull);
    var box := new ThumbnailBox(true, false);
    box.Start(search);
    box.Tick(Fetched(map["a" := ServerStatistics(0)]));
    assert box.statsView == Indeterminate(WaitingMessage) by {
      assert !AnyServerHasObjects(map["a" := ServerStatistics(0)]);
    }
    var exit := box.RunWorker([], decode);
    EveryResultPublished(Stream([first, second], EndsWithNull), [], decode);
    assert exit == ReachedNull && |box.published| == 2;
    assert search.closeCount == 1 && box.timerCancelled && box.startEnabled && !box.stopEnabled;
    box.Tick(Fetched(map["a" := ServerStatistics(5)]));
    assert box.statsView == Indeterminate(WaitingMessage);
    var ok := box.Stop();
    assert ok && search.closeCount == 2;
  }
}
