/** `FileProcessorRouter`: an ordered handler list, ending with the default
    handler, and first-match dispatch. The constructor takes a text handler and
    a default handler only; there is no image-handler parameter. */
module FileProcessor {
  import opened Wrappers
  import opened Paths
  import opened Metadata
  import opened FileHandlers
  import Handler
  import FS = FileSystem

  datatype FileHandler = TextH(t: TextFileHandler) | DefaultH(d: DefaultFileHandler)

  /** `handler.can_handle(metadata)` */
  predicate CanHandle(h: FileHandler, m: FileMetadata) {
    match h
    case TextH(_) => TextCanHandle(m)
    case DefaultH(_) => DefaultCanHandle(m)
  }

  /** `handler.process(metadata)` */
  function ProcessSpec(h: FileHandler, fs: FS.FileSystem, m: FileMetadata): Result<ProcessingResult>
    reads if h.TextH? then {h.t.embeddingHandler} else {}
  {
    match h
    case TextH(t) => TextProcessSpec(t.embeddingHandler.embedder, t.embeddingHandler.chunker, fs, m)
    case DefaultH(_) => Ok(DefaultProcess(m))
  }

  /** Index of the first handler that accepts the file. */
  function FirstAccepting(hs: seq<FileHandler>, m: FileMetadata): (r: Option<nat>)
    ensures r.Some? ==> (r.value < |hs| && CanHandle(hs[r.value], m) &&
      forall j :: 0 <= j < r.value ==> !CanHandle(hs[j], m))
    ensures r.None? ==> forall j :: 0 <= j < |hs| ==> !CanHandle(hs[j], m)
  {
    if hs == [] then None
    else if CanHandle(hs[0], m) then Some(0)
    else
      var rest := FirstAccepting(hs[1..], m);
      assert forall j :: 1 <= j < |hs| ==> hs[j] == hs[1..][j - 1];
      if rest.Some? then Some(rest.value + 1) else None
  }

  /** Specification of `process_file`. */
  function RouteSpec(hs: seq<FileHandler>, fs: FS.FileSystem, p: Path): Result<ProcessingResult>
    reads set h | h in hs && h.TextH? :: h.t.embeddingHandler
  {
    var m :- FromPath(fs, p);
    match FirstAccepting(hs, m)
    case Some(i) => ProcessSpec(hs[i], fs, m)
    case None => Ok(DefaultProcess(m))
  }

  /** An entry of `process_files`' result list. */
  datatype BatchItem = Done(result: ProcessingResult) | ErrorRecord(error: Error, filePath: string) {
    /** `r.get("processed", False)` */
    predicate Processed() {
      Done? && result.processed
    }
  }

  function ItemFor(r: Result<ProcessingResult>, p: Path): BatchItem {
    if r.Ok? then Done(r.value) else ErrorRecord(r.error, p)
  }

  /** `sum(1 for r in results if r.get("processed", False))` */
  function SuccessCount(items: seq<BatchItem>): nat {
    if items == [] then 0 else (if items[0].Processed() then 1 else 0) + SuccessCount(items[1..])
  }

  /** Specification of `process_files`. */
  function BatchSpec(hs: seq<FileHandler>, fs: FS.FileSystem, paths: seq<Path>): seq<BatchItem>
    reads set h | h in hs && h.TextH? :: h.t.embeddingHandler
  {
    if paths == [] then []
    else
      var last := paths[|paths| - 1];
      BatchSpec(hs, fs, paths[..|paths| - 1]) + [ItemFor(RouteSpec(hs, fs, last), last)]
  }

  class FileProcessorRouter {
    var textHandler: Option<TextFileHandler>
    const defaultHandler: DefaultFileHandler
    var handlers: seq<FileHandler>

    /** The default handler is always the last entry. */
    predicate Valid()
      reads this
    {
      handlers != [] && handlers[|handlers| - 1] == DefaultH(defaultHandler)
    }

    /** `FileProcessorRouter(text_handler=None, default_handler=None)` */
    constructor (textHandler: Option<TextFileHandler>, defaultHandler: Option<DefaultFileHandler>)
      ensures Valid() && this.textHandler == textHandler
      ensures defaultHandler.Some? ==> this.defaultHandler == defaultHandler.value
      ensures defaultHandler.None? ==> fresh(this.defaultHandler)
      ensures handlers == (if textHandler.Some? then [TextH(textHandler.value)] else []) + [DefaultH(this.defaultHandler)]
    {
      var d: DefaultFileHandler;
      if defaultHandler.Some? {
        d := defaultHandler.value;
      } else {
        d := new DefaultFileHandler();
      }
      this.textHandler := textHandler;
      this.defaultHandler := d;
      var hs: seq<FileHandler> := [];
      if textHandler.Some? {
        hs := hs + [TextH(textHandler.value)];
      }
      hs := hs + [DefaultH(d)];
      this.handlers := hs;
    }

    /** `set_text_handler`: `None` raises; a handler not yet listed goes first. */
    method SetTextHandler(t: Option<TextFileHandler>) returns (o: Outcome)
      requires Valid()
      modifies this
      ensures Valid()
      ensures t.None? ==> (o == Fail(ValueError("text_handler cannot be None")) &&
        textHandler == old(textHandler) && handlers == old(handlers))
      ensures t.Some? ==> (o == Pass && textHandler == t &&
        handlers == (if TextH(t.value) in old(handlers) then old(handlers) else [TextH(t.value)] + old(handlers)))
    {
      if t.None? {
        return Fail(ValueError("text_handler cannot be None"));
      }
      textHandler := t;
      if TextH(t.value) !in handlers {
        handlers := [TextH(t.value)] + handlers;
      }
      return Pass;
    }

    /** `process_file`: the first handler that accepts the file processes it. */
    method ProcessFile(fs: FS.FileSystem, p: Path) returns (r: Result<ProcessingResult>)
      ensures r == RouteSpec(handlers, fs, p)
    {
      var m :- FromPath(fs, p);
      for i := 0 to |handlers|
        invariant forall j :: 0 <= j < i ==> !CanHandle(handlers[j], m)
      {
        var h := handlers[i];
        if CanHandle(h, m) {
          assert FirstAccepting(handlers, m) == Some(i);
          match h {
            case TextH(t) =>
              r := t.Process(fs, m);
            case DefaultH(_) =>
              r := Ok(DefaultProcess(m));
          }
          return;
        }
      }
      assert FirstAccepting(handlers, m).None?;
      return Ok(DefaultProcess(m));
    }

    /** `process_files`: one entry per path, in order; a raised error becomes an
        error record and the batch goes on. */
    method ProcessFiles(fs: FS.FileSystem, paths: seq<Path>) returns (results: seq<BatchItem>)
      ensures results == BatchSpec(handlers, fs, paths)
    {
      results := [];
      for i := 0 to |paths|
        invariant results == BatchSpec(handlers, fs, paths[..i])
      {
        var r := ProcessFile(fs, paths[i]);
        assert paths[..i + 1][..i] == paths[..i] && paths[..i + 1][i] == paths[i];
        assert BatchSpec(handlers, fs, paths[..i + 1]) ==
          BatchSpec(handlers, fs, paths[..i]) + [ItemFor(RouteSpec(handlers, fs, paths[i]), paths[i])];
        results := results + [ItemFor(r, paths[i])];
      }
      assert paths[..|paths|] == paths;
    }
  }

  // ---------------------------------------------------------------- properties

  /** With the default handler last, some handler always accepts, so the
      fallback after the loop is unreachable. */
  lemma FallbackUnreachable(hs: seq<FileHandler>, d: DefaultFileHandler, m: FileMetadata)
    requires hs != [] && hs[|hs| - 1] == DefaultH(d)
    ensures FirstAccepting(hs, m).Some?
  {
    assert CanHandle(hs[|hs| - 1], m);
  }

  /** Routing for the router `FileProcessorRouter(text_handler)` builds: text
      files go to the text handler, everything else to the default handler. */
  lemma RoutesByType(t: TextFileHandler, d: DefaultFileHandler, fs: FS.FileSystem, p: Path)
    requires fs.Exists(p)
    ensures var m := FromPath(fs, p).value;
      var r := RouteSpec([TextH(t), DefaultH(d)], fs, p);
      (TextCanHandle(m) ==> r == TextProcessSpec(t.embeddingHandler.embedder, t.embeddingHandler.chunker, fs, m)) &&
      (!TextCanHandle(m) ==> r == Ok(DefaultProcess(m)))
  {
  }

  /** A missing file is an error record carrying its path. */
  lemma MissingFileRecorded(hs: seq<FileHandler>, fs: FS.FileSystem, p: Path)
    requires !fs.Exists(p)
    ensures var item := ItemFor(RouteSpec(hs, fs, p), p);
      item.ErrorRecord? && item.filePath == p && item.error.FileNotFoundError? && !item.Processed()
  {
  }

  /** `process_files` returns exactly one entry per path, in input order: the
      routed result, or an error record naming the path. */
  lemma {:induction false} BatchOnePerPath(hs: seq<FileHandler>, fs: FS.FileSystem, paths: seq<Path>)
    ensures |BatchSpec(hs, fs, paths)| == |paths|
    ensures forall i :: 0 <= i < |paths| ==>
      BatchSpec(hs, fs, paths)[i] == ItemFor(RouteSpec(hs, fs, paths[i]), paths[i])
  {
    if paths != [] {
      BatchOnePerPath(hs, fs, paths[..|paths| - 1]);
    }
  }

  lemma {:induction false} SuccessCountBounds(items: seq<BatchItem>)
    ensures SuccessCount(items) <= |items|
    ensures SuccessCount(items) == |items| <==> forall i :: 0 <= i < |items| ==> items[i].Processed()
    ensures SuccessCount(items) == 0 <==> forall i :: 0 <= i < |items| ==> !items[i].Processed()
  {
    if items != [] {
      SuccessCountBounds(items[1..]);
      assert forall i :: 1 <= i < |items| ==> items[i] == items[1..][i - 1];
    }
  }
}
