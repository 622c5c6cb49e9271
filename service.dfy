/**
 * The HTTP service: the upload handler behind `POST /convert` and the
 * lookup behind `GET /download/{user_id}/{filename}`. The service never
 * deletes anything, so converted files stay in the workspace for download.
 */
module Service {
  import opened Common
  import opened Paths
  import opened Formats
  import opened FileSystems
  import opened Converter

  /** An uploaded file; only its name matters here, its bytes are not modelled. */
  datatype Upload = Upload(fileName: string)

  /** One entry of `conversion_results`. */
  datatype ConversionResult =
    | Converted(format: Format, path: Path)    // "success": True, with the output path
    | Failed(format: Format, error: string)    // "success": False, with `str(e)`

  /** The handler's JSON reply. */
  datatype Response =
    | NoFileProvided
    | FormatNotSupported(ext: string)
    | NoSuccessfulConversions(details: seq<ConversionResult>)
    | Conversions(conversions: seq<ConversionResult>)
    | InternalError    // an exception escaped the handler

  /** The download endpoint's reply. */
  datatype DownloadResponse = FileBody(path: Path) | FileNotFound

  /** `user_id or 'default'`: a missing or empty user id falls back to "default". */
  function EffectiveUser(userId: Option<string>): (u: string)
    ensures u != ""
    ensures u == "default" || userId == Some(u)
    ensures userId.Some? && userId.value != "" ==> u == userId.value
  {
    if userId.None? || userId.value == "" then "default" else userId.value
  }

  /** `temp/<user_id or 'default'>`: the workspace one request writes into. */
  function Workspace(userId: Option<string>): (dir: Path)
    ensures IsUnder(dir, "temp") && dir[|"temp/"|..] == EffectiveUser(userId)
  {
    Join("temp", EffectiveUser(userId))
  }

  /**
   * Two requests share a workspace exactly when their effective user ids
   * agree; anonymous requests share one with the user called "default".
   */
  lemma SharedWorkspace(a: Option<string>, b: Option<string>)
    ensures Workspace(a) == Workspace(b) <==> EffectiveUser(a) == EffectiveUser(b)
    ensures Workspace(None) == Workspace(Some("")) == Workspace(Some("default"))
  {
    JoinInjective("temp", EffectiveUser(a), EffectiveUser(b));
  }

  /** What the entry for format `f` says, given how the converter run for it ended. */
  predicate Reported(r: ConversionResult, f: Format, output: Path, t: ToolOutcome)
  {
    r.format == f &&
    (r.Converted? <==> t.ExitedZero?) &&
    (r.Converted? ==> r.path == output) &&
    (r.Failed? ==> r.error == t.message)
  }

  /** `results` holds one entry per target, in order, each reporting that target's own run. */
  predicate Reports(results: seq<ConversionResult>, formats: seq<Format>, dir: Path, fileName: string,
                    tool: ToolRuns)
  {
    |results| == |formats| &&
    forall i :: 0 <= i < |results| ==>
      Reported(results[i], formats[i], OutputPath(dir, fileName, formats[i]), tool.For(formats[i]))
  }

  /** The entry one converter run adds to `conversion_results`. */
  function EntryFor(f: Format, dir: Path, fileName: string, t: ToolOutcome): ConversionResult
  {
    if t.ExitedZero? then Converted(f, OutputPath(dir, fileName, f)) else Failed(f, t.message)
  }

  /** The entries the loop appends for `formats`, in order. */
  function EntriesFor(formats: seq<Format>, dir: Path, fileName: string, tool: ToolRuns): seq<ConversionResult>
  {
    if formats == [] then []
    else
      EntriesFor(formats[..|formats| - 1], dir, fileName, tool) +
        [EntryFor(formats[|formats| - 1], dir, fileName, tool.For(formats[|formats| - 1]))]
  }

  /** The loop appends one entry per target, in order, each made from that target's own run. */
  lemma {:induction false} EntriesForEach(formats: seq<Format>, dir: Path, fileName: string, tool: ToolRuns)
    ensures |EntriesFor(formats, dir, fileName, tool)| == |formats|
    ensures forall i :: 0 <= i < |formats| ==>
              EntriesFor(formats, dir, fileName, tool)[i] == EntryFor(formats[i], dir, fileName, tool.For(formats[i]))
    decreases |formats|
  {
    if formats != [] {
      var init := formats[..|formats| - 1];
      EntriesForEach(init, dir, fileName, tool);
      var es := EntriesFor(formats, dir, fileName, tool);
      forall i | 0 <= i < |init|
        ensures es[i] == EntryFor(formats[i], dir, fileName, tool.For(formats[i]))
      {
        assert es[i] == EntriesFor(init, dir, fileName, tool)[i];
        assert formats[i] == init[i];
      }
    }
  }

  /**
   * The loop's entries report every target, in order, each by its own run
   * only: success with the output path exactly when that run exited with
   * status zero, otherwise the error text.
   */
  lemma EntriesForReports(formats: seq<Format>, dir: Path, fileName: string, tool: ToolRuns)
    ensures Reports(EntriesFor(formats, dir, fileName, tool), formats, dir, fileName, tool)
  {
    EntriesForEach(formats, dir, fileName, tool);
  }

  /** `[r for r in conversion_results if r["success"]]`. */
  function Successful(results: seq<ConversionResult>): (kept: seq<ConversionResult>)
    ensures |kept| <= |results|
    ensures forall i :: 0 <= i < |kept| ==> kept[i].Converted?
  {
    if results == [] then []
    else
      var last := results[|results| - 1];
      Successful(results[..|results| - 1]) + (if last.Converted? then [last] else [])
  }

  /** The filter keeps exactly the successful entries. */
  lemma {:induction false} SuccessfulMembers(results: seq<ConversionResult>)
    ensures forall r :: r in Successful(results) <==> r in results && r.Converted?
    decreases |results|
  {
    if results != [] {
      var init := results[..|results| - 1];
      SuccessfulMembers(init);
      assert results == init + [results[|results| - 1]];
    }
  }

  /** The output paths of the successful entries, in the order of the entries. */
  function SuccessfulPaths(results: seq<ConversionResult>): seq<Path>
  {
    if results == [] then []
    else
      var last := results[|results| - 1];
      SuccessfulPaths(results[..|results| - 1]) + (if last.Converted? then [last.path] else [])
  }

  /** `converted_files` lists the paths of the successful entries, one for one and in order. */
  lemma {:induction false} SuccessfulPathsInOrder(results: seq<ConversionResult>)
    ensures |SuccessfulPaths(results)| == |Successful(results)|
    ensures forall i :: 0 <= i < |SuccessfulPaths(results)| ==>
              Successful(results)[i].Converted? && SuccessfulPaths(results)[i] == Successful(results)[i].path
    decreases |results|
  {
    if results != [] {
      SuccessfulPathsInOrder(results[..|results| - 1]);
    }
  }

  /**
   * The aggregate reply: an overall failure carrying every entry when no
   * entry succeeded, otherwise a success carrying every entry, failed ones
   * included.
   */
  function Verdict(results: seq<ConversionResult>): (r: Response)
    ensures r.Conversions? <==> exists i :: 0 <= i < |results| && results[i].Converted?
    ensures r.Conversions? ==> r.conversions == results
    ensures !r.Conversions? ==> r == NoSuccessfulConversions(results)
  {
    SuccessfulMembers(results);
    if Successful(results) == [] then
      assert forall i :: 0 <= i < |results| ==> results[i] in results;
      NoSuccessfulConversions(results)
    else
      assert Successful(results)[0] in results;
      Conversions(results)
  }

  /** The per-format entries a reply carries, whichever way it went. */
  function Entries(r: Response): seq<ConversionResult>
  {
    match r
    case Conversions(c) => c
    case NoSuccessfulConversions(d) => d
    case _ => []
  }

  /** The request succeeds overall exactly when some target's converter run exited with status zero. */
  lemma VerdictFollowsConverter(results: seq<ConversionResult>, formats: seq<Format>, dir: Path,
                                fileName: string, tool: ToolRuns)
    requires Reports(results, formats, dir, fileName, tool)
    ensures Verdict(results).Conversions? <==> exists f :: f in formats && tool.For(f).ExitedZero?
  {
    if f :| f in formats && tool.For(f).ExitedZero? {
      var i :| 0 <= i < |formats| && formats[i] == f;
      assert results[i].Converted?;
    }
  }

  /**
   * `convert_ebook`: classify the upload, stage it in the workspace, run the
   * converter once per reachable target (a failing target does not stop the
   * later ones), and reply with the aggregate verdict. `saved` says whether
   * storing the upload succeeded; `tool` says how each converter run ends.
   */
  method ConvertEbook(fs: FileSystem, upload: Option<Upload>, userId: Option<string>, saved: bool,
                      tool: ToolRuns)
    returns (r: Response)
    modifies fs
    ensures upload.None? ==> r == NoFileProvided && unchanged(fs)
    ensures upload.Some? && InputExtension(upload.value.fileName) !in SupportedInputFormats ==>
              r == FormatNotSupported(InputExtension(upload.value.fileName)) && unchanged(fs)
    ensures upload.Some? && InputExtension(upload.value.fileName) in SupportedInputFormats ==>
              var fileName := upload.value.fileName;
              var dir := Workspace(userId);
              var formats := Reachable(InputExtension(fileName));
              if dir in old(fs.files) then
                r == InternalError && fs.files == old(fs.files) && fs.dirs == old(fs.dirs)
              else if !saved then
                r == InternalError && fs.files == old(fs.files) && fs.dirs == old(fs.dirs) + {dir}
              else
                (r.Conversions? || r.NoSuccessfulConversions?) &&
                Reports(Entries(r), formats, dir, fileName, tool) &&
                (r.Conversions? <==> exists f :: f in formats && tool.For(f).ExitedZero?) &&
                fs.files == old(fs.files) + {Join(dir, fileName)} + Produced(formats, dir, fileName, tool) &&
                fs.dirs == old(fs.dirs) + {dir} &&
                (forall c :: c in Entries(r) && c.Converted? ==> fs.Exists(c.path))
    ensures forall c :: c in Entries(r) && c.Converted? ==>
              upload.Some? && c.path == OutputPath(Workspace(userId), upload.value.fileName, c.format) && fs.Exists(c.path)
  {
    if upload.None? {
      return NoFileProvided;
    }
    var fileName := upload.value.fileName;
    var ext := Lower(Suffix(Name(fileName)));
    if ext !in SupportedInputFormats {
      return FormatNotSupported(ext);
    }

    var dir := Join("temp", EffectiveUser(userId));
    var ok := fs.MakeDirs(dir);
    if !ok {
      return InternalError;
    }
    var input := Join(dir, fileName);
    if !saved {
      return InternalError;
    }
    fs.WriteFile(input);

    var formats := PossibleFormats(ext);
    var converted, results := RunConversions(fs, dir, fileName, formats, tool);
    EntriesForReports(formats, dir, fileName, tool);
    VerdictFollowsConverter(results, formats, dir, fileName, tool);
    ConvertedEntriesProduced(results, formats, dir, fileName, tool);
    ConvertedPathIsOutput(results, formats, dir, fileName, tool);
    r := Verdict(results);
  }

  /**
   * The loop of `convert_ebook`: one converter run per target, in order,
   * appending an entry to `conversion_results` for every run and the output
   * path to `converted_files` for every run that exited with status zero.
   */
  method RunConversions(fs: FileSystem, dir: Path, fileName: string, formats: seq<Format>,
                        tool: ToolRuns)
    returns (converted: seq<Path>, results: seq<ConversionResult>)
    modifies fs
    ensures results == EntriesFor(formats, dir, fileName, tool)
    ensures converted == SuccessfulPaths(results)
    ensures fs.files == old(fs.files) + Produced(formats, dir, fileName, tool)
    ensures fs.dirs == old(fs.dirs)
  {
    converted := [];
    results := [];
    for i := 0 to |formats|
      invariant results == EntriesFor(formats[..i], dir, fileName, tool)
      invariant converted == SuccessfulPaths(results)
      invariant fs.files == old(fs.files) + Produced(formats[..i], dir, fileName, tool)
      invariant fs.dirs == old(fs.dirs)
    {
      var f := formats[i];
      var output := OutputPath(dir, fileName, f);
      ProducedStep(formats, i, dir, fileName, tool);
      EntriesForStep(formats, i, dir, fileName, tool);
      if tool.For(f).ExitedZero? {
        fs.WriteFile(output);
        SuccessfulPathsStep(results, Converted(f, output));
        converted := converted + [output];
        results := results + [Converted(f, output)];
      } else {
        // `CalledProcessError` and any other exception give the same kind of entry
        SuccessfulPathsStep(results, Failed(f, tool.For(f).message));
        results := results + [Failed(f, tool.For(f).message)];
      }
    }
    assert formats[..|formats|] == formats;
  }

  /** The loop's next entry is the one for the next target. */
  lemma EntriesForStep(formats: seq<Format>, i: nat, dir: Path, fileName: string, tool: ToolRuns)
    requires i < |formats|
    ensures EntriesFor(formats[..i + 1], dir, fileName, tool) ==
            EntriesFor(formats[..i], dir, fileName, tool) + [EntryFor(formats[i], dir, fileName, tool.For(formats[i]))]
  {
    assert formats[..i + 1][..i] == formats[..i];
  }

  /** Appending an entry appends its path to the successful paths exactly when it succeeded. */
  lemma SuccessfulPathsStep(results: seq<ConversionResult>, r: ConversionResult)
    ensures SuccessfulPaths(results + [r]) == SuccessfulPaths(results) + (if r.Converted? then [r.path] else [])
  {
    assert (results + [r])[..|results|] == results;
  }

  /** Every successful entry names a file the converter wrote. */
  lemma ConvertedEntriesProduced(results: seq<ConversionResult>, formats: seq<Format>, dir: Path,
                                 fileName: string, tool: ToolRuns)
    requires Reports(results, formats, dir, fileName, tool)
    ensures forall c :: c in results && c.Converted? ==> c.path in Produced(formats, dir, fileName, tool)
  {
    forall c | c in results && c.Converted?
      ensures c.path in Produced(formats, dir, fileName, tool)
    {
      var i :| 0 <= i < |results| && results[i] == c;
      assert formats[i] in formats;
      ProducedMembers(formats, dir, fileName, tool);
    }
  }

  /** `temp/<user_id>/<filename>`: where a download looks. */
  function DownloadPath(userId: string, filename: string): (p: Path)
    ensures IsUnder(p, "temp") && IsUnder(p, Join("temp", userId))
  {
    Join(Join("temp", userId), filename)
  }

  /** `download_file`: the file's body if something exists at the path, else "File not found". */
  method DownloadFile(fs: FileSystem, userId: string, filename: string) returns (r: DownloadResponse)
    ensures r == FileNotFound <==> !fs.Exists(DownloadPath(userId, filename))
    ensures r.FileBody? ==> r.path == DownloadPath(userId, filename)
  {
    var path := Join(Join("temp", userId), filename);
    if !fs.Exists(path) {
      return FileNotFound;
    }
    return FileBody(path);
  }

  /** The download path of an output name under the effective user id is where that output was written. */
  lemma OutputDownloadPath(userId: Option<string>, fileName: string, f: Format)
    ensures DownloadPath(EffectiveUser(userId), OutputName(fileName, f)) == OutputPath(Workspace(userId), fileName, f)
  {
  }

  /** Every successful entry carries the output path of its own format. */
  lemma ConvertedPathIsOutput(results: seq<ConversionResult>, formats: seq<Format>, dir: Path,
                              fileName: string, tool: ToolRuns)
    requires Reports(results, formats, dir, fileName, tool)
    ensures forall c :: c in results && c.Converted? ==> c.path == OutputPath(dir, fileName, c.format)
  {
    forall c | c in results && c.Converted?
      ensures c.path == OutputPath(dir, fileName, c.format)
    {
      var i :| 0 <= i < |results| && results[i] == c;
    }
  }

  /**
   * An upload followed by a download: the service keeps its outputs, so
   * asking `/download` for a converted file's name under the same user id
   * serves exactly the path the successful entry reported.
   */
  method ConvertedFileDownloadable(fs: FileSystem, upload: Upload, userId: Option<string>, saved: bool,
                                   tool: ToolRuns, f: Format)
    returns (r: Response, d: DownloadResponse)
    modifies fs
    ensures forall c :: c in Entries(r) && c.Converted? && c.format == f ==> d == FileBody(c.path)
  {
    r := ConvertEbook(fs, Some(upload), userId, saved, tool);
    OutputDownloadPath(userId, upload.fileName, f);
    d := DownloadFile(fs, EffectiveUser(userId), OutputName(upload.fileName, f));
  }
}
