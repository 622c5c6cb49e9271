/**
 * The Telegram bot's document handler: classify the document, download it
 * into the user's workspace, convert it to every reachable target and send
 * each result back (or one error reply per target), then clean up the
 * workspace, stopping at the first step that fails.
 */
module Bot {
  import opened Common
  import opened Paths
  import opened Formats
  import opened FileSystems
  import opened Converter

  /** The document attached to a message; Telegram may omit its file name. */
  datatype Document = Document(fileName: Option<string>)

  /** How one `send_document` call ended. */
  datatype SendOutcome = Delivered | SendFailed(message: string)

  /** How sending the converted file of each format ends, were it sent. */
  datatype SendRuns = SendRuns(ofPdf: SendOutcome, ofEpub: SendOutcome)
  {
    function For(f: Format): SendOutcome
    {
      if f == PDF then ofPdf else ofEpub
    }
  }

  /** A message the bot sends to the chat. */
  datatype Reply =
    | AskForEbook                                  // the message carries no document
    | FormatNotSupported(ext: string)
    | ConvertedDocument(format: Format, fileName: string)
    | ConversionError(format: Format, message: string)    // `CalledProcessError`
    | UnexpectedError(format: Format, message: string)    // any other exception

  /** A cleanup step that raised. */
  datatype Step = UnlinkFile(path: Path) | RemoveDirectory(dir: Path)

  /** How the cleanup block ended; a failure is only logged. */
  datatype CleanupLog = CleanedUp | CleanupFailed(step: Step)

  /** How the handler ended. */
  datatype Ending =
    | EarlyReturn                     // after the one reply, before touching the filesystem
    | Crashed                         // an exception escaped the handler
    | Completed(cleanup: CleanupLog)

  /** `temp/<user id>`: the workspace of a Telegram user. */
  function Workspace(userId: nat): (dir: Path)
    ensures IsUnder(dir, "temp") && Name(dir) == Decimal(userId)
  {
    var id := Decimal(userId);
    assert id[0] != '.';
    NameOfJoin("temp", id);
    Join("temp", id)
  }

  /** Different users never share a workspace. */
  lemma WorkspacesDistinct(a: nat, b: nat)
    ensures Workspace(a) == Workspace(b) <==> a == b
  {
    JoinInjective("temp", Decimal(a), Decimal(b));
    DecimalInjective(a, b);
  }

  /**
   * The one message sent for target `f`: the converted document when both
   * the converter and the send succeed, otherwise an error reply that tells
   * a converter exit status apart from every other failure.
   */
  function ReplyFor(f: Format, fileName: string, t: ToolOutcome, s: SendOutcome): (r: Reply)
    ensures r.ConvertedDocument? || r.ConversionError? || r.UnexpectedError?
    ensures r.format == f
    ensures r.ConvertedDocument? <==> t.ExitedZero? && s.Delivered?
    ensures r.ConvertedDocument? ==> r.fileName == OutputName(fileName, f)
    ensures r.ConversionError? <==> t.ExitedNonZero?
    ensures r.ConversionError? ==> r.message == t.message
    ensures r.UnexpectedError? ==> r.message == (if t.ExitedZero? then s.message else t.message)
  {
    match t
    case ExitedZero =>
      if s.Delivered? then ConvertedDocument(f, OutputName(fileName, f)) else UnexpectedError(f, s.message)
    case ExitedNonZero(m) => ConversionError(f, m)
    case CouldNotRun(m) => UnexpectedError(f, m)
  }

  /** The messages the loop sends for `formats`, in order. */
  function RepliesFor(formats: seq<Format>, fileName: string, tool: ToolRuns, send: SendRuns): seq<Reply>
  {
    if formats == [] then []
    else
      var f := formats[|formats| - 1];
      RepliesFor(formats[..|formats| - 1], fileName, tool, send) + [ReplyFor(f, fileName, tool.For(f), send.For(f))]
  }

  /** Exactly one message per target, in the order of the targets, each about its own target. */
  lemma {:induction false} OneReplyPerFormat(formats: seq<Format>, fileName: string, tool: ToolRuns, send: SendRuns)
    ensures |RepliesFor(formats, fileName, tool, send)| == |formats|
    ensures forall i :: 0 <= i < |formats| ==>
              RepliesFor(formats, fileName, tool, send)[i] ==
              ReplyFor(formats[i], fileName, tool.For(formats[i]), send.For(formats[i]))
    decreases |formats|
  {
    if formats != [] {
      var init := formats[..|formats| - 1];
      OneReplyPerFormat(init, fileName, tool, send);
      var rs := RepliesFor(formats, fileName, tool, send);
      forall i | 0 <= i < |formats|
        ensures rs[i] == ReplyFor(formats[i], fileName, tool.For(formats[i]), send.For(formats[i]))
      {
        if i < |init| {
          assert rs[i] == RepliesFor(init, fileName, tool, send)[i];
          assert formats[i] == init[i];
        }
      }
    }
  }

  /**
   * `converted_files`: the output paths of the targets that were both
   * converted and sent, in order. A file converted but not sent is missing.
   */
  function DeliveredPaths(formats: seq<Format>, dir: Path, fileName: string, tool: ToolRuns,
                          send: SendRuns): seq<Path>
  {
    if formats == [] then []
    else
      var f := formats[|formats| - 1];
      DeliveredPaths(formats[..|formats| - 1], dir, fileName, tool, send) +
        (if tool.For(f).ExitedZero? && send.For(f).Delivered? then [OutputPath(dir, fileName, f)] else [])
  }

  /** A path is recorded exactly for the targets whose conversion and send both succeeded. */
  lemma {:induction false} DeliveredMembers(formats: seq<Format>, dir: Path, fileName: string, tool: ToolRuns,
                                            send: SendRuns)
    ensures forall f :: f in formats && tool.For(f).ExitedZero? && send.For(f).Delivered? ==>
              OutputPath(dir, fileName, f) in DeliveredPaths(formats, dir, fileName, tool, send)
    ensures forall p :: p in DeliveredPaths(formats, dir, fileName, tool, send) ==>
              exists f :: f in formats && tool.For(f).ExitedZero? && send.For(f).Delivered? &&
                          p == OutputPath(dir, fileName, f)
    decreases |formats|
  {
    if formats != [] {
      var init := formats[..|formats| - 1];
      var last := formats[|formats| - 1];
      DeliveredMembers(init, dir, fileName, tool, send);
      assert formats == init + [last];
      forall p | p in DeliveredPaths(formats, dir, fileName, tool, send)
        ensures exists f :: f in formats && tool.For(f).ExitedZero? && send.For(f).Delivered? &&
                            p == OutputPath(dir, fileName, f)
      {
        if p in DeliveredPaths(init, dir, fileName, tool, send) {
          var f :| f in init && tool.For(f).ExitedZero? && send.For(f).Delivered? && p == OutputPath(dir, fileName, f);
          assert f in formats;
        } else {
          assert last in formats;
        }
      }
    }
  }

  /** No element of `s` occurs twice. */
  predicate Distinct<T(==)>(s: seq<T>)
  {
    forall i, j :: 0 <= i < j < |s| ==> s[i] != s[j]
  }

  /** The targets of an accepted upload record each output path at most once. */
  lemma {:induction false} DeliveredDistinct(formats: seq<Format>, dir: Path, fileName: string, tool: ToolRuns,
                                             send: SendRuns)
    requires Distinct(formats)
    requires forall i :: 0 <= i < |formats| ==> formats[i] in Reachable(InputExtension(fileName))
    ensures Distinct(DeliveredPaths(formats, dir, fileName, tool, send))
    decreases |formats|
  {
    if formats != [] {
      var init := formats[..|formats| - 1];
      var f := formats[|formats| - 1];
      DeliveredDistinct(init, dir, fileName, tool, send);
      DeliveredMembers(init, dir, fileName, tool, send);
      var ps := DeliveredPaths(init, dir, fileName, tool, send);
      if tool.For(f).ExitedZero? && send.For(f).Delivered? {
        if OutputPath(dir, fileName, f) in ps {
          var g :| g in init && OutputPath(dir, fileName, f) == OutputPath(dir, fileName, g);
          OutputPathsDistinct(dir, fileName, f, g);
          assert false;
        }
      }
    }
  }

  /** Sending only happens after a successful conversion, so every recorded path was produced. */
  lemma DeliveredWereProduced(formats: seq<Format>, dir: Path, fileName: string, tool: ToolRuns,
                              send: SendRuns)
    ensures forall p :: p in DeliveredPaths(formats, dir, fileName, tool, send) ==>
              p in Produced(formats, dir, fileName, tool)
  {
    DeliveredMembers(formats, dir, fileName, tool, send);
    ProducedMembers(formats, dir, fileName, tool);
  }

  /** How a run of `unlink` calls ends: all done, or stopped at a missing file. */
  datatype Unlinked = AllUnlinked(rest: set<Path>) | MissingFile(path: Path, rest: set<Path>)

  /** Unlinking `paths` one after the other, stopping at the first that raises. */
  function UnlinkAll(files: set<Path>, paths: seq<Path>): (u: Unlinked)
    ensures u.rest <= files
    ensures u.MissingFile? ==> u.path in paths && u.path !in u.rest
  {
    if paths == [] then AllUnlinked(files)
    else if paths[0] !in files then MissingFile(paths[0], files)
    else UnlinkAll(files - {paths[0]}, paths[1..])
  }

  /** The files left after a run of `unlink` calls: only listed files go. */
  lemma {:induction false} UnlinkAllBounds(files: set<Path>, paths: seq<Path>)
    ensures UnlinkAll(files, paths).rest <= files
    ensures forall p :: p in files && p !in paths ==> p in UnlinkAll(files, paths).rest
    decreases |paths|
  {
    if paths != [] && paths[0] in files {
      UnlinkAllBounds(files - {paths[0]}, paths[1..]);
      assert forall p :: p in paths[1..] ==> p in paths;
    }
  }

  /** When every listed file exists and none is listed twice, all of them are unlinked. */
  lemma {:induction false} UnlinkAllPresent(files: set<Path>, paths: seq<Path>)
    requires Distinct(paths)
    requires forall i :: 0 <= i < |paths| ==> paths[i] in files
    ensures UnlinkAll(files, paths) == AllUnlinked(files - (set p | p in paths))
    decreases |paths|
  {
    if paths != [] {
      var rest := paths[1..];
      assert forall i :: 0 <= i < |rest| ==> rest[i] == paths[i + 1];
      UnlinkAllPresent(files - {paths[0]}, rest);
      assert forall p :: p in paths <==> p == paths[0] || p in rest;
    }
  }

  /** The files and directories after the cleanup block, and how it ended. */
  datatype CleanupState = CleanupState(log: CleanupLog, files: set<Path>, dirs: set<Path>)

  /**
   * The cleanup block: unlink each of `paths` in order, then remove `dir`;
   * the first step that raises ends the block.
   */
  function CleanupResult(files: set<Path>, dirs: set<Path>, paths: seq<Path>, dir: Path): (after: CleanupState)
  {
    match UnlinkAll(files, paths)
    case MissingFile(p, rest) => CleanupState(CleanupFailed(UnlinkFile(p)), rest, dirs)
    case AllUnlinked(rest) =>
      if dir in dirs && IsEmptyDir(rest, dirs, dir) then CleanupState(CleanedUp, rest, dirs - {dir})
      else CleanupState(CleanupFailed(RemoveDirectory(dir)), rest, dirs)
  }

  /**
   * The cleanup block removes only listed files and at most the workspace,
   * and it removes the workspace only when every file that was in it was
   * listed and no directory was below it.
   */
  lemma CleanupRemovesOnlyListed(files: set<Path>, dirs: set<Path>, paths: seq<Path>, dir: Path)
    ensures CleanupResult(files, dirs, paths, dir).files <= files
    ensures forall p :: p in files && p !in paths ==> p in CleanupResult(files, dirs, paths, dir).files
    ensures CleanupResult(files, dirs, paths, dir).dirs == dirs ||
            CleanupResult(files, dirs, paths, dir).dirs == dirs - {dir}
    ensures CleanupResult(files, dirs, paths, dir).log == CleanedUp ==>
              (forall p :: p in files && IsUnder(p, dir) ==> p in paths) &&
              (forall q :: q in dirs && IsUnder(q, dir) ==> false)
  {
    UnlinkAllBounds(files, paths);
  }

  /** Every file that was converted was also sent. */
  predicate AllSent(formats: seq<Format>, tool: ToolRuns, send: SendRuns)
  {
    forall f :: f in formats && tool.For(f).ExitedZero? ==> send.For(f).Delivered?
  }

  /** The converter's outputs lie in the workspace and never at the input's path. */
  lemma OutputsInWorkspace(dir: Path, fileName: string, tool: ToolRuns)
    requires InputExtension(fileName) in SupportedInputFormats
    ensures var P := Produced(Reachable(InputExtension(fileName)), dir, fileName, tool);
            Join(dir, fileName) !in P && forall p :: p in P ==> IsUnder(p, dir)
  {
    var formats := Reachable(InputExtension(fileName));
    ProducedMembers(formats, dir, fileName, tool);
    forall p | p in Produced(formats, dir, fileName, tool)
      ensures IsUnder(p, dir) && p != Join(dir, fileName)
    {
      var f :| f in formats && tool.For(f).ExitedZero? && p == OutputPath(dir, fileName, f);
      JoinParts(dir, OutputName(fileName, f));
      OutputPathsDistinct(dir, fileName, f, f);
    }
  }

  /**
   * The cleanup list of an accepted upload names each file once, and every
   * file on it exists when cleanup starts.
   */
  lemma CleanupListPresent(files: set<Path>, dir: Path, fileName: string, tool: ToolRuns, send: SendRuns)
    requires InputExtension(fileName) in SupportedInputFormats
    ensures var formats := Reachable(InputExtension(fileName));
            var paths := [Join(dir, fileName)] + DeliveredPaths(formats, dir, fileName, tool, send);
            Distinct(paths) &&
            forall i :: 0 <= i < |paths| ==>
              paths[i] in files + {Join(dir, fileName)} + Produced(formats, dir, fileName, tool)
  {
    var formats := Reachable(InputExtension(fileName));
    var D := DeliveredPaths(formats, dir, fileName, tool, send);
    DeliveredDistinct(formats, dir, fileName, tool, send);
    DeliveredWereProduced(formats, dir, fileName, tool, send);
    OutputsInWorkspace(dir, fileName, tool);
    var P := Produced(formats, dir, fileName, tool);
    assert forall i :: 0 <= i < |D| ==> D[i] in P;
    PrependDistinct(Join(dir, fileName), D, P);
  }

  /** Putting a new element in front of a list of distinct members of `s` keeps them distinct. */
  lemma PrependDistinct<T>(x: T, xs: seq<T>, s: set<T>)
    requires Distinct(xs) && x !in s
    requires forall i :: 0 <= i < |xs| ==> xs[i] in s
    ensures Distinct([x] + xs)
    ensures forall i :: 0 <= i < |[x] + xs| ==> ([x] + xs)[i] in {x} + s
  {
    var ys := [x] + xs;
    forall i, j | 0 <= i < j < |ys|
      ensures ys[i] != ys[j]
    {
      assert ys[j] == xs[j - 1];
      if 0 < i {
        assert ys[i] == xs[i - 1];
      }
    }
  }

  /**
   * For a workspace that held nothing before the message: cleanup leaves
   * exactly the files converted but not sent, and removes the workspace
   * exactly when every converted file was sent; otherwise `rmdir` is the
   * step that fails and the workspace stays.
   */
  lemma WorkspaceRemovedIffAllSent(files: set<Path>, dirs: set<Path>, dir: Path, fileName: string,
                                   tool: ToolRuns, send: SendRuns)
    requires InputExtension(fileName) in SupportedInputFormats
    requires IsEmptyDir(files, dirs, dir)
    ensures var formats := Reachable(InputExtension(fileName));
            var P := Produced(formats, dir, fileName, tool);
            var D := DeliveredPaths(formats, dir, fileName, tool, send);
            var res := CleanupResult(files + {Join(dir, fileName)} + P, dirs + {dir}, [Join(dir, fileName)] + D, dir);
            (forall p :: p in res.files <==> p in files || (p in P && p !in D)) &&
            (res.log == CleanedUp <==> AllSent(formats, tool, send)) &&
            (res.log == CleanedUp ==> res.dirs == dirs - {dir}) &&
            (res.log != CleanedUp ==> res.log == CleanupFailed(RemoveDirectory(dir)) && res.dirs == dirs + {dir})
  {
    var formats := Reachable(InputExtension(fileName));
    var P := Produced(formats, dir, fileName, tool);
    var D := DeliveredPaths(formats, dir, fileName, tool, send);
    UnlinkLeavesUnsent(files, dir, fileName, tool, send);
    var rest := UnlinkAll(files + {Join(dir, fileName)} + P, [Join(dir, fileName)] + D).rest;
    UnsentIffNotAllSent(dir, fileName, tool, send);
    OutputsInWorkspace(dir, fileName, tool);
    assert !IsUnder(dir, dir);
    if AllSent(formats, tool, send) {
      assert forall p :: p in rest ==> p in files;
    } else {
      var p :| p in P && p !in D;
      assert p in rest && IsUnder(p, dir);
    }
  }

  /**
   * Unlinking the input and the recorded outputs of a message whose
   * workspace held nothing before leaves the earlier files and the outputs
   * that were converted but not sent.
   */
  lemma UnlinkLeavesUnsent(files: set<Path>, dir: Path, fileName: string, tool: ToolRuns, send: SendRuns)
    requires InputExtension(fileName) in SupportedInputFormats
    requires forall p :: p in files ==> !IsUnder(p, dir)
    ensures var formats := Reachable(InputExtension(fileName));
            var P := Produced(formats, dir, fileName, tool);
            var D := DeliveredPaths(formats, dir, fileName, tool, send);
            var u := UnlinkAll(files + {Join(dir, fileName)} + P, [Join(dir, fileName)] + D);
            u.AllUnlinked? && forall p :: p in u.rest <==> p in files || (p in P && p !in D)
  {
    var formats := Reachable(InputExtension(fileName));
    var input := Join(dir, fileName);
    var P := Produced(formats, dir, fileName, tool);
    var D := DeliveredPaths(formats, dir, fileName, tool, send);
    var paths := [input] + D;
    CleanupListPresent(files, dir, fileName, tool, send);
    UnlinkAllPresent(files + {input} + P, paths);
    JoinParts(dir, fileName);
    OutputsInWorkspace(dir, fileName, tool);
    DeliveredWereProduced(formats, dir, fileName, tool, send);
    assert forall p :: p in paths <==> p == input || p in D;
  }

  /** Some converted file went unsent exactly when not every converted file was sent. */
  lemma UnsentIffNotAllSent(dir: Path, fileName: string, tool: ToolRuns, send: SendRuns)
    requires InputExtension(fileName) in SupportedInputFormats
    ensures var formats := Reachable(InputExtension(fileName));
            (exists p :: p in Produced(formats, dir, fileName, tool) &&
                         p !in DeliveredPaths(formats, dir, fileName, tool, send)) <==>
            !AllSent(formats, tool, send)
  {
    var formats := Reachable(InputExtension(fileName));
    var P := Produced(formats, dir, fileName, tool);
    var D := DeliveredPaths(formats, dir, fileName, tool, send);
    ProducedMembers(formats, dir, fileName, tool);
    DeliveredMembers(formats, dir, fileName, tool, send);
    if !AllSent(formats, tool, send) {
      var f :| f in formats && tool.For(f).ExitedZero? && !send.For(f).Delivered?;
      var out := OutputPath(dir, fileName, f);
      if out in D {
        var g :| g in formats && tool.For(g).ExitedZero? && send.For(g).Delivered? && out == OutputPath(dir, fileName, g);
        OutputPathsDistinct(dir, fileName, f, g);
        assert false;
      }
      assert out in P;
    } else if p :| p in P && p !in D {
      assert false;
    }
  }

  /**
   * A file converted but not sent is never recorded, so it survives the
   * cleanup, `rmdir` meets a non-empty directory and the workspace stays.
   */
  lemma UnsentFileBlocksRemoval(files: set<Path>, dirs: set<Path>, dir: Path, fileName: string, f: Format,
                                tool: ToolRuns, send: SendRuns)
    requires InputExtension(fileName) in SupportedInputFormats
    requires f in Reachable(InputExtension(fileName)) && tool.For(f).ExitedZero? && send.For(f).SendFailed?
    ensures var formats := Reachable(InputExtension(fileName));
            var res := CleanupResult(files + {Join(dir, fileName)} + Produced(formats, dir, fileName, tool),
                                     dirs + {dir},
                                     [Join(dir, fileName)] + DeliveredPaths(formats, dir, fileName, tool, send), dir);
            res.log == CleanupFailed(RemoveDirectory(dir)) && OutputPath(dir, fileName, f) in res.files && dir in res.dirs
  {
    var formats := Reachable(InputExtension(fileName));
    var input := Join(dir, fileName);
    var P := Produced(formats, dir, fileName, tool);
    var D := DeliveredPaths(formats, dir, fileName, tool, send);
    var paths := [input] + D;
    CleanupListPresent(files, dir, fileName, tool, send);
    UnlinkAllPresent(files + {input} + P, paths);
    var rest := (files + {input} + P) - (set p | p in paths);
    ProducedMembers(formats, dir, fileName, tool);
    DeliveredMembers(formats, dir, fileName, tool, send);
    OutputsInWorkspace(dir, fileName, tool);
    var out := OutputPath(dir, fileName, f);
    assert out in P;
    if out in D {
      var g :| g in formats && tool.For(g).ExitedZero? && send.For(g).Delivered? && out == OutputPath(dir, fileName, g);
      OutputPathsDistinct(dir, fileName, f, g);
      assert false;
    }
    assert out !in paths;
    assert out in rest && IsUnder(out, dir);
  }

  /**
   * The cleanup block of `convert_ebook`: the input first, then each
   * recorded output, then the directory.
   */
  method Cleanup(fs: FileSystem, input: Path, converted: seq<Path>, dir: Path) returns (log: CleanupLog)
    modifies fs
    ensures CleanupState(log, fs.files, fs.dirs) == CleanupResult(old(fs.files), old(fs.dirs), [input] + converted, dir)
  {
    var ok := fs.Unlink(input);
    if !ok {
      return CleanupFailed(UnlinkFile(input));
    }
    assert ([input] + converted)[1..] == converted;
    for i := 0 to |converted|
      invariant fs.dirs == old(fs.dirs)
      invariant UnlinkAll(old(fs.files), [input] + converted) == UnlinkAll(fs.files, converted[i..])
    {
      assert converted[i..][1..] == converted[i + 1..];
      ok := fs.Unlink(converted[i]);
      if !ok {
        return CleanupFailed(UnlinkFile(converted[i]));
      }
    }
    ok := fs.Rmdir(dir);
    log := if ok then CleanedUp else CleanupFailed(RemoveDirectory(dir));
  }

  /**
   * The loop of `convert_ebook`: per target, run the converter, send the
   * file when it exited with status zero, and record the path only once the
   * send succeeded; every failure becomes one error reply and the loop goes
   * on with the next target.
   */
  method ConvertAndSend(fs: FileSystem, dir: Path, fileName: string, formats: seq<Format>, tool: ToolRuns,
                        send: SendRuns)
    returns (replies: seq<Reply>, converted: seq<Path>)
    requires InputExtension(fileName) in SupportedInputFormats
    modifies fs
    ensures replies == RepliesFor(formats, fileName, tool, send)
    ensures converted == DeliveredPaths(formats, dir, fileName, tool, send)
    ensures fs.files == old(fs.files) + Produced(formats, dir, fileName, tool)
    ensures fs.dirs == old(fs.dirs)
  {
    replies := [];
    converted := [];
    for i := 0 to |formats|
      invariant replies == RepliesFor(formats[..i], fileName, tool, send)
      invariant converted == DeliveredPaths(formats[..i], dir, fileName, tool, send)
      invariant fs.files == old(fs.files) + Produced(formats[..i], dir, fileName, tool)
      invariant fs.dirs == old(fs.dirs)
    {
      var f := formats[i];
      LoopStep(formats, i, dir, fileName, tool, send);
      ProducedStep(formats, i, dir, fileName, tool);
      var reply, sent := ConvertOne(fs, dir, fileName, f, tool.For(f), send.For(f));
      replies := replies + [reply];
      converted := converted + sent;
    }
    assert formats[..|formats|] == formats;
  }

  /**
   * The body of the loop for target `f`: run the converter and, when it
   * exited with status zero, send the file; `sent` holds the output path
   * when it was both written and sent.
   */
  method ConvertOne(fs: FileSystem, dir: Path, fileName: string, f: Format, t: ToolOutcome, s: SendOutcome)
    returns (reply: Reply, sent: seq<Path>)
    requires InputExtension(fileName) in SupportedInputFormats
    modifies fs
    ensures reply == ReplyFor(f, fileName, t, s)
    ensures sent == if t.ExitedZero? && s.Delivered? then [OutputPath(dir, fileName, f)] else []
    ensures fs.files == old(fs.files) + (if t.ExitedZero? then {OutputPath(dir, fileName, f)} else {})
    ensures fs.dirs == old(fs.dirs)
  {
    var output := OutputPath(dir, fileName, f);
    sent := [];
    if t.ExitedZero? {
      fs.WriteFile(output);
      SentName(dir, fileName, f);
      if s.Delivered? {
        reply := ConvertedDocument(f, Name(output));
        sent := [output];
      } else {
        // the failed send is caught by the generic handler
        reply := UnexpectedError(f, s.message);
      }
    } else if t.ExitedNonZero? {
      reply := ConversionError(f, t.message);
    } else {
      reply := UnexpectedError(f, t.message);
    }
  }

  /** One more target extends the replies and the recorded paths by its own part. */
  lemma LoopStep(formats: seq<Format>, i: nat, dir: Path, fileName: string, tool: ToolRuns, send: SendRuns)
    requires i < |formats|
    ensures var f := formats[i];
            RepliesFor(formats[..i + 1], fileName, tool, send) ==
              RepliesFor(formats[..i], fileName, tool, send) + [ReplyFor(f, fileName, tool.For(f), send.For(f))] &&
            DeliveredPaths(formats[..i + 1], dir, fileName, tool, send) ==
              DeliveredPaths(formats[..i], dir, fileName, tool, send) +
                (if tool.For(f).ExitedZero? && send.For(f).Delivered? then [OutputPath(dir, fileName, f)] else [])
  {
    assert formats[..i + 1][..i] == formats[..i];
  }

  /** The document is sent under the output path's name, which is the output name itself. */
  lemma SentName(dir: Path, fileName: string, f: Format)
    requires InputExtension(fileName) in SupportedInputFormats
    ensures Name(OutputPath(dir, fileName, f)) == OutputName(fileName, f)
  {
    OutputNameParts(fileName, f);
    NameOfJoin(dir, OutputName(fileName, f));
  }

  /**
   * `convert_ebook` for one message from user `userId`. `downloaded` says
   * whether fetching the document into the workspace succeeded; `tool` and
   * `send` say how each converter run and each send ends.
   */
  method ConvertEbook(fs: FileSystem, document: Option<Document>, userId: nat, downloaded: bool, tool: ToolRuns,
                      send: SendRuns)
    returns (replies: seq<Reply>, ending: Ending)
    modifies fs
    ensures document.None? ==> replies == [AskForEbook] && ending == EarlyReturn && unchanged(fs)
    ensures document.Some? && document.value.fileName.None? ==> replies == [] && ending == Crashed && unchanged(fs)
    ensures document.Some? && document.value.fileName.Some? &&
            InputExtension(document.value.fileName.value) !in SupportedInputFormats ==>
              replies == [FormatNotSupported(InputExtension(document.value.fileName.value))] &&
              ending == EarlyReturn && unchanged(fs)
    ensures document.Some? && document.value.fileName.Some? &&
            InputExtension(document.value.fileName.value) in SupportedInputFormats ==>
              var fileName := document.value.fileName.value;
              var dir := Workspace(userId);
              var formats := Reachable(InputExtension(fileName));
              if dir in old(fs.files) then
                replies == [] && ending == Crashed && fs.files == old(fs.files) && fs.dirs == old(fs.dirs)
              else if !downloaded then
                replies == [] && ending == Crashed && fs.files == old(fs.files) && fs.dirs == old(fs.dirs) + {dir}
              else
                replies == RepliesFor(formats, fileName, tool, send) &&
                ending.Completed? &&
                CleanupState(ending.cleanup, fs.files, fs.dirs) ==
                CleanupResult(old(fs.files) + {Join(dir, fileName)} + Produced(formats, dir, fileName, tool),
                              old(fs.dirs) + {dir},
                              [Join(dir, fileName)] + DeliveredPaths(formats, dir, fileName, tool, send), dir)
  {
    if document.None? {
      return [AskForEbook], EarlyReturn;
    }
    if document.value.fileName.None? {
      // `Path(None)` raises a `TypeError`
      return [], Crashed;
    }
    var fileName := document.value.fileName.value;
    var ext := Lower(Suffix(Name(fileName)));
    if ext !in SupportedInputFormats {
      return [FormatNotSupported(ext)], EarlyReturn;
    }

    var dir := Join("temp", Decimal(userId));
    var ok := fs.MakeDirs(dir);
    if !ok {
      return [], Crashed;
    }
    if !downloaded {
      return [], Crashed;
    }
    var input := Join(dir, fileName);
    fs.WriteFile(input);

    var formats := PossibleFormats(ext);
    var converted;
    replies, converted := ConvertAndSend(fs, dir, fileName, formats, tool, send);
    var log := Cleanup(fs, input, converted, dir);
    ending := Completed(log);
  }
}
