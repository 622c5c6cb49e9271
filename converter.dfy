/**
 * The external `ebook-convert <input> <output>` run, seen only through how
 * it ended, and the output files the runs leave in the workspace.
 */
module Converter {
  import opened Paths
  import opened Formats

  /** How one `subprocess.run([...], check=True)` call ended. */
  datatype ToolOutcome =
    | ExitedZero                        // the output file was written
    | ExitedNonZero(message: string)    // `CalledProcessError`, with its `str(e)`
    | CouldNotRun(message: string)      // any other exception, with its `str(e)`

  /** How the converter run for each target ends: one outcome per format. */
  datatype ToolRuns = ToolRuns(toPdf: ToolOutcome, toEpub: ToolOutcome)
  {
    function For(f: Format): ToolOutcome
    {
      if f == PDF then toPdf else toEpub
    }
  }

  /** The files written by running the converter once for each of `formats`, in order. */
  function Produced(formats: seq<Format>, dir: Path, fileName: string, tool: ToolRuns): set<Path>
  {
    if formats == [] then {}
    else
      var f := formats[|formats| - 1];
      Produced(formats[..|formats| - 1], dir, fileName, tool) +
        (if tool.For(f).ExitedZero? then {OutputPath(dir, fileName, f)} else {})
  }

  /** A file is written exactly for the targets whose converter run exited with status zero. */
  lemma {:induction false} ProducedMembers(formats: seq<Format>, dir: Path, fileName: string,
                                           tool: ToolRuns)
    ensures forall f :: f in formats && tool.For(f).ExitedZero? ==> OutputPath(dir, fileName, f) in Produced(formats, dir, fileName, tool)
    ensures forall p :: p in Produced(formats, dir, fileName, tool) ==>
              exists f :: f in formats && tool.For(f).ExitedZero? && p == OutputPath(dir, fileName, f)
    decreases |formats|
  {
    if formats != [] {
      var init := formats[..|formats| - 1];
      ProducedMembers(init, dir, fileName, tool);
      assert formats == init + [formats[|formats| - 1]];
    }
  }

  /** Running the converter for one more target adds at most that target's output. */
  lemma ProducedStep(formats: seq<Format>, i: nat, dir: Path, fileName: string, tool: ToolRuns)
    requires i < |formats|
    ensures Produced(formats[..i + 1], dir, fileName, tool) ==
            Produced(formats[..i], dir, fileName, tool) +
              (if tool.For(formats[i]).ExitedZero? then {OutputPath(dir, fileName, formats[i])} else {})
  {
    assert formats[..i + 1][..i] == formats[..i];
  }
}
