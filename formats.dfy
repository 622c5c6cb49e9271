/**
 * The format validator shared by both front ends: which input extensions are
 * accepted, which targets each one reaches (PDF before EPUB), and the name
 * each converted file gets.
 */
module Formats {
  import opened Paths

  /** The two conversion targets. */
  datatype Format = PDF | EPUB

  /** Extensions accepted as input. */
  const SupportedInputFormats: set<string> := {".mobi", ".azw", ".azw3", ".epub", ".pdf"}

  /** Extensions that can be converted to PDF. */
  const ToPdf: set<string> := {".mobi", ".azw", ".azw3", ".epub"}

  /** Extensions that can be converted to EPUB. */
  const ToEpub: set<string> := {".mobi", ".azw", ".azw3", ".pdf"}

  /** The extension a converted file of format `f` is given. */
  function Extension(f: Format): (e: string)
    ensures e in SupportedInputFormats
    ensures e in (if f == PDF then ToEpub else ToPdf) && e !in (if f == PDF then ToPdf else ToEpub)
  {
    if f == PDF then ".pdf" else ".epub"
  }

  /** The extension an upload is classified by: the lower-cased suffix of its final component. */
  function InputExtension(fileName: string): string
  {
    Lower(Suffix(Name(fileName)))
  }

  /**
   * The targets reachable from an input extension, as a table: EPUB input
   * reaches PDF only, PDF input reaches EPUB only, the Kindle formats reach
   * both, and anything else reaches nothing.
   */
  function Reachable(ext: string): (targets: seq<Format>)
    ensures targets != [] <==> ext in SupportedInputFormats
    ensures forall i :: 0 <= i < |targets| ==> Extension(targets[i]) != ext
    ensures forall i, j :: 0 <= i < j < |targets| ==> targets[i] == PDF && targets[j] == EPUB
  {
    if ext == ".epub" then [PDF]
    else if ext == ".pdf" then [EPUB]
    else if ext == ".mobi" || ext == ".azw" || ext == ".azw3" then [PDF, EPUB]
    else []
  }

  /**
   * `possible_formats`: PDF is appended when the extension converts to PDF,
   * then EPUB when it converts to EPUB.
   */
  method PossibleFormats(ext: string) returns (formats: seq<Format>)
    ensures formats == Reachable(ext)
  {
    formats := [];
    if ext in ToPdf {
      formats := formats + [PDF];
    }
    if ext in ToEpub {
      formats := formats + [EPUB];
    }
  }

  /** The name of the converted file: the original-case stem plus the target's extension. */
  function OutputName(fileName: string, f: Format): string
  {
    Stem(Name(fileName)) + Extension(f)
  }

  /** `temp_dir / (stem + ext)`: where the converter is told to write format `f`. */
  function OutputPath(dir: Path, fileName: string, f: Format): Path
  {
    Join(dir, OutputName(fileName, f))
  }

  /**
   * The extension an upload is classified by is empty, or a dot followed by
   * dot-free text as long as the suffix it was lower-cased from.
   */
  lemma InputExtensionShape(fileName: string)
    ensures |InputExtension(fileName)| == |Suffix(Name(fileName))|
    ensures InputExtension(fileName) == "" ||
            (InputExtension(fileName)[0] == '.' && '.' !in InputExtension(fileName)[1..])
  {
    var s := Suffix(Name(fileName));
    var ext := InputExtension(fileName);
    if ext != "" {
      assert forall k :: 0 <= k < |ext| - 1 ==> ext[1..][k] == LowerChar(s[1..][k]);
    }
  }

  /** An extension is a dot followed by letters and digits, already in lower case. */
  lemma ExtensionShape(f: Format)
    ensures 2 <= |Extension(f)| && Extension(f)[0] == '.' && '.' !in Extension(f)[1..]
    ensures Lower(Extension(f)) == Extension(f)
  {
    LowerOfLowercase(Extension(f));
  }

  /** An accepted extension is not empty, so the component it came from has a suffix. */
  lemma AcceptedHasSuffix(name: string)
    requires Lower(Suffix(name)) in SupportedInputFormats
    ensures Suffix(name) != ""
  {
  }

  /**
   * Renaming a component that has a suffix: the new name is still one
   * component, its suffix is the target's extension and its stem is kept.
   */
  lemma RenamedComponent(name: string, f: Format)
    requires '/' !in name && Suffix(name) != ""
    ensures Name(Stem(name) + Extension(f)) == Stem(name) + Extension(f)
    ensures Suffix(Stem(name) + Extension(f)) == Extension(f)
    ensures Stem(Stem(name) + Extension(f)) == Stem(name)
  {
    RenamedIsComponent(name, f);
    ExtensionShape(f);
    SplitJoinedName(Stem(name), Extension(f));
    NameOfComponent(Stem(name) + Extension(f));
  }

  /**
   * Giving a component, or the empty name, a target's extension yields a
   * single component that ends with that extension.
   */
  lemma RenamedIsComponent(name: string, f: Format)
    requires '/' !in name
    ensures var renamed := Stem(name) + Extension(f);
            '/' !in renamed && renamed != "" && renamed != "." &&
            |Extension(f)| <= |renamed| && renamed[|renamed| - |Extension(f)|..] == Extension(f)
  {
    var stem := Stem(name);
    assert '/' !in stem by {
      assert stem == name[..|stem|];
    }
    assert '/' !in Extension(f);
  }

  /** An output name is a single component ending with the target's extension. */
  lemma OutputNameIsComponent(fileName: string, f: Format)
    ensures '/' !in OutputName(fileName, f) && OutputName(fileName, f) != "" && OutputName(fileName, f) != "."
    ensures var n := OutputName(fileName, f);
            |Extension(f)| <= |n| && n[|n| - |Extension(f)|..] == Extension(f)
  {
    RenamedIsComponent(Name(fileName), f);
  }

  /**
   * For an accepted upload, the output name is a single component whose
   * suffix is the target's extension and whose stem is the upload's stem,
   * so the two targets get different names.
   */
  lemma OutputNameParts(fileName: string, f: Format)
    requires InputExtension(fileName) in SupportedInputFormats
    ensures Name(OutputName(fileName, f)) == OutputName(fileName, f)
    ensures Suffix(OutputName(fileName, f)) == Extension(f)
    ensures Stem(OutputName(fileName, f)) == Stem(Name(fileName))
    ensures OutputName(fileName, PDF) != OutputName(fileName, EPUB)
  {
    var name := Name(fileName);
    AcceptedHasSuffix(name);
    RenamedComponent(name, f);
    assert |OutputName(fileName, PDF)| != |OutputName(fileName, EPUB)|;
  }

  /** A reachable target's output name never coincides with the uploaded file's name. */
  lemma OutputNameDiffers(fileName: string, f: Format)
    requires f in Reachable(InputExtension(fileName))
    ensures OutputName(fileName, f) != fileName
  {
    var ext := InputExtension(fileName);
    OutputNameParts(fileName, f);
    if OutputName(fileName, f) == fileName {
      assert Name(fileName) == OutputName(fileName, f);
      assert Suffix(Name(fileName)) == Extension(f);
      ExtensionShape(f);
      assert false;
    }
  }

  /** Each target is written to its own path in the workspace, never over the input. */
  lemma OutputPathsDistinct(dir: Path, fileName: string, f: Format, g: Format)
    requires f in Reachable(InputExtension(fileName))
    ensures OutputPath(dir, fileName, f) != Join(dir, fileName)
    ensures OutputPath(dir, fileName, f) == OutputPath(dir, fileName, g) <==> f == g
  {
    OutputNameDiffers(fileName, f);
    OutputNameParts(fileName, f);
    JoinInjective(dir, OutputName(fileName, f), fileName);
    JoinInjective(dir, OutputName(fileName, f), OutputName(fileName, g));
  }
}
