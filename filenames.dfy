/** File-name logic of the watcher: which directory entries are images
    (`is_supported`) and what the converted copy is called
    (`get_output_filename`, built on `pathlib`'s `stem`). */
module Filenames {

  /** The extensions accepted by the watcher, all in lower case. */
  const SupportedExtensions: seq<string> :=
    [".tif", ".tiff", ".jpg", ".jpeg", ".png", ".bmp", ".gif", ".webp"]

  /** Appended to the stem of every converted file. */
  const ProcessedSuffix: string := "_positive"

  /** Every converted file is written as a TIFF. */
  const OutputExtension: string := ".tif"

  /** A name as a directory listing yields it: one path component, never
      empty and never one of the two special entries. */
  predicate IsEntryName(s: string) {
    s != "" && s != "." && s != ".." && '/' !in s
  }

  type EntryName = s: string | IsEntryName(s) witness "a"

  /** Lower-casing of one character (ASCII letters only). */
  function LowerChar(c: char): char {
    if 'A' <= c <= 'Z' then (c as int + 32) as char else c
  }

  /** Upper-casing of one character (ASCII letters only). */
  function UpperChar(c: char): char {
    if 'a' <= c <= 'z' then (c as int - 32) as char else c
  }

  /** `str.lower()`, restricted to ASCII letters. */
  function Lower(s: string): (r: string)
    ensures |r| == |s|
  {
    seq(|s|, i requires 0 <= i < |s| => LowerChar(s[i]))
  }

  /** `str.upper()`, restricted to ASCII letters. */
  function Upper(s: string): (r: string)
    ensures |r| == |s|
  {
    seq(|s|, i requires 0 <= i < |s| => UpperChar(s[i]))
  }

  /** `str.endswith` for one suffix. */
  predicate EndsWith(s: string, suffix: string) {
    |suffix| <= |s| && s[|s| - |suffix|..] == suffix
  }

  /** `str.endswith` given a tuple: the suffixes are tried in turn. */
  predicate EndsWithAny(s: string, suffixes: seq<string>)
    decreases |suffixes|
  {
    |suffixes| > 0 && (EndsWith(s, suffixes[0]) || EndsWithAny(s, suffixes[1..]))
  }

  /** `is_supported`: the lower-cased name ends with one of the extensions. */
  predicate IsSupported(name: string) {
    EndsWithAny(Lower(name), SupportedExtensions)
  }

  /** `str.rfind('.')`: the index of the last dot, or -1 when there is none. */
  function LastDot(s: string): (i: int)
    ensures -1 <= i < |s|
    ensures i == -1 ==> forall j :: 0 <= j < |s| ==> s[j] != '.'
    ensures 0 <= i ==> s[i] == '.' && forall j :: i < j < |s| ==> s[j] != '.'
  {
    if |s| == 0 then -1
    else if s[|s| - 1] == '.' then |s| - 1
    else LastDot(s[..|s| - 1])
  }

  /** `pathlib` up to Python 3.13 counts the last dot as the start of a
      suffix only when it is neither the first nor the last character of the
      name. */
  predicate HasSuffix(name: string) {
    var i := LastDot(name);
    0 < i < |name| - 1
  }

  /** `PurePath.suffix`. */
  function Suffix(name: string): string {
    if HasSuffix(name) then name[LastDot(name)..] else ""
  }

  /** `PurePath.stem`: the name without its final suffix. */
  function Stem(name: string): string {
    if HasSuffix(name) then name[..LastDot(name)] else name
  }

  /** `get_output_filename`: the stem followed by `_positive.tif`. */
  function OutputFilename(name: EntryName): string {
    Stem(name) + ProcessedSuffix + OutputExtension
  }

  // ---------------------------------------------------------------------
  // Properties of the extension filter

  /** Trying the suffixes in turn finds one exactly when one of them fits. */
  lemma {:induction false} EndsWithAnyIff(s: string, suffixes: seq<string>)
    ensures EndsWithAny(s, suffixes) <==> exists suf :: suf in suffixes && EndsWith(s, suf)
    decreases |suffixes|
  {
    if |suffixes| > 0 {
      EndsWithAnyIff(s, suffixes[1..]);
      assert forall suf :: suf in suffixes <==> suf == suffixes[0] || suf in suffixes[1..];
    }
  }

  /** `is_supported` holds exactly when the lower-cased name ends with one of
      the eight extensions. */
  lemma IsSupportedExists(name: string)
    ensures IsSupported(name) <==> exists ext :: ext in SupportedExtensions && EndsWith(Lower(name), ext)
  {
    EndsWithAnyIff(Lower(name), SupportedExtensions);
  }

  lemma LowerSlice(s: string, k: nat)
    requires k <= |s|
    ensures Lower(s)[k..] == Lower(s[k..])
  {
  }

  /** Lower-casing the whole name and then comparing the tail is the same
      as lower-casing only the tail. */
  lemma EndsWithLowerTail(name: string, exts: seq<string>)
    ensures (exists ext :: ext in exts && EndsWith(Lower(name), ext)) <==>
      exists ext :: ext in exts && |ext| <= |name| && Lower(name[|name| - |ext|..]) == ext
  {
    forall ext | ext in exts && |ext| <= |name|
      ensures EndsWith(Lower(name), ext) <==> Lower(name[|name| - |ext|..]) == ext
    {
      LowerSlice(name, |name| - |ext|);
    }
  }

  /** The filter lower-cases the whole name, but only the tail matters: a
      name is supported exactly when its last |ext| characters, lower-cased,
      spell one of the extensions. */
  lemma IsSupportedIff(name: string)
    ensures IsSupported(name) <==>
      exists ext :: ext in SupportedExtensions && |ext| <= |name| &&
        Lower(name[|name| - |ext|..]) == ext
  {
    IsSupportedExists(name);
    EndsWithLowerTail(name, SupportedExtensions);
  }

  lemma LowerUpperChar(c: char)
    ensures LowerChar(UpperChar(c)) == LowerChar(c)
  {
  }

  /** Case does not matter: a name and its upper-cased spelling, or any two
      spellings that differ only in the case of letters, are accepted alike. */
  lemma {:induction false} IsSupportedIgnoresCase(a: string, b: string)
    requires |a| == |b|
    requires forall i :: 0 <= i < |a| ==> LowerChar(a[i]) == LowerChar(b[i])
    ensures IsSupported(a) == IsSupported(b)
  {
    assert Lower(a) == Lower(b);
  }

  lemma UpperCaseSupported(name: string)
    ensures IsSupported(Upper(name)) == IsSupported(name)
  {
    forall i | 0 <= i < |name|
      ensures LowerChar(Upper(name)[i]) == LowerChar(name[i])
    {
      LowerUpperChar(name[i]);
    }
    IsSupportedIgnoresCase(Upper(name), name);
  }

  /** Upper- and mixed-case TIFF extensions are accepted. */
  lemma SupportedExamples()
    ensures IsSupported("scan.TIF")
    ensures IsSupported("scan.Tiff")
    ensures IsSupported("roll12_03.tiff")
  {
    assert Lower("scan.TIF") == "scan.tif";
    assert EndsWith("scan.tif", ".tif");
    assert Lower("scan.Tiff") == "scan.tiff";
    assert EndsWith("scan.tiff", ".tiff");
    assert Lower("roll12_03.tiff") == "roll12_03.tiff";
    assert EndsWith("roll12_03.tiff", ".tiff");
  }

  /** Every extension ends in `f`, `g` or `p`, so a name ending in any
      other character, in either case, is rejected. */
  lemma UnsupportedByLastChar(name: string)
    requires name != ""
    requires LowerChar(name[|name| - 1]) != 'f'
    requires LowerChar(name[|name| - 1]) != 'g'
    requires LowerChar(name[|name| - 1]) != 'p'
    ensures !IsSupported(name)
  {
    IsSupportedExists(name);
    var l := Lower(name);
    forall ext | ext in SupportedExtensions ensures !EndsWith(l, ext) {
      assert ext[|ext| - 1] in "fgp";
    }
  }

  /** Text and Photoshop files are not accepted. */
  lemma UnsupportedExamples()
    ensures !IsSupported("notes.txt")
    ensures !IsSupported("layers.psd")
  {
    UnsupportedByLastChar("notes.txt");
    UnsupportedByLastChar("layers.psd");
  }

  // ---------------------------------------------------------------------
  // Properties of the output name

  /** The stem and the suffix split the name; a non-empty suffix is a dot
      followed by at least one character and no further dot, and leaves a
      non-empty stem; the suffix is empty exactly when the name ends in a dot
      or has no dot apart from a leading one. */
  lemma StemSuffixSplit(name: string)
    requires name != ""
    ensures Stem(name) + Suffix(name) == name
    ensures Suffix(name) != "" ==>
      |Suffix(name)| >= 2 && Suffix(name)[0] == '.' && |Stem(name)| >= 1 &&
      forall j :: 1 <= j < |Suffix(name)| ==> Suffix(name)[j] != '.'
    ensures Suffix(name) == "" <==>
      name[|name| - 1] == '.' || forall j :: 0 < j < |name| ==> name[j] != '.'
  {
    var i := LastDot(name);
    if HasSuffix(name) {
      assert name[..i] + name[i..] == name;
      assert name[|name| - 1] != '.';
    }
  }

  /** The output name is the stem with `_positive.tif` appended, whatever the
      input extension was; so it always ends in `_positive.tif`. */
  lemma OutputFilenameShape(name: EntryName)
    ensures EndsWith(OutputFilename(name), "_positive.tif")
    ensures OutputFilename(name)[..|OutputFilename(name)| - 13] == Stem(name)
    ensures Stem(name) + Suffix(name) == name
  {
    StemSuffixSplit(name);
    var out := OutputFilename(name);
    assert out == Stem(name) + "_positive.tif";
    assert out[|out| - 13..] == "_positive.tif";
  }

  /** Every output name is itself a supported image name. */
  lemma OutputFilenameSupported(name: EntryName)
    ensures IsSupported(OutputFilename(name))
  {
    var out := OutputFilename(name);
    OutputFilenameShape(name);
    LowerSlice(out, |out| - 4);
    assert out[|out| - 4..] == ".tif";
    assert Lower(".tif") == ".tif";
    assert EndsWith(Lower(out), ".tif");
    IsSupportedExists(out);
  }

  /** The last dot is the one with no dot after it. */
  lemma LastDotAt(s: string, i: nat)
    requires i < |s| && s[i] == '.'
    requires forall j :: i < j < |s| ==> s[j] != '.'
    ensures LastDot(s) == i
  {
  }

  /** With a dot that is neither first nor last and no dot after it, the
      output name is everything before that dot plus `_positive.tif`. */
  lemma OutputFilenameAt(name: EntryName, i: nat)
    requires 0 < i < |name| - 1 && name[i] == '.'
    requires forall j :: i < j < |name| ==> name[j] != '.'
    ensures OutputFilename(name) == name[..i] + "_positive.tif"
  {
    LastDotAt(name, i);
  }

  /** With no dot except possibly the first or last character, the whole
      name is the stem. */
  lemma OutputFilenameWhole(name: EntryName)
    requires forall j :: 0 < j < |name| - 1 ==> name[j] != '.'
    ensures OutputFilename(name) == name + "_positive.tif"
  {
  }

  /** Only the final extension is dropped. */
  lemma OutputFilenameTiff()
    ensures OutputFilename("roll12_03.tiff") == "roll12_03_positive.tif"
  {
    OutputFilenameAt("roll12_03.tiff", 9);
    assert "roll12_03.tiff"[..9] == "roll12_03";
  }

  /** Earlier dots stay in the stem. */
  lemma OutputFilenameTwoDots()
    ensures OutputFilename("a.b.tif") == "a.b_positive.tif"
  {
    OutputFilenameAt("a.b.tif", 3);
    assert "a.b.tif"[..3] == "a.b";
  }

  /** A leading dot does not start an extension. */
  lemma OutputFilenameLeadingDot()
    ensures OutputFilename(".tif") == ".tif_positive.tif"
  {
    OutputFilenameWhole(".tif");
  }

  lemma OutputFilenameNoDot()
    ensures OutputFilename("README") == "README_positive.tif"
  {
    OutputFilenameWhole("README");
  }

  /** Every extension is a dot followed by three or four characters that
      are neither dots nor slashes. */
  lemma ExtensionShape(ext: string)
    requires ext in SupportedExtensions
    ensures 4 <= |ext| && ext[0] == '.' && '/' !in ext
    ensures forall j :: 0 < j < |ext| ==> ext[j] != '.'
  {
  }

  /** Inputs that differ only in their extension share one output name, so
      the later conversion overwrites the earlier one. */
  lemma OutputFilenameCollision(stem: string, ext1: string, ext2: string)
    requires stem != "" && '/' !in stem
    requires ext1 in SupportedExtensions && ext2 in SupportedExtensions
    ensures IsEntryName(stem + ext1) && IsEntryName(stem + ext2)
    ensures OutputFilename(stem + ext1) == stem + "_positive.tif"
    ensures OutputFilename(stem + ext2) == stem + "_positive.tif"
  {
    forall ext | ext in SupportedExtensions
      ensures IsEntryName(stem + ext) && OutputFilename(stem + ext) == stem + "_positive.tif"
    {
      ExtensionShape(ext);
      var name := stem + ext;
      assert '/' !in name by {
        forall j | 0 <= j < |name| ensures name[j] != '/' {
          if j >= |stem| { assert name[j] == ext[j - |stem|]; }
        }
      }
      forall j | |stem| < j < |name| ensures name[j] != '.' {
        assert name[j] == ext[j - |stem|];
      }
      OutputFilenameAt(name, |stem|);
      assert name[..|stem|] == stem;
    }
  }
}
