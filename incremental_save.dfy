/**
 * Incremental save: derive the next filename of a `.blend` file from the
 * current one, and decide between saving under that name and falling back
 * to the host's interactive "Save As" dialog.
 */
module IncrementalSave {
  import opened Wrappers
  import opened Decimal
  import opened VersionPattern

  /** The path the host reports for a file that has never been saved. */
  const Unsaved := "untitled.blend"

  /** Inserted before the extension of a file without a version number. */
  const FirstVersionSuffix := "_v001"

  /**
   * The next version number as a digit string: the old value plus one, in
   * canonical decimal, padded with '0' to at least the old width.
   */
  function NextVersion(currentVersion: string): (r: string)
    requires AllDigits(currentVersion)
    ensures AllDigits(r)
    ensures DigitsToNat(r) == DigitsToNat(currentVersion) + 1
    ensures |r| >= |currentVersion|  // implied by the next clause; stated for callers
    ensures |r| == Max(|currentVersion|, |NatToDigits(DigitsToNat(currentVersion) + 1)|)
  {
    var r := PadLeft(NatToDigits(DigitsToNat(currentVersion) + 1), |currentVersion|);
    PadLeftValue(NatToDigits(DigitsToNat(currentVersion) + 1), |currentVersion|);
    r
  }

  /**
   * The filename an incremental save writes to, or None when it cannot be
   * derived: a matched version is incremented in place, the unsaved
   * placeholder gives None, a lower-case ".blend" file without a version
   * gets "_v001", and anything else gives None.
   */
  function NextFilename(currentFile: string): (r: Option<string>)
    ensures r.Some? ==> EndsWithExtension(r.value)
  {
    match SearchVersion(currentFile)
    case Some(start) =>
      Some(currentFile[..start] + NextVersion(VersionDigits(currentFile)) + Extension)
    case None =>
      if currentFile == Unsaved then None
      else if EndsWithExtension(currentFile) then
        Some(currentFile[..|currentFile| - |Extension|] + FirstVersionSuffix + Extension)
      else None
  }

  /**
   * The padding loop of the add-on: prepend '0' to `nextVersion` while it is
   * shorter than `width`.
   */
  method PadWithZeros(nextVersion: string, width: nat) returns (padded: string)
    ensures padded == PadLeft(nextVersion, width)
  {
    padded := nextVersion;
    while |padded| < width
      invariant |nextVersion| <= |padded| <= Max(|nextVersion|, width)
      invariant padded == Zeros(|padded| - |nextVersion|) + nextVersion
    {
      assert "0" + Zeros(|padded| - |nextVersion|) == Zeros(|padded| + 1 - |nextVersion|);
      padded := "0" + padded;
    }
    if |nextVersion| >= width {
      assert Zeros(0) + nextVersion == nextVersion;
    }
  }

  /**
   * The derivation as the add-on performs it: a search, the increment, the
   * padding loop, and the splice.
   */
  method ComputeNextFilename(currentFile: string) returns (nextFilename: Option<string>)
    ensures nextFilename == NextFilename(currentFile)
  {
    var versionMatch := SearchVersion(currentFile);
    if versionMatch.Some? {
      var currentVersion := currentFile[versionMatch.value..|currentFile| - |Extension|];
      var nextVersion := NatToDigits(DigitsToNat(currentVersion) + 1);
      nextVersion := PadWithZeros(nextVersion, |currentVersion|);
      assert nextVersion == NextVersion(VersionDigits(currentFile));
      nextFilename := Some(currentFile[..versionMatch.value] + nextVersion + Extension);
    } else if currentFile == Unsaved {
      nextFilename := None;
    } else if EndsWithExtension(currentFile) {
      nextFilename := Some(currentFile[..|currentFile| - |Extension|] + FirstVersionSuffix + Extension);
    } else {
      nextFilename := None;
    }
  }

  /** What the add-on asks the host to do. */
  datatype SaveAction = ShowSaveAsDialog | SaveAs(filepath: string)

  /**
   * The host call chosen from the derived filename; like the add-on, an
   * empty name is treated as no name.
   */
  function ChooseSaveAction(currentFile: string): (a: SaveAction)
    ensures a.ShowSaveAsDialog? <==> NextFilename(currentFile).None?
    ensures a.SaveAs? ==> NextFilename(currentFile) == Some(a.filepath)
  {
    var next := NextFilename(currentFile);
    if next.None? || next.value == "" then ShowSaveAsDialog else SaveAs(next.value)
  }

  /**
   * A path made of a stem not ending in a digit, a digit run and the
   * extension in any case becomes the stem, the incremented and padded run,
   * and a lower-case extension.
   */
  lemma VersionedPath(stem: string, digits: string, ext: string)
    requires stem == [] || !IsDigit(stem[|stem| - 1])
    requires |digits| >= 1 && AllDigits(digits)
    requires EqualIgnoreCase(ext, Extension)
    ensures NextFilename(stem + digits + ext) == Some(stem + NextVersion(digits) + Extension)
  {
    var s := stem + digits + ext;
    SplitMatch(stem, digits, ext);
    assert s[..|stem|] == stem;
  }

  /** The never-saved placeholder has no version and yields no filename. */
  lemma UnsavedYieldsNone()
    ensures !HasVersion(Unsaved)
    ensures NextFilename(Unsaved) == None
  {
  }

  /**
   * A path ending in the lower-case extension with no digit in front of it,
   * other than the placeholder, gets "_v001" before the extension.
   */
  lemma UnversionedPath(stem: string)
    requires stem == [] || !IsDigit(stem[|stem| - 1])
    requires stem + Extension != Unsaved
    ensures NextFilename(stem + Extension) == Some(stem + FirstVersionSuffix + Extension)
  {
  }

  /**
   * A filename is derived exactly when the path carries a version number, or
   * ends in the lower-case extension and is not the placeholder; every other
   * path (empty, another extension, an upper-case extension without digits)
   * yields none.
   */
  lemma DefinedExactly(currentFile: string)
    ensures NextFilename(currentFile).Some? <==>
      HasVersion(currentFile) || (EndsWithExtension(currentFile) && currentFile != Unsaved)
  {
  }

  /** An incremented path keeps its text before the digit run and carries the next number. */
  lemma IncrementedIsVersioned(currentFile: string)
    requires HasVersion(currentFile)
    ensures var next := NextFilename(currentFile).value;
      && HasVersion(next)
      && VersionNumber(next) == VersionNumber(currentFile) + 1
      && next[..SearchVersion(next).value] == currentFile[..SearchVersion(currentFile).value]
  {
    var start := SearchVersion(currentFile).value;
    var stem := currentFile[..start];
    var digits := NextVersion(VersionDigits(currentFile));
    var next := stem + digits + Extension;
    assert next[..start] == stem;
    assert NextFilename(currentFile) == Some(next);
    assert stem == [] || !IsDigit(stem[|stem| - 1]) by {
      MatchSplits(currentFile);
    }
    assert HasVersion(next) && SearchVersion(next) == Some(start) && VersionDigits(next) == digits by {
      SplitMatch(stem, digits, Extension);
    }
  }

  /** A path that received "_v001" carries version number 1. */
  lemma FirstVersionIsVersioned(currentFile: string)
    requires !HasVersion(currentFile) && NextFilename(currentFile).Some?
    ensures HasVersion(NextFilename(currentFile).value)
    ensures VersionNumber(NextFilename(currentFile).value) == 1
  {
    var stem := currentFile[..|currentFile| - |Extension|] + "_v";
    assert NextFilename(currentFile).value == stem + "001" + Extension;
    SplitMatch(stem, "001", Extension);
    assert "001"[..2] == "00" && "00"[..1] == "0" && "0"[..0] == "";
  }

  /**
   * Every derived filename again carries a version number, placed after the
   * same text as before: the incremented one when the path had a version,
   * 1 when "_v001" was added.
   */
  lemma ResultIsVersioned(currentFile: string)
    requires NextFilename(currentFile).Some?
    ensures var next := NextFilename(currentFile).value;
      && HasVersion(next)
      && VersionNumber(next) == (if HasVersion(currentFile) then VersionNumber(currentFile) + 1 else 1)
      && (HasVersion(currentFile) ==>
            next[..SearchVersion(next).value] == currentFile[..SearchVersion(currentFile).value])
  {
    if HasVersion(currentFile) {
      IncrementedIsVersioned(currentFile);
    } else {
      FirstVersionIsVersioned(currentFile);
    }
  }

  /** Re-applying the derivation to its own result raises the embedded number by one. */
  lemma ReapplyIncreases(currentFile: string)
    requires NextFilename(currentFile).Some?
    ensures var next := NextFilename(currentFile).value;
      && NextFilename(next).Some?
      && HasVersion(NextFilename(next).value)
      && VersionNumber(NextFilename(next).value) == VersionNumber(next) + 1
      && VersionNumber(NextFilename(next).value) > VersionNumber(next)
  {
    var next := NextFilename(currentFile).value;
    ResultIsVersioned(currentFile);
    ResultIsVersioned(next);
  }

  /** "my_file.blend" becomes "my_file_v001.blend". */
  lemma ExampleFirstVersion()
    ensures NextFilename("my_file.blend") == Some("my_file_v001.blend")
  {
    assert "my_file" + Extension == "my_file.blend";
    assert "my_file" + FirstVersionSuffix + Extension == "my_file_v001.blend";
    UnversionedPath("my_file");
  }

  /** The digit runs of the documented examples: "9", "002", "099" and "7". */
  lemma NextVersionOfNine()
    ensures NextVersion("9") == "10"
  {
  }

  lemma NextVersionOfTwo()
    ensures NextVersion("002") == "003"
  {
    var value := DigitsToNat("002");
    assert value == 2 by {
      assert "002"[..2] == "00" && "00"[..1] == "0" && "0"[..0] == "";
    }
    var next := NatToDigits(value + 1);
    assert next == "3";
    assert NextVersion("002") == PadLeft(next, 3);
    assert PadLeft("3", 3) == "003" by { assert Zeros(2) == "00"; }
  }

  lemma ValueOfNinetyNine()
    ensures DigitsToNat("099") == 99
  {
  }

  lemma DigitsOfHundred()
    ensures NatToDigits(100) == "100"
  {
  }

  lemma NextVersionOfNinetyNine()
    ensures NextVersion("099") == "100"
  {
    ValueOfNinetyNine();
    DigitsOfHundred();
    assert NextVersion("099") == PadLeft(NatToDigits(100), 3);
  }

  lemma NextVersionOfSeven()
    ensures NextVersion("7") == "8"
  {
  }

  /** "my_file_9.blend" becomes "my_file_10.blend", whatever the text before "9": the run grows by one digit. */
  lemma ExampleGrowingWidth(stem: string)
    requires stem == [] || !IsDigit(stem[|stem| - 1])
    ensures NextFilename(stem + "9" + Extension) == Some(stem + "10" + Extension)
  {
    NextVersionOfNine();
    VersionedPath(stem, "9", Extension);
  }

  /** "my_file_002.blend" becomes "my_file_003.blend", whatever the text before "002": leading zeros are kept. */
  lemma ExampleLeadingZeros(stem: string)
    requires stem == [] || !IsDigit(stem[|stem| - 1])
    ensures NextFilename(stem + "002" + Extension) == Some(stem + "003" + Extension)
  {
    NextVersionOfTwo();
    VersionedPath(stem, "002", Extension);
  }

  /** "my_file_099.blend" becomes "my_file_100.blend", whatever the text before "099": the carry fills the padding. */
  lemma ExampleCarry(stem: string)
    requires stem == [] || !IsDigit(stem[|stem| - 1])
    ensures NextFilename(stem + "099" + Extension) == Some(stem + "100" + Extension)
  {
    NextVersionOfNinetyNine();
    VersionedPath(stem, "099", Extension);
  }

  /** "my_file_7.BLEND" becomes "my_file_8.blend": the extension is matched in any case and written in lower case. */
  lemma ExampleUpperCaseExtension(stem: string)
    requires stem == [] || !IsDigit(stem[|stem| - 1])
    ensures NextFilename(stem + "7" + ".BLEND") == Some(stem + "8" + Extension)
  {
    NextVersionOfSeven();
    VersionedPath(stem, "7", ".BLEND");
  }

  /** Paths that give no filename: another extension, an upper-case extension without digits, the empty path. */
  lemma ExamplesWithoutFilename()
    ensures NextFilename("notes.txt") == None
    ensures NextFilename("my_file.BLEND") == None
    ensures NextFilename("") == None
  {
    assert !EndsWithExtensionIgnoreCase("notes.txt") by {
      assert "notes.txt"[3..] == "es.txt";
      assert AsciiLower("es.txt"[0]) != AsciiLower(Extension[0]);
    }
    assert !HasVersion("my_file.BLEND") by {
      assert !IsDigit("my_file"[6]);
    }
  }
}
