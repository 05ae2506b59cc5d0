# Incremental Saves: next-filename derivation

The Incremental Saves add-on for Blender saves the open `.blend` file under a
new name with a higher version number. It has one piece of logic: deriving the
next filename from the current one. This project models that derivation and
proves its properties in Dafny.

- A path ending in a run of digits and `.blend` (the extension in any case)
  gets that number plus one. The new number is padded with `'0'` to at least
  the old width, and a lower-case `.blend` follows it.
- The unsaved placeholder `untitled.blend` yields no filename.
- A path ending in a lower-case `.blend` with no digit before it gets `_v001`
  before the extension.
- Every other path yields no filename.

When no filename can be derived, the add-on opens Blender's "Save As" dialog
instead of saving under a derived name.

Modules:

- `Wrappers` (`wrappers.dfy`): `Option`, for "a filename or none".
- `Decimal` (`decimal.dfy`): reading a digit string as a natural number
  (Python's `int()`), rendering a number in canonical decimal (`str()`), and
  left-padding with `'0'`. Numbers are unbounded, like Python's `int`.
- `VersionPattern` (`version_pattern.dfy`): the compiled pattern
  `(\d+)\.blend$` with `IGNORECASE` and its leftmost `search`. `MatchesAt`
  says where the pattern matches. `SearchVersion` computes the match start
  from the maximal trailing digit run, and its contract proves that this start
  is the leftmost match.
- `IncrementalSave` (`incremental_save.dfy`): `NextFilename` is the derivation
  as a function. `ComputeNextFilename` is the same derivation as the add-on
  writes it, with the padding `while` loop in `PadWithZeros`, and both
  methods are proved equal to their functions. `ChooseSaveAction` is the
  choice between saving under a path and opening the dialog. The lemmas give
  the properties.

## Model

| member | source | states |
|---|---|---|
| `Decimal.DigitsToNat` | IncrementalSave.py:72 | `int()` on a run of k digits gives a natural number below 10^k; leading zeros are allowed |
| `Decimal.NatToDigits` | IncrementalSave.py:72 | `str()` of a natural number is a non-empty digit string with no leading zero that reads back as the same number |
| `Decimal.PadLeft` | IncrementalSave.py:73-74 | padding to a width gives length max(old length, width), keeps the string as its suffix and puts only `'0'` before it; it never truncates |
| `Decimal.PadLeftValue` | IncrementalSave.py:73-74 | padding a digit string with `'0'` keeps it a digit string with the same value |
| `VersionPattern.TrailingDigitCount` | IncrementalSave.py:63 | the count is the length of the maximal digit run at the end: all counted characters are digits, and the character before them is not |
| `VersionPattern.SearchVersion` | IncrementalSave.py:63-68 | the search result is a position where the pattern matches and no earlier position matches; no result means the pattern matches nowhere |
| `VersionPattern.VersionDigits` | IncrementalSave.py:71 | the captured group is a non-empty run of digits |
| `VersionPattern.SplitMatch` | IncrementalSave.py:63-71 | for a stem not ending in a digit, then digits, then the extension in any case, the match starts right after the stem and captures exactly the digits |
| `VersionPattern.MatchSplits` | IncrementalSave.py:63-75 | a matched path is the text before the match (not ending in a digit), the captured digits, and a case-insensitive `.blend` |
| `IncrementalSave.NextVersion` | IncrementalSave.py:71-74 | the new digit run has value old + 1, length max(old length, length of `str(old + 1)`), and is never shorter than the old run |
| `IncrementalSave.NextFilename` | IncrementalSave.py:68-84 | every derived filename ends in a lower-case `.blend` |
| `IncrementalSave.PadWithZeros` | IncrementalSave.py:73-74 | the loop that prepends `'0'` while the string is shorter than the width computes the left-padding |
| `IncrementalSave.ComputeNextFilename` | IncrementalSave.py:68-84 | the search, increment, padding loop and splice, as the add-on runs them, give the filename `NextFilename` specifies on every path |
| `IncrementalSave.ChooseSaveAction` | IncrementalSave.py:86-92 | the dialog is opened exactly when no filename is derived, and otherwise the file is saved under the derived filename (an empty name never occurs) |
| `IncrementalSave.VersionedPath` | IncrementalSave.py:68-75 | a stem not ending in a digit, then a digit run, then `.blend` in any case, becomes the same stem, the incremented and padded run, and a lower-case `.blend` |
| `IncrementalSave.UnsavedYieldsNone` | IncrementalSave.py:76-78 | `untitled.blend` has no version number and yields no filename |
| `IncrementalSave.UnversionedPath` | IncrementalSave.py:79-81 | a stem not ending in a digit, followed by a lower-case `.blend`, becomes stem + `_v001.blend`, unless the path is the placeholder |
| `IncrementalSave.DefinedExactly` | IncrementalSave.py:68-84 | a filename is derived if and only if the path carries a version number, or ends in a lower-case `.blend` and is not the placeholder |
| `IncrementalSave.IncrementedIsVersioned` | IncrementalSave.py:68-75 | an incremented filename carries a version number one higher than the path's, after the same text as before |
| `IncrementalSave.FirstVersionIsVersioned` | IncrementalSave.py:79-81 | a filename that received `_v001` carries version number 1 |
| `IncrementalSave.ResultIsVersioned` | IncrementalSave.py:63-81 | every derived filename is matched by the version pattern again; its number is the old one plus one, or 1 when `_v001` was added |
| `IncrementalSave.ReapplyIncreases` | IncrementalSave.py:63-81 | deriving again from a derived filename succeeds and strictly increases the embedded number, by exactly one |
| `IncrementalSave.ExampleFirstVersion` | IncrementalSave.py:14-16 | `my_file.blend` becomes `my_file_v001.blend` |
| `IncrementalSave.ExampleGrowingWidth` | IncrementalSave.py:17-19 | `…9.blend` becomes `…10.blend` after any stem not ending in a digit, as in `my_file_9.blend` to `my_file_10.blend` |
| `IncrementalSave.ExampleLeadingZeros` | IncrementalSave.py:17-20 | `…002.blend` becomes `…003.blend` after any stem not ending in a digit |
| `IncrementalSave.ExampleCarry` | IncrementalSave.py:72-75 | `…099.blend` becomes `…100.blend`: the width is kept when the carry fills the padding |
| `IncrementalSave.ExampleUpperCaseExtension` | IncrementalSave.py:63-75 | `…7.BLEND` becomes `…8.blend`: the extension is matched in any case and written in lower case |
| `IncrementalSave.ExamplesWithoutFilename` | IncrementalSave.py:79-84 | `notes.txt`, `my_file.BLEND` (an upper-case extension without digits) and the empty path yield no filename |

## Left out

- Saving itself: the two `bpy.ops.wm.save_as_mainfile` calls (IncrementalSave.py:86-92) are Blender's file I/O. They are modelled only as the `SaveAction` value that says which call is made. The log lines written by `print` are not modelled.
- The operator class, the menu entry and `register`/`unregister` (IncrementalSave.py:96-107, 123-132) are glue over Blender's plugin API, which is not part of this model.
- The keymap list kept by `addKeymap`/`clearKeymap` (IncrementalSave.py:110-120) only passes entries to Blender's keymap API. It has no behaviour to state beyond that.
- `__init__.py` only re-exports the add-on module and holds metadata.
- Digits are the ASCII digits `'0'`–`'9'`. Python's `\d` also matches other Unicode decimal digits, and `int()` reads them. In the model the version run is the maximal run of ASCII digits before the extension, and any other character, a non-ASCII digit included, ends it. A run that mixes the two is incremented from its ASCII tail only: for `a٣1.blend` the add-on derives `a32.blend`, the model `a٣2.blend`. A run with no ASCII digit counts as no version, so the model gives `_v001` (before a lower-case `.blend`) or no filename where the add-on would increment it.
- Python's `$` also matches just before a newline at the very end of the string. For a path like `a_1.blend` followed by a newline, the add-on derives `a_2.blend`, but the model yields none. The model treats a newline as an ordinary character.
- Case-insensitive matching folds ASCII letters only. No other character folds to a letter of `blend` under Python's case-insensitive matching, so for this pattern the two agree.
- The add-on's test `not(nextFilename)` also treats an empty string as no filename. `ChooseSaveAction` models that test as written. Its contract shows that an empty filename never arises.
