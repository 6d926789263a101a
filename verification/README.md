# rt-image-rotator, modelled in Dafny

rt-image-rotator is a small egui application. It shows the preview images of
a directory one at a time. The user finds a corrective rotation for each image
with a pointer drag. The tool then subtracts that rotation from the `Degree=`
entry of the matching RawTherapee sidecar (`.pp3`) and writes the result next to
it as `.pp3.rot`. It can also print a `parallel rawtherapee-cli` command that converts
every raw file whose sidecar was rewritten.

The model covers the three pieces of real logic in `src/app.rs`:

- **Sidecar rewriter** (`sidecar.dfy`). `ApplyAdditionalRotationToPp3` is the
  scan of `apply_additional_rotation_to_pp3`. It is a loop over the lines with
  an `in_section` flag, an in-place edit and an early `break`. It is proved equal
  to the specification function `RewrittenPp3`, and the lemmas beside it state
  what that function does. The file text is split by `Lines` (Rust's
  `str::lines`) and joined again by `Join`, both in `text.dfy`. The output path
  comes from `SetExtension` (Rust's `PathBuf::set_extension`, in `paths.dfy`).
- **Rotation state** (`rotation.dfy`, `navigation.dfy`, `rotator.dfy`). The free-mode clamp, the
  line-mode sector rule and arrow-key navigation are pure functions with their
  properties. The class `RtImageRotator` holds the fields the frame handler
  updates. Its methods are the transitions: select, arrows, image-list click,
  reset, mode switch, drag, apply, generate, open directory, dismiss error.
- **Conversion command** (`command.dfy`). `BuildConversionCommand` is the
  `push_str` loop, proved equal to `ConversionCommand`.

Rust's `f32` text conversions are parameters of the rewriter: `parse` stands
for `str::parse::<f32>` and `format` for `f32`'s `Display`. Each property that
needs a number to read back as itself takes that as a precondition on `parse`
and `format`. Only the numeric value of the edited line is promised.

The model follows the code, including where it departs from an idealised INI
reader:

- The section test is "the line contains `[Rotation]`" (`src/app.rs:368`), not
  "the trimmed line equals `[Rotation]`".
- The flag is never cleared, so a `Degree=` line after a later section header
  still matches.
- The output name replaces the last extension with `pp3.rot` rather than
  appending `.rot`. For the `X.pp3` inputs the tool builds, both give `X.pp3.rot`
  (`OutputPathOfPp3`).
- A `Degree=` line always contains `=`, so the "Line invalid" error cannot
  happen (`DegreeLineSplitsAtKey`). The only rewrite error is an unparsable
  number.
- Reading splits with `str::lines`, so a final line feed is not written back
  (`PassthroughCopiesText`).

## Model

| member | source | states |
|---|---|---|
| `Sidecar.ApplyAdditionalRotationToPp3` | src/app.rs:360-384 | The single scan with the never-cleared `in_section` flag and the stop after the first edit gives exactly `RewrittenPp3`: the lines rewritten as below, joined by "\n", written to the output path. An unparsable value is an error, and then nothing is written. |
| `Sidecar.FirstOf` | src/app.rs:366-378 | The first line of a kind at or after a position lies at or after it and is of that kind, and no line before it from that position is. `None` means no line from there on is of that kind. |
| `Sidecar.TargetIsFirstDegreeLineAfterFirstSectionLine` | src/app.rs:366-370 | The edited line is exactly the first line starting with `Degree=` after the first line containing `[Rotation]`, in both directions. |
| `Sidecar.NoTargetMeansPassthrough` | src/app.rs:366-378 | Nothing is edited exactly when no line contains `[Rotation]`, or no `Degree=` line follows the first one that does. The lines then come back unchanged and no error is raised. |
| `Sidecar.RewriteChangesOnlyTheTargetLine` | src/app.rs:366-377 | A successful rewrite keeps the number and order of lines and every line but the target. The target becomes `Degree=` plus the formatted old value minus the additional rotation. |
| `Sidecar.RewriteFailsOnlyOnUnparsableValue` | src/app.rs:371-374 | The rewrite fails exactly when there is a target line and the text after `Degree=` does not parse. |
| `Sidecar.DegreeLineSplitsAtKey` | src/app.rs:370-374 | `split_once('=')` on a `Degree=` line always succeeds, giving `Degree` and the number text, so the "Line invalid" error is unreachable. |
| `Sidecar.RewriteTwiceSubtractsBoth` | src/app.rs:371-375 | When the number text reads back as itself, the edited line parses back to old minus rotation. A second rewrite then edits the same line and leaves old minus both rotations. |
| `Sidecar.PassthroughCopiesText` | src/app.rs:361-382 | With nothing to edit, any text without carriage returns is written back unchanged, except that one final line feed, if there is one, is dropped. |
| `Sidecar.OutputPathDiffersFromInput` | src/app.rs:379-380 | The output path stays in the same directory and is never the input path, so the input is never overwritten. |
| `Sidecar.OutputPathOfPp3` | src/app.rs:379-380 | The sidecar `X.pp3` is written to `X.pp3.rot`. |
| `Sidecar.SectionIsNeitherTrimmedNorClosed` | src/app.rs:366-370 | `[Rotation]` inside another line opens the section. A `Degree=` line after a later section header is still the one edited. |
| `Sidecar.RewriteExample` | src/app.rs:366-377 | `Degree=12.5` in the rotation section, rotated by 2.5 more degrees, becomes `Degree=10`, and the other four lines are unchanged. |
| `Text.LinesOfJoin` | src/app.rs:361-382 | Joining plain lines with "\n" and splitting them as `str::lines` does gives the lines back, provided the last one is not empty. |
| `Text.JoinOfLines` | src/app.rs:361-382 | Splitting any text without carriage returns into lines and joining them with "\n" gives the text back, less one final line feed if it has one. |
| `Text.FinalLineEndingIsOptional` | src/app.rs:361-364 | One more line feed after a last line that is not empty and does not end in `\r` does not change the lines read. |
| `Rotation.FreeDrag` | src/app.rs:303-312 | A free-mode drag frame leaves the rotation in [-45, 45]. It is the point of that interval nearest to the old rotation plus 0.1 times the vertical drag. |
| `Rotation.FreeDragByNothing` | src/app.rs:305-311 | A zero drag keeps the rotation exactly when it already lies in [-45, 45]. |
| `Rotation.FreeDragMonotone` | src/app.rs:305-311 | Dragging further down never gives a smaller rotation. |
| `Rotation.NormalizeAngle` | src/app.rs:329-331 | A negative angle gets 180 added, naming the same line. An angle from (-180, 180] lands in [0, 180]. |
| `Rotation.LineCorrection` | src/app.rs:333-339 | In the dead zones [40, 50] and [130, 140] the correction is zero. Elsewhere in [0, 180] it turns the line onto the nearest of 0, 90 and 180 degrees. It is always strictly between -40 and 40. |
| `Rotation.LineRelease` | src/app.rs:318-339 | A line-mode release changes the rotation by less than 40 degrees, with no clamp, and leaves it unchanged in a dead zone. |
| `Rotation.LineReleasesAccumulate` | src/app.rs:333-339 | Releasing the same gesture n times adds n times its correction, with no bound. |
| `Rotation.FiveReleasesPassFreeLimit` | src/app.rs:333-339 | Five releases of a 10-degree line from 0 give -50, beyond free mode's limit. |
| `Navigation.ArrowUp` | src/app.rs:132-140 | ArrowUp moves to the previous index exactly when the index is positive and entry `idx - 1` exists. Otherwise the index stays. |
| `Navigation.ArrowDown` | src/app.rs:141-148 | ArrowDown moves to the next index exactly when entry `idx + 1` exists. Otherwise the index stays. |
| `Navigation.ArrowKeysUndoEachOther` | src/app.rs:132-148 | From a selected entry, a move up followed by a move down returns to it, and so does a move down followed by a move up. |
| `Command.BuildConversionCommand` | src/app.rs:74-93 | The `push_str` loop gives exactly the fixed prefix, then the stem minus its last 4 characters and a space for each `rot` file in listing order, then the fixed suffix. |
| `Command.SplitRecoversNames` | src/app.rs:89-92 | Splitting the listed part at its spaces gives the listed names back, provided no name contains a space. |
| `Command.CommandListsRawFiles` | src/app.rs:76-92 | For files named `<raw>.pp3.rot`, the command lists exactly the raw file names, in order. |
| `Command.ByteCutIsCharacterCut` | src/app.rs:89-91 | When a stem's last four characters are ASCII, it is at least four bytes long and dropping four characters cuts it where `len() - 4` bytes does. |
| `Command.RawSidecarCutIsByteCut` | src/app.rs:80-91 | For `<raw>.pp3.rot` the dropped characters are `.pp3`, so the listed name is the raw file name and the byte-wise cut agrees with it. |
| `Command.OtherFilesAreNotListed` | src/app.rs:80 | Files whose extension is not `rot` contribute nothing. With only such files, the command is the prefix followed by the suffix. |
| `Rotator.Pp3PathAsWrittenDropsStemSuffix` | src/app.rs:259-267 | As written, an image `<a>.<b>.<ext>` leads to the sidecar `<a>.<raw ext>.pp3`. The alternative `Pp3Path` gives `<a>.<b>.<raw ext>.pp3`, and the two differ. |
| `Rotator.Pp3PathAsWrittenThumbnailExample` | src/app.rs:259-267 | As written, the `dcraw -e` preview `IMG.thumb.jpg` with raw extension `NEF` reads `IMG.NEF.pp3`, the raw file's sidecar. The alternative reads `IMG.thumb.NEF.pp3`. |
| `Rotator.Pp3PathAsWrittenRawNamedPreviewExample` | src/app.rs:259-267 | As written, the preview `IMG.NEF.jpg` reads `IMG.NEF.pp3`, the raw file's sidecar. The alternative reads `IMG.NEF.NEF.pp3`. |
| `Rotator.Pp3PathAsWrittenExample` | src/app.rs:259-267 | As written, `IMG.1.jpg` with raw extension `NEF` reads `IMG.NEF.pp3`, not `IMG.1.NEF.pp3`. |
| `Rotator.Pp3PathAsWrittenAgreesWithoutInnerDot` | src/app.rs:259-267 | When the image stem has no dot, the as-written sidecar path equals the alternative one. |
| `Rotator.Pp3PathNamesRawSidecar` | src/app.rs:259-267 | The alternative sidecar of `<stem>.<raw ext>` is rewritten to `<stem>.<raw ext>.pp3.rot`. The conversion command lists exactly `<stem>.<raw ext>`, the raw file, for it. |
| `Rotator.RtImageRotator.constructor` | src/app.rs:36-51 | The defaults: no entries, raw extension `NEF`, index 0, rotation 0, line mode, no drag, empty command, no error. |
| `Rotator.RtImageRotator.SelectImage` | src/app.rs:69-72 | Sets the index and zeroes the rotation. Its frame lets nothing else change. |
| `Rotator.RtImageRotator.HandleArrowKeys` | src/app.rs:130-150 | With no error shown, the index becomes ArrowUp and then ArrowDown of the old one, and the rotation is zeroed if either key moved. A move never leaves the entries. While an error is shown, nothing changes. |
| `Rotator.RtImageRotator.HandleImageClick` | src/app.rs:242-248 | A click on an entry of the list selects it and zeroes the rotation, unless an error is shown. The index then names an entry or is unchanged. |
| `Rotator.RtImageRotator.ResetRotation` | src/app.rs:254-256 | The reset button zeroes the rotation, unless an error is shown. |
| `Rotator.RtImageRotator.ChooseRotationMode` | src/app.rs:199-203 | The radio buttons set the mode, unless an error is shown. |
| `Rotator.RtImageRotator.HandleImageResponse` | src/app.rs:288-343 | Without an error and with an image at the index: a free-mode drag applies `FreeDrag`. In line mode a drag start records the pointer. A release always clears the drag start, and applies `LineRelease` to the angle of the vector from the release point to the start only if a start was recorded. Otherwise nothing changes. |
| `Rotator.RtImageRotator.ApplyAdditionalRotation` | src/app.rs:258-272 | Rewrites the current image's sidecar, at the path `Pp3PathAsWritten` the code builds, with the accumulated rotation. It returns what is written, or shows an error when the sidecar cannot be read or its value does not parse. |
| `Rotator.RtImageRotator.GenerateConversionCommand` | src/app.rs:274-279 | Sets the command text to `ConversionCommand` of the raw directory's listing, or shows an error when the directory cannot be read. |
| `Rotator.RtImageRotator.OpenImageDirectory` | src/app.rs:98-118 | Replaces the entries with the new listing, keeps the index and zeroes the rotation, or shows an error when the directory cannot be read. |
| `Rotator.RtImageRotator.DismissError` | src/app.rs:152-159 | The error window's button clears the error. |

## Findings

| source | as written | input that shows it | evidently intended | confidence | as-written member | corrected member |
|---|---|---|---|---|---|---|
| src/app.rs:259-267 | The sidecar path is the raw directory joined with the image's stem. `set_extension("<raw ext>.pp3")` then replaces whatever follows the stem's last dot. | image `IMG.1.jpg`, raw extension `NEF`: reads `raw/IMG.NEF.pp3` | `raw/IMG.1.NEF.pp3`, the sidecar of the raw file `IMG.1.NEF`, when the whole image stem is the raw file's stem (camera-style `2023.05.01-001.jpg`). Not when the dotted part belongs to the preview only: for `IMG.thumb.jpg` (`dcraw -e`) or `IMG.NEF.jpg` the code as written reads the right `raw/IMG.NEF.pp3` | low, not executed | `Rotator.Pp3PathAsWrittenExample` | `Rotator.Pp3PathNamesRawSidecar` |

`RtImageRotator.ApplyAdditionalRotation` reads the sidecar at the as-written
path `Pp3PathAsWritten`, as the code does. `Pp3Path` is the alternative for
dotted image stems that belong wholly to the raw file's name; which reading the
code intends depends on how the previews are named
(`Pp3PathAsWrittenThumbnailExample`, `Pp3PathAsWrittenRawNamedPreviewExample`).
The two agree for image stems without a dot
(`Pp3PathAsWrittenAgreesWithoutInnerDot`), and for those
`Pp3PathNamesRawSidecar` states what the button writes.

## Left out

- File system I/O. The text read from the sidecar and the directory listings
  are parameters, and `None` stands for a read that fails. The written file is
  returned, not written.
- `Rotator.RtImageRotator.ApplyAdditionalRotation`: does not model a failing
  `fs::write`, because writing is not performed in the model.
- The filter by image extension (Unicode `to_lowercase`) and the sort in
  `open_image_directory` (src/app.rs:99-115). These depend on OS directory
  entries, so `OpenImageDirectory` receives the finished listing.
- `f32` arithmetic and rounding. Rotations are `real`, so `delta.y * 0.1` and
  the subtraction in the rewrite are exact.
- The exact text of `f32` `Display` and the grammar of `parse::<f32>`. These
  are the `format` and `parse` parameters.
- `atan2`, `Vec2::angle` and the degree/radian conversions (src/app.rs:319-327,
  299). The line-mode release takes `angleOf`, the direction in degrees of a
  vector. The bound on a release assumes that direction lies in [-180, 180].
- All drawing: panels, labels, the rotated image, the drag line
  (src/app.rs:344-354) and the error window's text.
- Persistence of the settings with `eframe::get_value`/`set_value` and serde
  (src/app.rs:56-67, 123-125).
- The text fields for the directories and extensions, and hand edits of the
  command text (src/app.rs:164-191, 283). The model has no operation that sets
  `rawDir`, `rawExt` or the command text directly.
- Panics. The model turns each into a precondition instead:
  - the `len() - 4` panic for a `.rot` file whose stem is shorter than four
    bytes, or whose last four bytes do not start on a character boundary
    (`Command.Listable` asks for four characters instead; see below);
  - the out-of-range `image_dir_entries[current_image_idx]` of the Apply button;
  - the missing pointer position at a line-mode release.
  The `expect` panics on non-UTF-8 names are not modelled, because names are
  strings here. The overflow of `current_image_idx + 1` is not modelled,
  because indices are unbounded.
- `Command.BuildConversionCommand`: counts characters where Rust's `len()` and
  `str` slicing count UTF-8 bytes, and `Command.Listable` asks for four
  characters where the source needs four bytes on a character boundary. The two
  cuts agree whenever a stem's last four characters are ASCII
  (`ByteCutIsCharacterCut`), as for every `<raw>.pp3.rot` the rewriter writes
  (`RawSidecarCutIsByteCut`). They differ only for stems that end in non-ASCII
  characters, where the source may panic or cut elsewhere.
- Rust's path normalisation (`.` and `..` components, trailing separators). A
  path is a directory and a final file name, and an empty name stands for a path
  without one.
- src/main.rs is not part of this model: it only sets up the window and starts
  the application.
