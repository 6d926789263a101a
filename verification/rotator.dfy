/**
 * The application state of the image rotator (`RtImageRotator`) and the
 * transitions its frame handler makes: selecting an image, arrow-key
 * navigation, resetting the rotation, the rotation-mode switch, free-mode
 * drags, line-mode drag start and release, applying the rotation to the
 * sidecar, generating the conversion command, and the error gate.
 *
 * Everything a frame reads from the user interface (key releases, clicks, the
 * drag reported by the image widget) is a parameter; the files read from disk
 * are parameters too.
 */
module Rotator {
  import opened Wrappers
  import opened Paths
  import opened Rotation
  import opened Navigation
  import Sidecar
  import Command

  datatype RotationMode = Free | Line

  /** A point on the screen. */
  datatype Pos2 = Pos2(x: real, y: real)

  /** A vector on the screen. */
  datatype Vec2 = Vec2(x: real, y: real)

  /** What the image widget reports for one frame, reduced to what the rotation logic reads. */
  datatype ImageResponse = ImageResponse(
    dragged: bool,
    dragDeltaY: real,
    dragStarted: bool,
    dragReleased: bool,
    pointerPos: Option<Pos2>)

  /** The vector from `to` back to `from`. */
  function Between(from: Pos2, to: Pos2): Vec2
  {
    Vec2(from.x - to.x, from.y - to.y)
  }

  /**
   * The sidecar of the raw file that belongs to `imageName`, the way the Apply
   * button builds it: the raw directory joined with the image's stem, whose own
   * extension is then replaced by "<raw extension>.pp3".
   */
  function Pp3PathAsWritten(rawDir: string, imageName: string, rawExt: string): FilePath
  {
    SetExtension(FilePath(rawDir, Stem(imageName)), rawExt + ".pp3")
  }

  /**
   * The sidecar RawTherapee keeps for the raw file "<image stem>.<raw extension>":
   * the alternative reading for image stems whose dotted parts all belong to the
   * raw file's name.
   */
  function Pp3Path(rawDir: string, imageName: string, rawExt: string): FilePath
  {
    FilePath(rawDir, Stem(imageName) + "." + rawExt + ".pp3")
  }

  /**
   * An image stem with a dot in it loses its last part: for the image
   * "<a>.<b>.<image ext>" the Apply button reads "<a>.<raw ext>.pp3", where
   * `Pp3Path` reads "<a>.<b>.<raw ext>.pp3".
   */
  lemma {:induction false} Pp3PathAsWrittenDropsStemSuffix(rawDir: string, a: string, b: string, imageExt: string, rawExt: string)
    requires a != "" && b != "" && imageExt != ""
    requires '.' !in a && '.' !in b && '.' !in imageExt
    ensures Pp3PathAsWritten(rawDir, a + "." + b + "." + imageExt, rawExt) == FilePath(rawDir, a + "." + rawExt + ".pp3")
    ensures Pp3Path(rawDir, a + "." + b + "." + imageExt, rawExt) == FilePath(rawDir, a + "." + b + "." + rawExt + ".pp3")
    ensures Pp3PathAsWritten(rawDir, a + "." + b + "." + imageExt, rawExt) != Pp3Path(rawDir, a + "." + b + "." + imageExt, rawExt)
  {
    var stem := a + "." + b;
    var image := stem + "." + imageExt;
    StemOfAppendedExtension(stem, imageExt);
    StemOfAppendedExtension(a, b);
    var written := a + "." + (rawExt + ".pp3");
    assert SetExtension(FilePath(rawDir, stem), rawExt + ".pp3") == FilePath(rawDir, written);
    assert written == a + "." + rawExt + ".pp3";
    var alternative := stem + "." + rawExt + ".pp3";
    assert |written| < |alternative|;
  }

  /** The concrete case: "IMG.1.jpg" with raw extension "NEF" reads "IMG.NEF.pp3", not "IMG.1.NEF.pp3". */
  lemma Pp3PathAsWrittenExample()
    ensures Pp3PathAsWritten("raw", "IMG.1.jpg", "NEF") == FilePath("raw", "IMG.NEF.pp3")
    ensures Pp3Path("raw", "IMG.1.jpg", "NEF") == FilePath("raw", "IMG.1.NEF.pp3")
  {
    assert "IMG.1.jpg" == "IMG" + "." + "1" + "." + "jpg";
    Pp3PathAsWrittenDropsStemSuffix("raw", "IMG", "1", "jpg", "NEF");
    assert "IMG" + "." + "NEF" + ".pp3" == "IMG.NEF.pp3";
    assert "IMG" + "." + "1" + "." + "NEF" + ".pp3" == "IMG.1.NEF.pp3";
  }

  /**
   * A preview named "<raw stem>.thumb.jpg", as `dcraw -e` writes it, is read from
   * the right sidecar as written, and from a wrong one by `Pp3Path`.
   */
  lemma Pp3PathAsWrittenThumbnailExample()
    ensures Pp3PathAsWritten("raw", "IMG.thumb.jpg", "NEF") == FilePath("raw", "IMG.NEF.pp3")
    ensures Pp3Path("raw", "IMG.thumb.jpg", "NEF") == FilePath("raw", "IMG.thumb.NEF.pp3")
  {
    assert "IMG.thumb.jpg" == "IMG" + "." + "thumb" + "." + "jpg";
    Pp3PathAsWrittenDropsStemSuffix("raw", "IMG", "thumb", "jpg", "NEF");
    assert "IMG" + "." + "NEF" + ".pp3" == "IMG.NEF.pp3";
    assert "IMG" + "." + "thumb" + "." + "NEF" + ".pp3" == "IMG.thumb.NEF.pp3";
  }

  /**
   * A preview named after the raw file, "<raw file>.jpg", is likewise read from
   * the right sidecar as written, and from a wrong one by `Pp3Path`.
   */
  lemma Pp3PathAsWrittenRawNamedPreviewExample()
    ensures Pp3PathAsWritten("raw", "IMG.NEF.jpg", "NEF") == FilePath("raw", "IMG.NEF.pp3")
    ensures Pp3Path("raw", "IMG.NEF.jpg", "NEF") == FilePath("raw", "IMG.NEF.NEF.pp3")
  {
    assert "IMG.NEF.jpg" == "IMG" + "." + "NEF" + "." + "jpg";
    Pp3PathAsWrittenDropsStemSuffix("raw", "IMG", "NEF", "jpg", "NEF");
    assert "IMG" + "." + "NEF" + ".pp3" == "IMG.NEF.pp3";
    assert "IMG" + "." + "NEF" + "." + "NEF" + ".pp3" == "IMG.NEF.NEF.pp3";
  }

  /** Without a dot in the image stem the two paths agree. */
  lemma {:induction false} Pp3PathAsWrittenAgreesWithoutInnerDot(rawDir: string, imageName: string, rawExt: string)
    requires imageName != "" && '.' !in Stem(imageName)
    ensures Pp3PathAsWritten(rawDir, imageName, rawExt) == Pp3Path(rawDir, imageName, rawExt)
  {
    var stem := Stem(imageName);
    assert LastDot(stem) == None;
    assert stem != "" by {
      StemAndExtensionRebuildName(imageName);
    }
  }

  /**
   * From image to command: the sidecar of "<stem>.<raw extension>" is written to
   * "<stem>.<raw extension>.pp3.rot", and the conversion command lists exactly
   * "<stem>.<raw extension>", the raw file, for it.
   */
  lemma {:induction false} Pp3PathNamesRawSidecar(rawDir: string, imageName: string, rawExt: string)
    ensures var raw := Stem(imageName) + "." + rawExt;
      var out := Sidecar.OutputPath(Pp3Path(rawDir, imageName, rawExt));
      out == FilePath(rawDir, raw + ".pp3.rot")
      && Command.Listable([out.name]) && Command.ListedNames([out.name]) == [raw]
  {
    var raw := Stem(imageName) + "." + rawExt;
    assert raw != "" && raw[|Stem(imageName)|] == '.';
    Sidecar.OutputPathOfPp3(rawDir, raw);
    Command.CommandListsRawFiles([raw]);
    assert Command.RewrittenSidecarNames([raw]) == [raw + ".pp3.rot"];
  }

  class RtImageRotator {
    /** The file names of the listed images, in listing order. */
    var imageDirEntries: seq<string>
    var rawDir: string
    var rawExt: string
    var currentImageIdx: nat
    /** The accumulated rotation in degrees. */
    var currentRotation: real
    var rotationMode: RotationMode
    /** Where the current line-mode drag started, between drag start and release. */
    var dragStart: Option<Pos2>
    var conversionCommand: string
    /** Whether an error is being shown; while it is, the interface ignores input. */
    var hasError: bool

    /** The defaults: no images, raw extension "NEF", no rotation, line mode. */
    constructor ()
      ensures imageDirEntries == [] && rawDir == "" && rawExt == "NEF"
      ensures currentImageIdx == 0 && currentRotation == 0.0 && rotationMode == Line
      ensures dragStart == None && conversionCommand == "" && !hasError
    {
      imageDirEntries := [];
      rawDir := "";
      rawExt := "NEF";
      currentImageIdx := 0;
      currentRotation := 0.0;
      rotationMode := Line;
      dragStart := None;
      conversionCommand := "";
      hasError := false;
    }

    /** Selecting an image makes it current and zeroes the rotation; nothing else changes. */
    method SelectImage(imageIdx: nat)
      modifies this`currentImageIdx, this`currentRotation
      ensures currentImageIdx == imageIdx && currentRotation == 0.0
    {
      currentImageIdx := imageIdx;
      currentRotation := 0.0;
    }

    /**
     * The arrow keys released in one frame: ArrowUp is handled first, then
     * ArrowDown from where ArrowUp left the index. Each move selects the image,
     * so it zeroes the rotation; the index never leaves the entries by a move.
     */
    method HandleArrowKeys(upReleased: bool, downReleased: bool)
      modifies this`currentImageIdx, this`currentRotation
      ensures old(hasError) ==> currentImageIdx == old(currentImageIdx) && currentRotation == old(currentRotation)
      ensures !old(hasError) ==>
        var count := |imageDirEntries|;
        var afterUp := if upReleased then ArrowUp(old(currentImageIdx), count) else old(currentImageIdx);
        var afterDown := if downReleased then ArrowDown(afterUp, count) else afterUp;
        currentImageIdx == afterDown
        && currentRotation == (if afterUp != old(currentImageIdx) || afterDown != afterUp then 0.0 else old(currentRotation))
      ensures currentImageIdx == old(currentImageIdx) || currentImageIdx < |imageDirEntries|
    {
      if !hasError {
        if upReleased && currentImageIdx > 0 && currentImageIdx - 1 < |imageDirEntries| {
          SelectImage(currentImageIdx - 1);
        }
        if downReleased && currentImageIdx + 1 < |imageDirEntries| {
          SelectImage(currentImageIdx + 1);
        }
      }
    }

    /** A click on the entry at `clicked` in the image list selects it. */
    method HandleImageClick(clicked: Option<nat>)
      requires clicked.Some? ==> clicked.value < |imageDirEntries|
      modifies this`currentImageIdx, this`currentRotation
      ensures currentImageIdx == old(currentImageIdx) || currentImageIdx < |imageDirEntries|
      ensures if !old(hasError) && clicked.Some?
        then currentImageIdx == clicked.value && currentRotation == 0.0
        else currentImageIdx == old(currentImageIdx) && currentRotation == old(currentRotation)
    {
      if !hasError && clicked.Some? {
        SelectImage(clicked.value);
      }
    }

    /** The "Reset rotation" button. */
    method ResetRotation()
      modifies this`currentRotation
      ensures currentRotation == if old(hasError) then old(currentRotation) else 0.0
    {
      if !hasError {
        currentRotation := 0.0;
      }
    }

    /** The rotation-mode radio buttons; the rotation itself is kept. */
    method ChooseRotationMode(mode: RotationMode)
      modifies this`rotationMode
      ensures rotationMode == if old(hasError) then old(rotationMode) else mode
    {
      if !hasError {
        rotationMode := mode;
      }
    }

    /**
     * One frame of the image widget. Nothing happens while an error is shown or
     * when no image is at the current index. In free mode a drag moves the
     * rotation by `FreeDrag`. In line mode a drag start records the pointer, and
     * a release consumes the recorded start, if any, and applies `LineRelease`
     * to the angle `angleOf` gives the vector from the release point to the
     * start (the direction of a vector in degrees, as `atan2` gives it).
     */
    method HandleImageResponse(resp: ImageResponse, angleOf: Vec2 -> real)
      requires !hasError && currentImageIdx < |imageDirEntries| && rotationMode == Line
               && !resp.dragStarted && resp.dragReleased && dragStart.Some?
               ==> resp.pointerPos.Some?
      modifies this`currentRotation, this`dragStart
      ensures old(hasError) || old(currentImageIdx) >= |imageDirEntries| ==>
        currentRotation == old(currentRotation) && dragStart == old(dragStart)
      ensures !old(hasError) && old(currentImageIdx) < |imageDirEntries| && rotationMode == Free ==>
        dragStart == old(dragStart)
        && currentRotation == if resp.dragged then FreeDrag(old(currentRotation), resp.dragDeltaY) else old(currentRotation)
      ensures !old(hasError) && old(currentImageIdx) < |imageDirEntries| && rotationMode == Line ==>
        if resp.dragStarted then
          dragStart == resp.pointerPos && currentRotation == old(currentRotation)
        else if resp.dragReleased then
          dragStart == None
          && currentRotation == if old(dragStart).None? then old(currentRotation)
             else LineRelease(old(currentRotation), angleOf(Between(old(dragStart).value, resp.pointerPos.value)))
        else
          dragStart == old(dragStart) && currentRotation == old(currentRotation)
    {
      if !hasError && currentImageIdx < |imageDirEntries| {
        match rotationMode
        case Free =>
          if resp.dragged {
            currentRotation := currentRotation + resp.dragDeltaY * FreeSensitivity;
            if currentRotation < -FreeLimit {
              currentRotation := -FreeLimit;
            } else if currentRotation > FreeLimit {
              currentRotation := FreeLimit;
            }
          }
        case Line =>
          if resp.dragStarted {
            dragStart := resp.pointerPos;
          } else if resp.dragReleased {
            var start := dragStart;
            dragStart := None;
            if start.Some? {
              var dragRotation := angleOf(Between(start.value, resp.pointerPos.value));
              if dragRotation < 0.0 {
                dragRotation := dragRotation + 180.0;
              }
              if dragRotation < 40.0 {
                currentRotation := currentRotation - dragRotation;
              } else if dragRotation > 140.0 {
                currentRotation := currentRotation + (180.0 - dragRotation);
              } else if dragRotation > 50.0 && dragRotation < 130.0 {
                currentRotation := currentRotation + (90.0 - dragRotation);
              }
            }
          }
      }
    }

    /**
     * The "Apply additional rotation" button, given the text of the current
     * image's sidecar (`None` when it cannot be read). It returns the file it
     * writes; a failure shows an error instead.
     */
    method ApplyAdditionalRotation(pp3Text: Option<string>,
                                   parse: string -> Option<real>, format: real -> string)
      returns (written: Option<Sidecar.Written>)
      requires !hasError ==> currentImageIdx < |imageDirEntries|
      modifies this`hasError
      ensures old(hasError) ==> written == None && hasError
      ensures !old(hasError) ==>
        var path := Pp3PathAsWritten(rawDir, imageDirEntries[currentImageIdx], rawExt);
        if pp3Text.None? then written == None && hasError
        else
          var result := Sidecar.RewrittenPp3(path, pp3Text.value, currentRotation, parse, format);
          if result.Success? then written == Some(result.value) && !hasError
          else written == None && hasError
    {
      written := None;
      if !hasError {
        var path := Pp3PathAsWritten(rawDir, imageDirEntries[currentImageIdx], rawExt);
        if pp3Text.None? {
          hasError := true;
        } else {
          var result := Sidecar.ApplyAdditionalRotationToPp3(path, pp3Text.value, currentRotation, parse, format);
          match result
          case Success(w) => written := Some(w);
          case Failure(_) => hasError := true;
        }
      }
    }

    /**
     * The "Generate conversion command" button, given the file names found in
     * the raw directory (`None` when it cannot be read).
     */
    method GenerateConversionCommand(rawListing: Option<seq<string>>)
      requires !hasError && rawListing.Some? ==> Command.Listable(rawListing.value)
      modifies this`conversionCommand, this`hasError
      ensures old(hasError) ==> conversionCommand == old(conversionCommand) && hasError
      ensures !old(hasError) && rawListing.None? ==> conversionCommand == old(conversionCommand) && hasError
      ensures !old(hasError) && rawListing.Some? ==>
        conversionCommand == Command.ConversionCommand(rawListing.value) && !hasError
    {
      if !hasError {
        if rawListing.None? {
          hasError := true;
        } else {
          conversionCommand := Command.BuildConversionCommand(rawListing.value);
        }
      }
    }

    /**
     * The "Open image directory" button, given the listing of the image
     * directory already filtered by extension and sorted (`None` when it cannot
     * be read). The current index is kept, selected again, and so the rotation
     * is zeroed.
     */
    method OpenImageDirectory(listing: Option<seq<string>>)
      modifies this`imageDirEntries, this`currentImageIdx, this`currentRotation, this`hasError
      ensures old(hasError) ==> unchanged(this)
      ensures !old(hasError) && listing.None? ==>
        hasError && imageDirEntries == old(imageDirEntries)
        && currentImageIdx == old(currentImageIdx) && currentRotation == old(currentRotation)
      ensures !old(hasError) && listing.Some? ==>
        !hasError && imageDirEntries == listing.value
        && currentImageIdx == old(currentImageIdx) && currentRotation == 0.0
    {
      if !hasError {
        if listing.None? {
          hasError := true;
        } else {
          imageDirEntries := listing.value;
          SelectImage(currentImageIdx);
        }
      }
    }

    /** The "Ok" button of the error window. */
    method DismissError()
      modifies this`hasError
      ensures !hasError
    {
      hasError := false;
    }
  }
}
