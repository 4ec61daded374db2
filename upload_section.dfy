/**
 * The state of the upload panel (src/components/UploadSection.tsx): whether
 * a drag is over the drop zone, the image accepted so far, and whether an
 * analysis is running. Each handler is a method; the browser's FileReader
 * result is handed in as `dataUrl`, and toasts, timers and scrolling are not
 * modelled.
 */
module Upload {
  import opened Wrappers
  import opened Text

  /** What the handler reads from a dropped or chosen file. */
  datatype File = File(mimeType: string, size: nat)

  /** How a file fares against the checks of handleFile. */
  datatype Verdict = Accepted | InvalidType | TooLarge

  const MaxImageBytes: nat := 5 * 1024 * 1024

  /** The checks, in their order: the type first, then the size. */
  function CheckFile(f: File): Verdict {
    if !StartsWith(f.mimeType, "image/") then InvalidType
    else if f.size > MaxImageBytes then TooLarge
    else Accepted
  }

  /** Exactly images of at most 5 MiB are accepted. */
  lemma AcceptedExactly(f: File)
    ensures CheckFile(f) == Accepted <==> StartsWith(f.mimeType, "image/") && f.size <= 5242880
  {
  }

  /** The type is checked before the size: a non-image is refused as such, whatever its size. */
  lemma TypeBeforeSize(f: File)
    requires !StartsWith(f.mimeType, "image/")
    ensures CheckFile(f) == InvalidType
  {
  }

  /** Example: the bound is inclusive, so exactly 5 MiB passes and one byte more does not. */
  lemma SizeBoundary(mimeType: string)
    requires StartsWith(mimeType, "image/")
    ensures CheckFile(File(mimeType, 5242880)) == Accepted
    ensures CheckFile(File(mimeType, 5242881)) == TooLarge
  {
  }

  /** `dragActive` after handleDrag sees an event of type `eventType`. */
  function DragActiveAfter(active: bool, eventType: string): (r: bool)
    ensures eventType == "dragenter" || eventType == "dragover" ==> r
    ensures eventType == "dragleave" ==> !r
  {
    if eventType == "dragenter" || eventType == "dragover" then true
    else if eventType == "dragleave" then false
    else active
  }

  /** Events other than the three drag events leave the flag alone, and repeating an event changes nothing. */
  lemma DragEvents(active: bool, eventType: string)
    ensures eventType != "dragenter" && eventType != "dragover" && eventType != "dragleave" ==>
      DragActiveAfter(active, eventType) == active
    ensures DragActiveAfter(DragActiveAfter(active, eventType), eventType) == DragActiveAfter(active, eventType)
  {
  }

  /** Whatever came before, a "dragleave" ends the highlight. */
  lemma LeaveEndsDrag(active: bool, events: seq<string>)
    requires events != [] && events[|events| - 1] == "dragleave"
    ensures DragActiveAfterAll(active, events) == false
  {
    assert events == events[..|events| - 1] + [events[|events| - 1]];
  }

  /** `dragActive` after a sequence of drag events. */
  function DragActiveAfterAll(active: bool, events: seq<string>): bool
    decreases |events|
  {
    if events == [] then active
    else DragActiveAfter(DragActiveAfterAll(active, events[..|events| - 1]), events[|events| - 1])
  }

  class UploadSection {
    var dragActive: bool
    var uploadedImage: Option<string>
    var isAnalyzing: bool

    /** The initial state: nothing dragged, no image, no analysis. */
    constructor()
      ensures !dragActive && uploadedImage.None? && !isAnalyzing
    {
      dragActive := false;
      uploadedImage := None;
      isAnalyzing := false;
    }

    /** handleDrag: the drag events switch the highlight. */
    method HandleDrag(eventType: string)
      modifies this
      ensures dragActive == DragActiveAfter(old(dragActive), eventType)
      ensures uploadedImage == old(uploadedImage) && isAnalyzing == old(isAnalyzing)
    {
      if eventType == "dragenter" || eventType == "dragover" {
        dragActive := true;
      } else if eventType == "dragleave" {
        dragActive := false;
      }
    }

    /**
     * handleFile: an accepted file becomes the uploaded image (`dataUrl`,
     * what the reader produces); a refused one changes nothing.
     */
    method HandleFile(file: File, dataUrl: string) returns (verdict: Verdict)
      modifies this
      ensures verdict == CheckFile(file)
      ensures verdict == Accepted ==> uploadedImage == Some(dataUrl)
      ensures verdict != Accepted ==> uploadedImage == old(uploadedImage)
      ensures dragActive == old(dragActive) && isAnalyzing == old(isAnalyzing)
    {
      if !StartsWith(file.mimeType, "image/") {
        return InvalidType;
      }
      if file.size > MaxImageBytes {
        return TooLarge;
      }
      uploadedImage := Some(dataUrl);
      return Accepted;
    }

    /** handleDrop: the highlight ends, and only the first dropped file, if any, is handled. */
    method HandleDrop(files: seq<File>, dataUrl: string) returns (verdict: Option<Verdict>)
      modifies this
      ensures !dragActive && isAnalyzing == old(isAnalyzing)
      ensures files == [] ==> verdict.None? && uploadedImage == old(uploadedImage)
      ensures files != [] ==> verdict == Some(CheckFile(files[0]))
      ensures files != [] && CheckFile(files[0]) == Accepted ==> uploadedImage == Some(dataUrl)
      ensures files != [] && CheckFile(files[0]) != Accepted ==> uploadedImage == old(uploadedImage)
    {
      dragActive := false;
      verdict := None;
      if files != [] {
        var v := HandleFile(files[0], dataUrl);
        verdict := Some(v);
      }
    }

    /** handleFileInput: the first chosen file, if any, is handled; the highlight is untouched. */
    method HandleFileInput(files: seq<File>, dataUrl: string) returns (verdict: Option<Verdict>)
      modifies this
      ensures dragActive == old(dragActive) && isAnalyzing == old(isAnalyzing)
      ensures files == [] ==> verdict.None? && uploadedImage == old(uploadedImage)
      ensures files != [] ==> verdict == Some(CheckFile(files[0]))
      ensures files != [] && CheckFile(files[0]) == Accepted ==> uploadedImage == Some(dataUrl)
      ensures files != [] && CheckFile(files[0]) != Accepted ==> uploadedImage == old(uploadedImage)
    {
      verdict := None;
      if files != [] {
        var v := HandleFile(files[0], dataUrl);
        verdict := Some(v);
      }
    }

    /** handleAnalyze: the analysis starts. */
    method HandleAnalyze()
      modifies this
      ensures isAnalyzing
      ensures dragActive == old(dragActive) && uploadedImage == old(uploadedImage)
    {
      isAnalyzing := true;
    }

    /** The timer set by handleAnalyze fires: the analysis ends. */
    method FinishAnalysis()
      modifies this
      ensures !isAnalyzing
      ensures dragActive == old(dragActive) && uploadedImage == old(uploadedImage)
    {
      isAnalyzing := false;
    }

    /** clearImage: the image is dropped and any analysis stops. */
    method ClearImage()
      modifies this
      ensures uploadedImage.None? && !isAnalyzing
      ensures dragActive == old(dragActive)
    {
      uploadedImage := None;
      isAnalyzing := false;
    }
  }

  /**
   * A session: the panel starts empty, a too-large image is dropped and
   * refused, a valid one is chosen, analysed and cleared.
   */
  method ExampleSession() returns (s: UploadSection)
    ensures s.uploadedImage.None? && !s.isAnalyzing && !s.dragActive
  {
    s := new UploadSection();
    s.HandleDrag("dragenter");
    assert s.dragActive;
    var v := s.HandleDrop([File("image/png", MaxImageBytes + 1)], "data:image/png;base64,AAAA");
    assert v == Some(TooLarge) && s.uploadedImage.None?;
    v := s.HandleFileInput([File("image/jpeg", 1024)], "data:image/jpeg;base64,BBBB");
    assert s.uploadedImage == Some("data:image/jpeg;base64,BBBB");
    s.HandleAnalyze();
    assert s.isAnalyzing && s.uploadedImage.Some?;
    s.FinishAnalysis();
    s.ClearImage();
  }
}
