/**
 * The page's module-level state and its event handlers: the staged file, the
 * preview fields, the drop-zone highlight, the convert button's loading state
 * and the toast element. Each handler is a method that changes exactly the
 * fields it writes in the script.
 */
module Intake {
  import opened Wrappers
  import FileNames
  import FileSizes
  import Toasts

  /** A browser `File`: its declared media type, its name and its size in bytes. */
  datatype File = File(mediaType: string, name: string, size: nat)

  /** `validTypes` at line 78. */
  const ValidTypes: seq<string> := ["image/jpeg", "image/png", "image/webp"]

  /** `validTypes.includes(type)`: an exact, case-sensitive match. */
  function IsValidType(mediaType: string): (ok: bool)
    ensures ok <==> mediaType == "image/jpeg" || mediaType == "image/png" || mediaType == "image/webp"
  {
    mediaType in ValidTypes
  }

  const NoFileText: string := "No file selected"
  const NoSizeText: string := "-"

  const WelcomeMessage: string := "✨ Drag & drop your images here!"
  const InvalidTypeMessage: string := "❌ Please upload a valid image file (JPG, PNG, WEBP)"
  const LoadedMessage: string := "📄 Image loaded successfully!"
  const NoSelectionMessage: string := "⚠️ Please select an image first!"
  const CreatedMessage: string := "✅ PDF created successfully!"
  const RemovedMessage: string := "🗑️ File removed"

  /** The toast element: the last (message, type) pair shown, the icon markup,
      the icon colour, the progress-bar background and the `show` class. */
  datatype ToastView = ToastView(
    message: string, kind: string, icon: string, color: string, progress: string, shown: bool)

  /** The toast before any `showToast` call (its markup is not part of this model). */
  const NoToast: ToastView := ToastView("", "", "", "", "", false)

  /** The toast element after `showToast(message, kind)` on `before`. A colour
      the `colors` object lacks is not a valid CSS value, so the browser keeps
      the previous icon colour and progress background. */
  function Shown(before: ToastView, message: string, kind: string): (after: ToastView)
    ensures after.message == message && after.kind == kind && after.shown
    ensures after.icon == Toasts.Icon(kind)
    ensures kind in Toasts.Kinds ==> after.color == Toasts.Color(kind).value
    ensures kind in Toasts.Kinds ==> after.progress == Toasts.Progress(kind).value
    ensures kind !in Toasts.Kinds ==> after.color == before.color && after.progress == before.progress
  {
    ToastView(message, kind, Toasts.Icon(kind),
      Toasts.Color(kind).GetOr(before.color), Toasts.Progress(kind).GetOr(before.progress), true)
  }

  /** The events the drop zone listens to (lines 27-40). */
  datatype DragEvent = DragEnter | DragOver | DragLeave | Drop(files: seq<File>)

  class Page {
    /** `selectedFile`: `files[0]` of the last selection, or nothing. */
    var selectedFile: Option<File>
    /** `.file-name` and `.file-size` text. */
    var fileNameText: string
    var fileSizeText: string
    /** The `show` class of `.file-preview`. */
    var previewShown: bool
    /** The `drag-over` and `active` classes of the drop zone (always set together). */
    var dropZoneHighlighted: bool
    /** The `loading` class of the convert button. */
    var converting: bool
    /** Conversions started whose completion callback has not yet run. */
    var pendingConversions: nat
    var toast: ToastView
    /** The last accepted file since the last clear: what the preview shows. */
    ghost var displayed: Option<File>

    /** The preview is shown exactly when an accepted file is displayed, and
        then the name and size fields describe that file. */
    ghost predicate Valid()
      reads this
    {
      && (previewShown <==> displayed.Some?)
      && (displayed.Some? ==>
            && IsValidType(displayed.value.mediaType)
            && fileNameText == displayed.value.name
            && fileSizeText == FileSizes.FormatFileSize(displayed.value.size))
    }

    /** A freshly loaded page; `nameText` and `sizeText` are the markup's initial texts. */
    constructor (nameText: string, sizeText: string)
      ensures Valid()
      ensures selectedFile == None && displayed == None
      ensures fileNameText == nameText && fileSizeText == sizeText && !previewShown
      ensures !dropZoneHighlighted && !converting && pendingConversions == 0
      ensures toast == NoToast
    {
      selectedFile := None;
      fileNameText, fileSizeText := nameText, sizeText;
      previewShown := false;
      dropZoneHighlighted := false;
      converting := false;
      pendingConversions := 0;
      toast := NoToast;
      displayed := None;
    }

    /** `showToast(message, type = 'info')` (lines 154-193), without the hide timer. */
    method ShowToast(message: string, kind: string := Toasts.Info)
      requires Valid()
      modifies this`toast
      ensures Valid()
      ensures toast == Shown(old(toast), message, kind)
    {
      var icon := Toasts.Icon(kind);
      toast := toast.(icon := icon, message := message, kind := kind);
      match Toasts.Color(kind) {
        case Some(c) =>
          toast := toast.(color := c, progress := Toasts.Progress(kind).value);
        case None =>
      }
      toast := toast.(shown := true);
    }

    /** The welcome toast of line 16, without its one-second delay. */
    method Welcome()
      requires Valid()
      modifies this`toast
      ensures Valid()
      ensures toast == Shown(old(toast), WelcomeMessage, Toasts.Info)
    {
      ShowToast(WelcomeMessage);
    }

    /** What `handleFileSelect` leaves behind for the list `files`. */
    twostate predicate SelectionOutcome(files: seq<File>)
      reads this
    {
      && selectedFile == (if files == [] then None else Some(files[0]))
      && dropZoneHighlighted == old(dropZoneHighlighted)
      && converting == old(converting)
      && pendingConversions == old(pendingConversions)
      && if files != [] && IsValidType(files[0].mediaType) then
           && fileNameText == files[0].name
           && fileSizeText == FileSizes.FormatFileSize(files[0].size)
           && previewShown
           && displayed == Some(files[0])
           && toast == Shown(old(toast), LoadedMessage, Toasts.Success)
         else
           && fileNameText == old(fileNameText)
           && fileSizeText == old(fileSizeText)
           && previewShown == old(previewShown)
           && displayed == old(displayed)
           && toast == (if files == [] then old(toast)
                        else Shown(old(toast), InvalidTypeMessage, Toasts.Error))
    }

    /** `handleFileSelect` (lines 73-91): the selection becomes `files[0]`
        BEFORE the type check, so a rejected file stays selected, and an
        empty list leaves nothing selected while the preview is untouched. */
    method HandleFileSelect(files: seq<File>)
      requires Valid()
      modifies this`selectedFile, this`fileNameText, this`fileSizeText, this`previewShown,
        this`displayed, this`toast
      ensures Valid()
      ensures SelectionOutcome(files)
    {
      selectedFile := if |files| > 0 then Some(files[0]) else None;
      if selectedFile.Some? {
        var file := selectedFile.value;
        if !IsValidType(file.mediaType) {
          ShowToast(InvalidTypeMessage, Toasts.Error);
          return;
        }
        fileNameText := file.name;
        fileSizeText := FileSizes.FormatFileSize(file.size);
        previewShown := true;
        displayed := Some(file);
        ShowToast(LoadedMessage, Toasts.Success);
      }
    }

    /** `handleDrop` (lines 63-71): a non-empty drop goes through `handleFileSelect`;
        an empty one changes nothing. */
    method HandleDrop(files: seq<File>)
      requires Valid()
      modifies this`selectedFile, this`fileNameText, this`fileSizeText, this`previewShown,
        this`displayed, this`toast
      ensures Valid()
      ensures files != [] ==> SelectionOutcome(files)
      ensures files == [] ==> unchanged(this)
    {
      if |files| > 0 {
        HandleFileSelect(files);
      }
    }

    /** `highlightDropZone` (lines 53-56). */
    method HighlightDropZone()
      requires Valid()
      modifies this`dropZoneHighlighted
      ensures Valid()
      ensures dropZoneHighlighted
    {
      dropZoneHighlighted := true;
    }

    /** `unhighlightDropZone` (lines 58-61). */
    method UnhighlightDropZone()
      requires Valid()
      modifies this`dropZoneHighlighted
      ensures Valid()
      ensures !dropZoneHighlighted
    {
      dropZoneHighlighted := false;
    }

    /** One event on the drop zone, through its listeners in registration order:
        `dragenter`/`dragover` highlight, `dragleave`/`drop` un-highlight, and a
        drop then hands its files to `handleDrop`. The click listener is not
        modelled: it only opens the file dialog. */
    method OnDropZoneEvent(e: DragEvent)
      requires Valid()
      modifies this`dropZoneHighlighted, this`selectedFile, this`fileNameText, this`fileSizeText,
        this`previewShown, this`displayed, this`toast
      ensures Valid()
      ensures dropZoneHighlighted <==> e.DragEnter? || e.DragOver?
      ensures !e.Drop? || e.files == [] ==>
        && selectedFile == old(selectedFile) && fileNameText == old(fileNameText)
        && fileSizeText == old(fileSizeText) && previewShown == old(previewShown)
        && displayed == old(displayed) && toast == old(toast)
      ensures e.Drop? && e.files != [] ==>
        && selectedFile == Some(e.files[0])
        && (IsValidType(e.files[0].mediaType) ==>
              && fileNameText == e.files[0].name
              && fileSizeText == FileSizes.FormatFileSize(e.files[0].size)
              && previewShown && displayed == Some(e.files[0])
              && toast == Shown(old(toast), LoadedMessage, Toasts.Success))
        && (!IsValidType(e.files[0].mediaType) ==>
              && fileNameText == old(fileNameText) && fileSizeText == old(fileSizeText)
              && previewShown == old(previewShown) && displayed == old(displayed)
              && toast == Shown(old(toast), InvalidTypeMessage, Toasts.Error))
    {
      match e {
        case DragEnter => HighlightDropZone();
        case DragOver => HighlightDropZone();
        case DragLeave => UnhighlightDropZone();
        case Drop(files) =>
          UnhighlightDropZone();
          HandleDrop(files);
      }
    }

    /** `clearFile` (lines 145-152), whatever the state before. */
    method ClearFile()
      requires Valid()
      modifies this`selectedFile, this`fileNameText, this`fileSizeText, this`previewShown,
        this`displayed, this`toast
      ensures Valid()
      ensures selectedFile == None && displayed == None
      ensures fileNameText == NoFileText && fileSizeText == NoSizeText && !previewShown
      ensures toast == Shown(old(toast), RemovedMessage, Toasts.Info)
    {
      selectedFile := None;
      fileNameText := NoFileText;
      fileSizeText := NoSizeText;
      previewShown := false;
      displayed := None;
      ShowToast(RemovedMessage, Toasts.Info);
    }

    /** The synchronous part of `convertToPDF` (lines 101-108): without a
        selection a warning and nothing else; with one, the button goes into
        its loading state and a conversion is scheduled. The selection is not
        re-validated, so a rejected file is converted too. */
    method ConvertToPDF()
      requires Valid()
      modifies this`converting, this`pendingConversions, this`toast
      ensures Valid()
      ensures selectedFile.None? ==>
        converting == old(converting) && pendingConversions == old(pendingConversions)
        && toast == Shown(old(toast), NoSelectionMessage, Toasts.Warning)
      ensures selectedFile.Some? ==>
        converting && pendingConversions == old(pendingConversions) + 1 && toast == old(toast)
    {
      if selectedFile.None? {
        ShowToast(NoSelectionMessage, Toasts.Warning);
        return;
      }
      converting := true;
      pendingConversions := pendingConversions + 1;
    }

    /** The end of a scheduled conversion, once the image has loaded (lines
        119-137): the document is saved under the name derived from the file
        selected NOW, the loading state ends and a success toast appears. If
        the selection was cleared in the meantime, reading its name throws:
        nothing is saved and the button stays in its loading state. */
    method CompleteConversion() returns (saved: Option<string>)
      requires Valid() && pendingConversions > 0
      modifies this`converting, this`pendingConversions, this`toast
      ensures Valid()
      ensures pendingConversions == old(pendingConversions) - 1
      ensures selectedFile.None? ==>
        saved == None && converting == old(converting) && toast == old(toast)
      ensures selectedFile.Some? ==>
        && saved == Some(FileNames.OutputFileName(selectedFile.value.name))
        && !converting
        && toast == Shown(old(toast), CreatedMessage, Toasts.Success)
    {
      pendingConversions := pendingConversions - 1;
      if selectedFile.None? {
        saved := None;
        return;
      }
      var fileName := FileNames.OutputFileName(selectedFile.value.name);
      saved := Some(fileName);
      converting := false;
      ShowToast(CreatedMessage, Toasts.Success);
    }
  }

  /** A file of a type outside the allow-list is rejected with an error toast,
      yet stays selected: converting it goes ahead and, since browsers decode
      a GIF as an image, saves it under its base name. */
  method RejectedFileIsStillConverted(name: string) returns (selected: Option<File>,
    kind: string, busy: bool, saved: Option<string>)
    requires name == "anim.v2.gif"
    ensures selected == Some(File("image/gif", name, 2048))
    ensures kind == Toasts.Error
    ensures busy
    ensures saved == Some("anim.pdf")
  {
    var page := new Page(NoFileText, NoSizeText);
    var file := File("image/gif", name, 2048);
    page.HandleFileSelect([file]);
    selected, kind := page.selectedFile, page.toast.kind;
    page.ConvertToPDF();
    busy := page.converting;
    saved := page.CompleteConversion();
    FileNames.BaseNameAtFirstDot(name, 4);
    assert name[..4] + FileNames.PdfExtension == "anim.pdf";
  }

  /** Clearing the file while a conversion is pending leaves the convert
      button loading for good: the completion throws before it resets it. */
  method ClearDuringConversionLeavesButtonLoading() returns (busy: bool, pending: nat,
    saved: Option<string>)
    ensures busy && pending == 0 && saved == None
  {
    var page := new Page(NoFileText, NoSizeText);
    page.HandleFileSelect([File("image/png", "cat.png", 1536)]);
    page.ConvertToPDF();
    page.ClearFile();
    saved := page.CompleteConversion();
    busy, pending := page.converting, page.pendingConversions;
  }

  /** An empty selection drops the staged file but keeps the preview of the
      previous one; converting then only warns. */
  method EmptySelectionKeepsPreview() returns (previewed: bool, nameText: string,
    busy: bool, kind: string)
    ensures previewed && nameText == "cat.png" && !busy && kind == Toasts.Warning
  {
    var page := new Page(NoFileText, NoSizeText);
    page.HandleFileSelect([File("image/png", "cat.png", 1536)]);
    page.HandleFileSelect([]);
    page.ConvertToPDF();
    previewed, nameText, busy, kind := page.previewShown, page.fileNameText, page.converting,
      page.toast.kind;
  }
}
