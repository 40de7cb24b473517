/** The upload box of client/src/components/FileUploader.tsx: which of the
    chosen or dropped files it handles, the extension check it applies, and
    what it does with the file: send it to the upload mutation or refuse it,
    and which toast it shows. */
module Uploader {
  import opened Wrappers
  import opened Text

  /** `file.name.match(/\.(xls|xlsx)$/)`: the name ends in `.xls` or `.xlsx`,
      with exactly that case. */
  predicate Accepts(name: string) {
    EndsWith(name, ".xls") || EndsWith(name, ".xlsx")
  }

  /** A toast: title, description, and whether it is the destructive
      variant. */
  datatype Toast = Toast(title: string, description: string, destructive: bool)

  /** What handling one file does: the name handed to the upload mutation,
      if any, and the toast shown afterwards. */
  datatype Effect = Effect(sent: Option<string>, toast: Toast)

  const InvalidTypeToast := Toast("Invalid file type", "Please upload an Excel file (.xls or .xlsx)", true)

  /** `processFile`. The outcome of the upload mutation, which only runs for
      an accepted name, is a parameter: `Ok` when it resolves, `Err` with
      the error's message when it rejects. */
  function ProcessFile(name: string, upload: Result<(), string>): (r: Effect)
    ensures r.sent.Some? <==> Accepts(name)
    ensures r.sent.Some? ==> r.sent.value == name
    ensures !Accepts(name) ==> r.toast == InvalidTypeToast
    ensures r.toast.destructive <==> !Accepts(name) || upload.Err?
    ensures Accepts(name) && upload.Err? ==> r.toast.description == upload.error
  {
    if !Accepts(name) then Effect(None, InvalidTypeToast)
    else match upload
      case Ok(_) => Effect(Some(name), Toast("Success", "Successfully indexed " + name, false))
      case Err(message) => Effect(Some(name), Toast("Upload failed", message, true))
  }

  /** `handleFileSelect` and `handleDrop`: only the first file of the list
      is processed; an empty list does nothing. */
  function HandleFiles(files: seq<string>, upload: Result<(), string>): (r: Option<Effect>)
    ensures r.None? <==> |files| == 0
  {
    if |files| == 0 then None else Some(ProcessFile(files[0], upload))
  }

  /** The check is a suffix test: a name passes exactly when it is some stem
      followed by `.xls` or `.xlsx`. */
  lemma AcceptsIffExcelSuffix(name: string)
    ensures Accepts(name) <==> exists stem :: name == stem + ".xls" || name == stem + ".xlsx"
  {
    if EndsWith(name, ".xls") {
      var stem := name[..|name| - 4];
      assert name == stem + ".xls";
    } else if EndsWith(name, ".xlsx") {
      var stem := name[..|name| - 5];
      assert name == stem + ".xlsx";
    }
    if exists stem :: name == stem + ".xls" || name == stem + ".xlsx" {
      var stem :| name == stem + ".xls" || name == stem + ".xlsx";
      if name == stem + ".xls" {
        assert name[|name| - 4..] == ".xls";
      } else {
        assert name[|name| - 5..] == ".xlsx";
      }
    }
  }

  /** The check is case-sensitive and exact: upper-case extensions, the
      macro-enabled `.xlsm` and a name that merely contains `.xlsx` are all
      refused. */
  lemma OtherExtensionsRejected(stem: string)
    ensures !Accepts(stem + ".XLSX") && !Accepts(stem + ".XLS")
    ensures !Accepts(stem + ".xlsm")
    ensures !Accepts(stem + ".xlsx.bak")
  {
    RejectedByLastChar(stem + ".XLSX", 'X');
    RejectedByLastChar(stem + ".XLS", 'S');
    RejectedByLastChar(stem + ".xlsm", 'm');
    RejectedByLastChar(stem + ".xlsx.bak", 'k');
  }

  /** A name whose last character is neither `s` nor `x` is refused. */
  lemma RejectedByLastChar(name: string, last: char)
    requires |name| > 0 && name[|name| - 1] == last && last != 's' && last != 'x'
    ensures !Accepts(name)
  {
    EndsWithLast(name, ".xls");
    EndsWithLast(name, ".xlsx");
    assert ".xls"[3] == 's' && ".xlsx"[4] == 'x';
  }

  lemma EndsWithLast(name: string, suffix: string)
    requires |suffix| > 0
    ensures EndsWith(name, suffix) ==> name[|name| - 1] == suffix[|suffix| - 1]
  {
    if |suffix| <= |name| {
      assert name[|name| - |suffix|..][|suffix| - 1] == name[|name| - 1];
    }
  }

  /** A refused file never reaches the upload mutation, whatever the
      mutation would have done, and the invalid-type toast is shown. */
  lemma RejectedNeverSent(files: seq<string>, upload: Result<(), string>)
    requires |files| > 0 && !Accepts(files[0])
    ensures HandleFiles(files, upload) == Some(Effect(None, InvalidTypeToast))
  {
  }

  /** Only the first file counts: the files after it change nothing. */
  lemma OnlyFirstFileHandled(files: seq<string>, upload: Result<(), string>)
    requires |files| > 0
    ensures HandleFiles(files, upload) == HandleFiles(files[..1], upload)
    ensures HandleFiles(files, upload).value.sent.Some? ==> HandleFiles(files, upload).value.sent.value == files[0]
  {
  }
}
