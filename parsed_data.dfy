/**
 * The module-level `parsedData` slot and the upload handler that replaces
 * its contents (server.js, lines 30-33 and 39-88).
 */
module ParsedData {
  import opened Wrappers
  import opened SheetExtractor

  /** The most recently extracted headers and rows; empty at process start. */
  class Store {
    var headers: seq<string>
    var rows: seq<Record>

    constructor ()
      ensures headers == [] && rows == []
    {
      headers := [];
      rows := [];
    }

    /** Overwrite both fields; nothing of the previous contents is kept (server.js, lines 80-81). */
    method Replace(newHeaders: seq<string>, newRows: seq<Record>)
      modifies this
      ensures headers == newHeaders && rows == newRows
    {
      headers := newHeaders;
      rows := newRows;
    }
  }

  /** What the upload handler sends back. */
  datatype Response = Redirect(location: string) | PlainText(body: string)

  const UploadError := "Error processing file"

  /**
   * `POST /upload`. `sheet` is the first worksheet of the uploaded workbook,
   * `None` when there is no file field, the file cannot be read or the
   * workbook has no worksheet; `unlinked` says whether deleting the uploaded
   * file succeeded. Any failure leaves the store as it was.
   */
  method Upload(store: Store, sheet: Option<Worksheet>, unlinked: bool) returns (response: Response)
    modifies store
    ensures sheet.Some? && unlinked ==>
      response == Redirect("/view") &&
      store.headers == sheet.value.headerRow &&
      store.rows == Extracted(sheet.value.headerRow, sheet.value.visited)
    ensures !(sheet.Some? && unlinked) ==>
      response == PlainText(UploadError) &&
      store.headers == old(store.headers) && store.rows == old(store.rows)
  {
    if sheet.None? {
      return PlainText(UploadError);
    }
    var headers, rows := Extract(sheet.value);
    if !unlinked {
      return PlainText(UploadError);
    }
    store.Replace(headers, rows);
    response := Redirect("/view");
  }

  /** Two successful uploads in a row: the store holds exactly the second extraction. */
  method ReplaceNotMerge(store: Store, first: Worksheet, second: Worksheet)
    modifies store
    ensures store.headers == second.headerRow
    ensures store.rows == Extracted(second.headerRow, second.visited)
  {
    var r1 := Upload(store, Some(first), true);
    var r2 := Upload(store, Some(second), true);
  }
}
