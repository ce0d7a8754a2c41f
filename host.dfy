/**
  * What the engine sees of the editor host: uris, the document notifications it
  * subscribes to, and the outcome of a call into the host.
  */
module Host {

  /**
    * A `vscode.Uri`, reduced to the two renderings the extension reads:
    * `fsPath` (sorting, extension test) and `text`, its `toString()` (event matching).
    */
  datatype Uri = Uri(fsPath: string, text: string)

  /** The shared streams the host notifications are fanned out on. */
  datatype Source = DidChange | WillSave

  /** A document-changed or will-save notification, about the document at `documentUri`. */
  datatype DocumentEvent = DocumentEvent(source: Source, documentUri: Uri)

  /**
    * How an awaited host call (opening a document, executing a command) ended:
    * its promise resolved, or it rejected with an error whose message is given.
    */
  datatype Call = Returned | Threw(message: string)
}
