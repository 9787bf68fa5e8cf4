/** The few LSP protocol types the modelled code touches (the Go package
    internal/protocol is not part of this model; only the fields read here are kept). */
module Protocol {
  import opened Wrappers

  /** A document URI such as "file:///workspace/main.go". */
  type DocumentUri = string

  /** A diagnostic as published by the language server; the core never looks
      inside it, so only its message is kept. */
  datatype Diagnostic = Diagnostic(message: string)

  /** One text edit of a workspace edit; its range is irrelevant here. */
  datatype TextEdit = TextEdit(newText: string)

  /** A versioned edit of one document; only the document's URI is kept. */
  datatype TextDocumentEdit = TextDocumentEdit(uri: DocumentUri, edits: seq<TextEdit>)

  /** An entry of `documentChanges`; a nil `TextDocumentEdit` pointer (the entry
      is a create, rename or delete operation) is `None`. */
  datatype DocumentChange = DocumentChange(textDocumentEdit: Option<TextDocumentEdit>)

  /** A workspace edit: the `changes` map and the `documentChanges` list. */
  datatype WorkspaceEdit = WorkspaceEdit(changes: map<DocumentUri, seq<TextEdit>>, documentChanges: seq<DocumentChange>)
}
