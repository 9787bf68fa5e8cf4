/** The files a workspace edit touches (internal/tools/notify.go): the paths
    of the documents named by its `changes` map and by the text document
    edits among its `documentChanges`, each once. */
module Tools {
  import opened Wrappers
  import opened Protocol

  /** The scheme prefix the paths are taken out of. */
  const FileScheme := "file://"

  /** `strings.TrimPrefix(s, prefix)`: `s` without a leading `prefix`, or `s`
      itself when it does not start with it. */
  function TrimPrefix(s: string, prefix: string): (r: string)
    ensures prefix <= s ==> prefix + r == s
    ensures !(prefix <= s) ==> r == s
  {
    if prefix <= s then s[|prefix|..] else s
  }

  /** The path of a document URI (lines 15 and 21). */
  function PathOf(uri: DocumentUri): string {
    TrimPrefix(uri, FileScheme)
  }

  /** The paths of a set of URIs. */
  function PathsOf(uris: set<DocumentUri>): set<string> {
    set uri | uri in uris :: PathOf(uri)
  }

  /** The paths of the documents named by the `changes` map. */
  function ChangedPaths(edit: WorkspaceEdit): set<string> {
    PathsOf(edit.changes.Keys)
  }

  /** The paths of the documents edited by the text document edits among
      `changes`; entries without one contribute nothing. */
  function EditedPaths(changes: seq<DocumentChange>): set<string> {
    if changes == [] then {}
    else
      var last := changes[|changes| - 1];
      EditedPaths(changes[..|changes| - 1])
        + (if last.textDocumentEdit.Some? then {PathOf(last.textDocumentEdit.value.uri)} else {})
  }

  /** Every path AffectedFiles reports. */
  function AffectedPaths(edit: WorkspaceEdit): set<string> {
    ChangedPaths(edit) + EditedPaths(edit.documentChanges)
  }

  /** No path occurs twice in `s`. */
  predicate DistinctPaths(s: seq<string>) {
    forall i, j :: 0 <= i < j < |s| ==> s[i] != s[j]
  }

  /** AffectedFiles (lines 11-31): the `seen` set collects the paths of both
      sources, and every path of it goes into the result once. */
  method AffectedFiles(edit: WorkspaceEdit) returns (files: seq<string>)
    ensures DistinctPaths(files)
    ensures forall p :: p in files <==> p in AffectedPaths(edit)
    ensures |files| == |AffectedPaths(edit)|
  {
    var seen := AddChangedPaths({}, edit.changes);
    seen := AddEditedPaths(seen, edit.documentChanges);
    files := ListPaths(seen);
  }

  /** The first loop of AffectedFiles (lines 14-17): the path of every key
      of `changes` is added to `seen`.  Go visits the keys in an unspecified
      order; here each step picks any key not yet visited. */
  method AddChangedPaths(seen0: set<string>, changes: map<DocumentUri, seq<TextEdit>>) returns (seen: set<string>)
    ensures seen == seen0 + PathsOf(changes.Keys)
  {
    seen := seen0;
    var uris := changes.Keys;
    while uris != {}
      invariant uris <= changes.Keys
      invariant seen == seen0 + PathsOf(changes.Keys - uris)
      decreases uris
    {
      var uri :| uri in uris;
      PathsOfAdd(changes.Keys - uris, uri);
      assert changes.Keys - (uris - {uri}) == (changes.Keys - uris) + {uri};
      seen := seen + {PathOf(uri)};
      uris := uris - {uri};
    }
    assert changes.Keys - uris == changes.Keys;
  }

  /** The second loop of AffectedFiles (lines 19-24): the path of the
      document of every text document edit is added to `seen`. */
  method AddEditedPaths(seen0: set<string>, changes: seq<DocumentChange>) returns (seen: set<string>)
    ensures seen == seen0 + EditedPaths(changes)
  {
    seen := seen0;
    for k := 0 to |changes|
      invariant seen == seen0 + EditedPaths(changes[..k])
    {
      var change := changes[k];
      assert changes[..k + 1][..k] == changes[..k];
      if change.textDocumentEdit.Some? {
        seen := seen + {PathOf(change.textDocumentEdit.value.uri)};
      }
    }
    assert changes[..|changes|] == changes;
  }

  /** The third loop of AffectedFiles (lines 26-30): every path of `seen`
      once, in the unspecified order of a Go map iteration; here each step
      picks any path not yet listed. */
  method ListPaths(seen: set<string>) returns (files: seq<string>)
    ensures DistinctPaths(files)
    ensures forall p :: p in files <==> p in seen
    ensures |files| == |seen|
  {
    files := [];
    var rest := seen;
    while rest != {}
      invariant rest <= seen
      invariant DistinctPaths(files)
      invariant forall p :: p in files <==> p in seen && p !in rest
      invariant |files| + |rest| == |seen|
      decreases rest
    {
      var path :| path in rest;
      files := files + [path];
      rest := rest - {path};
    }
  }

  /** Adding a URI adds its path. */
  lemma PathsOfAdd(uris: set<DocumentUri>, uri: DocumentUri)
    ensures PathsOf(uris + {uri}) == PathsOf(uris) + {PathOf(uri)}
  {
  }

  // ---------------------------------------------------------------------------
  // Properties

  /** The text document edits contribute exactly the paths of the entries that
      have one. */
  lemma {:induction false} EditedPathsContents(changes: seq<DocumentChange>, p: string)
    ensures p in EditedPaths(changes) <==>
      exists k :: 0 <= k < |changes| && changes[k].textDocumentEdit.Some? && PathOf(changes[k].textDocumentEdit.value.uri) == p
  {
    if changes != [] {
      var init := changes[..|changes| - 1];
      EditedPathsContents(init, p);
      forall k | 0 <= k < |init| ensures init[k] == changes[k] {
      }
    }
  }

  /** A path is affected exactly when it is the path of a `changes` key or of
      the document of a text document edit. */
  lemma AffectedPathsContents(edit: WorkspaceEdit, p: string)
    ensures p in AffectedPaths(edit) <==>
      (exists uri :: uri in edit.changes && PathOf(uri) == p)
      || (exists k :: 0 <= k < |edit.documentChanges| && edit.documentChanges[k].textDocumentEdit.Some?
            && PathOf(edit.documentChanges[k].textDocumentEdit.value.uri) == p)
  {
    EditedPathsContents(edit.documentChanges, p);
  }

  /** An entry without a text document edit adds no path. */
  lemma NilEntryAddsNothing(edit: WorkspaceEdit, change: DocumentChange)
    requires change.textDocumentEdit.None?
    ensures AffectedPaths(edit.(documentChanges := edit.documentChanges + [change])) == AffectedPaths(edit)
  {
    var changes := edit.documentChanges + [change];
    assert changes[..|changes| - 1] == edit.documentChanges;
  }

  /** An entry with a text document edit adds exactly the path of its document. */
  lemma EditEntryAddsItsPath(edit: WorkspaceEdit, change: DocumentChange)
    requires change.textDocumentEdit.Some?
    ensures AffectedPaths(edit.(documentChanges := edit.documentChanges + [change])) ==
      AffectedPaths(edit) + {PathOf(change.textDocumentEdit.value.uri)}
  {
    var changes := edit.documentChanges + [change];
    assert changes[..|changes| - 1] == edit.documentChanges;
  }

  /** A URI without the scheme is its own path; one with it loses exactly the scheme. */
  lemma PathOfStripsOnlyTheScheme(uri: DocumentUri)
    ensures !(FileScheme <= uri) ==> PathOf(uri) == uri
    ensures FileScheme <= uri ==> FileScheme + PathOf(uri) == uri
  {
  }

  // The cases of notify_test.go

  lemma EmptyEditAffectsNothing()
    ensures AffectedPaths(WorkspaceEdit(map[], [])) == {}
  {
  }

  lemma NilTextDocumentEditAffectsNothing()
    ensures AffectedPaths(WorkspaceEdit(map[], [DocumentChange(None)])) == {}
  {
    assert [DocumentChange(None)][..0] == [];
  }

  lemma FileUriLosesScheme()
    ensures PathOf("file:///workspace/main.go") == "/workspace/main.go"
  {
    assert FileScheme <= "file:///workspace/main.go";
  }

  /** The same document in both sources is reported once. */
  lemma BothSourcesCountOnce(edits: seq<TextEdit>)
    ensures var uri := "file:///workspace/main.go";
      AffectedPaths(WorkspaceEdit(map[uri := edits], [DocumentChange(Some(TextDocumentEdit(uri, edits)))]))
        == {"/workspace/main.go"}
  {
    var uri := "file:///workspace/main.go";
    FileUriLosesScheme();
    var edit := WorkspaceEdit(map[uri := edits], [DocumentChange(Some(TextDocumentEdit(uri, edits)))]);
    assert edit.changes.Keys == {uri};
    assert ChangedPaths(edit) == {PathOf(uri)};
    assert edit.documentChanges[..0] == [];
    assert EditedPaths(edit.documentChanges) == {PathOf(uri)};
  }
}
