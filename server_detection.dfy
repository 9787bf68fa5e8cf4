/** Choosing the language server for a workspace (internal/lsp/server_detection.go):
    the first rule of a fixed, ordered table whose marker file exists in the
    workspace directory decides the command to start.  Whether a marker file
    exists (`os.Stat` on `filepath.Join(workspaceDir, marker)`) is given as
    the set of marker names present in the directory. */
module ServerDetection {
  import opened Wrappers

  /** `ServerDetection`: the command that starts the server and its arguments. */
  datatype Detection = Detection(command: string, args: seq<string>)

  /** `detectionRule`: a marker file name and the server it selects. */
  datatype Rule = Rule(marker: string, command: string, args: seq<string>)

  /** `detectionRules` (lines 21-32), highest priority first; a nil `args`
      slice is the empty sequence. */
  const DetectionRules: seq<Rule> := [
    Rule("go.mod", "gopls", []),
    Rule("go.sum", "gopls", []),
    Rule("Cargo.toml", "rust-analyzer", []),
    Rule("tsconfig.json", "typescript-language-server", ["--stdio"]),
    Rule("package.json", "typescript-language-server", ["--stdio"]),
    Rule("pyproject.toml", "pyright-langserver", ["--stdio"]),
    Rule("setup.py", "pyright-langserver", ["--stdio"]),
    Rule("requirements.txt", "pyright-langserver", ["--stdio"]),
    Rule("compile_commands.json", "clangd", []),
    Rule("CMakeLists.txt", "clangd", [])
  ]

  /** The detection a rule yields. */
  function DetectionOf(rule: Rule): Detection {
    Detection(rule.command, rule.args)
  }

  /** `strings.Join`: the parts with `sep` between each two neighbours. */
  function Join(parts: seq<string>, sep: string): string {
    if |parts| == 0 then ""
    else if |parts| == 1 then parts[0]
    else parts[0] + sep + Join(parts[1..], sep)
  }

  /** The markers of the rules, in table order. */
  function Markers(rules: seq<Rule>): (r: seq<string>)
    ensures |r| == |rules|
    ensures forall k :: 0 <= k < |rules| ==> r[k] == rules[k].marker
  {
    if rules == [] then [] else [rules[0].marker] + Markers(rules[1..])
  }

  /** Appending a rule appends its marker. */
  lemma {:induction false} MarkersOfAppend(rules: seq<Rule>, rule: Rule)
    ensures Markers(rules + [rule]) == Markers(rules) + [rule.marker]
  {
    if rules != [] {
      assert (rules + [rule])[1..] == rules[1..] + [rule];
      MarkersOfAppend(rules[1..], rule);
    }
  }

  /** The text of the error before the list of markers. */
  function ErrorPrefix(workspaceDir: string): string {
    "could not detect LSP server for workspace " + workspaceDir
      + ": no recognized project files found. Looked for: "
  }

  const ErrorSuffix := ". Use --lsp to specify the server manually"

  /** The error message naming the markers looked for. */
  function NotFoundMessage(workspaceDir: string, markers: seq<string>): string {
    ErrorPrefix(workspaceDir) + Join(markers, ", ") + ErrorSuffix
  }

  /** The error DetectServer returns when no marker exists (lines 45-55). */
  function NotDetectedError(workspaceDir: string): string {
    NotFoundMessage(workspaceDir, Markers(DetectionRules))
  }

  /** The index of the first rule from `i` on whose marker is present. */
  function FirstPresent(rules: seq<Rule>, present: set<string>, i: nat): (r: Option<nat>)
    requires i <= |rules|
    ensures r.Some? ==> i <= r.value < |rules| && rules[r.value].marker in present
    ensures r.Some? ==> forall j :: i <= j < r.value ==> rules[j].marker !in present
    ensures r.None? ==> forall j :: i <= j < |rules| ==> rules[j].marker !in present
    decreases |rules| - i
  {
    if i == |rules| then None
    else if rules[i].marker in present then Some(i)
    else FirstPresent(rules, present, i + 1)
  }

  /** What DetectServer(workspaceDir) answers when exactly the markers in
      `present` exist in the workspace. */
  function Detect(workspaceDir: string, present: set<string>): Result<Detection> {
    match FirstPresent(DetectionRules, present, 0)
    case Some(k) => Success(DetectionOf(DetectionRules[k]))
    case None => Failure(NotDetectedError(workspaceDir))
  }

  /** DetectServer (lines 34-56): the first loop returns the detection of
      the first rule whose marker exists; otherwise the second loop collects
      every marker for the error message. */
  method DetectServer(workspaceDir: string, present: set<string>) returns (r: Result<Detection>)
    ensures r == Detect(workspaceDir, present)
  {
    for k := 0 to |DetectionRules|
      invariant FirstPresent(DetectionRules, present, 0) == FirstPresent(DetectionRules, present, k)
    {
      var rule := DetectionRules[k];
      if rule.marker in present {
        return Success(Detection(rule.command, rule.args));
      }
    }
    var markers: seq<string> := [];
    for k := 0 to |DetectionRules|
      invariant markers == Markers(DetectionRules[..k])
    {
      assert DetectionRules[..k + 1] == DetectionRules[..k] + [DetectionRules[k]];
      MarkersOfAppend(DetectionRules[..k], DetectionRules[k]);
      markers := markers + [DetectionRules[k].marker];
    }
    assert DetectionRules[..|DetectionRules|] == DetectionRules;
    r := Failure(NotFoundMessage(workspaceDir, markers));
  }

  // ---------------------------------------------------------------------------
  // Properties

  /** No two rules share a marker. */
  lemma MarkersAreDistinct()
    ensures forall i, j :: 0 <= i < j < |DetectionRules| ==> DetectionRules[i].marker != DetectionRules[j].marker
  {
  }

  /** Priority: the first rule whose marker is present decides, whatever
      markers of later rules are present too. */
  lemma FirstPresentRuleWins(workspaceDir: string, present: set<string>, k: nat)
    requires k < |DetectionRules| && DetectionRules[k].marker in present
    requires forall j :: 0 <= j < k ==> DetectionRules[j].marker !in present
    ensures Detect(workspaceDir, present) == Success(DetectionOf(DetectionRules[k]))
  {
  }

  /** DetectServer fails exactly when no marker is present, and then with the
      error that lists the markers. */
  lemma FailsIffNoMarker(workspaceDir: string, present: set<string>)
    ensures Detect(workspaceDir, present).Failure? <==>
      forall k :: 0 <= k < |DetectionRules| ==> DetectionRules[k].marker !in present
    ensures Detect(workspaceDir, present).Failure? ==>
      Detect(workspaceDir, present).error == NotDetectedError(workspaceDir)
  {
  }

  /** A successful detection is the command and arguments of a rule whose
      marker is present. */
  lemma DetectionComesFromTable(workspaceDir: string, present: set<string>)
    ensures Detect(workspaceDir, present).Success? ==>
      exists k :: 0 <= k < |DetectionRules| && DetectionRules[k].marker in present
        && Detect(workspaceDir, present).value == DetectionOf(DetectionRules[k])
  {
    var r := FirstPresent(DetectionRules, present, 0);
    if r.Some? {
      assert DetectionRules[r.value].marker in present;
    }
  }

  /** The first present marker from `i` on stays first when a marker is added
      that no rule from `i` up to a present one has. */
  lemma {:induction false} FirstPresentIgnoresLater(rules: seq<Rule>, present: set<string>, m: string, i: nat, k: nat)
    requires i <= k < |rules| && rules[k].marker in present
    requires forall j :: i <= j <= k ==> rules[j].marker != m
    ensures FirstPresent(rules, present + {m}, i) == FirstPresent(rules, present, i)
    decreases k - i
  {
    if rules[i].marker !in present {
      FirstPresentIgnoresLater(rules, present, m, i + 1, k);
    }
  }

  /** Adding a marker whose rule comes after a present marker's rule does not
      change the result. */
  lemma LaterMarkerChangesNothing(workspaceDir: string, present: set<string>, m: string, k: nat)
    requires k < |DetectionRules| && DetectionRules[k].marker in present
    requires forall j :: 0 <= j <= k ==> DetectionRules[j].marker != m
    ensures Detect(workspaceDir, present + {m}) == Detect(workspaceDir, present)
  {
    FirstPresentIgnoresLater(DetectionRules, present, m, 0, k);
  }

  /** A workspace holding a single marker gets that marker's rule. */
  lemma SingleMarkerSelectsItsRule(workspaceDir: string, k: nat)
    requires k < |DetectionRules|
    ensures Detect(workspaceDir, {DetectionRules[k].marker}) == Success(DetectionOf(DetectionRules[k]))
  {
    MarkersAreDistinct();
    FirstPresentRuleWins(workspaceDir, {DetectionRules[k].marker}, k);
  }

  /** What strings.Join puts after the `k`-th part: the separator and the
      later parts, or nothing after the last part. */
  function JoinedAfter(parts: seq<string>, sep: string, k: nat): string
    requires k < |parts|
  {
    if k + 1 < |parts| then sep + Join(parts[k + 1..], sep) else ""
  }

  /** What strings.Join puts before the `k`-th part: the earlier parts
      joined, and a separator if there are any. */
  function JoinedBefore(parts: seq<string>, sep: string, k: nat): string
    requires k <= |parts|
  {
    if k == 0 then "" else Join(parts[..k], sep) + sep
  }

  lemma AppendAssoc(a: string, b: string, c: string)
    ensures a + (b + c) == (a + b) + c
  {
  }

  /** strings.Join keeps every part, in order, with the separator between
      each part and the next: around its `k`-th part stand the earlier parts
      joined and the later parts joined. */
  lemma {:induction false} JoinAround(parts: seq<string>, sep: string, k: nat)
    requires k < |parts|
    ensures Join(parts, sep) == JoinedBefore(parts, sep, k) + parts[k] + JoinedAfter(parts, sep, k)
  {
    if k == 0 {
      if |parts| > 1 {
        AppendAssoc(parts[0], sep, Join(parts[1..], sep));
      }
    } else {
      var tail := parts[1..];
      var head := parts[0] + sep;
      JoinAround(tail, sep, k - 1);
      var before, after := JoinedBefore(tail, sep, k - 1), JoinedAfter(tail, sep, k - 1);
      assert tail[k - 1] == parts[k];
      assert after == JoinedAfter(parts, sep, k) by {
        if k + 1 < |parts| {
          assert tail[k..] == parts[k + 1..];
        }
      }
      assert head + before == JoinedBefore(parts, sep, k) by {
        if k > 1 {
          assert parts[..k][1..] == tail[..k - 1];
          assert Join(parts[..k], sep) == parts[0] + sep + Join(tail[..k - 1], sep);
          AppendAssoc(head, Join(tail[..k - 1], sep), sep);
        } else {
          assert parts[..k] == [parts[0]];
        }
      }
      assert Join(parts, sep) == head + (before + parts[k] + after);
      AppendAssoc(head, before + parts[k], after);
      AppendAssoc(head, before, parts[k]);
    }
  }

  /** The message built around a list of markers names each of them in
      order, separated by ", ", after the fixed beginning of the message.
      NotDetectedError is this message for the markers of the table, in
      table order. */
  lemma MessageListsMarkers(workspaceDir: string, names: seq<string>, k: nat)
    requires k < |names|
    ensures NotFoundMessage(workspaceDir, names) ==
      ErrorPrefix(workspaceDir) + JoinedBefore(names, ", ", k) + names[k] + JoinedAfter(names, ", ", k) + ErrorSuffix
  {
    JoinAround(names, ", ", k);
  }

  // The cases of TestDetectServer (internal/lsp/tests/server_detection_test.go)

  lemma TsconfigSelectsTypeScriptServer(workspaceDir: string)
    ensures Detect(workspaceDir, {"tsconfig.json"}) == Success(Detection("typescript-language-server", ["--stdio"]))
  {
    SingleMarkerSelectsItsRule(workspaceDir, 3);
  }

  lemma GoModBeatsPackageJson(workspaceDir: string)
    ensures Detect(workspaceDir, {"go.mod", "package.json"}) == Success(Detection("gopls", []))
  {
    FirstPresentRuleWins(workspaceDir, {"go.mod", "package.json"}, 0);
  }

  lemma TsconfigBeatsPyproject(workspaceDir: string)
    ensures Detect(workspaceDir, {"tsconfig.json", "pyproject.toml"}) == Success(Detection("typescript-language-server", ["--stdio"]))
  {
    FirstPresentRuleWins(workspaceDir, {"tsconfig.json", "pyproject.toml"}, 3);
  }

  lemma EmptyWorkspaceFails(workspaceDir: string)
    ensures Detect(workspaceDir, {}).Failure?
  {
  }
}
