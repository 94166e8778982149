/** `App.tsx`: the open-tab state and the submit handler of the studio. The
    React state cells become the fields of `Workspace`; the code generator is
    outside the model and its outcome is passed to `HandleSubmit`. */
module App {
  import opened Types
  import opened JsStrings
  import opened FileSystem

  // ===========================================================================
  // Open tabs

  /** The list of open paths, in opening order, and the active one. */
  datatype Tabs = Tabs(open: seq<string>, active: Option<string>)

  /** No path is open twice and the active path, if any, is open. */
  predicate TabsValid(t: Tabs) {
    NoDuplicates(t.open) && (t.active.Some? ==> t.active.value in t.open)
  }

  /** `handleFileSelect(path)`: append the path when it is not open yet, then
      make it active. */
  function Select(t: Tabs, path: string): Tabs {
    Tabs(if path in t.open then t.open else t.open + [path], Some(path))
  }

  /** The last element of a list of paths, or nothing for an empty list. */
  function LastOf(paths: seq<string>): (r: Option<string>)
    ensures r.Some? <==> |paths| > 0
    ensures r.Some? ==> r.value == paths[|paths| - 1]
  {
    if |paths| > 0 then Some(paths[|paths| - 1]) else None
  }

  /** `handleCloseFile(path)`: remove the path; when it was the active one, the
      last remaining path becomes active, or none when no path remains. */
  function Close(t: Tabs, path: string): Tabs {
    var remaining := Without(t.open, path);
    Tabs(remaining, if t.active == Some(path) then LastOf(remaining) else t.active)
  }

  /** Selecting makes the path active and open, keeps every open path open in
      its place, and adds at most the selected one at the end. */
  lemma SelectOpensAndActivates(t: Tabs, path: string)
    ensures var r := Select(t, path);
      && r.active == Some(path)
      && path in r.open
      && |t.open| <= |r.open| <= |t.open| + 1
      && r.open[..|t.open|] == t.open
      && (forall q :: q in r.open <==> q in t.open || q == path)
  {
  }

  /** Selecting never opens a path twice. */
  lemma SelectKeepsValid(t: Tabs, path: string)
    requires TabsValid(t)
    ensures TabsValid(Select(t, path))
  {
    var r := Select(t, path);
    if path !in t.open {
      forall i, j | 0 <= i < j < |r.open| ensures r.open[i] != r.open[j] {
        if j == |t.open| {
          assert r.open[i] == t.open[i];
        }
      }
    }
  }

  /** Selecting the same path twice is selecting it once. */
  lemma SelectIdempotent(t: Tabs, path: string)
    ensures Select(Select(t, path), path) == Select(t, path)
  {
    SelectOpensAndActivates(t, path);
  }

  lemma {:induction false} WithoutAbsent(a: seq<string>, x: string)
    requires x !in a
    ensures Without(a, x) == a
    decreases |a|
  {
    if |a| > 0 {
      WithoutAbsent(a[1..], x);
      assert a == [a[0]] + a[1..];
    }
  }

  /** In a list without duplicates, the filter removes exactly the one
      position holding `x` and keeps every other path in its order. */
  lemma {:induction false} WithoutRemovesOne(a: seq<string>, x: string)
    requires NoDuplicates(a) && x in a
    ensures var i := FirstIndex(a, x);
      Without(a, x) == a[..i] + a[i + 1..]
    decreases |a|
  {
    var i := FirstIndex(a, x);
    if a[0] == x {
      assert x !in a[1..];
      WithoutAbsent(a[1..], x);
    } else {
      var tail := a[1..];
      assert NoDuplicates(tail) by {
        forall p, q | 0 <= p < q < |tail| ensures tail[p] != tail[q] {
          assert tail[p] == a[p + 1] && tail[q] == a[q + 1];
        }
      }
      assert x in tail;
      WithoutRemovesOne(tail, x);
      assert FirstIndex(tail, x) == i - 1;
      assert a[..i] == [a[0]] + tail[..i - 1];
      assert a[i + 1..] == tail[i..];
    }
  }

  lemma {:induction false} WithoutAppended(a: seq<string>, x: string)
    requires x !in a
    ensures Without(a + [x], x) == a
    decreases |a|
  {
    if |a| == 0 {
      assert Without([x], x) == [] + Without([], x);
    } else {
      assert (a + [x])[1..] == a[1..] + [x];
      WithoutAppended(a[1..], x);
      assert a == [a[0]] + a[1..];
    }
  }

  lemma {:induction false} WithoutKeepsNoDuplicates(a: seq<string>, x: string)
    requires NoDuplicates(a)
    ensures NoDuplicates(Without(a, x))
    decreases |a|
  {
    if |a| > 0 {
      WithoutKeepsNoDuplicates(a[1..], x);
      var rest := Without(a[1..], x);
      assert a[0] !in a[1..];
      assert a[0] !in rest;
    }
  }

  /** Closing removes exactly the closed path and keeps the others in their
      order; the active path moves only when it was the one closed, and then
      to the last path still open. */
  lemma CloseRemovesPath(t: Tabs, path: string)
    ensures var r := Close(t, path);
      && path !in r.open
      && (forall q :: q != path ==> (q in r.open <==> q in t.open))
      && (path !in t.open ==> r.open == t.open)
      && (NoDuplicates(t.open) && path in t.open ==>
            var i := FirstIndex(t.open, path);
            r.open == t.open[..i] + t.open[i + 1..])
      && (t.active != Some(path) ==> r.active == t.active)
      && (t.active == Some(path) ==>
            if |r.open| > 0 then r.active == Some(r.open[|r.open| - 1]) else r.active == None)
  {
    if path !in t.open {
      WithoutAbsent(t.open, path);
    } else if NoDuplicates(t.open) {
      WithoutRemovesOne(t.open, path);
    }
  }

  /** Closing keeps the tabs free of duplicates and the active path open. */
  lemma CloseKeepsValid(t: Tabs, path: string)
    requires TabsValid(t)
    ensures TabsValid(Close(t, path))
  {
    WithoutKeepsNoDuplicates(t.open, path);
  }

  /** Opening a path that was not open and closing it again gives back the
      open list; the active path falls to the last of them. */
  lemma SelectThenClose(t: Tabs, path: string)
    requires path !in t.open
    ensures Close(Select(t, path), path) == Tabs(t.open, LastOf(t.open))
  {
    WithoutAppended(t.open, path);
  }

  /** Closing a path that is not open changes nothing. */
  lemma CloseAbsent(t: Tabs, path: string)
    requires TabsValid(t) && path !in t.open
    ensures Close(t, path) == t
  {
    WithoutAbsent(t.open, path);
  }

  // ===========================================================================
  // Submit

  datatype RightPanelTab = Preview | Reasoning

  /** The outcome of `generateCode(prompt, fileSystem)`: the parsed response,
      or the rejection with its `message`. */
  datatype Generation = Generated(response: GeminiResponse) | Failed(message: string)

  const EmptyPromptError := "Prompt cannot be empty."
  const UnknownError := "An unknown error occurred."

  /** `e.message || "An unknown error occurred."` */
  function ErrorText(message: string): (r: string)
    ensures r != ""
    ensures message != "" ==> r == message
    ensures message == "" ==> r == UnknownError
  {
    if message == "" then UnknownError else message
  }

  /** The position of the first CREATE in a batch, or -1. */
  function FirstCreateIndex(ops: seq<FileOperation>): (i: int)
    ensures -1 <= i < |ops|
    ensures i >= 0 ==> ops[i].IsCreate() && forall j :: 0 <= j < i ==> !ops[j].IsCreate()
    ensures i == -1 <==> forall j :: 0 <= j < |ops| ==> !ops[j].IsCreate()
  {
    if |ops| == 0 then -1
    else if ops[0].IsCreate() then 0
    else
      var i := FirstCreateIndex(ops[1..]);
      if i == -1 then -1 else i + 1
  }

  /** `operations.find(op => op.action === 'CREATE')`. */
  function FirstCreate(ops: seq<FileOperation>): Option<FileOperation> {
    var i := FirstCreateIndex(ops);
    if i >= 0 then Some(ops[i]) else None
  }

  /** The path the submit handler opens after applying a response: the first
      CREATE's path, when it leads to a file in the new tree. */
  function CreatedFileToOpen(tree: seq<Node>, ops: seq<FileOperation>): (r: Option<string>)
    ensures r.Some? ==> exists op :: FirstCreate(ops) == Some(op) && op.path == r.value
    ensures r.Some? ==> Find(tree, r.value).Some? && Find(tree, r.value).value.File?
    ensures FirstCreate(ops).Some? && Find(tree, FirstCreate(ops).value.path).Some?
      && Find(tree, FirstCreate(ops).value.path).value.File?
      ==> r == Some(FirstCreate(ops).value.path)
  {
    match FirstCreate(ops)
    case None => None
    case Some(op) =>
      var found := Find(tree, op.path);
      if found.Some? && found.value.File? then Some(op.path) else None
  }

  /** The tabs after a successful submit: the created file selected, if any. */
  function AfterResponse(t: Tabs, tree: seq<Node>, ops: seq<FileOperation>): Tabs {
    match CreatedFileToOpen(tree, ops)
    case Some(path) => Select(t, path)
    case None => t
  }

  /** Every state cell of the studio at one moment, the open tabs grouped. */
  datatype View = View(
    prompt: string, fileSystem: seq<Node>, tabs: Tabs, htmlOutput: string,
    reasoning: string, error: Option<string>, activeRightTab: RightPanelTab)

  class Workspace {
    var prompt: string
    var fileSystem: seq<Node>
    var openFilePaths: seq<string>
    var activeFilePath: Option<string>
    var htmlOutput: string
    var reasoning: string
    var error: Option<string>
    var activeRightTab: RightPanelTab

    function CurrentTabs(): Tabs
      reads this
    {
      Tabs(openFilePaths, activeFilePath)
    }

    function Snapshot(): View
      reads this
    {
      View(prompt, fileSystem, CurrentTabs(), htmlOutput, reasoning, error, activeRightTab)
    }

    /** Open paths are distinct, the active one is open, and the tree is
        sorted and free of duplicate names at every level. */
    ghost predicate Valid()
      reads this
    {
      TabsValid(CurrentTabs()) && WellFormed(fileSystem)
    }

    /** The initial state of every cell. */
    constructor ()
      ensures Valid()
      ensures prompt == "" && fileSystem == [] && openFilePaths == [] && activeFilePath == None
      ensures htmlOutput == "" && reasoning == "" && error == None && activeRightTab == Preview
    {
      prompt := "";
      fileSystem := [];
      openFilePaths := [];
      activeFilePath := None;
      htmlOutput := "";
      reasoning := "";
      error := None;
      activeRightTab := Preview;
    }

    method HandleFileSelect(path: string)
      requires Valid()
      modifies this
      ensures Valid()
      ensures Snapshot() == old(Snapshot()).(tabs := Select(old(CurrentTabs()), path))
    {
      SelectKeepsValid(CurrentTabs(), path);
      if path !in openFilePaths {
        openFilePaths := openFilePaths + [path];
      }
      activeFilePath := Some(path);
    }

    method HandleCloseFile(path: string)
      requires Valid()
      modifies this
      ensures Valid()
      ensures Snapshot() == old(Snapshot()).(tabs := Close(old(CurrentTabs()), path))
    {
      CloseKeepsValid(CurrentTabs(), path);
      var remainingFiles := Without(openFilePaths, path);
      if activeFilePath == Some(path) {
        activeFilePath := if |remainingFiles| > 0 then Some(remainingFiles[|remainingFiles| - 1]) else None;
      }
      openFilePaths := remainingFiles;
    }

    /** `handleSubmit`, given what the generator returns for the current
        prompt and tree. A blank prompt only sets the error. A failure clears
        the reasoning and sets the error, leaving the tree alone. A success
        replaces the tree with the operations applied to it, shows the
        response, clears the prompt, and opens the first created path when it
        leads to a file. */
    method HandleSubmit(generated: Generation)
      requires Valid()
      modifies this
      ensures Valid()
      ensures IsBlank(old(prompt)) ==>
        Snapshot() == old(Snapshot()).(error := Some(EmptyPromptError))
      ensures !IsBlank(old(prompt)) && generated.Failed? ==>
        Snapshot() == old(Snapshot()).(error := Some(ErrorText(generated.message)), reasoning := "")
      ensures !IsBlank(old(prompt)) && generated.Generated? ==>
        var response := generated.response;
        var tree := ApplyOperations(old(fileSystem), response.operations);
        Snapshot() == View("", tree, AfterResponse(old(CurrentTabs()), tree, response.operations),
                           response.htmlOutput, response.reasoning, None, Preview)
    {
      TrimEmptyIff(prompt);
      if Trim(prompt) == "" {
        error := Some(EmptyPromptError);
        return;
      }
      error := None;
      reasoning := "";
      match generated {
        case Failed(message) =>
          error := Some(ErrorText(message));
        case Generated(result) =>
          ShowResponse(result);
      }
    }

    /** The body of the `try` after the generator answered: install the new
        tree, show the response, clear the prompt, open the created file. */
    method ShowResponse(result: GeminiResponse)
      requires Valid()
      modifies this
      ensures Valid()
      ensures var tree := ApplyOperations(old(fileSystem), result.operations);
        Snapshot() == View("", tree, AfterResponse(old(CurrentTabs()), tree, result.operations),
                           result.htmlOutput, result.reasoning, old(error), Preview)
    {
      ApplyOperationsKeepWellFormed(fileSystem, result.operations);
      var newFileSystem := ApplyOperations(fileSystem, result.operations);
      fileSystem := newFileSystem;
      htmlOutput := result.htmlOutput;
      reasoning := result.reasoning;
      activeRightTab := Preview;
      prompt := "";
      OpenCreatedFile(result.operations);
    }

    /** The end of a successful submit: open the first CREATE's path when the
        tree now holds a file there. */
    method OpenCreatedFile(operations: seq<FileOperation>)
      requires Valid()
      modifies this
      ensures Valid()
      ensures Snapshot() == old(Snapshot()).(tabs := AfterResponse(old(CurrentTabs()), fileSystem, operations))
    {
      var createdFile := FirstCreate(operations);
      if createdFile.Some? {
        var found := FindNodeByPath(fileSystem, createdFile.value.path);
        if found.Some? && found.value.File? {
          HandleFileSelect(createdFile.value.path);
        }
      }
    }
  }
}
