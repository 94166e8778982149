/** `utils/fileSystem.ts`: the virtual file tree's locator, upserter, deleter
    and batch applier. The source returns its input array by reference when
    nothing changes; here trees are values and "returned unchanged" is value
    equality. */
module FileSystem {
  import opened Types
  import opened JsStrings
  import opened NameOrder

  /** `nodes.findIndex(n => n.name === name)`. */
  function FindIndex(nodes: seq<Node>, name: string): (i: int)
    ensures -1 <= i < |nodes|
    ensures i >= 0 ==> nodes[i].name == name && forall j :: 0 <= j < i ==> nodes[j].name != name
    ensures i == -1 <==> forall j :: 0 <= j < |nodes| ==> nodes[j].name != name
  {
    if |nodes| == 0 then -1
    else if nodes[0].name == name then 0
    else
      var k := FindIndex(nodes[1..], name);
      if k == -1 then -1 else k + 1
  }

  /** Every sibling list, at every depth, strictly ascending by name: sorted
      and free of duplicate names. */
  predicate WellFormed(nodes: seq<Node>) {
    && StrictlySorted(nodes)
    && forall i :: 0 <= i < |nodes| ==> nodes[i].Folder? ==> WellFormed(nodes[i].children)
  }

  // ===========================================================================
  // Locator: findNodeByPath and getFileContent

  /** The intended meaning of a lookup: follow the segments from the top, one
      sibling list per segment, through folders only. */
  function Walk(nodes: seq<Node>, parts: seq<string>): (r: Option<Node>)
    ensures r.Some? ==> |parts| > 0 && r.value.name == parts[|parts| - 1]
    decreases |parts|
  {
    if |parts| == 0 then None
    else
      var i := FindIndex(nodes, parts[0]);
      if i < 0 then None
      else if |parts| == 1 then Some(nodes[i])
      else if nodes[i].Folder? then Walk(nodes[i].children, parts[1..])
      else None
  }

  /** What the lookup loop returns when it resumes at segment `k` with
      `currentChildren == children` and `currentNode == current`. A file met
      before the end stops the walk only if `parts.indexOf(part)` — the FIRST
      occurrence of that segment's name — is not the last position. */
  function ResolveFrom(children: seq<Node>, parts: seq<string>, k: nat, current: Option<Node>): Option<Node>
    decreases |parts| - k
  {
    if k >= |parts| then current
    else
      var i := FindIndex(children, parts[k]);
      if i < 0 then None
      else
        var n := children[i];
        if n.Folder? then ResolveFrom(n.children, parts, k + 1, Some(n))
        else if FirstIndex(parts, parts[k]) < |parts| - 1 then None
        else ResolveFrom(children, parts, k + 1, Some(n))
  }

  /** The result of `findNodeByPath(nodes, path)`. */
  function Find(nodes: seq<Node>, path: string): Option<Node> {
    ResolveFrom(nodes, Segments(path), 0, None)
  }

  /** `findNodeByPath`: the for-of loop over the segments. */
  method FindNodeByPath(nodes: seq<Node>, path: string) returns (r: Option<Node>)
    ensures r == Find(nodes, path)
    ensures Segments(path) == [] ==> r == None
    ensures r.Some? ==> r == Walk(nodes, Segments(path))
    ensures NoDuplicates(Segments(path)) ==> r == Walk(nodes, Segments(path))
  {
    FindAgreesWithWalk(nodes, path);
    var parts := Segments(path);
    var currentNode: Option<Node> := None;
    var currentChildren := nodes;
    var k := 0;
    while k < |parts|
      invariant 0 <= k <= |parts|
      invariant ResolveFrom(currentChildren, parts, k, currentNode) == Find(nodes, path)
    {
      var part := parts[k];
      var i := FindIndex(currentChildren, part);
      if i < 0 {
        return None;
      }
      currentNode := Some(currentChildren[i]);
      if currentChildren[i].Folder? {
        currentChildren := currentChildren[i].children;
      } else if FirstIndex(parts, part) < |parts| - 1 {
        return None;
      }
      k := k + 1;
    }
    r := currentNode;
  }

  /** `getFileContent`: the content of the file the path leads to (`''` when the
      file has none), or nothing when the lookup fails or ends on a folder. */
  function GetFileContent(nodes: seq<Node>, path: string): (r: Option<string>)
    ensures r.Some? ==>
      var w := Walk(nodes, Segments(path));
      w.Some? && w.value.File? && r.value == w.value.content.GetOr("")
    ensures NoDuplicates(Segments(path)) ==>
      var w := Walk(nodes, Segments(path));
      (r.Some? <==> w.Some? && w.value.File?)
  {
    FindAgreesWithWalk(nodes, path);
    var node := Find(nodes, path);
    if node.Some? && node.value.File? then Some(node.value.content.GetOr("")) else None
  }

  lemma {:induction false} ResolveIsSound(children: seq<Node>, parts: seq<string>, k: nat, current: Option<Node>)
    requires k < |parts|
    ensures ResolveFrom(children, parts, k, current).Some? ==>
      ResolveFrom(children, parts, k, current) == Walk(children, parts[k..])
    decreases |parts| - k
  {
    var i := FindIndex(children, parts[k]);
    if i >= 0 {
      var n := children[i];
      assert parts[k..][0] == parts[k];
      if k + 1 < |parts| {
        assert parts[k..][1..] == parts[k + 1..];
        if n.Folder? {
          ResolveIsSound(n.children, parts, k + 1, Some(n));
        } else if FirstIndex(parts, parts[k]) >= |parts| - 1 {
          assert false;
        }
      }
    }
  }

  lemma {:induction false} ResolveWithDistinctSegments(children: seq<Node>, parts: seq<string>, k: nat, current: Option<Node>)
    requires k < |parts| && NoDuplicates(parts)
    ensures ResolveFrom(children, parts, k, current) == Walk(children, parts[k..])
    decreases |parts| - k
  {
    var i := FindIndex(children, parts[k]);
    assert parts[k..][0] == parts[k];
    if i >= 0 && k + 1 < |parts| {
      assert parts[k..][1..] == parts[k + 1..];
      var n := children[i];
      if n.Folder? {
        ResolveWithDistinctSegments(n.children, parts, k + 1, Some(n));
      } else {
        assert FirstIndex(parts, parts[k]) == k;
      }
    }
  }

  /** Whatever the lookup returns is what the intended walk returns (the
      `indexOf` test can only lose answers, never produce a wrong one), and when
      no segment name repeats the lookup is exactly the intended walk. */
  lemma FindAgreesWithWalk(nodes: seq<Node>, path: string)
    ensures Find(nodes, path).Some? ==> Find(nodes, path) == Walk(nodes, Segments(path))
    ensures NoDuplicates(Segments(path)) ==> Find(nodes, path) == Walk(nodes, Segments(path))
  {
    if |Segments(path)| > 0 {
      ResolveIsSound(nodes, Segments(path), 0, None);
      if NoDuplicates(Segments(path)) {
        ResolveWithDistinctSegments(nodes, Segments(path), 0, None);
      }
    }
  }

  /** The lookup finds nothing for a path made of slashes only. */
  lemma FindAllSlashes(nodes: seq<Node>, path: string)
    requires forall i :: 0 <= i < |path| ==> path[i] == '/'
    ensures Find(nodes, path) == None
  {
    SegmentsEmptyIff(path);
  }

  /** Leading, trailing and doubled slashes do not change what is found. */
  lemma FindIgnoresExtraSlashes(nodes: seq<Node>, x: string, y: string)
    ensures Find(nodes, "/" + x) == Find(nodes, x)
    ensures Find(nodes, x + "/") == Find(nodes, x)
    ensures Find(nodes, x + "//" + y) == Find(nodes, x + "/" + y)
  {
    SegmentsLeadingSlash(x);
    SegmentsTrailingSlash(x);
    SegmentsDoubledSlash(x, y);
  }

  /** The `indexOf` test misfires when a file's name repeats an earlier
      segment: file `a` inside folder `a` is not found by "a/a". */
  lemma FindMissesRepeatedName(c: string)
    ensures var file := File("a", "a", Some(c));
      var tree := [Folder("a", "a", [file])];
      Find(tree, "a/a") == None && Walk(tree, ["a", "a"]) == Some(file)
  {
    var parts := ["a", "a"];
    assert Join(parts) == "a/a";
    SegmentsOfJoin(parts);
    assert FirstIndex(parts, "a") == 0;
  }

  // ===========================================================================
  // Upserter: upsertNodeByPath

  /** `path.substring(0, path.indexOf(part) + part.length)`: the path a node
      created at this level stores. */
  function CurrentPath(path: string, part: string): string {
    Substring(path, 0, IndexOf(path, part) + |part|)
  }

  /** `upsertNodeByPath(nodes, path, type, content)`. The recursive calls
      receive only the remaining segments joined with '/', so a node created
      below the top stores a path relative to its parent. */
  function UpsertNodeByPath(nodes: seq<Node>, path: string, t: NodeType, content: string): seq<Node>
    decreases |Segments(path)|
  {
    var parts := Segments(path);
    if |parts| == 0 then nodes
    else
      var currentPart := parts[0];
      var remainingParts := parts[1..];
      var currentPath := CurrentPath(path, currentPart);
      var nodeIndex := FindIndex(nodes, currentPart);
      if nodeIndex > -1 then
        var existingNode := nodes[nodeIndex];
        if |remainingParts| == 0 then
          if TypeOf(existingNode) != t then nodes  // type conflict: rejected
          else if t == FileType && existingNode.content != Some(content) then
            nodes[nodeIndex := existingNode.(content := Some(content))]
          else nodes  // nothing to change
        else if !existingNode.Folder? then nodes  // descent into a file: rejected
        else
          SegmentsOfJoin(remainingParts);
          var newChildren := UpsertNodeByPath(existingNode.children, Join(remainingParts), t, content);
          if newChildren == existingNode.children then nodes
          else nodes[nodeIndex := existingNode.(children := newChildren)]
      else
        SegmentsOfJoin(remainingParts);
        var newNode :=
          if |remainingParts| > 0 then
            Folder(currentPart, currentPath, UpsertNodeByPath([], Join(remainingParts), t, content))
          else if t == FileType then File(currentPart, currentPath, Some(content))
          else Folder(currentPart, currentPath, []);
        SortByName(nodes + [newNode])
  }

  /** The cases in which there is nothing for an upsert to do: the path is
      empty, or it leads through existing folders to an existing node that has
      the other type, is a folder, or is a file already holding `content`, or
      it meets an existing file before its last segment. */
  predicate NothingToUpsert(nodes: seq<Node>, parts: seq<string>, t: NodeType, content: string)
    decreases |parts|
  {
    || |parts| == 0
    || var i := FindIndex(nodes, parts[0]);
       && i >= 0
       && if |parts| == 1 then
            TypeOf(nodes[i]) != t || nodes[i].Folder? || nodes[i].content == Some(content)
          else
            nodes[i].File? || NothingToUpsert(nodes[i].children, parts[1..], t, content)
  }

  /** The cases the upsert rejects (and the source logs): the node at the last
      segment has the other type, or a segment before the last is a file. */
  predicate UpsertConflict(nodes: seq<Node>, parts: seq<string>, t: NodeType)
    decreases |parts|
  {
    && |parts| > 0
    && var i := FindIndex(nodes, parts[0]);
       && i >= 0
       && if |parts| == 1 then TypeOf(nodes[i]) != t
          else nodes[i].File? || UpsertConflict(nodes[i].children, parts[1..], t)
  }

  /** The node an upsert creates for a missing segment: a chain of folders down
      to the leaf, the leaf a file holding `content` or an empty folder. Below
      the top every stored path is the node's own name. */
  function NewNode(path: string, parts: seq<string>, t: NodeType, content: string): Node
    requires |parts| >= 1
    decreases |parts|
  {
    if |parts| == 1 then
      if t == FileType then File(parts[0], path, Some(content)) else Folder(parts[0], path, [])
    else Folder(parts[0], path, [NewNode(parts[1], parts[1..], t, content)])
  }

  lemma RemainingSegments(path: string)
    requires |Segments(path)| > 0
    ensures Segments(Join(Segments(path)[1..])) == Segments(path)[1..]
  {
    SegmentsOfJoin(Segments(path)[1..]);
  }

  /** The stored path of a node created at the top: the leading slashes of the
      path followed by its first segment. */
  lemma StoredPathShape(path: string)
    requires |Segments(path)| > 0
    ensures var seg, n := Segments(path)[0], LeadingSlashes(path);
      var stored := CurrentPath(path, seg);
      && n + |seg| <= |path|
      && stored == path[..n + |seg|]
      && stored[n..] == seg
      && forall i :: 0 <= i < n ==> stored[i] == '/'
  {
    IndexOfFirstSegment(path);
    FirstSegmentPosition(path);
  }

  lemma {:induction false} JoinStartsWithHead(parts: seq<string>)
    requires |parts| > 0
    ensures |parts[0]| <= |Join(parts)| && Join(parts)[..|parts[0]|] == parts[0]
  {
  }

  /** Below the top the path passed down starts with its first segment, which
      is therefore the whole stored path. */
  lemma CurrentPathOfJoin(parts: seq<string>)
    requires |parts| > 0 && ProperSegments(parts)
    ensures CurrentPath(Join(parts), parts[0]) == parts[0]
  {
    JoinStartsWithHead(parts);
    assert OccursAt(Join(parts), parts[0], 0);
  }

  /** `nodes.findIndex` only looks at names. */
  lemma FindIndexSameNames(a: seq<Node>, b: seq<Node>, name: string)
    requires |a| == |b| && forall j :: 0 <= j < |a| ==> a[j].name == b[j].name
    ensures FindIndex(a, name) == FindIndex(b, name)
  {
  }

  /** After inserting a node under a fresh name, the name leads to that node. */
  lemma FindIndexOfInserted(nodes: seq<Node>, x: Node)
    requires FindIndex(nodes, x.name) == -1
    ensures var r := SortByName(nodes + [x]);
      FindIndex(r, x.name) >= 0 && r[FindIndex(r, x.name)] == x
  {
    var r := SortByName(nodes + [x]);
    assert x in multiset(r);
    assert x in r;
    var k := FindIndex(r, x.name);
    assert r[k] in multiset(nodes + [x]);
    assert r[k] in nodes + [x];
  }

  /** A missing first segment: the node built for it, appended, then the
      list sorted. */
  lemma UpsertMissingUnfold(nodes: seq<Node>, path: string, t: NodeType, content: string)
    requires |Segments(path)| > 0 && FindIndex(nodes, Segments(path)[0]) == -1
    ensures var parts := Segments(path);
      var currentPath := CurrentPath(path, parts[0]);
      UpsertNodeByPath(nodes, path, t, content) == SortByName(nodes + [
        if |parts| > 1 then Folder(parts[0], currentPath, UpsertNodeByPath([], Join(parts[1..]), t, content))
        else if t == FileType then File(parts[0], currentPath, Some(content))
        else Folder(parts[0], currentPath, [])])
  {
  }

  /** Upserting into an empty list creates the whole chain down to the leaf. */
  lemma {:induction false} UpsertIntoEmpty(path: string, t: NodeType, content: string)
    requires |Segments(path)| > 0
    ensures var parts := Segments(path);
      UpsertNodeByPath([], path, t, content) == [NewNode(CurrentPath(path, parts[0]), parts, t, content)]
    decreases |Segments(path)|
  {
    var parts := Segments(path);
    var rest := parts[1..];
    var currentPath := CurrentPath(path, parts[0]);
    var n := NewNode(currentPath, parts, t, content);
    UpsertMissingUnfold([], path, t, content);
    if |rest| > 0 {
      RemainingSegments(path);
      UpsertIntoEmpty(Join(rest), t, content);
      CurrentPathOfJoin(rest);
      var below := UpsertNodeByPath([], Join(rest), t, content);
      assert below == [NewNode(rest[0], rest, t, content)];
      assert n == Folder(parts[0], currentPath, below);
      SortSingleton(Folder(parts[0], currentPath, below));
    } else {
      SortSingleton(n);
    }
  }

  /** Below a new folder, the chain is what upserting the remaining segments
      into an empty list creates. */
  lemma NewChainChildren(path: string, t: NodeType, content: string)
    requires |Segments(path)| > 1
    ensures var parts := Segments(path);
      NewNode(CurrentPath(path, parts[0]), parts, t, content).children
        == UpsertNodeByPath([], Join(parts[1..]), t, content)
  {
    var parts := Segments(path);
    var rest := parts[1..];
    RemainingSegments(path);
    UpsertIntoEmpty(Join(rest), t, content);
    CurrentPathOfJoin(rest);
    assert rest[0] == parts[1];
  }

  /** A missing first segment adds exactly one node, the new chain, to the
      list, which is then sorted by name; when the list was sorted, the other
      entries keep their order around it. */
  lemma UpsertMissing(nodes: seq<Node>, path: string, t: NodeType, content: string)
    requires |Segments(path)| > 0 && FindIndex(nodes, Segments(path)[0]) == -1
    ensures var parts := Segments(path);
      var n := NewNode(CurrentPath(path, parts[0]), parts, t, content);
      var r := UpsertNodeByPath(nodes, path, t, content);
      && r == SortByName(nodes + [n])
      && |r| == |nodes| + 1
      && multiset(r) == multiset(nodes) + multiset{n}
      && (Sorted(nodes) ==> r == InsertByName(n, nodes))
  {
    var parts := Segments(path);
    var rest := parts[1..];
    if |rest| > 0 {
      SegmentsOfJoin(rest);
      UpsertIntoEmpty(Join(rest), t, content);
      CurrentPathOfJoin(rest);
      assert rest[1..] == parts[2..];
    }
    var n := NewNode(CurrentPath(path, parts[0]), parts, t, content);
    if Sorted(nodes) {
      SortAppended(nodes, n);
    }
  }

  /** An existing first segment keeps the list's length and order: only that
      entry may change, it keeps its name, stored path and type, and it becomes
      either the file with the new content or the folder with the upserted
      children. */
  lemma UpsertExisting(nodes: seq<Node>, path: string, t: NodeType, content: string)
    requires |Segments(path)| > 0 && FindIndex(nodes, Segments(path)[0]) >= 0
    ensures var parts, i := Segments(path), FindIndex(nodes, Segments(path)[0]);
      var r := UpsertNodeByPath(nodes, path, t, content);
      && |r| == |nodes|
      && (forall j :: 0 <= j < |nodes| && j != i ==> r[j] == nodes[j])
      && r[i].name == nodes[i].name && r[i].path == nodes[i].path && TypeOf(r[i]) == TypeOf(nodes[i])
      && (|parts| == 1 ==> r[i] == nodes[i] || r[i] == nodes[i].(content := Some(content)))
      && (|parts| > 1 && nodes[i].Folder? ==>
            r[i] == nodes[i].(children := UpsertNodeByPath(nodes[i].children, Join(parts[1..]), t, content)))
      && (|parts| > 1 && nodes[i].File? ==> r == nodes)
  {
  }

  /** The upsert returns its input unchanged exactly when there is nothing to
      upsert: this is what the source's `=== nodes` checks rely on. */
  lemma {:induction false} UpsertUnchangedIff(nodes: seq<Node>, path: string, t: NodeType, content: string)
    ensures UpsertNodeByPath(nodes, path, t, content) == nodes <==> NothingToUpsert(nodes, Segments(path), t, content)
    decreases |Segments(path)|
  {
    var parts := Segments(path);
    if |parts| > 0 {
      var i := FindIndex(nodes, parts[0]);
      var r := UpsertNodeByPath(nodes, path, t, content);
      if i >= 0 {
        var rest := parts[1..];
        if |rest| > 0 && nodes[i].Folder? {
          RemainingSegments(path);
          UpsertUnchangedIff(nodes[i].children, Join(rest), t, content);
          if r == nodes {
            assert r[i].children == nodes[i].children;
          }
        } else if |rest| == 0 && r == nodes {
          assert r[i] == nodes[i];
        }
      } else {
        UpsertMissing(nodes, path, t, content);
      }
    }
  }

  /** After an upsert there is nothing left to upsert. */
  lemma {:induction false} UpsertSettles(nodes: seq<Node>, path: string, t: NodeType, content: string)
    ensures NothingToUpsert(UpsertNodeByPath(nodes, path, t, content), Segments(path), t, content)
    decreases |Segments(path)|
  {
    var parts := Segments(path);
    if |parts| > 0 {
      var i := FindIndex(nodes, parts[0]);
      var rest := parts[1..];
      if |rest| > 0 {
        RemainingSegments(path);
        if i >= 0 && nodes[i].Folder? {
          UpsertSettles(nodes[i].children, Join(rest), t, content);
        } else if i < 0 {
          UpsertSettles([], Join(rest), t, content);
        }
      }
      if i >= 0 {
        SettlesExisting(nodes, path, t, content);
      } else {
        SettlesMissing(nodes, path, t, content);
      }
    }
  }

  lemma SettlesExisting(nodes: seq<Node>, path: string, t: NodeType, content: string)
    requires |Segments(path)| > 0 && FindIndex(nodes, Segments(path)[0]) >= 0
    requires var parts, i := Segments(path), FindIndex(nodes, Segments(path)[0]);
      |parts| > 1 && nodes[i].Folder? ==>
        NothingToUpsert(UpsertNodeByPath(nodes[i].children, Join(parts[1..]), t, content), parts[1..], t, content)
    ensures NothingToUpsert(UpsertNodeByPath(nodes, path, t, content), Segments(path), t, content)
  {
    var parts := Segments(path);
    var r := UpsertNodeByPath(nodes, path, t, content);
    UpsertExisting(nodes, path, t, content);
    FindIndexSameNames(r, nodes, parts[0]);
  }

  lemma SettlesMissing(nodes: seq<Node>, path: string, t: NodeType, content: string)
    requires |Segments(path)| > 0 && FindIndex(nodes, Segments(path)[0]) == -1
    requires var parts := Segments(path);
      |parts| > 1 ==> NothingToUpsert(UpsertNodeByPath([], Join(parts[1..]), t, content), parts[1..], t, content)
    ensures NothingToUpsert(UpsertNodeByPath(nodes, path, t, content), Segments(path), t, content)
  {
    var parts := Segments(path);
    var rest := parts[1..];
    var r := UpsertNodeByPath(nodes, path, t, content);
    var n := NewNode(CurrentPath(path, parts[0]), parts, t, content);
    UpsertMissing(nodes, path, t, content);
    FindIndexOfInserted(nodes, n);
    var k := FindIndex(r, parts[0]);
    assert r[k] == n;
    if |rest| > 0 {
      NewChainChildren(path, t, content);
      assert n.Folder? && n.children == UpsertNodeByPath([], Join(rest), t, content);
    } else {
      assert t == FileType ==> n.content == Some(content);
    }
  }

  /** Upserting the same node twice is the same as upserting it once. */
  lemma UpsertIdempotent(nodes: seq<Node>, path: string, t: NodeType, content: string)
    ensures var once := UpsertNodeByPath(nodes, path, t, content);
      UpsertNodeByPath(once, path, t, content) == once
  {
    var once := UpsertNodeByPath(nodes, path, t, content);
    UpsertSettles(nodes, path, t, content);
    UpsertUnchangedIff(once, path, t, content);
  }

  /** A rejected upsert (type conflict, or descent into a file) changes nothing. */
  lemma {:induction false} UpsertRejected(nodes: seq<Node>, path: string, t: NodeType, content: string)
    requires UpsertConflict(nodes, Segments(path), t)
    ensures UpsertNodeByPath(nodes, path, t, content) == nodes
    decreases |Segments(path)|
  {
    var parts := Segments(path);
    var i := FindIndex(nodes, parts[0]);
    if |parts| > 1 && nodes[i].Folder? {
      RemainingSegments(path);
      UpsertRejected(nodes[i].children, Join(parts[1..]), t, content);
    }
  }

  lemma {:induction false} UpsertThenWalk(nodes: seq<Node>, path: string, t: NodeType, content: string)
    requires |Segments(path)| > 0 && !UpsertConflict(nodes, Segments(path), t)
    ensures var w := Walk(UpsertNodeByPath(nodes, path, t, content), Segments(path));
      w.Some? && TypeOf(w.value) == t && (t == FileType ==> w.value.content == Some(content))
    decreases |Segments(path)|
  {
    var parts := Segments(path);
    var i := FindIndex(nodes, parts[0]);
    var rest := parts[1..];
    if |rest| > 0 {
      RemainingSegments(path);
      if i >= 0 {
        UpsertThenWalk(nodes[i].children, Join(rest), t, content);
      } else {
        UpsertThenWalk([], Join(rest), t, content);
      }
    }
    if i >= 0 {
      WalkExisting(nodes, path, t, content);
    } else {
      WalkMissing(nodes, path, t, content);
    }
  }

  lemma WalkExisting(nodes: seq<Node>, path: string, t: NodeType, content: string)
    requires |Segments(path)| > 0 && !UpsertConflict(nodes, Segments(path), t)
    requires FindIndex(nodes, Segments(path)[0]) >= 0
    requires var parts, i := Segments(path), FindIndex(nodes, Segments(path)[0]);
      |parts| > 1 ==>
        var w := Walk(UpsertNodeByPath(nodes[i].children, Join(parts[1..]), t, content), parts[1..]);
        w.Some? && TypeOf(w.value) == t && (t == FileType ==> w.value.content == Some(content))
    ensures var w := Walk(UpsertNodeByPath(nodes, path, t, content), Segments(path));
      w.Some? && TypeOf(w.value) == t && (t == FileType ==> w.value.content == Some(content))
  {
    var parts := Segments(path);
    var r := UpsertNodeByPath(nodes, path, t, content);
    UpsertExisting(nodes, path, t, content);
    FindIndexSameNames(r, nodes, parts[0]);
  }

  lemma WalkMissing(nodes: seq<Node>, path: string, t: NodeType, content: string)
    requires |Segments(path)| > 0 && FindIndex(nodes, Segments(path)[0]) == -1
    requires var parts := Segments(path);
      |parts| > 1 ==>
        var w := Walk(UpsertNodeByPath([], Join(parts[1..]), t, content), parts[1..]);
        w.Some? && TypeOf(w.value) == t && (t == FileType ==> w.value.content == Some(content))
    ensures var w := Walk(UpsertNodeByPath(nodes, path, t, content), Segments(path));
      w.Some? && TypeOf(w.value) == t && (t == FileType ==> w.value.content == Some(content))
  {
    var parts := Segments(path);
    var rest := parts[1..];
    var r := UpsertNodeByPath(nodes, path, t, content);
    var n := NewNode(CurrentPath(path, parts[0]), parts, t, content);
    UpsertMissing(nodes, path, t, content);
    FindIndexOfInserted(nodes, n);
    var k := FindIndex(r, parts[0]);
    assert r[k] == n;
    if |rest| > 0 {
      NewChainChildren(path, t, content);
      assert Walk(r, parts) == Walk(n.children, rest);
    } else {
      assert Walk(r, parts) == Some(n);
    }
  }

  /** Unless rejected, an upsert leaves the path leading to a node of the
      requested type, a file holding the requested content; when no segment
      name repeats, `findNodeByPath` then finds it. */
  lemma FindAfterUpsert(nodes: seq<Node>, path: string, t: NodeType, content: string)
    requires |Segments(path)| > 0 && !UpsertConflict(nodes, Segments(path), t)
    requires NoDuplicates(Segments(path))
    ensures var f := Find(UpsertNodeByPath(nodes, path, t, content), path);
      f.Some? && TypeOf(f.value) == t && (t == FileType ==> f.value.content == Some(content))
  {
    UpsertThenWalk(nodes, path, t, content);
    FindAgreesWithWalk(UpsertNodeByPath(nodes, path, t, content), path);
  }

  /** The upsert keeps every sibling list sorted by name and free of
      duplicate names. */
  lemma {:induction false} UpsertKeepsWellFormed(nodes: seq<Node>, path: string, t: NodeType, content: string)
    requires WellFormed(nodes)
    ensures WellFormed(UpsertNodeByPath(nodes, path, t, content))
    decreases |Segments(path)|
  {
    var parts := Segments(path);
    if |parts| > 0 {
      var i := FindIndex(nodes, parts[0]);
      var rest := parts[1..];
      if |rest| > 0 {
        RemainingSegments(path);
        if i >= 0 && nodes[i].Folder? {
          UpsertKeepsWellFormed(nodes[i].children, Join(rest), t, content);
        } else if i < 0 {
          UpsertKeepsWellFormed([], Join(rest), t, content);
        }
      }
      if i >= 0 {
        WellFormedExisting(nodes, path, t, content);
      } else {
        WellFormedMissing(nodes, path, t, content);
      }
    }
  }

  lemma WellFormedExisting(nodes: seq<Node>, path: string, t: NodeType, content: string)
    requires WellFormed(nodes)
    requires |Segments(path)| > 0 && FindIndex(nodes, Segments(path)[0]) >= 0
    requires var parts, i := Segments(path), FindIndex(nodes, Segments(path)[0]);
      |parts| > 1 && nodes[i].Folder? ==>
        WellFormed(UpsertNodeByPath(nodes[i].children, Join(parts[1..]), t, content))
    ensures WellFormed(UpsertNodeByPath(nodes, path, t, content))
  {
    UpsertExisting(nodes, path, t, content);
  }

  lemma WellFormedMissing(nodes: seq<Node>, path: string, t: NodeType, content: string)
    requires WellFormed(nodes)
    requires |Segments(path)| > 0 && FindIndex(nodes, Segments(path)[0]) == -1
    requires var parts := Segments(path);
      |parts| > 1 ==> WellFormed(UpsertNodeByPath([], Join(parts[1..]), t, content))
    ensures WellFormed(UpsertNodeByPath(nodes, path, t, content))
  {
    var parts := Segments(path);
    var rest := parts[1..];
    var n := NewNode(CurrentPath(path, parts[0]), parts, t, content);
    StrictlySortedIsSorted(nodes);
    UpsertMissing(nodes, path, t, content);
    if |rest| > 0 {
      NewChainChildren(path, t, content);
    }
    assert n.Folder? ==> WellFormed(n.children);
    InsertKeepsWellFormed(n, nodes);
  }

  lemma InsertKeepsWellFormed(n: Node, nodes: seq<Node>)
    requires WellFormed(nodes) && FindIndex(nodes, n.name) == -1
    requires n.Folder? ==> WellFormed(n.children)
    ensures WellFormed(InsertByName(n, nodes))
  {
    var r := InsertByName(n, nodes);
    InsertStrictlySorted(n, nodes);
    forall j | 0 <= j < |r| && r[j].Folder? ensures WellFormed(r[j].children) {
      assert r[j] in multiset(nodes) + multiset{n};
      if r[j] != n {
        assert r[j] in nodes;
      }
    }
  }

  // ===========================================================================
  // Deleter: deleteNodeByPath

  /** `deleteNodeByPath(nodes, path)`. Ancestor folders that become empty are
      kept. */
  function DeleteNodeByPath(nodes: seq<Node>, path: string): seq<Node>
    decreases |Segments(path)|
  {
    var parts := Segments(path);
    if |parts| == 0 then nodes
    else
      var currentPart := parts[0];
      var remainingParts := parts[1..];
      var nodeIndex := FindIndex(nodes, currentPart);
      if nodeIndex == -1 then nodes
      else if |remainingParts| == 0 then nodes[..nodeIndex] + nodes[nodeIndex + 1..]
      else
        var existingNode := nodes[nodeIndex];
        if !existingNode.Folder? then nodes
        else
          SegmentsOfJoin(remainingParts);
          var newChildren := DeleteNodeByPath(existingNode.children, Join(remainingParts));
          if newChildren == existingNode.children then nodes
          else nodes[nodeIndex := existingNode.(children := newChildren)]
  }

  /** At the last segment the entry is removed and the rest keep their order;
      before it, the list keeps its length and order, only the entry on the
      path may change and it stays a folder of the same name and stored path,
      even when its last child goes. */
  lemma DeleteExisting(nodes: seq<Node>, path: string)
    requires |Segments(path)| > 0 && FindIndex(nodes, Segments(path)[0]) >= 0
    ensures var parts, i := Segments(path), FindIndex(nodes, Segments(path)[0]);
      var r := DeleteNodeByPath(nodes, path);
      && (|parts| == 1 ==> r == nodes[..i] + nodes[i + 1..] && |r| == |nodes| - 1)
      && (|parts| > 1 ==>
            && |r| == |nodes|
            && (forall j :: 0 <= j < |nodes| && j != i ==> r[j] == nodes[j])
            && (nodes[i].File? ==> r == nodes)
            && (nodes[i].Folder? ==>
                  r[i] == nodes[i].(children := DeleteNodeByPath(nodes[i].children, Join(parts[1..])))))
  {
  }

  /** Below the first segment, the delete rewrites the folder on the path with
      its children's delete. */
  lemma DeleteNested(nodes: seq<Node>, path: string)
    requires |Segments(path)| > 1 && FindIndex(nodes, Segments(path)[0]) >= 0
    requires nodes[FindIndex(nodes, Segments(path)[0])].Folder?
    ensures var i := FindIndex(nodes, Segments(path)[0]);
      DeleteNodeByPath(nodes, path)
        == nodes[i := nodes[i].(children := DeleteNodeByPath(nodes[i].children, Join(Segments(path)[1..])))]
  {
  }

  /** The delete returns its input unchanged exactly when the path leads to
      no node. */
  lemma {:induction false} DeleteUnchangedIff(nodes: seq<Node>, path: string)
    ensures DeleteNodeByPath(nodes, path) == nodes <==> Walk(nodes, Segments(path)).None?
    decreases |Segments(path)|
  {
    var parts := Segments(path);
    if |parts| > 0 {
      var i := FindIndex(nodes, parts[0]);
      var r := DeleteNodeByPath(nodes, path);
      if i >= 0 {
        if |parts| == 1 {
          assert |r| < |nodes|;
        } else if nodes[i].Folder? {
          RemainingSegments(path);
          DeleteUnchangedIff(nodes[i].children, Join(parts[1..]));
          if r == nodes {
            assert r[i].children == nodes[i].children;
          }
        }
      }
    }
  }

  /** In a well-formed tree, after a delete the path leads to no node, so
      `findNodeByPath` finds nothing there. */
  lemma {:induction false} DeleteThenWalk(nodes: seq<Node>, path: string)
    requires WellFormed(nodes)
    ensures Walk(DeleteNodeByPath(nodes, path), Segments(path)) == None
    decreases |Segments(path)|
  {
    var parts := Segments(path);
    if |parts| > 0 {
      var i := FindIndex(nodes, parts[0]);
      var r := DeleteNodeByPath(nodes, path);
      if i >= 0 {
        if |parts| == 1 {
          forall j | 0 <= j < |r| ensures r[j].name != parts[0] {
            if j >= i {
              assert r[j] == nodes[j + 1];
              LessIrreflexive(parts[0]);
            }
          }
        } else if nodes[i].Folder? {
          RemainingSegments(path);
          DeleteThenWalk(nodes[i].children, Join(parts[1..]));
          DeleteExisting(nodes, path);
          FindIndexSameNames(r, nodes, parts[0]);
        }
      }
    }
  }

  lemma FindAfterDelete(nodes: seq<Node>, path: string)
    requires WellFormed(nodes)
    ensures Find(DeleteNodeByPath(nodes, path), path) == None
  {
    DeleteThenWalk(nodes, path);
    FindAgreesWithWalk(DeleteNodeByPath(nodes, path), path);
  }

  /** The delete keeps every sibling list sorted by name and free of
      duplicate names. */
  lemma {:induction false} DeleteKeepsWellFormed(nodes: seq<Node>, path: string)
    requires WellFormed(nodes)
    ensures WellFormed(DeleteNodeByPath(nodes, path))
    decreases |Segments(path)|
  {
    var parts := Segments(path);
    if |parts| > 0 {
      var i := FindIndex(nodes, parts[0]);
      if i >= 0 {
        if |parts| == 1 {
          RemoveKeepsWellFormed(nodes, i);
        } else if nodes[i].Folder? {
          RemainingSegments(path);
          var c := DeleteNodeByPath(nodes[i].children, Join(parts[1..]));
          DeleteKeepsWellFormed(nodes[i].children, Join(parts[1..]));
          DeleteNested(nodes, path);
          ReplaceChildrenKeepsWellFormed(nodes, i, c);
        }
      }
    }
  }

  lemma RemoveKeepsWellFormed(nodes: seq<Node>, i: nat)
    requires WellFormed(nodes) && i < |nodes|
    ensures WellFormed(nodes[..i] + nodes[i + 1..])
  {
    var r := nodes[..i] + nodes[i + 1..];
    forall a, b | 0 <= a < b < |r| ensures Less(r[a].name, r[b].name) {
      var a', b' := if a < i then a else a + 1, if b < i then b else b + 1;
      assert r[a] == nodes[a'] && r[b] == nodes[b'];
    }
    forall j | 0 <= j < |r| && r[j].Folder? ensures WellFormed(r[j].children) {
      assert r[j] == nodes[if j < i then j else j + 1];
    }
  }

  lemma ReplaceChildrenKeepsWellFormed(nodes: seq<Node>, i: nat, c: seq<Node>)
    requires WellFormed(nodes) && i < |nodes| && nodes[i].Folder? && WellFormed(c)
    ensures WellFormed(nodes[i := nodes[i].(children := c)])
  {
    var r := nodes[i := nodes[i].(children := c)];
    assert forall j :: 0 <= j < |r| ==> r[j].name == nodes[j].name;
  }

  // ===========================================================================
  // Batch applier: applyOperations

  /** One step of the `reduce`: CREATE and UPDATE become upserts (UPDATE of a
      missing path creates the file), DELETE a delete, anything else nothing. */
  function ApplyOperation(tree: seq<Node>, op: FileOperation): seq<Node> {
    match op
    case CreateFile(path, content) => UpsertNodeByPath(tree, path, FileType, content)
    case CreateFolder(path) => UpsertNodeByPath(tree, path, FolderType, "")
    case Update(path, content) => UpsertNodeByPath(tree, path, FileType, content)
    case Delete(path) => DeleteNodeByPath(tree, path)
    case Unrecognized => tree
  }

  /** `applyOperations`: a left fold, each operation applied to the tree the
      previous one produced. */
  function ApplyOperations(tree: seq<Node>, operations: seq<FileOperation>): seq<Node>
    decreases |operations|
  {
    if |operations| == 0 then tree
    else ApplyOperations(ApplyOperation(tree, operations[0]), operations[1..])
  }

  /** What one operation does to the tree: a CREATE or UPDATE that is not
      rejected leaves its path leading to a node of the requested kind (an
      UPDATE of a missing path creates the file), a rejected one changes
      nothing, a DELETE leaves nothing at its path, anything else changes
      nothing. */
  lemma ApplyOperationEffect(tree: seq<Node>, op: FileOperation)
    requires WellFormed(tree)
    ensures op.Unrecognized? ==> ApplyOperation(tree, op) == tree
    ensures op.Delete? ==> Find(ApplyOperation(tree, op), op.path) == None
    ensures ((op.CreateFile? || op.Update?) && UpsertConflict(tree, Segments(op.path), FileType))
      ==> ApplyOperation(tree, op) == tree
    ensures (op.CreateFolder? && UpsertConflict(tree, Segments(op.path), FolderType))
      ==> ApplyOperation(tree, op) == tree
    ensures (op.CreateFile? || op.Update?) && |Segments(op.path)| > 0 && NoDuplicates(Segments(op.path))
              && !UpsertConflict(tree, Segments(op.path), FileType) ==>
        var f := Find(ApplyOperation(tree, op), op.path);
        f.Some? && f.value.File? && f.value.content == Some(op.content)
    ensures op.CreateFolder? && |Segments(op.path)| > 0 && NoDuplicates(Segments(op.path))
              && !UpsertConflict(tree, Segments(op.path), FolderType) ==>
        var f := Find(ApplyOperation(tree, op), op.path);
        f.Some? && f.value.Folder?
  {
    match op {
      case CreateFile(path, content) =>
        if UpsertConflict(tree, Segments(path), FileType) {
          UpsertRejected(tree, path, FileType, content);
        } else if |Segments(path)| > 0 && NoDuplicates(Segments(path)) {
          FindAfterUpsert(tree, path, FileType, content);
        }
      case Update(path, content) =>
        if UpsertConflict(tree, Segments(path), FileType) {
          UpsertRejected(tree, path, FileType, content);
        } else if |Segments(path)| > 0 && NoDuplicates(Segments(path)) {
          FindAfterUpsert(tree, path, FileType, content);
        }
      case CreateFolder(path) =>
        if UpsertConflict(tree, Segments(path), FolderType) {
          UpsertRejected(tree, path, FolderType, "");
        } else if |Segments(path)| > 0 && NoDuplicates(Segments(path)) {
          FindAfterUpsert(tree, path, FolderType, "");
        }
      case Delete(path) => FindAfterDelete(tree, path);
      case Unrecognized =>
    }
  }

  /** Applying two batches one after the other is applying their concatenation. */
  lemma {:induction false} ApplyOperationsConcat(tree: seq<Node>, a: seq<FileOperation>, b: seq<FileOperation>)
    ensures ApplyOperations(tree, a + b) == ApplyOperations(ApplyOperations(tree, a), b)
    decreases |a|
  {
    if |a| > 0 {
      assert (a + b)[0] == a[0] && (a + b)[1..] == a[1..] + b;
      ApplyOperationsConcat(ApplyOperation(tree, a[0]), a[1..], b);
    } else {
      assert a + b == b;
    }
  }

  /** Every batch keeps the tree well-formed. */
  lemma {:induction false} ApplyOperationsKeepWellFormed(tree: seq<Node>, operations: seq<FileOperation>)
    requires WellFormed(tree)
    ensures WellFormed(ApplyOperations(tree, operations))
    decreases |operations|
  {
    if |operations| > 0 {
      var op := operations[0];
      match op {
        case CreateFile(path, content) => UpsertKeepsWellFormed(tree, path, FileType, content);
        case CreateFolder(path) => UpsertKeepsWellFormed(tree, path, FolderType, "");
        case Update(path, content) => UpsertKeepsWellFormed(tree, path, FileType, content);
        case Delete(path) => DeleteKeepsWellFormed(tree, path);
        case Unrecognized =>
      }
      ApplyOperationsKeepWellFormed(ApplyOperation(tree, op), operations[1..]);
    }
  }

  lemma TwoSegments(x: string, y: string)
    requires x != "" && y != "" && SlashFree(x) && SlashFree(y)
    ensures Segments(x + "/" + y) == [x, y]
    ensures CurrentPath(x + "/" + y, x) == x
  {
    assert Join([x, y]) == x + "/" + y;
    SegmentsOfJoin([x, y]);
    CurrentPathOfJoin([x, y]);
  }

  /** Creating `x/y` in an empty tree gives folder `x` holding file `y`; the
      file's stored path is `y`, not `x/y`. */
  lemma CreateNestedFileInEmptyTree(x: string, y: string, content: string)
    requires x != "" && y != "" && SlashFree(x) && SlashFree(y)
    ensures ApplyOperations([], [CreateFile(x + "/" + y, content)])
      == [Folder(x, x, [File(y, y, Some(content))])]
  {
    TwoSegments(x, y);
    UpsertIntoEmpty(x + "/" + y, FileType, content);
  }

  lemma SpliceReplace(s: seq<Node>, k: nat, u: Node, v: Node)
    requires k <= |s|
    ensures (s[..k] + [u] + s[k..])[k := v] == s[..k] + [v] + s[k..]
  {
    var a, b := (s[..k] + [u] + s[k..])[k := v], s[..k] + [v] + s[k..];
    assert |a| == |b|;
    forall j | 0 <= j < |a| ensures a[j] == b[j] {
      if j < k { assert a[j] == s[j]; } else if j > k { assert a[j] == s[j - 1]; }
    }
  }

  /** A fresh name spliced in at position k is found at position k. */
  lemma FindIndexOfSpliced(nodes: seq<Node>, k: nat, n: Node)
    requires k <= |nodes| && FindIndex(nodes, n.name) == -1
    ensures FindIndex(nodes[..k] + [n] + nodes[k..], n.name) == k
  {
    var s := nodes[..k] + [n] + nodes[k..];
    forall j | 0 <= j < k ensures s[j].name != n.name {
      assert s[j] == nodes[j];
    }
    FindIndexAt(s, n.name, k);
  }

  /** The first position holding a name is where `findIndex` stops. */
  lemma FindIndexAt(s: seq<Node>, name: string, k: nat)
    requires k < |s| && s[k].name == name
    requires forall j :: 0 <= j < k ==> s[j].name != name
    ensures FindIndex(s, name) == k
  {
    var i := FindIndex(s, name);
    assert i != -1;
    assert !(i > k);
  }

  /** Removing the only child of a folder spliced in at k leaves that folder
      in place, empty. */
  lemma DeleteSplicedChild(nodes: seq<Node>, k: nat, x: string, y: string, content: string)
    requires x != "" && y != "" && SlashFree(x) && SlashFree(y)
    requires k <= |nodes| && FindIndex(nodes, x) == -1
    ensures DeleteNodeByPath(nodes[..k] + [Folder(x, x, [File(y, y, Some(content))])] + nodes[k..], x + "/" + y)
      == nodes[..k] + [Folder(x, x, [])] + nodes[k..]
  {
    var p := x + "/" + y;
    TwoSegments(x, y);
    var full := Folder(x, x, [File(y, y, Some(content))]);
    var created := nodes[..k] + [full] + nodes[k..];
    FindIndexOfSpliced(nodes, k, full);
    assert DeleteNodeByPath(full.children, y) == [] by {
      assert Join([y]) == y;
      SegmentsOfJoin([y]);
    }
    DeleteNested(created, p);
    assert Join(Segments(p)[1..]) == y;
    SpliceReplace(nodes, k, full, Folder(x, x, []));
  }

  /** Creating `x/y` and then deleting it leaves folder `x`, now empty, in
      place of nothing: empty ancestors are not pruned. */
  lemma CreateThenDeleteKeepsFolder(nodes: seq<Node>, x: string, y: string, content: string)
    requires x != "" && y != "" && SlashFree(x) && SlashFree(y)
    requires Sorted(nodes) && FindIndex(nodes, x) == -1
    ensures ApplyOperations(nodes, [CreateFile(x + "/" + y, content), Delete(x + "/" + y)])
      == InsertByName(Folder(x, x, []), nodes)
  {
    var p := x + "/" + y;
    var full := Folder(x, x, [File(y, y, Some(content))]);
    var k := InsertionPoint(x, nodes);
    var created := UpsertNodeByPath(nodes, p, FileType, content);
    assert created == nodes[..k] + [full] + nodes[k..] by {
      TwoSegments(x, y);
      UpsertMissing(nodes, p, FileType, content);
      InsertSplits(full, nodes);
    }
    DeleteSplicedChild(nodes, k, x, y, content);
    InsertSplits(Folder(x, x, []), nodes);
    var ops := [CreateFile(p, content), Delete(p)];
    assert ApplyOperations(nodes, ops) == ApplyOperations(created, ops[1..]);
    assert ApplyOperations(created, ops[1..]) == DeleteNodeByPath(created, p);
  }
}
