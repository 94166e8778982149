/** `services/geminiService.ts`: the two functions that turn the tree into the
    text sent to the code generator, an indented outline of names and the
    concatenated contents of every file. */
module Serializer {
  import opened Types

  // ===========================================================================
  // serializeFileSystem

  /** The line emitted for one node: indent, name, `/` for a folder, newline. */
  function Line(n: Node, indent: string): string {
    indent + n.name + (if n.Folder? then "/" else "") + "\n"
  }

  /** What `serializeFileSystem(nodes, indent)` returns: the nodes' lines in
      sibling order, each folder's children right after the folder's line
      with the indent extended by two spaces. */
  function Outline(nodes: seq<Node>, indent: string): string
    decreases nodes
  {
    if nodes == [] then ""
    else
      Line(nodes[0], indent)
      + (if nodes[0].Folder? then Outline(nodes[0].children, indent + "  ") else "")
      + Outline(nodes[1..], indent)
  }

  /** Moving a piece from what is left to what is done keeps the total. */
  lemma AppendPiece(done: string, left: string, piece: string, rest: string)
    requires left == piece + rest
    ensures (done + piece) + rest == done + left
  {
  }

  /** One turn of the `serializeFileSystem` loop: appending node k's lines
      keeps what is left to append equal to the outline of the rest. */
  lemma OutlineStep(nodes: seq<Node>, k: nat, indent: string, done: string, piece: string)
    requires k < |nodes| && done + Outline(nodes[k..], indent) == Outline(nodes, indent)
    requires piece == Line(nodes[k], indent)
      + (if nodes[k].Folder? then Outline(nodes[k].children, indent + "  ") else "")
    ensures (done + piece) + Outline(nodes[k + 1..], indent) == Outline(nodes, indent)
  {
    assert nodes[k..][0] == nodes[k] && nodes[k..][1..] == nodes[k + 1..];
    AppendPiece(done, Outline(nodes[k..], indent), piece, Outline(nodes[k + 1..], indent));
  }

  /** `serializeFileSystem`: the `for ... of` loop appending to `result`,
      recursing into each folder's children. */
  method SerializeFileSystem(nodes: seq<Node>, indent: string) returns (result: string)
    ensures result == Outline(nodes, indent)
    decreases nodes
  {
    result := "";
    var k := 0;
    while k < |nodes|
      invariant 0 <= k <= |nodes|
      invariant result + Outline(nodes[k..], indent) == Outline(nodes, indent)
    {
      var node := nodes[k];
      var piece := Line(node, indent);
      if node.Folder? {
        var inner := SerializeFileSystem(node.children, indent + "  ");
        piece := piece + inner;
      }
      OutlineStep(nodes, k, indent, result, piece);
      result := result + piece;
      k := k + 1;
    }
    assert nodes[k..] == [];
  }

  // ===========================================================================
  // getFileContents

  /** `${node.content}` in a template literal: an absent content prints as
      `undefined`. */
  function Shown(content: Option<string>): string {
    match content
    case Some(s) => s
    case None => "undefined"
  }

  /** The block emitted for one file. */
  function Block(n: Node): (r: string)
    requires n.File?
    ensures |r| > 0
  {
    "\n--- FILE: " + n.path + " ---\n" + Shown(n.content) + "\n"
  }

  /** What `getFileContents(nodes)` returns: a block per file, folders
      contributing only their children's blocks. (A node is a file or a
      folder, so the source's two `if`s never both fire.) */
  function FileContents(nodes: seq<Node>): string
    decreases nodes
  {
    if nodes == [] then ""
    else
      (if nodes[0].File? then Block(nodes[0]) else FileContents(nodes[0].children))
      + FileContents(nodes[1..])
  }

  lemma FileContentsHead(s: seq<Node>)
    requires s != []
    ensures FileContents(s)
      == (if s[0].File? then Block(s[0]) else FileContents(s[0].children)) + FileContents(s[1..])
  {
  }

  /** One turn of the `getFileContents` loop: appending node k's text keeps
      what is left to append equal to the file section of the rest. */
  lemma FileContentsStep(nodes: seq<Node>, k: nat, done: string, piece: string)
    requires k < |nodes| && done + FileContents(nodes[k..]) == FileContents(nodes)
    requires piece == if nodes[k].File? then Block(nodes[k]) else FileContents(nodes[k].children)
    ensures (done + piece) + FileContents(nodes[k + 1..]) == FileContents(nodes)
  {
    var s := nodes[k..];
    assert s[0] == nodes[k] && s[1..] == nodes[k + 1..];
    FileContentsHead(s);
    AppendPiece(done, FileContents(s), piece, FileContents(nodes[k + 1..]));
  }

  /** `getFileContents`: the same loop shape as `serializeFileSystem`. */
  method GetFileContents(nodes: seq<Node>) returns (result: string)
    ensures result == FileContents(nodes)
    decreases nodes
  {
    result := "";
    var k := 0;
    while k < |nodes|
      invariant 0 <= k <= |nodes|
      invariant result + FileContents(nodes[k..]) == FileContents(nodes)
    {
      var node := nodes[k];
      var piece := "";
      if node.File? {
        piece := Block(node);
      }
      if node.Folder? {
        piece := GetFileContents(node.children);
      }
      FileContentsStep(nodes, k, result, piece);
      result := result + piece;
      k := k + 1;
    }
    assert nodes[k..] == [];
  }

  // ===========================================================================
  // Reference: the pre-order listing of the tree, rendered afterwards

  /** A node met by the pre-order walk, with its depth below the top. */
  datatype Visit = Visit(depth: nat, node: Node)

  /** Every node of the tree, each folder followed by its subtree, siblings
      in order. */
  function Preorder(nodes: seq<Node>, depth: nat): (r: seq<Visit>)
    ensures nodes != [] ==> |r| > 0 && r[0] == Visit(depth, nodes[0])
    ensures forall i :: 0 <= i < |r| ==> r[i].depth >= depth
    ensures nodes != [] && nodes[0].Folder? ==>
      && |Preorder(nodes[0].children, depth + 1)| < |r|
      && forall i :: 1 <= i <= |Preorder(nodes[0].children, depth + 1)| ==> r[i].depth > depth
    decreases nodes
  {
    if nodes == [] then []
    else
      [Visit(depth, nodes[0])]
      + (if nodes[0].Folder? then Preorder(nodes[0].children, depth + 1) else [])
      + Preorder(nodes[1..], depth)
  }

  /** The number of nodes in the tree. */
  function Size(nodes: seq<Node>): nat
    decreases nodes
  {
    if nodes == [] then 0
    else 1 + (if nodes[0].Folder? then Size(nodes[0].children) else 0) + Size(nodes[1..])
  }

  function Spaces(n: nat): (s: string)
    ensures |s| == n && forall i :: 0 <= i < n ==> s[i] == ' '
  {
    if n == 0 then "" else Spaces(n - 1) + " "
  }

  /** Every visit printed on its own line, indented two spaces per level. */
  function Render(visits: seq<Visit>, indent: string): string {
    if visits == [] then ""
    else Line(visits[0].node, indent + Spaces(2 * visits[0].depth)) + Render(visits[1..], indent)
  }

  /** The files of a visit list, in order. */
  function FilesOf(visits: seq<Visit>): (r: seq<Node>)
    ensures forall i :: 0 <= i < |r| ==> r[i].File?
  {
    if visits == [] then []
    else (if visits[0].node.File? then [visits[0].node] else []) + FilesOf(visits[1..])
  }

  function Blocks(files: seq<Node>): string
    requires forall i :: 0 <= i < |files| ==> files[i].File?
  {
    if files == [] then "" else Block(files[0]) + Blocks(files[1..])
  }

  lemma {:induction false} RenderAppend(a: seq<Visit>, b: seq<Visit>, indent: string)
    ensures Render(a + b, indent) == Render(a, indent) + Render(b, indent)
    decreases |a|
  {
    if a != [] {
      assert (a + b)[1..] == a[1..] + b;
      RenderAppend(a[1..], b, indent);
    } else {
      assert a + b == b;
    }
  }

  lemma {:induction false} FilesOfAppend(a: seq<Visit>, b: seq<Visit>)
    ensures FilesOf(a + b) == FilesOf(a) + FilesOf(b)
    decreases |a|
  {
    if a != [] {
      assert (a + b)[1..] == a[1..] + b;
      FilesOfAppend(a[1..], b);
    } else {
      assert a + b == b;
    }
  }

  lemma {:induction false} BlocksAppend(a: seq<Node>, b: seq<Node>)
    requires forall i :: 0 <= i < |a| ==> a[i].File?
    requires forall i :: 0 <= i < |b| ==> b[i].File?
    ensures Blocks(a + b) == Blocks(a) + Blocks(b)
    decreases |a|
  {
    if a != [] {
      assert (a + b)[1..] == a[1..] + b;
      BlocksAppend(a[1..], b);
    } else {
      assert a + b == b;
    }
  }

  lemma DeeperIndent(indent: string, depth: nat)
    ensures indent + Spaces(2 * depth) + "  " == indent + Spaces(2 * (depth + 1))
  {
    assert Spaces(2 * (depth + 1)) == Spaces(2 * depth) + " " + " ";
  }

  /** The outline is the pre-order walk printed line by line: one line per
      node, a folder's subtree right below it, two spaces of indent per level
      on top of the caller's indent. */
  lemma {:induction false} OutlineIsRenderedPreorder(nodes: seq<Node>, indent: string, depth: nat)
    ensures Outline(nodes, indent + Spaces(2 * depth)) == Render(Preorder(nodes, depth), indent)
    decreases nodes
  {
    if nodes != [] {
      var n := nodes[0];
      var here := indent + Spaces(2 * depth);
      var sub := if n.Folder? then Preorder(n.children, depth + 1) else [];
      var rest := Preorder(nodes[1..], depth);
      assert Preorder(nodes, depth) == ([Visit(depth, n)] + sub) + rest;
      OutlineIsRenderedPreorder(nodes[1..], indent, depth);
      RenderAppend([Visit(depth, n)] + sub, rest, indent);
      RenderAppend([Visit(depth, n)], sub, indent);
      assert Render([Visit(depth, n)], indent) == Line(n, here);
      if n.Folder? {
        OutlineIsRenderedPreorder(n.children, indent, depth + 1);
        DeeperIndent(indent, depth);
        assert Render(sub, indent) == Outline(n.children, here + "  ");
      } else {
        assert Render(sub, indent) == "";
      }
    }
  }

  /** The pre-order walk visits every node once. */
  lemma {:induction false} PreorderCountsEveryNode(nodes: seq<Node>, depth: nat)
    ensures |Preorder(nodes, depth)| == Size(nodes)
    decreases nodes
  {
    if nodes != [] {
      PreorderCountsEveryNode(nodes[1..], depth);
      if nodes[0].Folder? {
        PreorderCountsEveryNode(nodes[0].children, depth + 1);
      }
    }
  }

  /** The outline of a list with an empty outline is empty, and only that. */
  lemma OutlineEmptyIff(nodes: seq<Node>, indent: string)
    ensures Outline(nodes, indent) == "" <==> nodes == []
  {
    if nodes != [] {
      assert |Line(nodes[0], indent)| > 0;
    }
  }

  /** The file section is the blocks of the tree's files taken in pre-order. */
  lemma {:induction false} FileContentsArePreorderBlocks(nodes: seq<Node>, depth: nat)
    ensures FileContents(nodes) == Blocks(FilesOf(Preorder(nodes, depth)))
    decreases nodes
  {
    if nodes != [] {
      var n := nodes[0];
      var sub := if n.Folder? then Preorder(n.children, depth + 1) else [];
      var rest := Preorder(nodes[1..], depth);
      assert Preorder(nodes, depth) == ([Visit(depth, n)] + sub) + rest;
      FileContentsArePreorderBlocks(nodes[1..], depth);
      FilesOfAppend([Visit(depth, n)] + sub, rest);
      FilesOfAppend([Visit(depth, n)], sub);
      var head := FilesOf([Visit(depth, n)]);
      var own := head + FilesOf(sub);
      BlocksAppend(own, FilesOf(rest));
      BlocksAppend(head, FilesOf(sub));
      if n.Folder? {
        FileContentsArePreorderBlocks(n.children, depth + 1);
        assert head == [];
        assert Blocks(own) == FileContents(n.children);
      } else {
        assert head == [n] && sub == [];
        assert Blocks(own) == Block(n);
      }
    }
  }

  lemma {:induction false} BlocksEmptyIff(files: seq<Node>)
    requires forall i :: 0 <= i < |files| ==> files[i].File?
    ensures Blocks(files) == "" <==> files == []
  {
    if files != [] {
      assert |Block(files[0])| > 0;
    }
  }

  /** The file section is empty exactly when the tree holds no file. */
  lemma FileContentsEmptyIff(nodes: seq<Node>)
    ensures FileContents(nodes) == "" <==> FilesOf(Preorder(nodes, 0)) == []
  {
    FileContentsArePreorderBlocks(nodes, 0);
    BlocksEmptyIff(FilesOf(Preorder(nodes, 0)));
  }
}
