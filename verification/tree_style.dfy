/** The drawing settings `phyloView.py` gives the tree: a node style per node, with
    leaves of a known family shaded in the family's colour, and the tree style. */
module TreeStyling {
  import opened Wrappers
  import opened Palette

  /** The node-style settings the script assigns; `bgcolor` is `None` while it is
      left at ete3's default. */
  datatype NodeStyle = NodeStyle(shape: string, fgcolor: string, size: nat, bgcolor: Option<string>)

  /** A node of the loaded tree, as `traverse()` yields it: its name and whether it
      is a leaf. */
  datatype Node = Node(name: string, isLeaf: bool)

  /** The style `apply_node_style` gives every node. */
  const DefaultStyle := NodeStyle("circle", "black", 5, None)

  /** The family a node is drawn for: a leaf whose name the mapping gives a
      non-empty family (`if family:` is false for `None` and for `''`). */
  function Shaded(node: Node, mapping: map<string, string>): (b: bool)
    ensures b <==> node.isLeaf && node.name in mapping && mapping[node.name] != ""
  {
    var family := Get(mapping, node.name);
    node.isLeaf && family.Some? && family.value != ""
  }

  /** `apply_node_style(tree)` followed by the loop over `tree.iter_leaves()`. A
      node keeps the default style unless it is a shaded leaf; a shaded leaf gets a
      smaller circle on a background of its family's colour, or grey when the
      family has no colour, passed through `rgb2hex` (`toHex`). */
  method StyleNodes(nodes: seq<Node>, mapping: map<string, string>,
                    colours: map<string, Colour>, toHex: Colour -> string) returns (styles: seq<NodeStyle>)
    ensures |styles| == |nodes|
    ensures forall i :: 0 <= i < |nodes| ==> (styles[i].bgcolor.Some? <==> Shaded(nodes[i], mapping))
    ensures forall i :: 0 <= i < |nodes| && !Shaded(nodes[i], mapping) ==> styles[i] == DefaultStyle
    ensures forall i :: 0 <= i < |nodes| && Shaded(nodes[i], mapping) ==>
              styles[i] == NodeStyle("circle", "black", 2,
                                     Some(toHex(GetOr(colours, mapping[nodes[i].name], Spec("grey")))))
  {
    styles := [];
    var k := 0;
    while k < |nodes|
      invariant k <= |nodes| && |styles| == k
      invariant forall i :: 0 <= i < k ==> styles[i] == DefaultStyle
    {
      styles := styles + [DefaultStyle];
      k := k + 1;
    }
    k := 0;
    while k < |nodes|
      invariant k <= |nodes| && |styles| == |nodes|
      invariant forall i :: k <= i < |nodes| ==> styles[i] == DefaultStyle
      invariant forall i :: 0 <= i < k && !Shaded(nodes[i], mapping) ==> styles[i] == DefaultStyle
      invariant forall i :: 0 <= i < k && Shaded(nodes[i], mapping) ==>
                  styles[i] == NodeStyle("circle", "black", 2,
                                         Some(toHex(GetOr(colours, mapping[nodes[i].name], Spec("grey")))))
    {
      var node := nodes[k];
      if node.isLeaf {
        var family := Get(mapping, node.name);
        if family.Some? && family.value != "" {
          var colour := GetOr(colours, family.value, Spec("grey"));
          styles := styles[k := NodeStyle("circle", "black", 2, Some(toHex(colour)))];
        }
      }
      k := k + 1;
    }
  }

  /** A `TextFace` placed in the title area. */
  datatype TitleFace = TitleFace(text: string, fsize: nat)

  /** The `TreeStyle` attributes the script sets. */
  datatype TreeStyle = TreeStyle(mode: string, rotation: int, branchVerticalMargin: nat,
                                 showLeafName: bool, showBranchLength: bool, showScale: bool,
                                 title: seq<TitleFace>)

  /** A fresh `TreeStyle()`: ete3's defaults for these attributes. */
  const FreshTreeStyle := TreeStyle("r", 0, 0, true, false, true, [])

  /** `n` spaces. */
  function Spaces(n: nat): (r: string)
    ensures |r| == n && forall i :: 0 <= i < n ==> r[i] == ' '
  {
    if n == 0 then "" else " " + Spaces(n - 1)
  }

  /** The layout `main` asks for: circular mode exactly when `circular`, a quarter
      turn only for a rotated rectangular tree, margin 5, leaf names and branch
      lengths shown and the scale hidden, and a title face only for a non-empty
      title, holding 20 spaces before it, in size 50 when circular and 30 if not. */
  predicate LaidOut(ts: TreeStyle, circular: bool, rotate: bool, title: Option<string>)
  {
    && ts.mode == (if circular then "c" else "r")
    && ts.rotation == (if !circular && rotate then 90 else 0)
    && ts.branchVerticalMargin == 5
    && ts.showLeafName && ts.showBranchLength && !ts.showScale
    && (title.None? || title.value == "" ==> ts.title == [])
    && (title.Some? && title.value != "" ==>
          && |ts.title| == 1
          && ts.title[0].fsize == (if circular then 50 else 30)
          && |ts.title[0].text| == 20 + |title.value|
          && (forall i :: 0 <= i < 20 ==> ts.title[0].text[i] == ' ')
          && ts.title[0].text[20..] == title.value)
  }

  /** The tree-style block of `main`: circular or rectangular layout, a title
      only when one is given and non-empty, a quarter turn only for a rotated
      rectangular tree, and the same leaf-name, branch-length, scale and margin
      settings in every case. */
  method ConfigureTreeStyle(circular: bool, rotate: bool, title: Option<string>) returns (ts: TreeStyle)
    ensures LaidOut(ts, circular, rotate, title)
  {
    ts := FreshTreeStyle;
    if circular {
      ts := ts.(mode := "c");
    } else {
      ts := ts.(mode := "r");
    }
    if title.Some? && title.value != "" {
      var fsize := if circular then 50 else 30;
      ts := ts.(title := ts.title + [TitleFace(Spaces(20) + title.value, fsize)]);
    }
    if !circular && rotate {
      ts := ts.(rotation := 90);
    }
    if !circular && !rotate {
      ts := ts.(branchVerticalMargin := 5);
    }
    ts := ts.(showLeafName := true, showBranchLength := true, showScale := false);
    ts := ts.(showLeafName := true, showBranchLength := true, showScale := false);
    ts := ts.(branchVerticalMargin := 5);
  }
}
