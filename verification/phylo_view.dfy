/** `main` of `phyloView.py`: from the mapping file, the palette option, the loaded
    tree and the layout options to the colours and styles the tree is shown with. */
module PhyloView {
  import opened Wrappers
  import opened PyStr
  import opened ColonLines
  import opened LeafMapping
  import opened Families
  import opened Palette
  import opened TreeStyling

  /** Everything `main` computes before `tree.show`. */
  datatype Rendering = Rendering(families: seq<string>, colours: map<string, Colour>,
                                 styles: seq<NodeStyle>, treeStyle: TreeStyle)

  /** The palette option names a palette file, which is then read. */
  predicate PaletteFileGiven(paletteArg: Option<string>)
  {
    paletteArg.Some? && paletteArg.value != "" && EndsWith(paletteArg.value, ".txt")
  }

  /** The seaborn scheme used when no palette file is given: the option itself, or
      `pastel` when it is absent or empty. */
  function SchemeRequested(paletteArg: Option<string>): string
  {
    if paletteArg.Some? && paletteArg.value != "" then paletteArg.value else "pastel"
  }

  /** `main`. The files' contents are given as their lines, the tree as its nodes in
      traversal order, seaborn's `color_palette` as `scheme` and `rgb2hex` as
      `toHex`. The only error is a malformed palette file line. */
  method Run(mappingLines: seq<string>, paletteArg: Option<string>, paletteLines: seq<string>,
             nodes: seq<Node>, circular: bool, rotate: bool, title: Option<string>,
             scheme: (string, nat) -> seq<Colour>, toHex: Colour -> string)
    returns (r: Result<Rendering, PaletteError>)
    ensures r.Failure? <==> PaletteFileGiven(paletteArg) && exists i :: RejectedAt(paletteLines, PaletteEntry, i)
    ensures r.Success? ==>
              var mapping := LoadMapping(mappingLines);
              && StrictlyIncreasing(r.value.families)
              && Elements(r.value.families) == mapping.Values
              && |r.value.styles| == |nodes|
              && (forall i :: 0 <= i < |nodes| ==> (r.value.styles[i].bgcolor.Some? <==> Shaded(nodes[i], mapping)))
    ensures r.Success? ==>
              && ChoosePalette(paletteArg, paletteLines).Success?
              && r.value.colours == GenerateColours(ChoosePalette(paletteArg, paletteLines).value,
                                                    r.value.families, scheme, toHex)
    ensures r.Success? ==>
              var mapping := LoadMapping(mappingLines);
              && (forall i :: 0 <= i < |nodes| && !Shaded(nodes[i], mapping) ==> r.value.styles[i] == DefaultStyle)
              && (forall i :: 0 <= i < |nodes| && Shaded(nodes[i], mapping) ==>
                    r.value.styles[i] == NodeStyle("circle", "black", 2,
                      Some(toHex(GetOr(r.value.colours, mapping[nodes[i].name], Spec("grey"))))))
    ensures r.Success? ==> LaidOut(r.value.treeStyle, circular, rotate, title)
    ensures r.Success? && (PaletteFileGiven(paletteArg) ||
                           |scheme(SchemeRequested(paletteArg), |r.value.families|)| >= |r.value.families|) ==>
              var mapping := LoadMapping(mappingLines);
              forall i :: 0 <= i < |nodes| && Shaded(nodes[i], mapping) ==>
                && mapping[nodes[i].name] in r.value.colours
                && r.value.styles[i].bgcolor == Some(toHex(r.value.colours[mapping[nodes[i].name]]))
  {
    var mapping := LoadMapping(mappingLines);
    var families := SortedFamilies(mapping);
    var palette := ChoosePalette(paletteArg, paletteLines);
    if palette.Failure? {
      return Failure(palette.error);
    }
    var colours := GenerateColours(palette.value, families, scheme, toHex);
    var styles := StyleNodes(nodes, mapping, colours, toHex);
    var ts := ConfigureTreeStyle(circular, rotate, title);
    ChosenPalette(paletteArg, paletteLines);
    if palette.value.SchemeName? ==> |scheme(palette.value.name, |families|)| >= |families| {
      ColoursCoverFamilies(palette.value, families, scheme, toHex);
      ShadedLeavesCovered(nodes, mapping, families, colours, styles, toHex);
    }
    r := Success(Rendering(families, colours, styles, ts));
  }

  /** The palette `main` goes on with: a palette file exactly when the option names
      a `.txt` file, and otherwise the scheme the option names, or `pastel`. */
  lemma ChosenPalette(paletteArg: Option<string>, paletteLines: seq<string>)
    requires ChoosePalette(paletteArg, paletteLines).Success?
    ensures ChoosePalette(paletteArg, paletteLines).value.Explicit? <==> PaletteFileGiven(paletteArg)
    ensures ChoosePalette(paletteArg, paletteLines).value.SchemeName? ==>
              ChoosePalette(paletteArg, paletteLines).value.name == SchemeRequested(paletteArg)
  {
  }

  /** When every family has a colour, a shaded leaf's background is its own
      family's colour and never the grey fallback. */
  lemma ShadedLeavesCovered(nodes: seq<Node>, mapping: map<string, string>, families: seq<string>,
                            colours: map<string, Colour>, styles: seq<NodeStyle>, toHex: Colour -> string)
    requires Elements(families) == mapping.Values
    requires forall f :: f in families ==> f in colours
    requires |styles| == |nodes|
    requires forall i :: 0 <= i < |nodes| && Shaded(nodes[i], mapping) ==>
               styles[i] == NodeStyle("circle", "black", 2,
                                      Some(toHex(GetOr(colours, mapping[nodes[i].name], Spec("grey")))))
    ensures forall i :: 0 <= i < |nodes| && Shaded(nodes[i], mapping) ==>
              && mapping[nodes[i].name] in colours
              && styles[i].bgcolor == Some(toHex(colours[mapping[nodes[i].name]]))
  {
    forall i | 0 <= i < |nodes| && Shaded(nodes[i], mapping)
      ensures mapping[nodes[i].name] in colours
    {
      assert mapping[nodes[i].name] in mapping.Values;
    }
  }
}
