# PhyloPipe core, in Dafny

PhyloPipe is made of two small Python scripts. They prepare a FASTA file and colour
a phylogenetic tree by family. This project models what those scripts compute,
and proves properties of that model:

- `space_to_underscore.py` normalises FASTA headers. A header line is a line that
  starts with `>`. It is cut at its first comma and stripped of surrounding
  whitespace. Every space in it becomes an underscore, and it ends with exactly one
  newline. Every other line is copied as read (modules `SpaceToUnderscore` and
  `PyStr`).
- `phyloView.py` does several things:
  - It reads a `leaf:family` mapping file (`LeafMapping`).
  - It lists the distinct families in sorted order (`Families`).
  - It reads a palette. The palette is either a seaborn scheme name or a
    `family:colour` `.txt` file. From it, the script builds one colour per family
    (`Palette`).
  - It gives every tree node a default style, and shades each leaf of a known
    family in that family's colour (`TreeStyling`).
  - It sets the layout options: circular or rectangular, rotation, title, and
    margins (`TreeStyling`).
  - `PhyloView.Run` composes these steps, as `main` does.

The Python string built-ins the scripts use are defined over `seq<char>` in `PyStr`:

- `strip` removes the full `str.isspace` character set.
- `split` is for one-character separators.
- `replace`, `startswith` and `endswith` are modelled, along with the code-point
  ordering that `sorted` uses on strings.

`ColonLines` holds the `key:value` line format that both input files share. It also
holds the assignment loop that builds a dictionary from such lines.

Files are modelled as their sequence of lines, as a text-mode iterator yields them.
The foreign libraries are parameters:

- The loaded ete3 tree is a sequence of nodes, each with a name and a leaf flag, in
  traversal order.
- seaborn's `color_palette(name, n_colors)` is a function `scheme` from a name and a
  count to a sequence of colours.
- matplotlib's `rgb2hex` is a function `toHex` from a colour to a string.
- A colour is either a specification string, such as `grey` or a hex code, or an RGB
  triple.

Two places where the code is more precise than a plain reading of its comments:

- A leaf whose mapped family is the empty string keeps the default style, because
  `if family:` is false for `''`.
- A shaded leaf gets node size 2.

Also, the margin set only for unrotated rectangular trees (phyloView.py:132-133)
is overwritten by the unconditional assignment at line 143. The margin is therefore
5 in every layout.

## Model

| member | source | states |
|---|---|---|
| PyStr.LeadingSpace | space_to_underscore.py:8 | The leading run that `lstrip` removes is all whitespace, and the character after it is not whitespace. |
| PyStr.TrailingSpace | space_to_underscore.py:8 | The trailing run that `rstrip` removes is all whitespace, and the character before it is not whitespace. |
| PyStr.Strip | space_to_underscore.py:8 | `strip` returns a contiguous slice of its input with only whitespace on either side, and that slice has non-space ends. |
| PyStr.StripChars | space_to_underscore.py:8 | `strip` introduces no character that was not in its input. |
| PyStr.StripFixed | space_to_underscore.py:8 | Text with non-space ends, followed by any whitespace, strips back to exactly that text. |
| PyStr.StripIdempotent | space_to_underscore.py:8 | Stripping an already stripped string changes nothing. |
| PyStr.IndexOf | space_to_underscore.py:8 | The position of the first occurrence, as `find` gives it, with absence reported as the length of the string rather than -1. |
| PyStr.Split | phyloView.py:25 | `split(sep)` returns one more piece than there are separators. No piece contains the separator, and joining the pieces gives the input back. |
| PyStr.SplitJoin | phyloView.py:25 | Splitting a join of separator-free pieces returns those pieces. |
| PyStr.SplitInTwo | phyloView.py:25-26 | A string splits into exactly two pieces iff it holds exactly one separator. The pieces are then the text before and after it. |
| PyStr.Replace | space_to_underscore.py:10 | `replace` keeps the length and substitutes exactly the target character at every position. |
| PyStr.LessIrreflexive | phyloView.py:78 | No string sorts before itself. |
| PyStr.LessTransitive | phyloView.py:78 | String order is transitive. |
| PyStr.LessTotal | phyloView.py:78 | Of two different strings, one sorts before the other. |
| PyStr.LessAsymmetric | phyloView.py:78 | Two strings never sort before each other. |
| SpaceToUnderscore.BeforeComma | space_to_underscore.py:8 | `split(',', 1)[0]` is the prefix before the first comma, or the whole line when it has no comma. |
| SpaceToUnderscore.NormalizeLine | space_to_underscore.py:6-13 | A non-header line is emitted as read. A header becomes `>`, then text with no comma, no space and no trailing whitespace, then exactly one newline. |
| SpaceToUnderscore.HeaderKeepsText | space_to_underscore.py:8-11 | A normalised header is a slice of the text before the first comma, with each space turned into an underscore, then a newline. Only whitespace lies around the slice, and the slice starts and ends with non-whitespace. |
| SpaceToUnderscore.NormalHeaderFixed | space_to_underscore.py:8-11 | A header already in normal form is returned unchanged. |
| SpaceToUnderscore.NormalizeLineIdempotent | space_to_underscore.py:6-13 | Normalising a line twice gives the same result as normalising it once. |
| SpaceToUnderscore.NormalizeLines | space_to_underscore.py:5-13 | Each input line gives exactly one output line, in the same order. |
| SpaceToUnderscore.NormalizeLinesIdempotent | space_to_underscore.py:5-13 | Normalising a list of lines twice gives the same result as normalising it once. |
| SpaceToUnderscore.SplitLines | space_to_underscore.py:5 | Iterating over a file yields lines that each end in a newline, except possibly the last, and together they make up the text. |
| SpaceToUnderscore.SplitConcat | space_to_underscore.py:5 | Writing such lines out and reading them back gives the same lines. |
| SpaceToUnderscore.HeaderIsLine | space_to_underscore.py:8-11 | A normalised header read from a file is still a single line ending in a newline. |
| SpaceToUnderscore.NormalizeKeepsFileLines | space_to_underscore.py:5-13 | The output lines are again the lines of a file. |
| SpaceToUnderscore.NormalizeFile | space_to_underscore.py:3-13 | Read back line by line, the output file holds exactly the input file's lines, each normalised, in order. |
| SpaceToUnderscore.NormalizeFileIdempotent | space_to_underscore.py:3-13 | Running the script on its own output file reproduces that file. |
| ColonLines.ColonFields | phyloView.py:25-26 | A stripped line yields a pair iff it has exactly one colon. The pair is the colon-free text before and after that colon. |
| ColonLines.ColonFieldsOfEntry | phyloView.py:25-26 | A line `key:value` with colon-free parts reads back as that pair when the key does not start and the value does not end with whitespace. Either part may be empty. |
| ColonLines.Collect | phyloView.py:24-27 | Every key in the dictionary, with its value, is the entry of some accepted line. |
| ColonLines.CollectLastWins | phyloView.py:24-27 | A key is in the dictionary iff some accepted line has it. Its value comes from the last such line. |
| ColonLines.CollectAll | phyloView.py:35-37 | The fail-fast loop stops at the first rejected line and reports its position. Otherwise every line is accepted and the result is the assigned dictionary. |
| LeafMapping.MappingEntry | phyloView.py:25-27 | A mapping line gives an entry iff its stripped form splits into two parts. The key is the text before the colon, not stripped again. The family is the text after it, stripped. |
| LeafMapping.LoadMapping | phyloView.py:21-28 | Every leaf in the dictionary, with its family, is the entry of some line of the file. |
| LeafMapping.LoadMappingLastWins | phyloView.py:21-28 | A leaf is mapped iff some kept line names it. It maps to the family on the last such line. Empty and multi-colon lines add nothing. |
| LeafMapping.FamiliesAreStripped | phyloView.py:27 | No family in the dictionary starts or ends with whitespace. |
| Palette.PaletteEntry | phyloView.py:36-37 | A palette line unpacks iff its stripped form has exactly one colon. Both key and value are then stripped. |
| Palette.LoadPaletteFile | phyloView.py:33-38 | Reading a palette file fails at the first line that does not unpack. Otherwise every line is assigned in file order, and a later line wins. |
| Palette.LoadPalette | phyloView.py:30-41 | A name not ending in `.txt` is returned unchanged as a scheme name. A `.txt` name fails iff some line is malformed, and otherwise gives the file's dictionary. |
| Palette.ChoosePalette | phyloView.py:81-84 | An absent or empty option selects the `pastel` scheme. Any other option is passed to `load_palette`. |
| Palette.ZipToMap | phyloView.py:50 | `dict(zip(keys, vals))` has exactly the keys that fall within the shorter sequence. |
| Palette.ZipToMapAt | phyloView.py:50 | When no key repeats, each key is paired with the value at its own position. |
| Palette.GenerateColours | phyloView.py:43-51 | With a palette file, the keys are exactly the families, and each colour is the file's colour or `grey`, passed through `rgb2hex`. With a scheme, `len(families)` colours are requested and paired with the families in order, so distinct families get the colour at their own position, as far as seaborn's list reaches. |
| Palette.ColoursCoverFamilies | phyloView.py:43-51 | Every family gets a colour whenever seaborn returns as many colours as requested. With distinct families, the i-th family gets the i-th colour. |
| Families.Insert | phyloView.py:78 | Inserting into a strictly increasing list keeps it strictly increasing, and adds exactly the new value to its elements. |
| Families.SortedFamilies | phyloView.py:78 | `sorted(set(values))` is strictly increasing and holds exactly the mapping's values. |
| Families.IncreasingDistinct | phyloView.py:78 | The sorted families contain no duplicates. |
| Families.SortedUnique | phyloView.py:78 | Two strictly increasing lists with the same elements are equal, so the family list is determined by the mapping alone. |
| TreeStyling.Shaded | phyloView.py:90-91 | `mapping.get(name)` followed by `if family:` selects exactly the leaves whose name is in the mapping with a non-empty family. A missing leaf and an empty family are both left alone. |
| TreeStyling.StyleNodes | phyloView.py:88-106 | Every node starts with the default style: circle, black, size 5. A node gets a background iff it is a leaf mapped to a non-empty family. Such a leaf becomes a size-2 black circle on its family's colour, or on grey when that family has no colour. |
| TreeStyling.Spaces | phyloView.py:124 | `" " * n` is n spaces. |
| TreeStyling.ConfigureTreeStyle | phyloView.py:112-143 | The mode is `c` exactly when circular. Rotation is 90 only for a rotated rectangular tree. The title face, with font size 50 if circular and 30 otherwise, is added only for a non-empty title and holds 20 spaces before the title. Leaf names and branch lengths are shown, the scale is not, and the margin is 5. |
| PhyloView.ChosenPalette | phyloView.py:81-84 | The palette `main` goes on with comes from a file exactly when the option is a non-empty name ending in `.txt`. Otherwise it is the scheme the option names, or `pastel` when the option is absent or empty. |
| PhyloView.ShadedLeavesCovered | phyloView.py:90-93 | When every family has a colour, a shaded leaf's background is its own family's colour, not the grey fallback. |
| PhyloView.Run | phyloView.py:69-143 | `main` fails exactly when a `.txt` palette file has a malformed line. Otherwise the family list is sorted and complete, and the colours are those `generate_colors_for_families` gives for the chosen palette and that list. Unshaded nodes keep the default style. Shaded leaves are size-2 black circles on their family's colour, or grey when it has none. When colours cover all families (always for a palette file), the grey fallback never fires. The tree style has the full layout of `ConfigureTreeStyle`. |

## Left out

- Opening, reading and writing files, and command-line parsing (`parse_args`, `argparse` in both scripts). Files are given as their lines, and the options as values.
- Universal-newline translation (`\r\n` and `\r` to `\n`) when reading in text mode. Lines are split at `\n` only.
- ete3 tree parsing (`Tree(..., format=1)`), `traverse` and `iter_leaves` order, and `tree.show`. These are foreign rendering code. The tree is given as its nodes in traversal order.
- The ete3 defaults for the `TreeStyle` attributes the script does not assign, and for `NodeStyle.bgcolor`. These are the library's own values and are not part of the scripts. `FreshTreeStyle` records the defaults assumed for the attributes the script does assign, and an unset background is `None`.
- seaborn's `color_palette` and matplotlib's `rgb2hex` are parameters, because they are foreign colour libraries working on floating-point RGB values. The errors they raise for an unknown scheme name or colour name are not modelled.
- `rgb_to_hex` (phyloView.py:53-54) is `rgb2hex` itself, and is the same `toHex` parameter.
- test.py is not part of this model. It is an ad-hoc script with a hard-coded mapping and path, and it repeats the leaf lookup of `phyloView.py`.
- The commented-out PNG/SVG export branches (phyloView.py:147-154) are dead code. The `--save_png` and `--save_svg` options are parsed but never used.
- Palette.LoadPaletteFile: reports the position of the offending line instead of Python's `ValueError` message.
