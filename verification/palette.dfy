/** `load_palette` and `generate_colors_for_families`: the colour each family is
    drawn in, taken either from a `family:colour` file or from a named seaborn
    colour scheme. */
module Palette {
  import opened Wrappers
  import opened PyStr
  import opened ColonLines

  /** A matplotlib colour: a colour specification string (a name such as `grey`
      or a hex code) or an RGB triple as seaborn returns them. */
  datatype Colour = Spec(text: string) | Rgb(red: real, green: real, blue: real)

  /** What `load_palette` returns: the scheme name itself, or the dictionary read
      from a palette file. */
  datatype Palette = SchemeName(name: string) | Explicit(colours: map<string, string>)

  /** The `ValueError` raised when a palette file line does not unpack into a key
      and a value; `line` is its 0-based position in the file. */
  datatype PaletteError = MalformedLine(line: nat)

  /** One palette file line: a pair iff its stripped form has exactly one colon,
      and then both halves are stripped. */
  function PaletteEntry(line: string): (r: Option<Entry>)
    ensures r.Some? <==> multiset(Strip(line))[':'] == 1
    ensures r.Some? ==>
              var s := Strip(line);
              var k := IndexOf(s, ':');
              k < |s| && r.value == (Strip(s[..k]), Strip(s[k + 1..]))
  {
    match ColonFields(line)
    case None => None
    case Some((key, value)) =>
      var s := Strip(line);
      assert s == key + ":" + value;
      IndexOfAt(s, ':', |key|);
      assert s[..|key|] == key && s[|key| + 1..] == value;
      Some((Strip(key), Strip(value)))
  }

  /** The loop of `load_palette` over a `.txt` file: it fails at the first line
      that does not unpack into a key and a value, and otherwise assigns every
      entry in file order. */
  function LoadPaletteFile(lines: seq<string>): (r: Result<map<string, string>, PaletteError>)
    ensures r.Failure? ==> && RejectedAt(lines, PaletteEntry, r.error.line)
                           && forall j :: 0 <= j < r.error.line ==> !RejectedAt(lines, PaletteEntry, j)
    ensures r.Success? ==> && (forall i :: !RejectedAt(lines, PaletteEntry, i))
                           && r.value == Collect(lines, PaletteEntry)
  {
    match CollectAll(lines, PaletteEntry)
    case Failure(i) => Failure(MalformedLine(i))
    case Success(m) => Success(m)
  }

  /** `load_palette(palette)`: a name ending in `.txt` is read as a palette file
      whose lines are `fileLines`; any other name is a seaborn scheme name. */
  function LoadPalette(palette: string, fileLines: seq<string>): (r: Result<Palette, PaletteError>)
    ensures !EndsWith(palette, ".txt") ==> r == Success(SchemeName(palette))
    ensures EndsWith(palette, ".txt") ==>
              && (r.Failure? <==> exists i :: RejectedAt(fileLines, PaletteEntry, i))
              && (r.Success? ==> r.value == Explicit(Collect(fileLines, PaletteEntry)))
  {
    if EndsWith(palette, ".txt") then
      match LoadPaletteFile(fileLines)
      case Failure(e) => Failure(e)
      case Success(m) => Success(Explicit(m))
    else
      Success(SchemeName(palette))
  }

  /** The `-p` option: an absent or empty argument selects the `pastel` scheme. */
  function ChoosePalette(arg: Option<string>, fileLines: seq<string>): (r: Result<Palette, PaletteError>)
    ensures (arg.None? || arg.value == "") ==> r == Success(SchemeName("pastel"))
    ensures arg.Some? && arg.value != "" ==> r == LoadPalette(arg.value, fileLines)
  {
    if arg.Some? && arg.value != "" then LoadPalette(arg.value, fileLines)
    else Success(SchemeName("pastel"))
  }

  /** `dict(zip(keys, vals))`: pairs up the two sequences as far as the shorter one
      goes, a later pair overwriting an earlier one with the same key. */
  function ZipToMap(keys: seq<string>, vals: seq<Colour>): (r: map<string, Colour>)
    ensures forall k :: k in r <==> exists i :: 0 <= i < |keys| && i < |vals| && keys[i] == k
    decreases |keys|
  {
    if |keys| == 0 || |vals| == 0 then map[]
    else
      var n := if |keys| < |vals| then |keys| else |vals|;
      var m := ZipToMap(keys[..n - 1], vals[..n - 1]);
      assert forall i :: 0 <= i < n - 1 ==> keys[..n - 1][i] == keys[i];
      m[keys[n - 1] := vals[n - 1]]
  }

  /** With no key repeated, each key is paired with the value at its own position. */
  lemma {:induction false} ZipToMapAt(keys: seq<string>, vals: seq<Colour>, i: nat)
    requires Distinct(keys)
    requires i < |keys| && i < |vals|
    ensures keys[i] in ZipToMap(keys, vals) && ZipToMap(keys, vals)[keys[i]] == vals[i]
    decreases |keys|
  {
    var n := if |keys| < |vals| then |keys| else |vals|;
    if i < n - 1 {
      ZipToMapAt(keys[..n - 1], vals[..n - 1], i);
    }
  }

  /** `generate_colors_for_families(palette, families)`. A palette file gives each
      family its colour, or grey, passed through `rgb2hex` (`toHex`); a scheme name
      asks seaborn (`scheme`) for as many colours as there are families and pairs
      them up in order. */
  function GenerateColours(palette: Palette, families: seq<string>,
                           scheme: (string, nat) -> seq<Colour>, toHex: Colour -> string): (r: map<string, Colour>)
    ensures palette.Explicit? ==>
              && r.Keys == Elements(families)
              && forall f :: f in r ==> r[f] == Spec(toHex(Spec(GetOr(palette.colours, f, "grey"))))
    ensures palette.SchemeName? ==>
              forall f :: f in r <==> exists i :: 0 <= i < |families| && i < |scheme(palette.name, |families|)| && families[i] == f
    ensures palette.SchemeName? && Distinct(families) ==>
              forall i :: 0 <= i < |families| && i < |scheme(palette.name, |families|)| ==>
                families[i] in r && r[families[i]] == scheme(palette.name, |families|)[i]
  {
    match palette
    case Explicit(d) => map f | f in Elements(families) :: Spec(toHex(Spec(GetOr(d, f, "grey"))))
    case SchemeName(name) =>
      var colours := scheme(name, |families|);
      assert Distinct(families) ==>
               forall i :: 0 <= i < |families| && i < |colours| ==>
                 families[i] in ZipToMap(families, colours) && ZipToMap(families, colours)[families[i]] == colours[i] by {
        if Distinct(families) {
          forall i | 0 <= i < |families| && i < |colours|
            ensures families[i] in ZipToMap(families, colours) && ZipToMap(families, colours)[families[i]] == colours[i]
          {
            ZipToMapAt(families, colours, i);
          }
        }
      }
      ZipToMap(families, colours)
  }

  /** Every family gets a colour whenever seaborn returns as many colours as asked
      for; from a scheme, distinct families get the scheme's colours in order. */
  lemma ColoursCoverFamilies(palette: Palette, families: seq<string>,
                             scheme: (string, nat) -> seq<Colour>, toHex: Colour -> string)
    requires palette.SchemeName? ==> |scheme(palette.name, |families|)| >= |families|
    ensures forall f :: f in families ==> f in GenerateColours(palette, families, scheme, toHex)
    ensures palette.SchemeName? && Distinct(families) ==>
              forall i :: 0 <= i < |families| ==>
                GenerateColours(palette, families, scheme, toHex)[families[i]] == scheme(palette.name, |families|)[i]
  {
    var r := GenerateColours(palette, families, scheme, toHex);
    if palette.SchemeName? {
      var colours := scheme(palette.name, |families|);
      forall f | f in families
        ensures f in r
      {
        var i :| 0 <= i < |families| && families[i] == f;
      }
      if Distinct(families) {
        forall i | 0 <= i < |families|
          ensures r[families[i]] == colours[i]
        {
          ZipToMapAt(families, colours, i);
        }
      }
    }
  }
}
