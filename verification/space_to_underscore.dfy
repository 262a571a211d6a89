/** The FASTA header normaliser: a header line (one that starts with `>`) is cut at
    its first comma, stripped of surrounding whitespace, has every space replaced by
    an underscore and gets exactly one newline; every other line is copied as read. */
module SpaceToUnderscore {
  import opened PyStr

  /** `line.startswith('>')`. */
  predicate IsHeader(line: string)
  {
    StartsWith(line, '>')
  }

  /** `line.split(',', 1)[0]`: the text before the first comma, or the whole line. */
  function BeforeComma(line: string): (r: string)
    ensures r <= line
    ensures ',' !in r
    ensures |r| < |line| ==> line[|r|] == ','
  {
    line[..IndexOf(line, ',')]
  }

  /** A header as the normaliser writes it: `>`, then text holding no comma and no
      space and not ending in whitespace, then exactly one newline. */
  predicate NormalHeader(r: string)
  {
    && |r| >= 2
    && r[0] == '>'
    && r[|r| - 1] == '\n'
    && !IsSpace(r[|r| - 2])
    && ',' !in r
    && ' ' !in r
  }

  /** The rule applied to each line read from the input file. */
  function NormalizeLine(line: string): (r: string)
    ensures !IsHeader(line) ==> r == line
    ensures IsHeader(line) ==> NormalHeader(r)
  {
    if IsHeader(line) then
      HeaderShape(line);
      Replace(Strip(BeforeComma(line)), ' ', '_') + "\n"
    else
      line
  }

  /** Stripping keeps a first character that is not whitespace. */
  lemma StripKeepsFirst(s: string)
    requires |s| > 0 && !IsSpace(s[0])
    ensures |Strip(s)| > 0 && Strip(s)[0] == s[0]
  {
    assert LeadingSpace(s) == 0;
    assert TrailingSpace(s) > 0;
  }

  lemma HeaderShape(line: string)
    requires IsHeader(line)
    ensures NormalHeader(Replace(Strip(BeforeComma(line)), ' ', '_') + "\n")
  {
    var b := BeforeComma(line);
    assert b[0] == '>';
    StripKeepsFirst(b);
    var h := Strip(b);
    StripChars(b);
    var u := Replace(h, ' ', '_');
    var r := u + "\n";
    assert r[|r| - 2] == u[|u| - 1];
    assert ',' !in u;
    assert ' ' !in u;
  }

  /** `r`, less its final newline, is a slice of `b` from `i` with each space
      turned into an underscore; that slice starts and ends with non-whitespace
      and only whitespace lies around it in `b`. */
  ghost predicate UnderscoredSlice(b: string, r: string, i: nat)
  {
    && 1 <= |r| && i + |r| - 1 <= |b|
    && (forall k :: 0 <= k < i ==> IsSpace(b[k]))
    && (forall k :: i + |r| - 1 <= k < |b| ==> IsSpace(b[k]))
    && (|r| >= 2 ==> !IsSpace(b[i]) && !IsSpace(b[i + |r| - 2]))
    && forall k :: 0 <= k < |r| - 1 ==> r[k] == (if b[i + k] == ' ' then '_' else b[i + k])
  }

  /** What a header line becomes: the text before its first comma, without the
      whitespace around it, with each space turned into an underscore, then one
      newline. */
  lemma HeaderKeepsText(line: string)
    requires IsHeader(line)
    ensures exists i :: UnderscoredSlice(BeforeComma(line), NormalizeLine(line), i)
  {
    var b := BeforeComma(line);
    var i := UnderscoredStrip(b);
    assert NormalizeLine(line) == Replace(Strip(b), ' ', '_') + "\n";
  }

  /** Where in `b` the stripped, underscored text comes from. */
  lemma UnderscoredStrip(b: string) returns (i: nat)
    ensures UnderscoredSlice(b, Replace(Strip(b), ' ', '_') + "\n", i)
  {
    var h := Strip(b);
    i :| StrippedAt(b, h, i);
    UnderscoredOfStripped(b, h, i, Replace(h, ' ', '_') + "\n");
  }

  lemma UnderscoredOfStripped(b: string, h: string, i: nat, r: string)
    requires StrippedAt(b, h, i)
    requires |h| > 0 ==> !IsSpace(h[0]) && !IsSpace(h[|h| - 1])
    requires r == Replace(h, ' ', '_') + "\n"
    ensures UnderscoredSlice(b, r, i)
  {
    if |h| > 0 {
      assert h[0] == b[i] && h[|h| - 1] == b[i + |h| - 1];
    }
    var u := Replace(h, ' ', '_');
    forall k | 0 <= k < |h|
      ensures r[k] == (if b[i + k] == ' ' then '_' else b[i + k])
    {
      assert r[k] == u[k];
      assert h[k] == b[i..i + |h|][k];
    }
  }

  /** The partner of `NormalizeLine`: a header already in normal form is left alone. */
  lemma NormalHeaderFixed(r: string)
    requires NormalHeader(r)
    ensures NormalizeLine(r) == r
  {
    var h := r[..|r| - 1];
    NoCommaWhole(r);
    NormalHeaderText(r, h);
    ReplaceAbsent(h, ' ', '_');
  }

  /** A line with no comma is kept whole by the comma cut. */
  lemma NoCommaWhole(line: string)
    requires ',' !in line
    ensures BeforeComma(line) == line
  {
    IndexOfAt(line, ',', |line|);
  }

  /** The text of a normal header, before its newline, is already stripped. */
  lemma NormalHeaderText(r: string, h: string)
    requires NormalHeader(r) && h == r[..|r| - 1]
    ensures r == h + "\n" && ' ' !in h && Strip(r) == h
  {
    assert r == h + "\n";
    assert !IsSpace(h[0]) && !IsSpace(h[|h| - 1]);
    assert AllSpace("\n");
    StripFixed(h, "\n");
  }

  /** Normalising twice is normalising once. */
  lemma NormalizeLineIdempotent(line: string)
    ensures NormalizeLine(NormalizeLine(line)) == NormalizeLine(line)
  {
    if IsHeader(line) {
      NormalHeaderFixed(NormalizeLine(line));
    }
  }

  /** The loop over the input: one output line per input line, in order. */
  function NormalizeLines(lines: seq<string>): (out: seq<string>)
    ensures |out| == |lines|
    ensures forall i :: 0 <= i < |lines| ==> out[i] == NormalizeLine(lines[i])
  {
    if |lines| == 0 then [] else [NormalizeLine(lines[0])] + NormalizeLines(lines[1..])
  }

  lemma NormalizeLinesIdempotent(lines: seq<string>)
    ensures NormalizeLines(NormalizeLines(lines)) == NormalizeLines(lines)
  {
    forall i | 0 <= i < |lines|
      ensures NormalizeLine(NormalizeLine(lines[i])) == NormalizeLine(lines[i])
    {
      NormalizeLineIdempotent(lines[i]);
    }
  }

  /** The text of a sequence of lines written one after the other. */
  function Concat(lines: seq<string>): string
  {
    if |lines| == 0 then "" else lines[0] + Concat(lines[1..])
  }

  /** A line as a text-mode file iterator yields it: non-empty, with a newline at
      most at its end. */
  predicate IsLine(l: string)
  {
    |l| > 0 && '\n' !in l[..|l| - 1]
  }

  predicate Terminated(l: string)
  {
    |l| > 0 && l[|l| - 1] == '\n'
  }

  /** The lines of a file: every line but the last ends with a newline. */
  predicate FileLines(lines: seq<string>)
  {
    forall i :: 0 <= i < |lines| ==> IsLine(lines[i]) && (i < |lines| - 1 ==> Terminated(lines[i]))
  }

  /** `for line in f`: the text cut just after each newline; the last line may
      lack one. The lines are file lines and together they are the text. */
  function SplitLines(text: string): (lines: seq<string>)
    ensures FileLines(lines)
    ensures Concat(lines) == text
    decreases |text|
  {
    if |text| == 0 then []
    else
      var k := IndexOf(text, '\n');
      if k == |text| then
        assert text[..|text| - 1] <= text;
        assert Concat([text]) == text + "";
        [text]
      else
        var first := text[..k + 1];
        var rest := SplitLines(text[k + 1..]);
        assert first[..k] == text[..k];
        assert text == first + text[k + 1..];
        assert Concat([first] + rest) == first + Concat(rest) by {
          assert ([first] + rest)[1..] == rest;
        }
        [first] + rest
  }

  /** The partner of `SplitLines`: the lines of a file are found again in its text. */
  lemma {:induction false} SplitConcat(lines: seq<string>)
    requires FileLines(lines)
    ensures SplitLines(Concat(lines)) == lines
    decreases |lines|
  {
    if |lines| > 0 {
      var l := lines[0];
      var rest := lines[1..];
      var text := Concat(lines);
      assert text == l + Concat(rest);
      assert FileLines(rest) by {
        forall i | 0 <= i < |rest|
          ensures IsLine(rest[i]) && (i < |rest| - 1 ==> Terminated(rest[i]))
        {
          assert rest[i] == lines[i + 1];
        }
      }
      assert IsLine(l);
      if Terminated(l) {
        assert text[..|l| - 1] == l[..|l| - 1];
        IndexOfAt(text, '\n', |l| - 1);
        assert text[..|l|] == l;
        assert text[|l|..] == Concat(rest);
        SplitConcat(rest);
      } else {
        assert |rest| == 0;
        assert text == l;
        assert '\n' !in l by {
          assert l == l[..|l| - 1] + [l[|l| - 1]];
        }
        assert text[..|text|] == l;
        IndexOfAt(text, '\n', |text|);
      }
    }
  }

  /** `replace_space_with_underscore`: the output file's text from the input's.
      Read back, the output holds exactly the input's lines, each normalised. */
  function NormalizeFile(text: string): (r: string)
    ensures SplitLines(r) == NormalizeLines(SplitLines(text))
  {
    NormalizeKeepsFileLines(SplitLines(text));
    SplitConcat(NormalizeLines(SplitLines(text)));
    Concat(NormalizeLines(SplitLines(text)))
  }

  /** The text kept from a file line holds no newline: the line's only newline is
      its last character, which is whitespace and so is stripped. */
  lemma HeaderTextNoNewline(line: string)
    requires IsLine(line)
    ensures '\n' !in Strip(BeforeComma(line))
  {
    var b := BeforeComma(line);
    var n := |line| - 1;
    assert forall k :: 0 <= k < n ==> line[k] != '\n' by {
      forall k | 0 <= k < n
        ensures line[k] != '\n'
      {
        assert line[..n][k] == line[k];
      }
    }
    if |b| <= n || line[n] != '\n' {
      assert forall k :: 0 <= k < |b| ==> b[k] != '\n';
      StripChars(b);
    } else {
      StripWithin(b, n);
      assert forall k :: 0 <= k < n ==> b[..n][k] != '\n';
    }
  }

  /** A normalised header is a single file line ending in a newline. */
  lemma HeaderIsLine(line: string)
    requires IsHeader(line) && IsLine(line)
    ensures IsLine(NormalizeLine(line)) && Terminated(NormalizeLine(line))
  {
    var h := Strip(BeforeComma(line));
    HeaderTextNoNewline(line);
    var u := Replace(h, ' ', '_');
    assert '\n' !in u;
    var r := NormalizeLine(line);
    assert r[..|r| - 1] == u;
  }

  lemma NormalizeKeepsFileLines(lines: seq<string>)
    requires FileLines(lines)
    ensures FileLines(NormalizeLines(lines))
  {
    var out := NormalizeLines(lines);
    forall i | 0 <= i < |out|
      ensures IsLine(out[i]) && (i < |out| - 1 ==> Terminated(out[i]))
    {
      if IsHeader(lines[i]) {
        HeaderIsLine(lines[i]);
      }
    }
  }

  /** Running the normaliser on its own output changes nothing. */
  lemma NormalizeFileIdempotent(text: string)
    ensures NormalizeFile(NormalizeFile(text)) == NormalizeFile(text)
  {
    var out := NormalizeLines(SplitLines(text));
    NormalizeKeepsFileLines(SplitLines(text));
    SplitConcat(out);
    NormalizeLinesIdempotent(SplitLines(text));
  }
}
