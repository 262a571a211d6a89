/** `load_mapping`: the leaf-to-family dictionary read from a `leaf:family` file. */
module LeafMapping {
  import opened Wrappers
  import opened PyStr
  import opened ColonLines

  /** One line of the mapping file. It yields an entry iff its stripped form splits
      on `:` into exactly two parts; the key is the text before the colon, not
      stripped again, and the value is the text after it, stripped. */
  function MappingEntry(line: string): (r: Option<Entry>)
    ensures r.Some? <==> |Split(Strip(line), ':')| == 2
    ensures r.Some? ==>
              var s := Strip(line);
              var k := IndexOf(s, ':');
              k < |s| && r.value.0 == s[..k] && r.value.1 == Strip(s[k + 1..])
  {
    SplitInTwo(Strip(line), ':');
    match ColonFields(line)
    case None => None
    case Some((key, value)) =>
      var s := Strip(line);
      assert s == key + ":" + value;
      IndexOfAt(s, ':', |key|);
      assert s[..|key|] == key && s[|key| + 1..] == value;
      Some((key, Strip(value)))
  }

  /** `load_mapping(mapping_file)`, over the lines of the file: every leaf and
      family in it come from one kept line. */
  function LoadMapping(lines: seq<string>): (r: map<string, string>)
    ensures forall leaf :: leaf in r ==> exists i :: 0 <= i < |lines| && MappingEntry(lines[i]) == Some((leaf, r[leaf]))
  {
    Collect(lines, MappingEntry)
  }

  /** A leaf is mapped iff some kept line names it, and it is mapped to the family
      on the last such line. */
  lemma LoadMappingLastWins(lines: seq<string>, leaf: string)
    ensures leaf in LoadMapping(lines) <==> exists i :: KeyedAt(lines, MappingEntry, i, leaf)
    ensures leaf in LoadMapping(lines) ==>
              exists i :: && KeyedAt(lines, MappingEntry, i, leaf)
                          && LoadMapping(lines)[leaf] == MappingEntry(lines[i]).value.1
                          && forall j :: i < j < |lines| ==> !KeyedAt(lines, MappingEntry, j, leaf)
  {
    CollectLastWins(lines, MappingEntry, leaf);
  }

  /** Text with no whitespace at either end, as `str.strip()` leaves it. */
  predicate Unpadded(f: string)
  {
    |f| == 0 || (!IsSpace(f[0]) && !IsSpace(f[|f| - 1]))
  }

  /** The family a kept line gives is stripped text. */
  lemma EntryUnpadded(line: string)
    ensures MappingEntry(line).Some? ==> Unpadded(MappingEntry(line).value.1)
  {
    if MappingEntry(line).Some? {
      var r := ColonFields(line);
      assert MappingEntry(line).value.1 == Strip(r.value.1);
    }
  }

  /** Every family in the dictionary is stripped text. */
  lemma FamiliesAreStripped(lines: seq<string>)
    ensures forall leaf :: leaf in LoadMapping(lines) ==> Unpadded(LoadMapping(lines)[leaf])
  {
    forall leaf | leaf in LoadMapping(lines)
      ensures Unpadded(LoadMapping(lines)[leaf])
    {
      LoadMappingLastWins(lines, leaf);
      var i :| KeyedAt(lines, MappingEntry, i, leaf) && LoadMapping(lines)[leaf] == MappingEntry(lines[i]).value.1;
      EntryUnpadded(lines[i]);
    }
  }
}
