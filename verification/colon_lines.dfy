/** The `key:value` line format shared by the leaf mapping file and the palette
    file, and the dictionary that assigning their entries in file order builds. */
module ColonLines {
  import opened Wrappers
  import opened PyStr

  type Entry = (string, string)

  /** `line.strip().split(':')` when it has exactly two parts: the text before and
      after the only colon of the stripped line. */
  function ColonFields(line: string): (r: Option<Entry>)
    ensures r.Some? <==> multiset(Strip(line))[':'] == 1
    ensures r.Some? ==> && Strip(line) == r.value.0 + ":" + r.value.1
                        && ':' !in r.value.0 && ':' !in r.value.1
  {
    var parts := Split(Strip(line), ':');
    SplitInTwo(Strip(line), ':');
    if |parts| == 2 then
      assert parts[0] in parts && parts[1] in parts;
      Some((parts[0], parts[1]))
    else
      None
  }

  /** The partner of `ColonFields`: a line written as `key:value`, with a key and
      value holding no colon, the key not starting and the value not ending with
      whitespace, reads back as that pair (either part may be empty). */
  lemma ColonFieldsOfEntry(key: string, value: string)
    requires ':' !in key && ':' !in value
    requires |key| == 0 || !IsSpace(key[0])
    requires |value| == 0 || !IsSpace(value[|value| - 1])
    ensures ColonFields(key + ":" + value) == Some((key, value))
  {
    var line := key + ":" + value;
    assert line[0] == (if |key| > 0 then key[0] else ':');
    assert line[|line| - 1] == (if |value| > 0 then value[|value| - 1] else ':');
    StripUnpadded(line);
    SplitPair(key, value, ':');
  }

  /** The dictionary built by looping over `lines` and, for each line `parse`
      accepts, assigning its value to its key: a later line overwrites an earlier
      one with the same key, and lines `parse` rejects are skipped. */
  function Collect(lines: seq<string>, parse: string -> Option<Entry>): (r: map<string, string>)
    ensures forall key :: key in r ==> exists i :: 0 <= i < |lines| && parse(lines[i]) == Some((key, r[key]))
    decreases |lines|
  {
    if |lines| == 0 then map[]
    else
      var n := |lines| - 1;
      var m := Collect(lines[..n], parse);
      assert forall i :: 0 <= i < n ==> lines[..n][i] == lines[i];
      match parse(lines[n])
      case None => m
      case Some((k, v)) => m[k := v]
  }

  /** One step of the loop: the last line is assigned over the earlier lines'
      dictionary, or skipped. */
  lemma CollectStep(lines: seq<string>, parse: string -> Option<Entry>)
    requires |lines| > 0
    ensures var e := parse(lines[|lines| - 1]);
            var m := Collect(lines[..|lines| - 1], parse);
            Collect(lines, parse) == if e.None? then m else m[e.value.0 := e.value.1]
  {
  }

  /** Line `i` of `lines` is rejected by `parse`. */
  ghost predicate RejectedAt(lines: seq<string>, parse: string -> Option<Entry>, i: int)
  {
    0 <= i < |lines| && parse(lines[i]).None?
  }

  /** The same loop when a rejected line raises instead of being skipped: the
      position of the first rejected line, or the dictionary when there is none. */
  function CollectAll(lines: seq<string>, parse: string -> Option<Entry>): (r: Result<map<string, string>, nat>)
    ensures r.Failure? ==> && RejectedAt(lines, parse, r.error)
                           && forall j :: 0 <= j < r.error ==> !RejectedAt(lines, parse, j)
    ensures r.Success? ==> && (forall i :: !RejectedAt(lines, parse, i))
                           && r.value == Collect(lines, parse)
    decreases |lines|
  {
    if |lines| == 0 then Success(map[])
    else
      var n := |lines| - 1;
      var rest := CollectAll(lines[..n], parse);
      assert forall i :: RejectedAt(lines[..n], parse, i) <==> i < n && RejectedAt(lines, parse, i) by {
        assert forall i :: 0 <= i < n ==> lines[..n][i] == lines[i];
      }
      var e := parse(lines[n]);
      if rest.Failure? then rest
      else if e.None? then Failure(n)
      else
        CollectStep(lines, parse);
        Success(rest.value[e.value.0 := e.value.1])
  }

  /** Line `i` of `lines` is accepted by `parse` and has key `key`. */
  ghost predicate KeyedAt(lines: seq<string>, parse: string -> Option<Entry>, i: int, key: string)
  {
    0 <= i < |lines| && parse(lines[i]).Some? && parse(lines[i]).value.0 == key
  }

  /** A key is in the dictionary iff some accepted line has it, and its value is the
      one on the last such line. */
  lemma {:induction false} CollectLastWins(lines: seq<string>, parse: string -> Option<Entry>, key: string)
    ensures key in Collect(lines, parse) <==> exists i :: KeyedAt(lines, parse, i, key)
    ensures key in Collect(lines, parse) ==>
              exists i :: && KeyedAt(lines, parse, i, key)
                          && Collect(lines, parse)[key] == parse(lines[i]).value.1
                          && forall j :: i < j < |lines| ==> !KeyedAt(lines, parse, j, key)
    decreases |lines|
  {
    if |lines| > 0 {
      var n := |lines| - 1;
      var front := lines[..n];
      CollectLastWins(front, parse, key);
      assert forall i :: KeyedAt(front, parse, i, key) ==> KeyedAt(lines, parse, i, key);
      if KeyedAt(lines, parse, n, key) {
        assert Collect(lines, parse)[key] == parse(lines[n]).value.1;
      } else {
        assert Collect(lines, parse) == Collect(front, parse) || Collect(lines, parse) == Collect(front, parse)[parse(lines[n]).value.0 := parse(lines[n]).value.1];
        assert forall i :: KeyedAt(lines, parse, i, key) ==> KeyedAt(front, parse, i, key);
        if key in Collect(lines, parse) {
          var i :| && KeyedAt(front, parse, i, key)
                   && Collect(front, parse)[key] == parse(front[i]).value.1
                   && forall j :: i < j < |front| ==> !KeyedAt(front, parse, j, key);
          assert forall j :: i < j < |lines| ==> !KeyedAt(lines, parse, j, key) by {
            forall j | i < j < |lines|
              ensures !KeyedAt(lines, parse, j, key)
            {
              if j < n {
                assert !KeyedAt(front, parse, j, key);
              }
            }
          }
        }
      }
    }
  }
}
