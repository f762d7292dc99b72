/** `build_dictionary`: the table that turns a checksum-and-extension key
    back into a file name. Each input line is one line of the dictionary
    file as `str.strip()` leaves it. */
module Dictionary {
  import opened Outcome
  import opened Text

  /** The `key|value` pair a line contributes, if it has exactly one `|`. */
  function Pair(line: string): Option<(string, string)>
  {
    SplitPair(line, '|')
  }

  /** The table after reading `lines` in order; a later line with the same
      key overwrites an earlier one. */
  function BuildDictionary(lines: seq<string>): map<string, string>
    decreases |lines|
  {
    if lines == [] then map[]
    else
      var table := BuildDictionary(lines[..|lines| - 1]);
      match Pair(lines[|lines| - 1])
      case Some((key, value)) => table[key := value]
      case None => table
  }

  /** Line `i` is a well-formed pair with key `key`. */
  predicate Defines(lines: seq<string>, i: int, key: string)
  {
    0 <= i < |lines| && Pair(lines[i]).Some? && Pair(lines[i]).value.0 == key
  }

  /** A key is in the table exactly when some well-formed line defines it,
      and its value is the one on the last such line: lines without exactly
      one `|` are ignored and the last duplicate wins. */
  lemma {:induction false} DictionaryLastWins(lines: seq<string>, key: string)
    ensures key in BuildDictionary(lines) <==> exists i :: Defines(lines, i, key)
    ensures key in BuildDictionary(lines) ==>
      exists i :: Defines(lines, i, key)
        && Pair(lines[i]).value.1 == BuildDictionary(lines)[key]
        && forall j :: i < j < |lines| ==> !Defines(lines, j, key)
    decreases |lines|
  {
    if lines != [] {
      var init := lines[..|lines| - 1];
      var last := |lines| - 1;
      DictionaryLastWins(init, key);
      forall i | 0 <= i < last
        ensures Defines(lines, i, key) <==> Defines(init, i, key)
      {
        assert lines[i] == init[i];
      }
      if Defines(lines, last, key) {
        assert Pair(lines[last]).value.1 == BuildDictionary(lines)[key];
      } else if key in BuildDictionary(lines) {
        var i :| Defines(init, i, key) && Pair(init[i]).value.1 == BuildDictionary(init)[key]
          && forall j :: i < j < |init| ==> !Defines(init, j, key);
        assert Defines(lines, i, key);
      } else {
        forall i | 0 <= i < |lines|
          ensures !Defines(lines, i, key)
        {
          if i < last { assert !Defines(init, i, key); }
        }
      }
    }
  }
}
