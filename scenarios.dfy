/**
 * Whole passes over small ini texts, showing the strict policy of ini_parser:
 * lines are classified on their raw first character, orphan keys are dropped,
 * a header without ']' is ignored, '#' after '=' stays in the value, and only
 * ASCII spaces are trimmed.
 */
module IniScenarios {
  import opened Trim
  import opened IniStore
  import opened IniLines

  lemma TwoLines(st: ParseState, a: string, b: string)
    ensures ParseLines(st, [a, b]) == LineStep(LineStep(st, a), b)
  {
    ParseLinesSnoc(st, [], a);
    assert [] + [a] == [a];
    ParseLinesSnoc(st, [a], b);
    assert [a] + [b] == [a, b];
  }

  lemma NotIn(c: char, a: string, b: string)
    requires c !in a && c !in b
    ensures c !in a + b
  {
    assert forall k :: 0 <= k < |a + b| ==> (a + b)[k] == if k < |a| then a[k] else b[k - |a|];
    assert forall k :: 0 <= k < |a| ==> a[k] in a;
    assert forall k :: 0 <= k < |b| ==> b[k] in b;
  }

  lemma SplitHeaderAndAssignment(name: string, key: string, value: string)
    requires '\n' !in name && '\n' !in key && '\n' !in value
    ensures SplitLines("[" + name + "]\n" + key + "=" + value) == ["[" + name + "]", key + "=" + value]
  {
    var l1, l2 := "[" + name + "]", key + "=" + value;
    assert "[" + name + "]\n" + key + "=" + value == l1 + "\n" + l2;
    NotIn('\n', "[" + name, "]");
    NotIn('\n', "[", name);
    SplitLinesCons(l1, l2);
    NotIn('\n', key + "=", value);
    NotIn('\n', key, "=");
    SplitLinesOne(l2);
  }

  lemma PassHeaderAndAssignment(name: string, key: string, value: string)
    requires ']' !in name && Trimmed(name) != []
    requires key != [] && '=' !in key && key[0] != '#' && key[0] != '['
    ensures ParseLines(ParseState([], ""), ["[" + name + "]", key + "=" + value]).store ==
            [Section(Trimmed(name), [Parameter(Trimmed(key), Trimmed(value))])]
  {
    var l1, l2 := "[" + name + "]", key + "=" + value;
    var st := ParseState([], "");
    TwoLines(st, l1, l2);
    assert l1 == "[" + name + "]" + "";
    HeaderLineName(st, name, "");
    var st1 := ParseState([], Trimmed(name));
    assert LineStep(st, l1) == st1;
    AssignmentLineSets(st1, key, value);
    var secs := Upsert([], Trimmed(name), Trimmed(key), Trimmed(value));
    assert LineStep(st1, l2).store == secs;
    assert secs == [Section(Trimmed(name), [Parameter(Trimmed(key), Trimmed(value))])];
  }

  /**
   * `[name]` followed by one `key=value` line gives one section holding one parameter:
   * the header name, the key and the value are trimmed of spaces, and nothing else of
   * the value is removed (a '#' in it stays).
   */
  lemma OneSectionOneKey(name: string, key: string, value: string)
    requires ']' !in name && '\n' !in name && Trimmed(name) != []
    requires key != [] && '=' !in key && '\n' !in key && key[0] != '#' && key[0] != '['
    requires '\n' !in value
    ensures ParseText("[" + name + "]\n" + key + "=" + value) ==
            [Section(Trimmed(name), [Parameter(Trimmed(key), Trimmed(value))])]
  {
    SplitHeaderAndAssignment(name, key, value);
    PassHeaderAndAssignment(name, key, value);
  }

  lemma LookupSingle(s: string, k: string, v: string)
    ensures Lookup([Section(s, [Parameter(k, v)])], s, k) == v
  {
  }

  lemma NoNewlineInCommentedValue(value: string, note: string)
    requires '\n' !in value && '\n' !in note
    ensures '\n' !in value + "#" + note
  {
    NotIn('\n', value, "#");
    NotIn('\n', value + "#", note);
  }

  /** So getValue finds the trimmed value, inline '#' comment and all. */
  lemma HashStaysInValue(name: string, key: string, value: string, note: string)
    requires ']' !in name && '\n' !in name && Trimmed(name) != []
    requires key != [] && '=' !in key && '\n' !in key && key[0] != '#' && key[0] != '['
    requires '\n' !in value && '\n' !in note
    ensures Lookup(ParseText("[" + name + "]\n" + key + "=" + value + "#" + note), Trimmed(name), Trimmed(key)) ==
            Trimmed(value + "#" + note)
  {
    var v := value + "#" + note;
    NoNewlineInCommentedValue(value, note);
    assert "[" + name + "]\n" + key + "=" + value + "#" + note == "[" + name + "]\n" + key + "=" + v;
    OneSectionOneKey(name, key, v);
    LookupSingle(Trimmed(name), Trimmed(key), Trimmed(v));
  }

  /** A text none of whose lines starts with '[' (say `k=v`, or an indented `  [A]`) stores nothing. */
  lemma NoHeaderNoStore(text: string)
    requires forall l :: l in SplitLines(text) ==> |l| == 0 || l[0] != '['
    ensures ParseText(text) == []
  {
    OrphanLinesDropped([], SplitLines(text));
  }

  /** A first line `[name` without ']' is ignored: the pass is that of the remaining lines. */
  lemma UnclosedHeaderIgnored(name: string, rest: string)
    requires ']' !in name && '\n' !in name
    ensures ParseText("[" + name + "\n" + rest) == ParseText(rest)
  {
    var l1 := "[" + name;
    assert "[" + name + "\n" + rest == l1 + "\n" + rest;
    NotIn('\n', "[", name);
    SplitLinesCons(l1, rest);
    NotIn(']', "[", name);
    var st := ParseState([], "");
    HeaderLine(st, l1);
    assert LineStep(st, l1) == st;
    ParseLinesAppend(st, [l1], SplitLines(rest));
    ParseLinesSnoc(st, [], l1);
    assert [] + [l1] == [l1];
  }

  lemma TrimIndentedHash(c: string)
    requires ' ' !in c
    ensures Trimmed("  #" + c) == "#" + c
  {
    var key := "  #" + c;
    assert key[..2] == "  " && key[2..] == "#" + c;
    assert AllSpaces(key[..2]);
    if c != [] {
      assert key[|key| - 1] == c[|c| - 1];
      assert c[|c| - 1] in c;
    }
    TrimmedPadded(key, 2, |key|);
  }

  /**
   * Lines are not left-trimmed: under a section, an indented `  #c=d` is not a
   * comment but sets key `#c`.
   */
  lemma IndentedHashIsAKey(st: ParseState, c: string, d: string)
    requires st.current != [] && '=' !in c && ' ' !in c
    ensures Lookup(LineStep(st, "  #" + c + "=" + d).store, st.current, "#" + c) == Trimmed(d)
  {
    var key := "  #" + c;
    assert "  #" + c + "=" + d == key + "=" + d;
    NotIn('=', "  #", c);
    AssignmentLineLookup(st, key, d);
    TrimIndentedHash(c);
  }

  /** Trimming a string whose cut-off ends are spaces and whose kept slice has no space at its ends. */
  lemma TrimmedPadded(s: string, i: nat, j: nat)
    requires i <= j <= |s| && AllSpaces(s[..i]) && AllSpaces(s[j..])
    requires i < j ==> s[i] != ' ' && s[j - 1] != ' '
    ensures Trimmed(s) == s[i..j]
  {
    assert IsTrimOf(s, s[i..j]);
    TrimUnique(s, s[i..j]);
  }
}
