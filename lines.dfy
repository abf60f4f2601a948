/**
 * The line level of ini_parser: splitting a text into lines the way std::getline
 * does, classifying one line (ini_parser::parseLine) and running a whole pass of
 * lines through the classifier.
 */
module IniLines {
  import opened Trim
  import opened IniStore

  /** Position of the first `c` in s, or |s| when there is none (std::string::find_first_of). */
  function IndexOf(s: string, c: char): (i: nat)
    ensures i <= |s|
    ensures i < |s| ==> s[i] == c
    ensures forall k :: 0 <= k < i ==> s[k] != c
  {
    if |s| == 0 then 0
    else if s[0] == c then 0
    else 1 + IndexOf(s[1..], c)
  }

  /** The first-occurrence property determines IndexOf. */
  lemma IndexOfIs(s: string, c: char, i: nat)
    requires i <= |s| && (i < |s| ==> s[i] == c)
    requires forall k :: 0 <= k < i ==> s[k] != c
    ensures IndexOf(s, c) == i
  {
  }

  /** In a + [c] + b with no c in a, the first c is at |a|. */
  lemma IndexOfAfter(a: string, c: char, b: string)
    requires c !in a
    ensures IndexOf(a + [c] + b, c) == |a|
  {
    var t := a + [c] + b;
    forall k | 0 <= k < |a| ensures t[k] != c {
      assert t[k] == a[k];
      assert a[k] in a;
    }
    IndexOfIs(t, c, |a|);
  }

  /** A string without c has no c at all positions. */
  lemma IndexOfAbsent(s: string, c: char)
    requires c !in s
    ensures IndexOf(s, c) == |s|
  {
    forall k | 0 <= k < |s| ensures s[k] != c {
      assert s[k] in s;
    }
    IndexOfIs(s, c, |s|);
  }

  /**
   * The lines std::getline yields from a text: the pieces between '\n' characters,
   * with no empty last line after a final '\n'; '\r' is kept.
   */
  function SplitLines(text: string): seq<string>
    decreases |text|
  {
    if text == [] then []
    else
      var i := IndexOf(text, '\n');
      if i == |text| then [text] else [text[..i]] + SplitLines(text[i + 1..])
  }

  /** No line std::getline yields holds a '\n'. */
  lemma {:induction false} SplitLinesNoNewline(text: string)
    ensures forall l :: l in SplitLines(text) ==> '\n' !in l
    decreases |text|
  {
    if text != [] {
      var i := IndexOf(text, '\n');
      if i < |text| {
        SplitLinesNoNewline(text[i + 1..]);
      }
    }
  }

  /** What one std::getline call takes off the front of a non-empty text: the first line, and the rest. */
  lemma SplitLinesFirst(text: string)
    requires text != []
    ensures var pos := IndexOf(text, '\n');
      SplitLines(text) == [text[..pos]] + SplitLines(if pos < |text| then text[pos + 1..] else [])
  {
    if IndexOf(text, '\n') == |text| {
      assert text[..|text|] == text;
    }
  }

  /** std::getline: take the first line off a non-empty text. */
  method Getline(text: string) returns (line: string, rest: string)
    requires text != []
    ensures SplitLines(text) == [line] + SplitLines(rest)
    ensures |rest| < |text|
  {
    var pos := IndexOf(text, '\n');
    SplitLinesFirst(text);
    line := text[..pos];
    if pos < |text| {
      rest := text[pos + 1..];
    } else {
      rest := [];
    }
  }

  /** A line without '\n' followed by '\n' and more text splits off as the first line. */
  lemma SplitLinesCons(a: string, b: string)
    requires '\n' !in a
    ensures SplitLines(a + "\n" + b) == [a] + SplitLines(b)
  {
    var t := a + "\n" + b;
    IndexOfAfter(a, '\n', b);
    assert t[..|a|] == a && t[|a| + 1..] == b;
  }

  /** A non-empty text without '\n' is a single line. */
  lemma SplitLinesOne(a: string)
    requires a != [] && '\n' !in a
    ensures SplitLines(a) == [a]
  {
    IndexOfAbsent(a, '\n');
    assert a[..|a|] == a;
  }

  /** Each line followed by '\n'. */
  function Unlines(lines: seq<string>): string {
    if lines == [] then [] else lines[0] + "\n" + Unlines(lines[1..])
  }

  lemma UnlinesCons(a: string, lines: seq<string>)
    ensures Unlines([a] + lines) == a + "\n" + Unlines(lines)
  {
    assert ([a] + lines)[1..] == lines;
  }

  /** Splitting and joining again one line at the front. */
  lemma JoinFirstLine(text: string, i: nat)
    requires i == IndexOf(text, '\n') && i < |text|
    ensures Unlines(SplitLines(text)) == text[..i] + "\n" + Unlines(SplitLines(text[i + 1..]))
  {
    var lines := SplitLines(text[i + 1..]);
    assert SplitLines(text) == [text[..i]] + lines;
    UnlinesCons(text[..i], lines);
  }

  /** Splitting and joining again a text with no '\n' adds one at the end. */
  lemma JoinLastLine(text: string)
    requires text != [] && IndexOf(text, '\n') == |text|
    ensures text[|text| - 1] != '\n'
    ensures Unlines(SplitLines(text)) == text + "\n"
  {
    assert SplitLines(text) == [text] by {
      assert text[..|text|] == text;
    }
    assert [text][1..] == [];
  }

  /** A text as std::getline and Unlines leave it: with a final '\n' unless it is empty. */
  function Terminated(text: string): string {
    if text == [] || text[|text| - 1] == '\n' then text else text + "\n"
  }

  /** Putting the first line back in front of the rejoined rest of the text. */
  lemma RejoinFirstLine(text: string, i: nat, u: string)
    requires i < |text| && text[i] == '\n'
    requires u == Terminated(text[i + 1..])
    ensures text[..i] + "\n" + u == Terminated(text)
  {
    var rest := text[i + 1..];
    assert text[i..] == "\n" + rest;
    assert text == text[..i] + "\n" + rest by {
      assert text == text[..i] + text[i..];
    }
    if rest != [] {
      assert rest[|rest| - 1] == text[|text| - 1];
    }
  }

  /** One step of SplitThenJoin: if the rest after the first line rejoins, so does the whole text. */
  lemma JoinStep(text: string, i: nat)
    requires i == IndexOf(text, '\n') && i < |text|
    requires Unlines(SplitLines(text[i + 1..])) == Terminated(text[i + 1..])
    ensures Unlines(SplitLines(text)) == Terminated(text)
  {
    JoinFirstLine(text, i);
    RejoinFirstLine(text, i, Unlines(SplitLines(text[i + 1..])));
  }

  /** Splitting and joining again gives back the text, with a '\n' added when it had no final one. */
  lemma {:induction false} SplitThenJoin(text: string)
    ensures Unlines(SplitLines(text)) == Terminated(text)
    decreases |text|
  {
    if text != [] {
      var i := IndexOf(text, '\n');
      if i < |text| {
        SplitThenJoin(text[i + 1..]);
        JoinStep(text, i);
      } else {
        JoinLastLine(text);
      }
    }
  }

  /** Joining lines that hold no '\n' and splitting again gives back the lines. */
  lemma {:induction false} JoinThenSplit(lines: seq<string>)
    requires forall l :: l in lines ==> '\n' !in l
    ensures SplitLines(Unlines(lines)) == lines
  {
    if lines != [] {
      var a, rest := lines[0], lines[1..];
      assert lines == [a] + rest;
      assert a in lines;
      assert forall l :: l in rest ==> l in lines;
      JoinThenSplit(rest);
      UnlinesCons(a, rest);
      SplitLinesCons(a, Unlines(rest));
    }
  }

  /** What a parse pass carries from one line to the next: the store and the current section name. */
  datatype ParseState = ParseState(store: seq<Section>, current: string)

  /** ini_parser::parseLine: the effect of one raw (not left-trimmed) line. */
  function LineStep(st: ParseState, line: string): ParseState {
    if |line| == 0 || line[0] == '#' then st
    else if line[0] == '[' then
      var pos := IndexOf(line, ']');
      if pos < |line| then st.(current := Trimmed(line[1..pos])) else st
    else if st.current == [] then st
    else
      var pos := IndexOf(line, '=');
      if 0 < pos < |line| then
        st.(store := Upsert(st.store, st.current, Trimmed(line[..pos]), Trimmed(line[pos + 1..])))
      else st
  }

  /** The state after feeding `lines`, in order, through LineStep. */
  function ParseLines(st: ParseState, lines: seq<string>): ParseState
    decreases |lines|
  {
    if lines == [] then st else LineStep(ParseLines(st, lines[..|lines| - 1]), lines[|lines| - 1])
  }

  /** The store one pass over `text` builds from an empty store, starting with no current section. */
  function ParseText(text: string): seq<Section> {
    ParseLines(ParseState([], ""), SplitLines(text)).store
  }

  // ---------------------------------------------------------------- one line

  /** An empty line or one whose first character is '#' changes nothing. */
  lemma IgnoredLine(st: ParseState, line: string)
    requires |line| == 0 || line[0] == '#'
    ensures LineStep(st, line) == st
  {
  }

  /**
   * A line starting with '[' never touches the store, and leaves the current section
   * alone when it has no ']'.
   */
  lemma HeaderLine(st: ParseState, line: string)
    requires |line| > 0 && line[0] == '['
    ensures LineStep(st, line).store == st.store
    ensures ']' !in line ==> LineStep(st, line).current == st.current
  {
    if ']' !in line {
      IndexOfAbsent(line, ']');
    }
  }

  /** A header line renames the current section to the trimmed text before the first ']'. */
  lemma HeaderLineName(st: ParseState, name: string, rest: string)
    requires ']' !in name
    ensures LineStep(st, "[" + name + "]" + rest) == st.(current := Trimmed(name))
  {
    var line := "[" + name + "]" + rest;
    assert ']' !in "[" + name by {
      forall k | 0 <= k < |name| + 1 ensures ("[" + name)[k] != ']' {
        if k > 0 { assert ("[" + name)[k] == name[k - 1] && name[k - 1] in name; }
      }
    }
    assert line == ("[" + name) + [']'] + rest;
    IndexOfAfter("[" + name, ']', rest);
    assert line[1..|name| + 1] == name;
  }

  /**
   * Any other line keeps the current section, and changes nothing when no section is
   * current, when it has no '=' or when its first character is '='.
   */
  lemma AssignmentLine(st: ParseState, line: string)
    requires |line| > 0 && line[0] != '#' && line[0] != '['
    ensures LineStep(st, line).current == st.current
    ensures st.current == [] || '=' !in line || line[0] == '=' ==> LineStep(st, line).store == st.store
  {
    if '=' !in line {
      IndexOfAbsent(line, '=');
    }
  }

  /**
   * Under a current section, `key=value` sets the trimmed key of that section to the
   * trimmed value, '#' included; the key is the text before the first '='.
   */
  lemma AssignmentLineSets(st: ParseState, key: string, value: string)
    requires st.current != [] && key != [] && '=' !in key && key[0] != '#' && key[0] != '['
    ensures LineStep(st, key + "=" + value) ==
            st.(store := Upsert(st.store, st.current, Trimmed(key), Trimmed(value)))
  {
    var line := key + "=" + value;
    assert line[0] == key[0];
    IndexOfAfter(key, '=', value);
    assert line[..|key|] == key && line[|key| + 1..] == value;
  }

  /** After an assignment line under a current section, getValue yields the trimmed value verbatim. */
  lemma AssignmentLineLookup(st: ParseState, key: string, value: string)
    requires st.current != [] && key != [] && '=' !in key && key[0] != '#' && key[0] != '['
    ensures Lookup(LineStep(st, key + "=" + value).store, st.current, Trimmed(key)) == Trimmed(value)
  {
    AssignmentLineSets(st, key, value);
    UpsertLookup(st.store, st.current, Trimmed(key), Trimmed(value), st.current, Trimmed(key));
  }

  /** One line keeps the store invariant. */
  lemma LineStepValid(st: ParseState, line: string)
    requires StoreValid(st.store)
    ensures StoreValid(LineStep(st, line).store)
  {
    if |line| == 0 || line[0] == '#' {
      assert LineStep(st, line) == st;
    } else if line[0] == '[' {
      HeaderLine(st, line);
    } else if st.current != [] {
      var pos := IndexOf(line, '=');
      if 0 < pos < |line| {
        UpsertValid(st.store, st.current, Trimmed(line[..pos]), Trimmed(line[pos + 1..]));
      }
    }
  }

  // ---------------------------------------------------------------- a pass

  /** Feeding one more line is one more LineStep. */
  lemma ParseLinesSnoc(st: ParseState, lines: seq<string>, line: string)
    ensures ParseLines(st, lines + [line]) == LineStep(ParseLines(st, lines), line)
  {
    assert (lines + [line])[..|lines|] == lines;
  }

  /** Feeding `a` then `b` is feeding a + b. */
  lemma {:induction false} ParseLinesAppend(st: ParseState, a: seq<string>, b: seq<string>)
    ensures ParseLines(st, a + b) == ParseLines(ParseLines(st, a), b)
    decreases |b|
  {
    if b == [] {
      assert a + b == a;
    } else {
      assert (a + b)[..|a + b| - 1] == a + b[..|b| - 1];
      ParseLinesAppend(st, a, b[..|b| - 1]);
    }
  }

  /** Feeding a first line, then the rest. */
  lemma ParseLinesCons(st: ParseState, line: string, rest: seq<string>)
    ensures ParseLines(st, [line] + rest) == ParseLines(LineStep(st, line), rest)
  {
    ParseLinesAppend(st, [line], rest);
    ParseLinesSnoc(st, [], line);
    assert [] + [line] == [line];
  }

  /** A pass keeps the store invariant. */
  lemma {:induction false} ParseLinesValid(st: ParseState, lines: seq<string>)
    requires StoreValid(st.store)
    ensures StoreValid(ParseLines(st, lines).store)
    decreases |lines|
  {
    if lines != [] {
      ParseLinesValid(st, lines[..|lines| - 1]);
      LineStepValid(ParseLines(st, lines[..|lines| - 1]), lines[|lines| - 1]);
    }
  }

  /**
   * Strict policy: before the first header line there is no current section, so lines
   * that do not start with '[' are dropped and the state is untouched.
   */
  lemma {:induction false} OrphanLinesDropped(secs: seq<Section>, lines: seq<string>)
    requires forall l :: l in lines ==> |l| == 0 || l[0] != '['
    ensures ParseLines(ParseState(secs, ""), lines) == ParseState(secs, "")
    decreases |lines|
  {
    if lines != [] {
      assert forall l :: l in lines[..|lines| - 1] ==> l in lines;
      OrphanLinesDropped(secs, lines[..|lines| - 1]);
      assert lines[|lines| - 1] in lines;
    }
  }

  /** Hence a pass over orphan lines followed by `rest` is a pass over `rest` alone. */
  lemma OrphanPrefixIgnored(secs: seq<Section>, orphans: seq<string>, rest: seq<string>)
    requires forall l :: l in orphans ==> |l| == 0 || l[0] != '['
    ensures ParseLines(ParseState(secs, ""), orphans + rest) == ParseLines(ParseState(secs, ""), rest)
  {
    ParseLinesAppend(ParseState(secs, ""), orphans, rest);
    OrphanLinesDropped(secs, orphans);
  }
}
