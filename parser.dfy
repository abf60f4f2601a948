/**
 * The class ini_parser: the parser's source (a path or the ini text itself), the
 * store of sections it fills, and the flag reporting that a pass has completed.
 * Opening and reading a file is outside the model: a method that would read the
 * file receives what the file holds as `file`, its lines, or None when it cannot
 * be opened.
 */
module Ini {
  import opened Wrappers
  import opened Trim
  import opened IniStore
  import opened IniLines

  /**
   * The store one parse() pass leaves behind, starting from `secs`: nothing happens
   * for an empty source, or for a file that cannot be opened; otherwise the lines of
   * the file, or of the text itself, are fed through parseLine with no current section.
   */
  function PassStore(secs: seq<Section>, iniFile: string, isFile: bool, file: Option<seq<string>>): seq<Section> {
    if iniFile == [] then secs
    else if isFile then
      match file
      case None => secs
      case Some(lines) => ParseLines(ParseState(secs, ""), lines).store
    else ParseLines(ParseState(secs, ""), SplitLines(iniFile)).store
  }

  class IniParser {
    /** The ini file path, or the ini data itself. */
    var iniFile: string
    /** Whether iniFile is a path (true) or the data (false). */
    var isFile: bool
    /** All the sections, in the order they were created. */
    var sections: seq<Section>
    /** Whether a parse pass has completed. */
    var isParsed: bool

    /** The store invariant every method keeps. */
    ghost predicate Valid()
      reads this
    {
      StoreValid(sections)
    }

    function IniFile(): string reads this { iniFile }
    function IsFile(): bool reads this { isFile }
    function IsParsed(): bool reads this { isParsed }

    /** An unparsed parser with no source and an empty store. */
    constructor ()
      ensures Valid()
      ensures IniFile() == [] && !IsFile() && sections == [] && !IsParsed()
    {
      iniFile := [];
      isFile := false;
      sections := [];
      isParsed := false;
    }

    /** Take a source and parse it right away; a bare source is a file path. */
    constructor FromSource(iniFile: string, file: Option<seq<string>>, isFile: bool := true)
      ensures Valid()
      ensures IniFile() == iniFile && IsFile() == isFile
      ensures sections == PassStore([], iniFile, isFile, file)
      ensures IsParsed() == (iniFile != [])
    {
      this.iniFile := iniFile;
      this.isFile := isFile;
      sections := [];
      isParsed := false;
      new;
      Parse(file);
    }

    /** Parse as a file or as data, as isFile says. */
    method Parse(file: Option<seq<string>>)
      requires Valid()
      modifies this`sections, this`isParsed
      ensures Valid()
      ensures sections == PassStore(old(sections), iniFile, isFile, file)
      ensures isParsed == (old(isParsed) || iniFile != [])
    {
      if isFile {
        ParseFile(file);
      } else {
        ParseData();
      }
    }

    /**
     * Parse the lines of the file at iniFile.  The flag is set once the path is
     * non-empty, whether or not the file could be opened.
     */
    method ParseFile(file: Option<seq<string>>)
      requires Valid()
      modifies this`sections, this`isParsed
      ensures Valid()
      ensures sections == PassStore(old(sections), iniFile, true, file)
      ensures isParsed == (old(isParsed) || iniFile != [])
    {
      if |iniFile| == 0 {
        return;
      }
      if file.Some? {
        var lines := file.value;
        var currentSection := "";
        var i := 0;
        while i < |lines|
          invariant 0 <= i <= |lines|
          invariant Valid()
          invariant ParseLines(ParseState(old(sections), ""), lines[..i]) == ParseState(sections, currentSection)
        {
          assert lines[..i + 1][..i] == lines[..i];
          currentSection := ParseLine(lines[i], currentSection);
          i := i + 1;
        }
        assert lines[..|lines|] == lines;
      }
      ParsingSuccess();
    }

    /** Parse iniFile as ini data, one line (as std::getline reads it) at a time. */
    method ParseData()
      requires Valid()
      modifies this`sections, this`isParsed
      ensures Valid()
      ensures sections == PassStore(old(sections), iniFile, false, None)
      ensures isParsed == (old(isParsed) || iniFile != [])
    {
      if |iniFile| == 0 {
        return;
      }
      var rest := iniFile;
      var currentSection := "";
      ghost var goal := ParseLines(ParseState(sections, ""), SplitLines(iniFile));
      while rest != []
        invariant Valid()
        invariant ParseLines(ParseState(sections, currentSection), SplitLines(rest)) == goal
        decreases |rest|
      {
        var line, next := Getline(rest);
        ParseLinesCons(ParseState(sections, currentSection), line, SplitLines(next));
        currentSection := ParseLine(line, currentSection);
        rest := next;
      }
      ParsingSuccess();
    }

    /** parseLine: classify one raw line, possibly renaming the current section or setting a value. */
    method ParseLine(line: string, currentSection: string) returns (newSection: string)
      requires Valid()
      modifies this`sections
      ensures Valid()
      ensures ParseState(sections, newSection) == LineStep(ParseState(old(sections), currentSection), line)
    {
      newSection := currentSection;
      if |line| == 0 {
        return;
      }
      if line[0] == '#' {
        return;
      } else if line[0] == '[' {
        var pos := IndexOf(line, ']');
        if pos < |line| {
          newSection := RemoveSpaces(line[1..pos]);
        }
      } else {
        // A parameter attached to no section is not parsed.
        if |newSection| == 0 {
          return;
        }
        var pos := IndexOf(line, '=');
        if pos < |line| && pos > 0 {
          var paramName := line[..pos];
          var valueName := "";
          if pos + 1 < |line| {
            valueName := line[pos + 1..];
          }
          paramName := RemoveSpaces(paramName);
          valueName := RemoveSpaces(valueName);
          SetValue(newSection, paramName, valueName);
        }
      }
    }

    /** setValue: find or append the section, find or append the parameter, then overwrite its value. */
    method SetValue(section: string, parameters: string, value: string)
      requires Valid()
      modifies this`sections
      ensures Valid()
      ensures sections == Upsert(old(sections), section, parameters, value)
    {
      var i := 0;
      while i < |sections|
        invariant i <= |sections|
        invariant forall k :: 0 <= k < i ==> sections[k].name != section
      {
        if sections[i].name == section {
          break;
        }
        i := i + 1;
      }
      FindSectionIs(sections, section, i);
      UpsertValid(sections, section, parameters, value);
      ghost var before := sections;
      if i == |sections| {
        sections := sections + [Section(section, [])];
      }
      var params := sections[i].params;
      var j := 0;
      while j < |params|
        invariant j <= |params|
        invariant forall k :: 0 <= k < j ==> params[k].name != parameters
      {
        if params[j].name == parameters {
          break;
        }
        j := j + 1;
      }
      FindParamIs(params, parameters, j);
      if j == |params| {
        params := params + [Parameter(parameters, "")];
      }
      assert i == |before| ==> params == [Parameter(parameters, "")] && sections == before + [Section(section, [])];
      params := params[j := params[j].(value := value)];
      sections := sections[i := sections[i].(params := params)];
      assert before == old(sections);
      if i < |before| {
        assert params == SetParam(before[i].params, parameters, value);
      } else {
        assert params == [Parameter(parameters, value)];
        assert sections[..|before|] == before;
        assert sections == sections[..|before|] + [Section(section, params)];
      }
    }

    /** removeParameters: erase the first parameter called `parameters` from the section, which must exist. */
    method RemoveParameters(section: string, parameters: string)
      requires Valid() && FindSection(sections, section) < |sections|
      modifies this`sections
      ensures Valid()
      ensures sections == EraseParam(old(sections), section, parameters)
    {
      var i := 0;
      while i < |sections|
        invariant i <= |sections|
        invariant forall k :: 0 <= k < i ==> sections[k].name != section
      {
        if sections[i].name == section {
          break;
        }
        i := i + 1;
      }
      FindSectionIs(sections, section, i);
      EraseParamValid(sections, section, parameters);
      var params := sections[i].params;
      var j := 0;
      while j < |params|
        invariant j <= |params|
        invariant forall k :: 0 <= k < j ==> params[k].name != parameters
      {
        if params[j].name == parameters {
          params := params[..j] + params[j + 1..];
          break;
        }
        j := j + 1;
      }
      FindParamIs(sections[i].params, parameters, j);
      sections := sections[i := sections[i].(params := params)];
    }

    /** removeSection: erase the first section called `section`, if any. */
    method RemoveSection(section: string)
      requires Valid()
      modifies this`sections
      ensures Valid()
      ensures sections == EraseSection(old(sections), section)
    {
      EraseSectionValid(sections, section);
      var i := 0;
      while i < |sections|
        invariant i <= |sections|
        invariant sections == old(sections)
        invariant forall k :: 0 <= k < i ==> sections[k].name != section
      {
        if sections[i].name == section {
          FindSectionIs(sections, section, i);
          sections := sections[..i] + sections[i + 1..];
          break;
        }
        i := i + 1;
      }
    }

    /** Record that the parsing has completed. */
    method ParsingSuccess()
      modifies this`isParsed
      ensures isParsed
    {
      isParsed := true;
    }

    /** removeSpaces: strip the leading spaces, then the trailing ones. */
    static method RemoveSpaces(value: string) returns (r: string)
      ensures r == Trimmed(value)
    {
      r := value;
      while |r| > 0
        invariant TrimLeft(r) == TrimLeft(value)
      {
        if r[0] == ' ' {
          r := r[1..];
        } else {
          break;
        }
      }
      while |r| > 0
        invariant TrimRight(r) == Trimmed(value)
      {
        if r[|r| - 1] == ' ' {
          r := r[..|r| - 1];
        } else {
          break;
        }
      }
    }

    /** getValue: the value of the first matching parameter of the first matching section, or "". */
    method GetValue(section: string, parameters: string) returns (r: string)
      ensures r == Lookup(sections, section, parameters)
    {
      var i := 0;
      while i < |sections|
        invariant i <= |sections|
        invariant forall k :: 0 <= k < i ==> sections[k].name != section
      {
        if sections[i].name == section {
          break;
        }
        i := i + 1;
      }
      FindSectionIs(sections, section, i);
      if i == |sections| {
        return "";
      }
      var params := sections[i].params;
      var j := 0;
      while j < |params|
        invariant j <= |params|
        invariant forall k :: 0 <= k < j ==> params[k].name != parameters
      {
        if params[j].name == parameters {
          break;
        }
        j := j + 1;
      }
      FindParamIs(params, parameters, j);
      if j == |params| {
        return "";
      }
      return params[j].value;
    }

    /** setIniFile: take the new source, reset the flag, clear the store and parse again. */
    method SetIniFile(iniFile: string, isFile: bool, file: Option<seq<string>>)
      requires Valid()
      modifies this
      ensures Valid()
      ensures IniFile() == iniFile && IsFile() == isFile
      ensures sections == PassStore([], iniFile, isFile, file)
      ensures IsParsed() == (iniFile != [])
    {
      this.iniFile := iniFile;
      this.isFile := isFile;
      isParsed := false;
      sections := [];
      Parse(file);
    }
  }
}
