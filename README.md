# ini_parser in Dafny

A Dafny model of `ini_parser`, a small C++ class that reads INI text. INI text is made of `[section]` header lines and `key=value` lines. The parser keeps an ordered store of sections, each holding an ordered list of parameters. It answers `getValue(section, key)` lookups, and its `setValue`, `removeParameters` and `removeSection` operations change the store.

The model has six modules, one per file:

- `Wrappers` (wrappers.dfy): the `Option` type.
- `Trim` (trim.dfy): what `removeSpaces` computes.
  - `Trimmed` is the specification function.
  - `IsTrimOf` is an independent description of trimming: a slice with only spaces cut off on each side.
- `IniStore` (store.dfy): the store itself.
  - The `Parameter` and `Section` datatypes, and the first-match searches `FindSection` and `FindParam`.
  - The lookup `Lookup`, and the pure effects of the store operations: `Upsert`, `EraseSection` and `EraseParam`.
  - The lemmas about these: round trip, frame, order, distinct names and idempotence.
- `IniLines` (lines.dfy): the line level.
  - `SplitLines` is the list of lines `std::getline` yields from a text.
  - `LineStep` is the effect of one `parseLine` call on the store and on the current section name.
  - `ParseLines` feeds a list of lines through `LineStep`, in order.
- `Ini` (parser.dfy): the class `IniParser`, with the C++ fields `iniFile`, `isFile`, `sections` and `isParsed`.
  - Every mutator is an imperative method that keeps the same loops as the C++ code.
  - Each method is proved against the functions above.
  - `Valid()` is the store invariant: section names are distinct, and parameter names are distinct within each section. Both constructors establish it, and every method keeps it.
- `IniScenarios` (scenarios.dfy): whole parse passes over small texts, stated for all names, keys and values.

Where the prose description of the library and the code disagree, the model follows the code:

- A line is classified by its raw first character. It is not left-trimmed first, so an indented `#` or `[` line is treated as an assignment line.
- A `#` after `=` stays in the value. Inline comments are not stripped.
- Keys that appear before the first header are dropped. There is no implicit global section and no one-argument `getValue(key)`.
- In file mode, `isParsed` becomes true even when the file cannot be opened.
- `getValue` never reports whether the key was found.

The getters `iniFile()`, `isFile()` and `isParsed()` are the functions `IniFile`, `IsFile` and `IsParsed`. `getValue` is `const` in C++, and `GetValue` has no `modifies` clause, so it changes nothing.

## Model

| member | source | states |
|---|---|---|
| Trim.Trimmed | src/ini_parser.cpp:252-274 | The result is no longer than the input and has no space at either end. |
| Trim.TrimLeft | src/ini_parser.cpp:255-262 | The result is a suffix of the input, everything cut off is a space, and the result does not start with a space. |
| Trim.TrimRight | src/ini_parser.cpp:264-273 | The result is a prefix of the input, everything cut off is a space, and the result does not end with a space. |
| Trim.TrimmedIsTrim | src/ini_parser.cpp:252-274 | The trimmed string is a contiguous slice of the input, with only spaces cut off on each side. |
| Trim.TrimUnique | src/ini_parser.cpp:252-274 | Any slice that has only spaces cut off and no space at its ends equals `Trimmed(s)`. So removing spaces removes exactly the maximal runs of spaces, and tabs and '\r' are kept. |
| Trim.TrimIdempotent | include/ini_parser.h:126-129 | Trimming twice equals trimming once. |
| Ini.IniParser.RemoveSpaces | src/ini_parser.cpp:252-274 | The static method with its two loops returns `Trimmed(value)`, which depends on the argument alone. |
| IniStore.FindSection | src/ini_parser.cpp:138-147 | Returns the index of the first section with the name, or the store length if there is none. No earlier section has the name. |
| IniStore.FindParam | src/ini_parser.cpp:168-177 | Returns the index of the first parameter with the name, or the list length if there is none. No earlier parameter has the name. |
| IniStore.LookupFindsBinding | src/ini_parser.cpp:296-332 | In a valid store, getValue returns the value bound to (section, key). |
| IniStore.LookupIsBinding | src/ini_parser.cpp:296-332 | A non-empty getValue result is a value the store binds to (section, key). |
| IniStore.LookupMissingSection | src/ini_parser.cpp:312-313 | An absent section yields "". |
| Ini.IniParser.GetValue | src/ini_parser.cpp:296-332 | The two first-match loops return `Lookup(sections, section, parameters)`: "" when the section or the key is missing. The method modifies nothing. |
| IniStore.SetParamLookup | src/ini_parser.cpp:168-189 | After setting a parameter, the key yields the new value and every other key yields what it did before. |
| IniStore.UpsertLookup | src/ini_parser.cpp:132-190 | After setValue(s,k,v), getValue(s,k) is v, and every other (section, key) pair looks up as before. |
| IniStore.SetParamNames | src/ini_parser.cpp:179-186 | Parameter names are unchanged when the key exists. Otherwise the key is appended at the end. |
| IniStore.UpsertShape | src/ini_parser.cpp:149-156 | Section names are unchanged when the section exists. Otherwise the section is appended at the end, holding exactly the new parameter. Every other section is unchanged. |
| IniStore.UpsertValid | src/ini_parser.cpp:138-189 | setValue keeps section names distinct and parameter names distinct within each section. |
| IniStore.SetParamIdempotent | src/ini_parser.cpp:168-189 | Setting the same parameter twice equals setting it once. |
| IniStore.UpsertIdempotent | src/ini_parser.cpp:132-190 | setValue twice with the same arguments leaves the same store as once. |
| Ini.IniParser.SetValue | src/ini_parser.cpp:132-190 | The find-or-append loops leave `Upsert(old(sections), ...)` and keep `Valid()`. |
| IniStore.EraseSectionKeepsOthers | src/ini_parser.cpp:232-245 | In a valid store, removeSection leaves exactly the other sections in their order. It is a no-op when the section is absent. |
| IniStore.FindAfterErase | src/ini_parser.cpp:235-244 | After the erase, the removed name is no longer found. Sections before it keep their index, and sections after it move down by one. |
| IniStore.EraseSectionLookup | src/ini_parser.cpp:232-245 | After removeSection(s), every key of s yields "". Every other section looks up as before. |
| IniStore.EraseSectionValid | src/ini_parser.cpp:232-245 | removeSection keeps the store invariant. |
| Ini.IniParser.RemoveSection | src/ini_parser.cpp:232-245 | The loop leaves `EraseSection(old(sections), section)` and keeps `Valid()`. |
| IniStore.EraseFirstParamExcept | src/ini_parser.cpp:214-224 | With distinct names, erasing the first match leaves exactly the other parameters in order. It is a no-op when the key is absent. |
| IniStore.EraseParamShape | src/ini_parser.cpp:197-225 | removeParameters changes only the named section, which keeps exactly its other parameters in order. It is a no-op when the key is absent. |
| IniStore.EraseFirstParamFind | src/ini_parser.cpp:214-224 | After the erase the key yields "". Every other key yields what it did before. |
| IniStore.EraseParamLookup | src/ini_parser.cpp:197-225 | After removeParameters(s,k), getValue(s,k) is "". Every other pair looks up as before. |
| IniStore.EraseParamValid | src/ini_parser.cpp:197-225 | removeParameters keeps the store invariant. |
| Ini.IniParser.RemoveParameters | src/ini_parser.cpp:197-225 | For an existing section, the loops leave `EraseParam(old(sections), ...)` and keep `Valid()`. |
| IniLines.IndexOf | src/ini_parser.cpp:84 | Returns the first index of the character, or the length if there is none, as `find_first_of` does. |
| IniLines.SplitLinesNoNewline | src/ini_parser.cpp:64-68 | No line that getline yields contains a '\n'. |
| IniLines.SplitLinesFirst | src/ini_parser.cpp:67 | One getline takes the text up to the first '\n' and leaves the rest after it. |
| IniLines.Getline | src/ini_parser.cpp:67 | Splits off the first line; the remaining lines are those of the shorter rest. |
| IniLines.SplitThenJoin | src/ini_parser.cpp:64-68 | Re-joining the lines with '\n' after each gives back the text, with one '\n' added if it had no final one. So no character other than the separators is lost, '\r' included. |
| IniLines.JoinThenSplit | src/ini_parser.cpp:64-68 | Lines without '\n', joined, split back into the same lines. |
| IniLines.IgnoredLine | src/ini_parser.cpp:76-81 | An empty line, or a line whose first character is '#', changes nothing. |
| IniLines.HeaderLine | src/ini_parser.cpp:82-93 | A '[' line never changes the store. Without ']' it keeps the current section. |
| IniLines.HeaderLineName | src/ini_parser.cpp:84-91 | `[name]rest` sets the current section to the trimmed text before the first ']'. |
| IniLines.AssignmentLine | src/ini_parser.cpp:95-105 | Any other line keeps the current section. It changes nothing with no current section, with no '=', or with '=' first. |
| IniLines.AssignmentLineSets | src/ini_parser.cpp:104-122 | Under a section, `key=value` calls setValue with the trimmed key and the trimmed value, '#' included. |
| IniLines.AssignmentLineLookup | src/ini_parser.cpp:104-122 | After such a line, getValue yields the trimmed value. |
| IniLines.LineStepValid | src/ini_parser.cpp:73-125 | One parseLine keeps the store invariant. |
| Ini.IniParser.ParseLine | src/ini_parser.cpp:73-125 | The new store and section name are `LineStep` of the old ones. |
| IniLines.ParseLinesAppend | src/ini_parser.cpp:67-68 | Feeding a then b equals feeding a + b, one line after another in order. |
| IniLines.ParseLinesValid | src/ini_parser.cpp:50-51 | A whole pass keeps the store invariant. |
| IniLines.OrphanLinesDropped | src/ini_parser.cpp:97-102 | Lines before the first header that do not start with '[' leave the state untouched. |
| IniLines.OrphanPrefixIgnored | src/ini_parser.cpp:97-102 | A pass over such lines followed by the rest equals a pass over the rest alone. |
| Ini.IniParser.ParseData | src/ini_parser.cpp:57-71 | An empty source changes nothing. Otherwise each getline line goes through parseLine in order, starting with no current section, and the flag is set. |
| Ini.IniParser.ParseFile | src/ini_parser.cpp:37-55 | An empty path changes nothing. An unopenable file leaves the store as it was. Otherwise the file's lines are parsed in order. For any non-empty path the flag is set, even if the file could not be opened. |
| Ini.IniParser.Parse | src/ini_parser.cpp:28-35 | Dispatches on isFile, and the store becomes `PassStore` of the old one. |
| Ini.IniParser.ParsingSuccess | src/ini_parser.cpp:247-250 | Sets the flag. |
| Ini.IniParser.constructor | src/ini_parser.cpp:7-10 | No source, not a file, an empty store, and not parsed. |
| Ini.IniParser.FromSource | src/ini_parser.cpp:20-26 | Keeps the source and the mode; `isFile` defaults to true, as in include/ini_parser.h:47-48. Parses at once: the store is that of one pass from empty, and the flag is set exactly when the source is non-empty. |
| Ini.IniParser.SetIniFile | src/ini_parser.cpp:343-350 | The getters return the new arguments. The store is that of one fresh pass from empty, whatever it held before, and the flag is set exactly when the source is non-empty. |
| IniScenarios.OneSectionOneKey | src/ini_parser.cpp:57-125 | `[name]\nkey=value` stores one section holding one parameter, with the name, key and value trimmed. |
| IniScenarios.HashStaysInValue | src/ini_parser.cpp:104-122 | An inline `#note` after the value is kept in the value that getValue returns. |
| IniScenarios.NoHeaderNoStore | src/ini_parser.cpp:97-102 | A text none of whose lines starts with '[' stores nothing, so orphan keys are dropped. |
| IniScenarios.UnclosedHeaderIgnored | src/ini_parser.cpp:82-93 | A first line `[name` without ']' has no effect on the pass. |
| IniScenarios.IndentedHashIsAKey | src/ini_parser.cpp:80-122 | An indented `  #c=d` is not a comment; it sets the key `#c`. |

## Left out

- File I/O. Opening and reading the file (src/ini_parser.cpp:44-52) is replaced by an argument `file: Option<seq<string>>`. It holds the file's lines, or `None` when the file cannot be opened. `FromSource`, `Parse`, `ParseFile` and `SetIniFile` take this argument. In `FromSource` it comes before the defaulted `isFile`.
- `std::istringstream` and `std::getline` are replaced by the function `SplitLines` and the method `Getline`. These split on '\n', yield no empty last line after a final '\n', and keep '\r'.
- The `const char*` overloads only convert their arguments to `std::string`, so they are not modelled separately. The lifetime of the pointer `c_str()` returns is not modelled either.
- `parseLine` is `virtual`; only its own implementation is modelled, not overrides in subclasses.
- `removeFirstSpaces` is declared in the header but has no definition, so there is nothing to model.
- The `isExist` out-pointer of `getValue` is never written, so it is not a parameter of `GetValue`.
- The `getValue` result is returned by reference to a shared null string; the model returns the string value.
- C++ memory details are not modelled: pointers into vectors after `push_back`, and the reverse iterator that keeps being used after the erase in the trailing-space loop. The model gives the value semantics that loop has on contiguous storage: every trailing space is removed.
- RemoveParameters: requires the section to exist. For an absent section the C++ code dereferences a null pointer, and the model does not say what happens then.
- Ini.IniParser.Valid: every method requires the store invariant. The C++ code states no such precondition, but every constructor establishes the invariant and every method keeps it, so no caller can break it.
