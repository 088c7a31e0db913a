# template2code in Dafny

template2code (`t2c.js`) is a command-line scaffolding tool. It lists the
directories under `./templates` and asks the user to pick one by index. It
then walks the chosen directory tree into a nested object. During the walk it
registers every placeholder `{{name}}` that occurs in a full path or in a
file's content. Next it asks for one value per placeholder and stops on an
empty answer. Finally it rebuilds the tree with every placeholder replaced by
its value and writes the result to `./generated`.

This project models that core as pure functions over an in-memory file
system. Each module follows one part of the program:

- `Outcomes`: the `Option` and `Result` types. The failure kinds are the
  messages the program prints before `process.exit(1)`: no templates,
  template not found, an empty value, and a missing value.
- `Scanner`: the global regular expression `{{([^({{)(}})]*)}}`. It covers
  the position-by-position scan, the pieces it cuts a string into, the names
  it reports, and `String.prototype.match`.
- `Registry`: `templateVars` during parsing. It is an insertion-ordered list
  of distinct keys, and `registerTemplateVarsFromSource` is `Register`.
- `Tree`: the nested object. It is an ordered list of entries, and
  `res[key] = value` is `Put`, which replaces a key where it stands or else
  appends it. Reading a key gives the value of its last assignment.
- `Parser`: `parseTemplateStructure` and `parseTemplate` over a directory
  given as its `readdirSync` listing.
- `Substitution`: `generateFinalString`, a single `replace` pass.
- `Generator`: `generateFinalStructure`.
- `Values`: `requestValuesFromUser`. The replies are a function from the
  key asked about to the line typed.
- `Selection`: `readAvailableTemplates` and `requestTemplateFromUser`. These
  include how a reply string is used as a property key of the template
  array.
- `Writer`: `writeStructureToFilesystem`. It yields the sequence of
  directory creations and file writes it performs.
- `Pipeline`: the chain `requestTemplateFromUser`, then
  `requestValuesFromUser`, then `saveChanges`, with the reply to each prompt
  as an input.
- `Scenarios`: worked examples on concrete strings.

The constants come from `t2c.config.js`:

- the template root `./templates`;
- the generation directory `./generated`;
- the delimiters `{{` and `}}`.

Two behaviours of the code are worth stating up front:

- **Name characters.** The body of a placeholder is the character class
  `[^({{)(}})]`, so the single characters `(`, `{`, `)` and `}` cannot occur
  in a name (`Scanner.BodyClassText`). As a result, `{{f(x)}}` is not a
  placeholder (`Scenarios.ParenthesesBreakToken`).
- **One pass can create a placeholder.** In `{{{{a}}}}` only the inner
  `{{a}}` matches, and the outer braces stay in the text. With `a` set to
  `b`, the output is `{{b}}`, which is itself a placeholder
  (`Scenarios.ValueFormsPlaceholder`).

## Model

| member | source | states |
|---|---|---|
| Scanner.BodyClassText | t2c.js:8-11 | A character may occur in a name exactly when it is none of the characters listed in the negated class: `(`, `{`, `)`, `}`. |
| Scanner.RunLength | t2c.js:9 | The greedy `*` takes a run of body characters only. The run ends at the end of the string or at a character outside the class. |
| Scanner.TokenLength | t2c.js:8-11 | A non-zero length at a position means that a match of `{{`, then body characters, then `}}` starts there and fits in the string. |
| Scanner.TokenAtIsToken | t2c.js:8-11 | A match at a position is exactly a slice of the string that lies in the language of the regular expression. |
| Scanner.TokenLengthExact | t2c.js:8-11 | At most one match length is possible at a position, and the scan takes it. Backtracking can never find a second, shorter match. |
| Scanner.NoOverlap | t2c.js:10 | No match starts strictly inside another match, so the left-to-right scan of the global flag is unambiguous. |
| Scanner.ScanFrom | t2c.js:83 | Every hole the scan produces carries a name made of body characters only. |
| Scanner.ScanRenders | t2c.js:83 | The scanned pieces spell the input back. Unmatched characters are kept in order, and each match is `{{`, its name, then `}}`. |
| Scanner.ScanToken | t2c.js:8-11 | Any name made of body characters, placed between the delimiters, scans as exactly one hole carrying that name. |
| Scanner.HoleNamesOfScan | t2c.js:83 | The names that the `replace` pass visits are exactly the names that `match` reports for the same string, in the same order. |
| Scanner.NamesAreNames | t2c.js:46 | Every reported name consists of body characters. Wrapping it in the delimiters again gives a match whose slice is that name. |
| Scanner.Match | t2c.js:45-46 | `match` returns null exactly when nothing matches. Otherwise it returns one token per match, in order. Cutting two characters off each end of a token gives its name. |
| Scanner.NamesFromFindsMatch | t2c.js:45 | The scan from a position reports the name of every match that starts at or after that position; no match is skipped. |
| Scanner.NamesFromFoundAt | t2c.js:45 | Every name reported from a position comes from a match that starts at or after it. |
| Scanner.ScanFinds | t2c.js:45 | A name is reported if and only if some match in the string carries it. |
| Scanner.NamesOfSuffix | t2c.js:68-69 | Every placeholder of a suffix is a placeholder of the whole string. So registering a full path registers every placeholder of the entry's own name. |
| Scanner.NoNamesIffNoToken | t2c.js:45 | No name is reported if and only if no substring lies in the language of the regular expression. |
| Registry.Add | t2c.js:47 | `templateVars[name] = null`. The keys stay distinct, the old keys keep their places, and the key set grows by exactly `name`. |
| Registry.AddAll | t2c.js:45-48 | Registering names one by one keeps the old keys as a prefix and keeps keys distinct. Afterwards the key set is the old keys plus the names. |
| Registry.Register | t2c.js:44-49 | Registering a source keeps the earlier keys in place and keeps keys distinct. It adds exactly the names matched in the source, and each new key is a placeholder name. |
| Registry.RegisterAddsNames | t2c.js:44-49 | Registering a source adds the names its matches carry, in match order. |
| Registry.RegisterNoMatch | t2c.js:45 | A source containing no substring in the language leaves the registry unchanged, because the null `match` result is skipped. |
| Registry.AddAllAppend | t2c.js:67-77 | Registering two lists of names one after the other is the same as registering their concatenation. |
| Parser.FullPath | t2c.js:68 | The full path is the root directory, a slash, then the entry name. Each part can be read back at its position. |
| Parser.ParseEntry | t2c.js:67-77 | Visiting one entry gives the registry the entry's names (full path, then file content or the sub-tree), each once and in first-visit order. Every placeholder of the entry's name and of the value built for it is registered. Files stay files and directories stay directories. A well-formed entry is copied unchanged. |
| Parser.ParseEntries | t2c.js:66-78 | The object built has distinct keys, and the registry gains the visited names in first-visit order. Every placeholder of every built entry is registered. A listing whose names are distinct at every level is copied as it is. |
| Parser.Parse | t2c.js:60-79 | Starting from an empty registry, the keys are distinct and are exactly the names the walk visits. Each key is a placeholder name. Every placeholder in the built tree is a key. A well-formed directory is copied unchanged. |
| Parser.VisitedAreNames | t2c.js:69-74 | Everything the walk registers, from paths and from file contents, is a placeholder name. |
| Substitution.Fill | t2c.js:83-89 | The replacement pass succeeds exactly when every hole has a value. Otherwise it reports the leftmost hole without a value. |
| Substitution.Substitute | t2c.js:82-90 | Substituting a string succeeds exactly when every name matched in it has a value. Otherwise it fails with the first such name in match order, which is the name the program prints before exiting. |
| Substitution.FillAppend | t2c.js:83-89 | Filling a concatenation of pieces joins the fills of the parts. Text produced for one part is never scanned again. |
| Substitution.FillHole | t2c.js:88 | A hole is replaced by its value, verbatim. |
| Substitution.FillTextOnly | t2c.js:83 | Pieces without holes come out as their text, whatever the values. |
| Substitution.SubstituteNoToken | t2c.js:82-90 | A string containing no substring in the language substitutes to itself under any values, even none. |
| Substitution.SubstituteNoNames | t2c.js:82-90 | A string without placeholder names substitutes to itself under any values. |
| Substitution.SubstituteRestoring | t2c.js:83-89 | When every name is mapped to its own token, substitution returns the input. So text outside the matches is copied verbatim and in order. |
| Tree.Lookup | t2c.js:92-98 | After a sequence of assignments, a key holds a value exactly when some assignment used it, and the value is that of the last such assignment. |
| Tree.Put | t2c.js:94 | `res[key] = value`. Keys stay distinct and `key` reads back `value`. Every other key reads what it read before. An existing key is replaced in place, and a new key is appended. |
| Tree.Assign | t2c.js:92-98 | Assigning a sequence of entries gives distinct keys, and each key reads the last value assigned to it. There are never more entries than assignments. |
| Tree.AssignDistinct | t2c.js:92-98 | Entries whose keys are distinct are kept exactly, in order. |
| Tree.AssignClash | t2c.js:94 | When two entries share a key, the object has fewer entries than there were assignments, because the earlier value is lost. |
| Generator.SubstituteEntry | t2c.js:94-96 | An entry converts exactly when every placeholder of its key and its content or sub-tree has a value. Otherwise it fails on the first missing name. On success the key is substituted, and so is a file's content; a directory is regenerated. |
| Generator.SubstituteEntries | t2c.js:93-97 | The entries of a directory convert exactly when all their placeholders have values, with the first missing name reported on failure. On success there is one converted pair per entry, at the same index. |
| Generator.Generate | t2c.js:81-99 | Regenerating a tree succeeds exactly when every placeholder in it has a value, and fails on the first missing name in walk order. On success it yields an object with distinct keys and no more entries than the input. |
| Generator.GenerateShape | t2c.js:92-98 | When no two keys substitute to the same string, the output has one entry per input entry, in input order, each converted from the input entry at its index. |
| Generator.GenerateLaterWins | t2c.js:94 | The value under a substituted key is the conversion of the last entry whose key substitutes to it. |
| Generator.GenerateKeys | t2c.js:94 | The output keys are exactly the substituted input keys. |
| Generator.GenerateNoPlaceholders | t2c.js:81-99 | A well-formed tree without placeholders is regenerated unchanged under any values. |
| Values.Answers | t2c.js:35-38 | The results object has one key per question and maps it to the reply given to that question. |
| Values.CheckFilled | t2c.js:149-153 | No key is reported exactly when every value is non-empty. Otherwise the key reported is the first one, in key order, whose value is empty. |
| Values.CollectValues | t2c.js:138-154 | Collecting values succeeds exactly when every answer is non-empty, and the values are then exactly the answers, one per key. Otherwise it fails with `EmptyValue`, naming the first key with an empty answer. |
| Selection.DecimalString | t2c.js:128 | The decimal spelling of a natural number is canonical and denotes that number. |
| Selection.ArrayIndex | t2c.js:131 | A reply denotes array index `n` exactly when it is the canonical decimal spelling of `n`, for every `n` below 2^32 - 1. |
| Selection.CanonicalRoundTrip | t2c.js:131 | A canonical digit string is the spelling of the number it denotes, which is the other direction of the decimal round trip. |
| Selection.Available | t2c.js:51-54 | The available templates are exactly the names of directories in the listing. |
| Selection.AvailableAppend | t2c.js:52-53 | Filtering a listing in two parts filters each part and keeps their order. |
| Selection.Select | t2c.js:116-133 | With no templates the result is `NoTemplates`, and only then. A reply selects a template exactly when it spells an index whose name is non-empty, and the result is that name, a directory of the listing. Every other reply gives `TemplateNotFound`. |
| Selection.SelectIndex | t2c.js:131-132 | The spelling of an index whose template name is non-empty selects that template. |
| Selection.PromptAsWrittenOffersRejected | t2c.js:128-132 | The top of the range that the prompt as written advertises is N, the number of templates. The reply N is rejected with `TemplateNotFound`. |
| Selection.PromptOffersAccepted | t2c.js:128-132 | With the corrected top N - 1, every reply from 0 to the top selects its template, and the reply after the top is rejected. |
| Pipeline.Template | t2c.js:56-57 | In a listing with distinct names, the chosen directory name leads to that directory. |
| Pipeline.Run | t2c.js:116-161 | A run never stops for a missing value. It fails only with `NoTemplates`, `TemplateNotFound` or `EmptyValue`. It succeeds exactly when the choice selects a template and every placeholder registered for that template gets a non-empty answer, and it then yields a tree. |
| Pipeline.RunGeneratesTemplate | t2c.js:157-158 | For a well-formed template, a successful run regenerates exactly the chosen template's tree under the collected values. |
| Pipeline.Session | t2c.js:157-161 | An action list is produced exactly when the run succeeds, and the failures are those of the run. Every path begins with `./generated/`. The files written are exactly those of the generated tree, in walk order, each at its path and with its content. |
| Writer.WriteEntry | t2c.js:102-110 | A string entry gives one file write at its full path with its content. An object entry gives a directory creation at its full path, followed by actions whose paths begin with that path. Every path begins with the root and a slash. The files written are exactly the entry's files, in walk order, each at its path and with its content. |
| Writer.WriteAll | t2c.js:101-111 | Every path begins with the root directory and a slash. The files written, in order, are exactly the files of the entries in depth-first walk order. Each file is written once, at `rootDir` followed by the entry names down to it, and with its content. |
| Writer.WriteTree | t2c.js:159 | Every path begins with `./generated/`. The files written, in order, are exactly those of the generated tree, each once, at its path and with its content. |
| Scenarios.GreetingFileName | t2c.js:82-89 | `{{name}}.txt` with `name` set to `World` becomes `World.txt`. |
| Scenarios.ValueNotRescanned | t2c.js:83-89 | A value that looks like a placeholder is inserted as it is: `{{a}}` with `a` set to `{{b}}` becomes `{{b}}`, even when `b` has a value. |
| Scenarios.NestedBraces | t2c.js:8-11 | In `{{{{a}}}}` the only match is the inner `{{a}}`. |
| Scenarios.ParenthesesBreakToken | t2c.js:9 | `{{f(x)}}` contains no match and is copied unchanged under any values. |
| Scenarios.ValueLeavesGenerationDir | t2c.js:103-105 | A value can put `..` into an entry name: `{{n}}` with `n` set to `../evil` becomes `../evil`, and the file is written at `./generated/../evil`. |
| Scenarios.ValueFormsPlaceholder | t2c.js:83-89 | Substitution can create a placeholder: `{{{{a}}}}` with `a` set to `b` becomes `{{b}}`, which holds the placeholder `b`. |

## Left out

- Terminal interaction is not modelled: `readline`, the prompts and the promise chain (t2c.js:21-42, 176). The line typed for the template choice is a parameter, and so is a function from placeholder name to the line typed for it.
- Console output is not modelled: the banner, the coloured messages and the success message.
- `process.exit(1)` is modelled as an `Err` result carrying the failure kind. The message text is not modelled.
- The file system is an in-memory tree. `readdirSync` order is the order of a directory's entry list, and `lstat(...).isDirectory()` is the node kind. Symbolic links, permissions and read or write errors are not modelled. File contents are given as strings, so the byte decoding of `buffer.toString()` is not modelled.
- Writer.WriteTree: paths are strings joined with `/`. A `/` or `..` in a substituted name is not interpreted, so a value such as `../x` gives a path that begins with `./generated/` but resolves outside `./generated`. Where such a path leads on a file system is not modelled.
- Writer.WriteEntry: `existsSync` before `mkdirSync` is not modelled. `MakeDir` means "create unless present", and the effect of the actions on a disk is not modelled.
- The delimiters are fixed to `{{` and `}}`, as configured. How other configured delimiters would be spliced into the regular expression is not modelled.
- Objects are modelled with insertion-ordered keys. `Object.keys` lists integer-like keys (such as `"0"` or `"12"`) first, in numeric order, and that is not modelled. With such keys, the question order, the generation order and which entry wins a key collision can differ from the model.
- Prototype properties are not modelled. A placeholder named `__proto__` does not create an own key in JavaScript, and that is not modelled either.
- Selection.Select: a reply naming an inherited array property is modelled as `TemplateNotFound`, because the array's own properties are not modelled. In JavaScript the outcome depends on the property. For `__proto__`, `availableTemplates["__proto__"]` is `Array.prototype`: it is truthy and stringifies to the empty string. So `parseTemplate` reads `./templates/` itself, and the run goes on with the whole template root as the template (t2c.js:57, 131-133). For `length`, the reply reads the number of templates, so it succeeds exactly when some template directory is named with that number. An example is a single template named `1`.
- Pipeline.Run: requires the names in the template root's listing to be distinct, as a directory listing's are. That is how `Pipeline.Template` finds the chosen directory.
- Parser.ParseTemplate: has no contract of its own. It is `Parse` rooted at `./templates/<name>`, and its properties are those of `Parser.Parse`.
- The two module-level variables `templateVars` and `templateStructure` are modelled as values passed from one step to the next.

## Findings

| source | as written | input that shows it | evidently intended | confidence | as-written member | corrected member |
|---|---|---|---|---|---|---|
| t2c.js:128 | The prompt advertises `(0-N)`, where N is the number of templates. | A template root with one template directory: the prompt reads `(0-1)`, and the reply `1` ends the run with "Template not found". | The range `(0-(N-1))`, the indices that line 131 accepts. | high; not executed | Selection.PromptAsWrittenOffersRejected | Selection.PromptOffersAccepted |
