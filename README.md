# Typing hint provider, modelled in Dafny

This project models `TypingHintProvider` from the VS Code extension
vscode-python-typehint. For one Python document, the provider answers two
questions:

- **Scan.** Does the document import the `typing` module, and in which form?
  `containsTyping` first runs the selective pattern
  `^[ \t]*from typing import +([a-zA-Z_][a-zA-Z0-9_-]+)` over the whole
  document in multiline mode. Only if that finds nothing does it run the
  whole-module pattern
  `^[ \t]*(import +typing +as +([a-zA-Z_][a-zA-Z0-9_-]+)|import +typing)`.
  It records the matched text, whether the form was selective, the names
  imported and the module prefix.
- **Lookup.** How should a collection type be written as a hint?
  `getTypingHint` reads those fields and builds a completion item. The name
  is bare when the selective import named it. Otherwise it is qualified with
  the prefix.

The files:

- `js.dfy` (module `Js`): the JavaScript runtime the provider relies on.
  - `null`, `undefined` and truthiness.
  - How a template literal renders `undefined`.
  - `String.prototype.split` for a one-character separator.
  - `String.prototype.trim`, over the ECMAScript white space and line
    terminator characters.
- `patterns.dfy` (module `TypingPatterns`): the two regular expressions.
  - Each is written as a greedy matcher at one index.
  - The multiline search tries every line start in turn; a line start is
    index 0 or just after LF, CR, U+2028 or U+2029.
  - Each quantifier in the patterns is followed by a character outside its
    own class, or by the end of the pattern. So backtracking cannot change
    the first match, and the greedy matcher finds what the engine finds.
  - The predicates `FromLine`, `ImportLine` and `AliasLine` state each
    pattern's language by decomposition. The characterization lemmas prove
    the matchers succeed exactly where those languages occur, and prove
    the captures the provider reads: the selective identifier and the
    alias.
- `provider.dfy` (module `TypingHint`):
  - `Detect`, the scan as a function of the document.
  - The class `TypingHintProvider` with the source's five fields. `ContainsTyping` is
    a method whose new state is stated in terms of `Detect`. `GetTypingHint` is a
    function that reads the fields.
  - The invariant `Valid`, which the constructor establishes and the scan
    keeps.
- `collaborators.dfy` (modules `Python`, `TypeHints`): reduced views of
  `DataType`, `TypeCategory` and `TypeHint`, holding only the fields the
  provider reads or builds.
- `scenarios.dfy` (module `Scenarios`): what the scan detects on concrete
  document shapes, for every identifier put in them. These are the source's
  edge cases: the two-character identifier minimum, the missing word
  boundary after `typing`, the order of the alternatives, and the comma
  list.
- `usage.dfy` (module `Usage`): the two phases together on a fresh provider,
  as the extension drives them.

Behaviour the model keeps as the code has it:

- **Only one selective name.** The identifier token cannot contain a comma,
  so `from typing import List, Dict` records only `List`. The split and
  trim at src/typingHintProvider.ts:38-41 always yield exactly the
  captured identifier.
- **An alias becomes `undefined`.** The whole-module pattern has two capture
  groups, but src/typingHintProvider.ts:51 assigns `m[3]`, which is
  `undefined`. So an aliased import gives hints such as ` undefined.Set[`.
  It does not give ` t.Set[` or ` tp.Set[`.
- **A one-letter alias falls back.** `import typing as t` fails the aliased
  alternative, because identifiers need at least two characters. The plain
  alternative matches instead, and the prefix stays `typing`.
- **No word boundary.** `import typing_extensions` matches as
  `import typing`.
- **Matched text only.** `importStatement` holds the matched prefix of the
  line, not the whole line.
- **The recorded names grow.** Each selective scan appends its name again,
  and nothing resets the list.

In short, `from typing import List, Dict` records only `List`, and
`import typing as t` keeps the prefix `typing`, so its hints read
` typing.Set[`.

## Model

| member | source | states |
|---|---|---|
| Js.TrimStartSpec | src/typingHintProvider.ts:40 | trimming the front removes a prefix of white space and line terminators, and stops at a character it keeps |
| Js.TrimEndSpec | src/typingHintProvider.ts:40 | trimming the back removes a suffix of white space and line terminators, and stops at a character it keeps |
| Js.Trim | src/typingHintProvider.ts:40 | `trim` leaves no trimmable character at either end |
| Js.TrimSpec | src/typingHintProvider.ts:40 | `trim` returns a slice of its argument with only trimmable characters before and after it; a string with no trimmable character at either end is returned unchanged |
| Js.Split | src/typingHintProvider.ts:38 | `split` always yields at least one piece |
| Js.SplitPieces | src/typingHintProvider.ts:38 | no piece of `split(",")` contains a comma, and a string without a comma is split into itself alone |
| Js.SplitJoin | src/typingHintProvider.ts:38 | joining the pieces with the separator gives back the string that was split |
| TypingPatterns.RunEnd | src/typingHintProvider.ts:31 | a greedy character-class run: every character up to the end is in the class, and the next one is not |
| TypingPatterns.RunEndExact | src/typingHintProvider.ts:31 | a run that cannot be extended is the one RunEnd finds |
| TypingPatterns.AfterGap | src/typingHintProvider.ts:31 | ` +` matches exactly when a space follows, and it takes every space that follows |
| TypingPatterns.IdentAt | src/typingHintProvider.ts:31 | the identifier token matches exactly when an identifier start character is followed by an identifier character; it takes at least two characters, and the character after it cannot continue it |
| TypingPatterns.ImportAtGroups | src/typingHintProvider.ts:50-51 | on a whole-module match `m[2]` is truthy exactly when the aliased alternative took part, since an alias is never empty, and `m[3]` does not exist, so it is `undefined` |
| TypingPatterns.FromAt | src/typingHintProvider.ts:30-33 | a selective match at `i` has one capture, an identifier, and its text is longer than `from typing import` |
| TypingPatterns.PlainImportEnd | src/typingHintProvider.ts:45 | `import +typing` ends at least `import typing`'s length past where it starts |
| TypingPatterns.AliasAt | src/typingHintProvider.ts:45 | the aliased continuation puts an alias of at least two characters after the plain prefix |
| TypingPatterns.ImportAt | src/typingHintProvider.ts:44-47 | a whole-module match has exactly two groups, the first present, and the alias, when present, is an identifier |
| TypingPatterns.MatchAt | src/typingHintProvider.ts:30-47 | a match of either pattern at `i` starts at `i` and carries that pattern's groups |
| TypingPatterns.FirstLineStart | src/typingHintProvider.ts:32 | the index found is a line start at or after `i` where the test holds |
| TypingPatterns.FirstLineStartLeast | src/typingHintProvider.ts:32 | no line start before the one found satisfies the test, and when none is found no line start does |
| TypingPatterns.SearchFrom | src/typingHintProvider.ts:30-33 | the result of the multiline search is the matcher's result at a line start at or after `i` |
| TypingPatterns.SearchFromLeftmost | src/typingHintProvider.ts:30-33 | the multiline search returns the leftmost match: no earlier line start matches, and when it finds nothing no line start matches |
| TypingPatterns.Exec | src/typingHintProvider.ts:30-33 | `exec` returns only well-formed matches of the pattern |
| TypingPatterns.FromAtSound | src/typingHintProvider.ts:31 | a selective match is a word of the selective pattern that the next character cannot extend; the word is indentation, `from typing import`, spaces and then the capture, so the capture is the whole identifier token after the spaces |
| TypingPatterns.FromAtComplete | src/typingHintProvider.ts:31 | wherever a word of the selective pattern starts, the selective matcher succeeds |
| TypingPatterns.FromAtCharacterized | src/typingHintProvider.ts:31 | the selective matcher succeeds at `i` if and only if a word of `[ \t]*from typing import +ident` starts there, and then its text is such a word, one the next character cannot extend, whose whole identifier token after the spaces is the capture |
| TypingPatterns.FromLineOfSuffix | src/typingHintProvider.ts:31 | a selective word ends with its identifier, right after a space |
| TypingPatterns.AliasLineOfSuffix | src/typingHintProvider.ts:45 | an aliased word ends with its alias, right after a space |
| TypingPatterns.SuffixAfterSpaceUnique | src/typingHintProvider.ts:31-45 | two identifiers that each end a text right after a space are the same |
| TypingPatterns.FromLineOfUnique | src/typingHintProvider.ts:31 | a selective word has exactly one identifier token, so the capture the matcher reports is determined by the matched text |
| TypingPatterns.AliasLineOfUnique | src/typingHintProvider.ts:45 | an aliased word has exactly one alias token, so the alias the matcher reports is determined by the matched text |
| TypingPatterns.PlainImportExact | src/typingHintProvider.ts:45 | read after the indentation, `import +typing` ends exactly where a word of `[ \t]*import +typing` from `i` ends |
| TypingPatterns.PlainImportSound | src/typingHintProvider.ts:45 | the plain prefix of every whole-module match is a word of `[ \t]*import +typing` |
| TypingPatterns.AliasComplete | src/typingHintProvider.ts:45 | wherever an aliased word starts, the aliased alternative is taken |
| TypingPatterns.AliasSound | src/typingHintProvider.ts:45 | the aliased continuation the matcher finds forms a word of `[ \t]*import +typing +as +ident` |
| TypingPatterns.ImportAtComplete | src/typingHintProvider.ts:45 | wherever an `import typing` word starts, the whole-module matcher succeeds |
| TypingPatterns.ImportAtSound | src/typingHintProvider.ts:45 | a whole-module match is the aliased word with the longest alias, made of `import typing`, spaces, `as`, spaces and then the captured alias, or the plain word at an index where no aliased word starts |
| TypingPatterns.AliasShape | src/typingHintProvider.ts:45 | when the aliased continuation the matcher finds forms an aliased word, the match is that word, ending with the alias it captures before a character that cannot continue it |
| TypingPatterns.ImportAtFollowed | src/typingHintProvider.ts:45 | a whole-module match at `i` means `import typing` follows `i`, and group 2 is present exactly when the aliased form follows too |
| TypingPatterns.ImportAtCharacterized | src/typingHintProvider.ts:44-47 | the whole-module matcher succeeds at `i` if and only if `[ \t]*import +typing` starts there, and it captures an alias if and only if the aliased form starts there |
| TypingPatterns.MatchAtCharacterized | src/typingHintProvider.ts:30-47 | either matcher succeeds at `i` exactly when a word of its pattern starts at `i` |
| TypingPatterns.SingleLineSearch | src/typingHintProvider.ts:32 | in a text with no line terminator no search after index 0 finds anything |
| TypingPatterns.SearchSkips | src/typingHintProvider.ts:32 | the search passes over indices that follow no line terminator |
| TypingPatterns.SingleLineExec | src/typingHintProvider.ts:30-33 | on a single line, `exec` is the matcher tried at index 0 |
| TypingPatterns.ExecCharacterized | src/typingHintProvider.ts:30-47 | `exec` finds nothing if and only if no line start is followed by a word of the pattern; otherwise it returns the match at the first line start that is |
| TypingHint.Detect | src/typingHintProvider.ts:30-56 | a selective result records a non-empty statement and an identifier; a whole-module result records a non-empty statement |
| TypingHint.DetectNotFound | src/typingHintProvider.ts:30-56 | the scan finds nothing if and only if no line start is followed by `[ \t]*from typing import +ident` or by `[ \t]*import +typing` |
| TypingHint.DetectSelective | src/typingHintProvider.ts:30-42 | the selective form is recorded if and only if some line has it, however early an `import typing` line stands; the statement is the match on the first such line, and the name is that statement's whole identifier token after `from typing import` and its spaces |
| TypingHint.DetectWholeModule | src/typingHintProvider.ts:44-53 | the whole-module form is recorded if and only if no line has the selective form and some line has `import typing`; the statement is the match on the first such line, and it counts as aliased if and only if ` as ` and an alias of two or more characters follow there |
| TypingHint.IdentSplitTrim | src/typingHintProvider.ts:38-40 | splitting an identifier at commas gives the identifier alone, and trimming leaves it unchanged |
| TypingHint.TrimAll | src/typingHintProvider.ts:39-41 | the trimmed pieces have the same length and order, each piece trimmed |
| TypingHint.TrimAllSplitIdent | src/typingHintProvider.ts:38-41 | splitting the captured identifier and trimming each piece gives exactly the identifier |
| TypingHint.AllIdentsAppend | src/typingHintProvider.ts:40 | pushing an identifier keeps every recorded name an identifier |
| TypingHint.TypingHintProvider.constructor | src/typingHintProvider.ts:10-24 | a new provider holds the document, no statement, the selective flag off, the prefix `typing` and no names, and satisfies the invariant |
| TypingHint.TypingHintProvider.ImportFound | src/typingHintProvider.ts:67 | under the invariant, the truthiness test on `importStatement` holds exactly when a statement is recorded |
| TypingHint.TypingHintProvider.PrefixRendering | src/typingHintProvider.ts:73-74 | under the invariant the template literal renders the prefix as `typing` or as `undefined`, so a qualified hint starts with one of the two |
| TypingHint.TypingHintProvider.PushTrimmed | src/typingHintProvider.ts:39-41 | the loop appends every piece, trimmed and in order, to the recorded names and changes nothing else |
| TypingHint.TypingHintProvider.ContainsTyping | src/typingHintProvider.ts:29-57 | returns true if and only if the scan finds something. When it finds nothing, no field changes. A selective match records the statement, sets the flag, leaves the prefix and appends exactly the one name. A whole-module match records the statement, leaves the flag and the names, and sets the prefix to `undefined` if and only if the aliased form matched. The invariant is kept |
| TypingHint.TypingHintProvider.GetTypingHint | src/typingHintProvider.ts:64-78 | there is no hint if and only if the type is not a collection or no import was found. Otherwise the insert text is ` N[` with the label for `N`. `N` is the capitalized name when the selective import recorded it, and the rendered prefix, a dot and the capitalized name otherwise |
| Scenarios.SelectiveMatchAt | src/typingHintProvider.ts:31 | `from typing import A` followed by a character that cannot continue `A` is matched up to the end of `A`, capturing `A` |
| Scenarios.SelectiveListFirstOnly | src/typingHintProvider.ts:31-41 | `from typing import A, B` is detected as a selective import of `A` alone, with statement `from typing import A` |
| Scenarios.SelectiveAfterPlain | src/typingHintProvider.ts:30-42 | an `import typing` line, any line terminator and then `from typing import A` is detected as the selective import of `A` |
| Scenarios.DetectPlain | src/typingHintProvider.ts:44-53 | `import typing` alone is a whole-module import without an alias |
| Scenarios.DetectShortAlias | src/typingHintProvider.ts:45-52 | `import typing as c` with a one-letter alias is detected as the plain `import typing`, without an alias |
| Scenarios.AliasMatchAt | src/typingHintProvider.ts:45 | `import typing as w` with an identifier `w` fails the selective pattern and is matched whole by the aliased alternative, which captures `w` |
| Scenarios.DetectAlias | src/typingHintProvider.ts:45-52 | `import typing as w` with an identifier `w` of two or more characters is an aliased whole-module import whose statement is the whole line |
| Scenarios.DetectLongerModule | src/typingHintProvider.ts:45 | `import typing` continued on the same line by anything other than a space, such as `_extensions`, is detected as plain `import typing` |
| Usage.ScanThenHint | src/typingHintProvider.ts:22-78 | on a fresh provider the hint after one scan depends only on what the scan detects: none, the bare name, `typing.` qualification, or `undefined.` qualification after an aliased import |
| Usage.ScanTwice | src/typingHintProvider.ts:40 | scanning twice records the selective name twice, and no name for the other outcomes |

## Left out

- The `async`/`Promise` wrapper of `containsTyping` is left out. It has no
  suspension point, so the method returns its `bool` directly.
- A general `RegExp` engine is left out. Only the two fixed patterns are
  modelled, as matchers.
- JavaScript strings are sequences of UTF-16 code units, and the patterns
  run without the `u` flag. The model works on Dafny characters, so a
  character outside the Basic Multilingual Plane counts as one position,
  not two. No pattern character lies outside that plane.
- `capitalized` (./utils) and `labelFor` (./typeHint) become function
  parameters. Nothing is assumed of them beyond determinism. Their source
  files are not part of this model.
- `DataType`, `TypeCategory` (./python) and `TypeHint` (./typeHint) are
  reduced to the fields the provider reads or builds. `TypeCategory` keeps
  only `Collection` and one other case.
- TypeHints.TypeHint: the `label` field is named `labelText`, because
  `label` is a reserved word in Dafny.
- TypingHint.TypingHintProvider: `docText` is a constant field, since nothing
  reassigns it.
- Editor integration, completion triggering and document changes are not in
  this class and are not modelled.
