# qgit aliases, modelled in Dafny

qgit (`mygit`) is a command-line tool that keeps git command aliases in a JSON
configuration file and runs them. This project models its core:

- **Template expansion.** `parseCommand` in lib/executor.js turns an alias's
  command template and the arguments it is called with into a command line.
  - The first `$@` is replaced by all arguments joined with spaces.
  - `$1`, `$2`, ... are replaced by the individual arguments.
  - Numbered placeholders left over are deleted.
  - The result is trimmed.
- **The alias registry.** lib/alias-manager.js adds, removes, edits and lists
  aliases. The first-run contents are the sixteen default aliases of
  `DEFAULT_CONFIG` in lib/config.js.

The modules are:

- `Wrappers`: the `Option` and `Result` datatypes.
- `Text`: the JavaScript string built-ins used by the core.
  - `parseCommand` uses `includes`, `join`, `trim` (ECMAScript white space and
    line terminators) and the decimal numeral of `${i + 1}`. `IndexOf` models
    the first-occurrence search that `includes` and the string-pattern
    `replace` perform.
  - It also uses `replace` with a string pattern, which replaces the first match
    only, and `replace` with a global regular expression, which replaces every
    match left to right.
  - Both forms of `replace` interpret the patterns `$$`, `$&`, `` $` `` and `$'`
    in the inserted text.
  - `listAliases` uses `padEnd`.
  - `parseCommand` does not call `split`; `SplitOn` is a reference definition
    that describes the global `replace` at lib/executor.js:18.
- `Executor`: `parseCommand`, modelled in two forms.
  - The method `ParseCommand` follows the source's loop step by step.
  - The specification function `Expand` is what that method is proved to compute.
  - The regular expressions `/\$@|\$\d+/g` (line 9) and `/\$\d+/g` (line 23)
    are modelled as a scan of the template into tokens (`Literal`, `Variadic`,
    `Positional`). The expression built for `$i` at line 18 is
    `Text.ReplaceAll`.
  - The lemmas state what expansion does to the common shapes of alias, and
    to four concrete templates.
- `Config`: the default aliases.
- `AliasManager`: the aliases as a map from name to template.
  - Add, remove and edit are pure transitions that return a `Result`.
  - `AliasRegistry` is a class whose methods update its `aliases` field in place,
    with each method proved to match its pure transition.
  - Listing is the specification of the printed table: sorted entries and the
    name column width.

A name counts as defined when `aliases[name]` is truthy, that is, bound to a
non-empty template (`Present`). In all four operations a configuration without
an `aliases` object behaves like one with an empty map, so the model uses a
plain map.

Two behaviours of `parseCommand` are easy to miss:

- **Arguments are not inserted verbatim.** `replace` interprets `$$`, `$&`,
  `` $` `` and `$'` in an argument. An argument `$$` becomes a single `$`
  (`Executor.DoubleDollarArgument`).
- **`$1` is not matched as an exact token.** The expression `\$1` also matches
  the start of `$12`, so `$12` receives the first argument followed by `2`
  (`Executor.LongerNumberTakesFirstArgument`).

## Model

| member | source | states |
|---|---|---|
| Executor.ParseCommand | lib/executor.js:5-26 | The loop that rewrites `command` step by step (the no-argument branch, the `$@` step, one step per argument, then strip and trim) computes exactly `Expand(template, args)`. |
| Executor.Expand | lib/executor.js:23-25 | The command never starts or ends with white space. It holds no `$` directly followed by a digit. |
| Executor.Scan | lib/executor.js:9 | The template is cut into tokens as `/\$@\|\$\d+/g` or `/\$\d+/g` match it. Every token fits its successor, so a numbered placeholder takes the longest digit run. |
| Executor.RenderScan | lib/executor.js:9 | Rendering the tokens of a scan gives back the template. |
| Executor.ScanRender | lib/executor.js:23 | Scanning a well-formed token sequence's text gives back that sequence, so the token view of a template is unique. |
| Executor.StripDeletesExactlyTheMatches | lib/executor.js:8-9 | Without arguments every match of the expression is deleted. The remaining characters are kept, in order. |
| Executor.StripTokens | lib/executor.js:9 | Replacing every match of `/\$@\|\$\d+/g` (or `/\$\d+/g`) by nothing. Its contract is stated by `RenderScan`, `ScanRender` and `StripDeletesExactlyTheMatches`. |
| Executor.SubstitutePositional | lib/executor.js:15-20 | For `i` = 1 to `n` in order, every `$i` of the current text is replaced by `args[i - 1]`. `PositionalStepReplacesEveryOccurrence`, `InsertedPlaceholderIsSubstituted` and `SubstitutionSettles` state its behaviour. |
| Executor.Substitute | lib/executor.js:8-20 | The text before leftover placeholders are stripped: the no-argument strip, or the `$@` step followed by the numbered steps. `VariadicFirstOnly` and `DollarFreeTemplate` state its behaviour. |
| Executor.VariadicFirstOnly | lib/executor.js:11-12 | Assuming arguments without `$$`, `$&`, `` $` `` or `$'`: with arguments only the first `$@` is replaced, by the arguments joined with single spaces. The text around it, including any later `$@`, is passed on to the numbered step. |
| Executor.LaterVariadicSurvives | lib/executor.js:11-25 | For any non-empty argument list, a `$@` after the first one is still in the final command. |
| Executor.PositionalStepReplacesEveryOccurrence | lib/executor.js:15-19 | Assuming the `n`-th argument holds none of `$$`, `$&`, `` $` `` or `$'`: step `n` of the loop replaces every `$n` of the current text by that argument, and nothing else changes (split on `$n`, joined with the argument). |
| Executor.InsertedPlaceholderIsSubstituted | lib/executor.js:15-20 | The loop works on text it has already rewritten. In a template whose only `$` opens `$1`, a first argument `$2` is replaced in turn by a `$`-free second argument. |
| Executor.LongerNumberTakesFirstArgument | lib/executor.js:18 | In a template whose only `$` opens `$1` followed by more digits, called with `$`-free arguments, the `$1` receives the first argument and the digits stay. |
| Executor.MissingArgumentDeleted | lib/executor.js:23 | `cmd $1 $2` called with one `$`-free argument gets that argument for `$1`, and `$2` is deleted. |
| Executor.DollarFreeTemplate | lib/executor.js:5-25 | A template without `$` comes back only trimmed, whatever the arguments. |
| Executor.VariadicAlias | lib/executor.js:9-12 | Assuming a template with one `$@` and no other `$`, and arguments without `$`: without arguments the placeholder is deleted, otherwise it becomes the joined arguments. Either way the result is trimmed. |
| Executor.PositionalAlias | lib/executor.js:15-25 | A template with one `$1` and no other `$`, called with one `$`-free argument, gets the argument in the placeholder's place and is trimmed. |
| Executor.FirstPositionalStep | lib/executor.js:11-19 | Assuming a template without `$@` whose only `$1` is its first `$`: the `$@` step does nothing, and the first loop step puts there what `replace` makes of the first argument. |
| Executor.SubstitutionSettles | lib/executor.js:15-20 | Once no `$` is left in the text, later loop steps change nothing. |
| Executor.DoubleDollarArgument | lib/executor.js:18 | In a template whose only `$` opens `$1`, and the `$1` is not followed by a digit, an argument `$$` is put in as a single `$`. |
| Executor.ExampleCommitMessage | lib/executor.js:5-26 | `git commit -m "$1"` called with `fix bug` gives `git commit -m "fix bug"`. |
| Executor.ExampleCheckoutWithoutArguments | lib/executor.js:5-26 | `git co $@` called without arguments gives `git co`. |
| Executor.ExampleCheckoutWithArguments | lib/executor.js:5-26 | `git co $@` called with `a` and `b` gives `git co a b`. |
| Executor.ExampleMissingArgument | lib/executor.js:5-26 | `cmd $1 $2` called with `only` gives `cmd only`. |
| Text.IndexOf | lib/executor.js:11 | `indexOf`: the returned index is an occurrence and no earlier index is one; `None` means there is no occurrence at all. |
| Text.Contains | lib/executor.js:11 | `includes` holds exactly when the pattern occurs at some index. |
| Text.ReplaceFirst | lib/executor.js:12 | A string-pattern `replace` without an occurrence returns the text unchanged. `ReplaceFirstAt` states what it does to the first occurrence. |
| Text.Substitution | lib/executor.js:12 | How `replace` reads `$$`, `$&`, `` $` `` and `$'` in the inserted text, for a pattern without groups. `LiteralSubstitution` and `Executor.DoubleDollarArgument` state its behaviour. |
| Text.JoinWith | lib/executor.js:12 | `args.join(' ')`. `SplitJoinRoundTrip` shows it inverts `SplitOn`, and `JoinLiteral` that joining creates no replacement pattern. |
| Text.ReplaceFirstAt | lib/executor.js:12 | A string-pattern `replace` rewrites only the first occurrence. The text before it and after it is kept. |
| Text.ReplaceAll | lib/executor.js:18 | A global `replace` on a text without a match returns the text unchanged. |
| Text.ReplaceAllIsSplitJoin | lib/executor.js:18 | With a replacement free of `$` patterns, a global `replace` equals splitting on the pattern and joining with the replacement. |
| Text.SplitJoinRoundTrip | lib/executor.js:18 | Joining the pieces of a split with the pattern gives back the text. |
| Text.SplitOn | lib/executor.js:18 | The first piece is a prefix of the text, and no piece contains the pattern. |
| Text.LiteralSubstitution | lib/executor.js:12 | A replacement without `$$`, `$&`, `` $` `` or `$'` is inserted as it stands. |
| Text.JoinLiteral | lib/executor.js:12 | Arguments free of replacement patterns, joined with spaces, stay free of them. |
| Text.Trim | lib/executor.js:25 | `trim` gives a slice of the text with only white space cut from either end. The result has none at its ends, and a text already without edge white space is kept. |
| Text.TrimTrailingWhitespace | lib/executor.js:25 | `trim` of a trimmed, non-empty text followed by one white-space character gives back that text. |
| Text.Decimal | lib/executor.js:16 | The numeral of `${i + 1}` is non-empty, all digits, and has no leading zero. |
| Text.DecimalRoundTrip | lib/executor.js:16 | Reading the numeral back gives the number. |
| Text.PadEnd | lib/alias-manager.js:68 | `padEnd` keeps the name as a prefix, pads with spaces, and never shortens. |
| Config.DefaultAliases | lib/config.js:9-29 | The sixteen default aliases all have non-empty templates, so each one counts as defined. |
| AliasManager.AddAlias | lib/alias-manager.js:4-18 | Adding fails with `AlreadyExists` exactly when the alias is defined. Otherwise the name is bound to the command and every other entry is kept. |
| AliasManager.RemoveAlias | lib/alias-manager.js:20-34 | Removing fails with `NotFound` exactly when the alias is not defined. Otherwise the name is unbound and every other entry is kept. |
| AliasManager.EditAlias | lib/alias-manager.js:36-50 | Editing fails with `NotFound` exactly when the alias is not defined. Otherwise the name is rebound to the new command and every other entry is kept. |
| AliasManager.AddThenRemove | lib/alias-manager.js:4-34 | Adding an alias whose name is not in the map, with a non-empty template, and removing it again restores the aliases. |
| AliasManager.RemoveThenAdd | lib/alias-manager.js:4-34 | Removing a defined alias and adding it back with its template restores the aliases. |
| AliasManager.EditThenEditBack | lib/alias-manager.js:36-50 | Editing a defined alias to a non-empty template and editing it back restores the aliases. |
| AliasManager.EditIsRemoveThenAdd | lib/alias-manager.js:20-50 | Editing fails exactly when removing fails, and otherwise equals removing then adding under the same name. |
| AliasManager.EmptyTemplateCountsAsUndefined | lib/alias-manager.js:7-39 | An alias bound to `""` is falsy: adding overwrites it, removing and editing report it not found, yet it is still listed. |
| AliasManager.Present | lib/alias-manager.js:7 | The truthiness test `config.aliases[alias]` used at lines 7, 23 and 39. `EmptyTemplateCountsAsUndefined` states its effect on an empty template. |
| AliasManager.LexLess | lib/alias-manager.js:65 | The order names are sorted in. `LexLessTransitive`, `LexLessTotal` and `LexLessAsymmetric` make it a strict total order. |
| AliasManager.LexLessTransitive | lib/alias-manager.js:65 | The name order used for sorting is transitive. |
| AliasManager.LexLessTotal | lib/alias-manager.js:65 | Any two distinct names are ordered one way or the other. |
| AliasManager.LexLessAsymmetric | lib/alias-manager.js:65 | No two names are each before the other. |
| AliasManager.SortedNames | lib/alias-manager.js:65 | The sorted names are exactly the names of the set, each once, in strictly increasing order. |
| AliasManager.SortedUnique | lib/alias-manager.js:65 | Two strictly increasing sequences with the same names are equal, so the sorted order is the only one. |
| AliasManager.MaxLength | lib/alias-manager.js:63 | `Math.max` of the name lengths bounds every name's length and is reached by some name. |
| AliasManager.ListAliases | lib/alias-manager.js:52-70 | The "no aliases" hint shows exactly when the map is empty. Otherwise the table lists every alias exactly once with its own template, in strictly increasing order. Its name column is two wider than the longest name. |
| AliasManager.Row | lib/alias-manager.js:67-69 | Each printed row is two spaces, the name padded with spaces to the column width, ` → `, and the template. |
| AliasManager.ListingFollows | lib/alias-manager.js:63-67 | The table's names follow any strictly increasing enumeration of the aliases, and its width follows from those names. |
| AliasManager.DefaultListing | lib/alias-manager.js:63-67 | With the default aliases, the table lists `add`, `amend`, `br`, ..., `unstage` in this order, with a column ten wide. |
| AliasManager.AliasRegistry.constructor | lib/config.js:9-29 | A first run starts from the default aliases. |
| AliasManager.AliasRegistry.Load | lib/config.js:43-46 | A later run starts from the stored aliases. |
| AliasManager.AliasRegistry.Add | lib/alias-manager.js:4-18 | On failure, reports `AddAlias`'s error and leaves the aliases unchanged. Otherwise the aliases become `AddAlias`'s result. |
| AliasManager.AliasRegistry.Remove | lib/alias-manager.js:20-34 | On failure, reports `RemoveAlias`'s error and leaves the aliases unchanged. Otherwise the aliases become `RemoveAlias`'s result. |
| AliasManager.AliasRegistry.Edit | lib/alias-manager.js:36-50 | On failure, reports `EditAlias`'s error and leaves the aliases unchanged. Otherwise the aliases become `EditAlias`'s result. |

## Left out

- The command-line front end (index.js) and its argument parsing are not part of this model.
- Reading, parsing and writing the JSON configuration file are left out (`loadConfig`, `saveConfig`, `updateConfig`, creating the directory). The registry holds the aliases directly.
  - Also left out: the second read that `updateConfig` makes after the check, and concurrent writers. The model applies the check and the update to the same map.
- Running commands (`executeAlias`, `executeRawCommand` through execa) is I/O and is left out. Only the command line they are given, `parseCommand`, is modelled.
- Console output, colours, the emoji heading and the tip lines are left out. The listing models the table's content, order and column layout.
- Error message texts are reduced to the error kind and the alias (`AlreadyExists`, `NotFound`).
- AliasManager.ListAliases: sorts names by code point instead of `localeCompare`, whose order depends on the locale and its collation tables.
- Strings are sequences of code points, not UTF-16 code units. This only affects names outside the Basic Multilingual Plane: their `length`, and so the padding width, differs.
- Templates and names are assumed to be strings. JSON values of other types, and names such as `__proto__` that JavaScript objects treat specially, are not modelled.
