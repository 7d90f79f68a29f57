# Cobalt Launcher Nano — a verified model of its decision and rewrite rules

Cobalt Launcher Nano is a console Minecraft launcher written as one Python script
(`Cobalt_Launcher_Nano_0.7_alpha.py`). Around its I/O it has a handful of small,
deterministic rules:

- how `config.json` is loaded and backfilled;
- how offline accounts are numbered, deleted and looked up;
- how `set_memory` rewrites the `-Xmx`/`-Xms` flags inside the Java argument string;
- how the paged `ScrollableList` moves between pages and returns a chosen index;
- how `list_versions_by_type` filters the version manifest, shows it reversed and maps a row back;
- where a version's game directory is;
- which checks stop `launch_minecraft`, and how it assembles the command line.

This project restates each of those rules as pure Dafny functions over in-memory
values and proves what the script promises about them. Files take part as values that
are passed in and returned. The launcher library's command builder is a function
parameter.

Modules:

- `Wrappers` (wrappers.dfy): `Option` and `Result`.
- `Text` (text.dfy): the parts of Python's `str` the script relies on.
  - `isdigit`/`int` on ASCII digits, and `str(n)`.
  - `strip()` and `split()`, using the exact `str.isspace` character set.
  - `in` on strings.
- `LauncherConfig` (config.dfy): the settings record.
  - It is a map from key to JSON value. Truthiness and `==` against an integer follow Python: `True == 1`, `1.0 == 1`.
  - `load_config`, `toggle_separate_dirs` and `get_minecraft_dir_for_version`.
- `Accounts` (accounts.dfy): `load_accounts`, `add_offline_account`, `delete_account`, `get_account_by_id`, and the account menu's delete and select actions.
- `MemoryArgs` (memory.dfy): `set_memory`.
  - `re.sub(r"-Xmx\d+G", …)` is modelled as a leftmost, non-overlapping scan with a greedy `\d+`, where `\d` means an ASCII digit.
- `Paging` (paging.dfy): `ScrollableList`. One typed line is one `Step`; `Navigate` runs a script of lines.
- `Versions` (versions.dfy): `list_versions_by_type` up to the install prompt.
- `Launch` (launch.dfy): `launch_minecraft` up to starting the process.

## Model

| member | source | states |
|---|---|---|
| Text.DecimalRoundTrip | Cobalt_Launcher_Nano_0.7_alpha.py:143-144 | the decimal spelling of any number passes `isdigit` and `int` reads it back as the same number |
| Text.StripSlice | Cobalt_Launcher_Nano_0.7_alpha.py:369 | `strip()` returns a slice of its input with only whitespace cut off either side, and the result neither starts nor ends with whitespace |
| Text.StripIdempotent | Cobalt_Launcher_Nano_0.7_alpha.py:369 | stripping an already stripped string changes nothing |
| Text.StripKeepsWord | Cobalt_Launcher_Nano_0.7_alpha.py:366-369 | a non-empty, whitespace-free text present before `strip()` (such as `-Xmx`) is still present after it |
| Text.Split | Cobalt_Launcher_Nano_0.7_alpha.py:441 | every token `split()` yields is non-empty and whitespace-free |
| Text.SplitBlank | Cobalt_Launcher_Nano_0.7_alpha.py:441 | text made only of whitespace has no tokens |
| Text.SplitWord | Cobalt_Launcher_Nano_0.7_alpha.py:441 | a non-empty, whitespace-free text is its own single token |
| Text.SplitGap | Cobalt_Launcher_Nano_0.7_alpha.py:441 | any non-empty run of whitespace separates: the tokens of `x + gap + y` are those of `x` followed by those of `y`; with the two rows above this fixes the tokens of every string, so no character of a word is lost and no two words are merged |
| Text.SplitStrip | Cobalt_Launcher_Nano_0.7_alpha.py:369 | `strip()` never changes the tokens `split()` yields |
| Text.SplitJoin | Cobalt_Launcher_Nano_0.7_alpha.py:441 | splitting words joined by single spaces gives back exactly those words, in order |
| LauncherConfig.Load | Cobalt_Launcher_Nano_0.7_alpha.py:35-47 | a parsed object keeps every key and value it had; it gains `separate_version_dirs = false` and `java_path = null` only where they were missing, and nothing else; a missing or undecodable file gives the fixed default record |
| LauncherConfig.SaveLoadRoundTrip | Cobalt_Launcher_Nano_0.7_alpha.py:35-51 | a loaded record carries both backfilled keys, and saving it and loading it again gives the same record |
| LauncherConfig.ToggleSeparateDirs | Cobalt_Launcher_Nano_0.7_alpha.py:585-599 | the flag becomes a boolean whose truthiness is the opposite of the old value's (absent counts as false); every other key keeps its value |
| LauncherConfig.DirFor | Cobalt_Launcher_Nano_0.7_alpha.py:312-316 | a version gets its own directory exactly when the flag is truthy; otherwise the shared `.minecraft` is used |
| LauncherConfig.ToggleSwitchesDir | Cobalt_Launcher_Nano_0.7_alpha.py:585-599 | after a toggle, every version uses the shared directory exactly when it used its own before |
| LauncherConfig.ToggleTwice | Cobalt_Launcher_Nano_0.7_alpha.py:585-599 | toggling twice restores a boolean flag, and turns any other value into the boolean with the same truthiness |
| Accounts.LoadAccounts | Cobalt_Launcher_Nano_0.7_alpha.py:53-60 | a missing or undecodable accounts file reads as the empty list; a parsed list is returned as is |
| Accounts.AddOffline | Cobalt_Launcher_Nano_0.7_alpha.py:66-76 | exactly one record is appended, with id `len + 1`, type `offline`, the given name and time; the earlier records are unchanged |
| Accounts.AddToSequentialIsFresh | Cobalt_Launcher_Nano_0.7_alpha.py:66-76 | when the ids are exactly 1..n, the id an add hands out is unused and the ids become 1..n+1 |
| Accounts.SequentialIsUnique | Cobalt_Launcher_Nano_0.7_alpha.py:69 | ids numbered 1..n in list order are pairwise distinct |
| Accounts.AddsKeepIdsUnique | Cobalt_Launcher_Nano_0.7_alpha.py:66-76 | from a store numbered 1..n, any run of adds alone keeps the ids 1..m and so pairwise distinct, and grows the list by one per add |
| Accounts.WithoutId | Cobalt_Launcher_Nano_0.7_alpha.py:80 | an account is kept exactly when it was there and its id differs from the deleted one |
| Accounts.WithoutIdAppend | Cobalt_Launcher_Nano_0.7_alpha.py:80 | the filter distributes over concatenation, so the kept accounts stay in their original order |
| Accounts.WithoutAbsentId | Cobalt_Launcher_Nano_0.7_alpha.py:80 | deleting an id nobody has leaves the list exactly as it was |
| Accounts.Delete | Cobalt_Launcher_Nano_0.7_alpha.py:78-82 | the stored list is the order-preserving filter, no account with that id remains, and the result is always `True` |
| Accounts.DeleteKeepsIdsUnique | Cobalt_Launcher_Nano_0.7_alpha.py:78-82 | deleting from a list with distinct ids leaves distinct ids |
| Accounts.DeleteCommand | Cobalt_Launcher_Nano_0.7_alpha.py:244-250 | a non-digit input changes nothing; a digit input deletes the account with that number |
| Accounts.DeleteNeverReportsNotFound | Cobalt_Launcher_Nano_0.7_alpha.py:244-250 | the menu never reports "account not found" after a delete, even for an id that does not exist |
| Accounts.DeleteChecked | Cobalt_Launcher_Nano_0.7_alpha.py:78-82 | corrected delete: the same filtered list, with a flag that is true exactly when the id was present |
| Accounts.CheckedDeleteReportsNotFound | Cobalt_Launcher_Nano_0.7_alpha.py:244-250 | with the corrected delete, the menu reports "not found" exactly when no account has the typed id, and then the list is unchanged |
| Accounts.FindById | Cobalt_Launcher_Nano_0.7_alpha.py:84-89 | the result is absent exactly when no account has the id; otherwise it is a stored account with that id |
| Accounts.FindByIdIsFirst | Cobalt_Launcher_Nano_0.7_alpha.py:84-89 | when ids repeat, the earliest account with the id is returned |
| Accounts.SelectCommand | Cobalt_Launcher_Nano_0.7_alpha.py:252-261 | a digit input that names a stored id makes that account current (only `current_account` changes); any other input leaves the record alone |
| Accounts.DeleteThenAddDuplicatesId | Cobalt_Launcher_Nano_0.7_alpha.py:66-82 | as written, with accounts 1 and 2, deleting 1 and adding one more gives two accounts with id 2 |
| Accounts.MaxId | Cobalt_Launcher_Nano_0.7_alpha.py:69 | the corrected id base is an upper bound of every stored id (0 for none) |
| Accounts.AddOfflineFresh | Cobalt_Launcher_Nano_0.7_alpha.py:66-76 | corrected add: it appends one offline record whose id no stored account has |
| Accounts.FreshOpsKeepIdsUnique | Cobalt_Launcher_Nano_0.7_alpha.py:66-82 | with the corrected add, any sequence of adds and deletes keeps the ids pairwise distinct |
| MemoryArgs.PrefixesAreFlagPrefixes | Cobalt_Launcher_Nano_0.7_alpha.py:363-364 | `-Xmx` and `-Xms` differ, start with `-`, and contain no further `-`, digit or whitespace |
| MemoryArgs.DigitRun | Cobalt_Launcher_Nano_0.7_alpha.py:363 | the greedy `\d+`: the longest run of digits at the start |
| MemoryArgs.FlagLen | Cobalt_Launcher_Nano_0.7_alpha.py:363 | a non-zero match length is a whole `prefix digits G` flag at that position |
| MemoryArgs.FlagLenComplete | Cobalt_Launcher_Nano_0.7_alpha.py:363 | wherever a flag starts, the matcher finds it, with its one possible length |
| MemoryArgs.FlagForIsReplacement | Cobalt_Launcher_Nano_0.7_alpha.py:363-364 | the text written in, `-Xmx{gb}G` or `-Xms{gb}G` with `gb` all digits, is itself a whole flag |
| MemoryArgs.LiteralRun | Cobalt_Launcher_Nano_0.7_alpha.py:363 | characters before the next `-` are copied through unchanged |
| MemoryArgs.ReplaceMakesCurrent | Cobalt_Launcher_Nano_0.7_alpha.py:363-364 | after the substitution, every flag of that kind in the result is exactly the new flag |
| MemoryArgs.ReplaceKeepsOtherCurrent | Cobalt_Launcher_Nano_0.7_alpha.py:363-364 | the `-Xms` substitution keeps every `-Xmx` flag that was current current |
| MemoryArgs.ReplaceFixesCurrent | Cobalt_Launcher_Nano_0.7_alpha.py:363-364 | a text whose flags already name the new size is left exactly as it is |
| MemoryArgs.ReplaceIdempotent | Cobalt_Launcher_Nano_0.7_alpha.py:363-364 | substituting twice with the same size is substituting once |
| MemoryArgs.SliceKeepsCurrent | Cobalt_Launcher_Nano_0.7_alpha.py:369 | cutting a slice out (as `strip` does) cannot create a stale flag |
| MemoryArgs.ConcatKeepsCurrent | Cobalt_Launcher_Nano_0.7_alpha.py:366-367 | putting text that ends in whitespace in front cannot create a flag across the join |
| MemoryArgs.RewriteArgsSound | Cobalt_Launcher_Nano_0.7_alpha.py:363-369 | the rewritten arguments always contain `-Xmx`, every `-Xmx…G` and `-Xms…G` flag in them names `gb`, and they have no surrounding whitespace |
| MemoryArgs.ReplaceContains | Cobalt_Launcher_Nano_0.7_alpha.py:363-364 | the substitution neither adds nor removes an occurrence of `-Xmx` or `-Xms`: the result contains one exactly when the input did |
| MemoryArgs.RewriteKeepsMaxPresence | Cobalt_Launcher_Nano_0.7_alpha.py:363-366 | after both substitutions `-Xmx` is present exactly when it was present in the original arguments, so the `if` at line 366 tests the user's own arguments |
| MemoryArgs.ReplaceSeam | Cobalt_Launcher_Nano_0.7_alpha.py:363-364 | across a join where either side has whitespace, the substitution of the whole is the substitution of each part, joined |
| MemoryArgs.ReplaceWordByWord | Cobalt_Launcher_Nano_0.7_alpha.py:363-364 | on words joined by single spaces, each word is substituted on its own |
| MemoryArgs.ReplaceNoSpace | Cobalt_Launcher_Nano_0.7_alpha.py:363-364 | the substitution turns a non-empty whitespace-free text into a non-empty whitespace-free text |
| MemoryArgs.SplitReplace | Cobalt_Launcher_Nano_0.7_alpha.py:363-364 | the tokens of the substituted text are the original tokens, each substituted on its own |
| MemoryArgs.RewriteWords | Cobalt_Launcher_Nano_0.7_alpha.py:363-364 | both substitutions applied token by token keep the number of tokens and act on each token separately |
| MemoryArgs.RewriteWordKeepsPlain | Cobalt_Launcher_Nano_0.7_alpha.py:363-364 | a token mentioning neither `-Xmx` nor `-Xms` comes through unchanged |
| MemoryArgs.RewriteWordIsWord | Cobalt_Launcher_Nano_0.7_alpha.py:363-364 | a rewritten token is still one non-empty, whitespace-free token |
| MemoryArgs.SplitRewriteArgs | Cobalt_Launcher_Nano_0.7_alpha.py:363-369 | the tokens of the rewritten arguments are the old tokens, each rewritten on its own, preceded by `-Xmx{gb}G -Xms{gb}G` exactly when the old arguments had no `-Xmx` |
| MemoryArgs.RewriteArgsWordByWord | Cobalt_Launcher_Nano_0.7_alpha.py:363-369 | on words joined by single spaces, the result is exactly the rewritten words (with the two flags in front when `-Xmx` was missing) joined by single spaces |
| MemoryArgs.RewriteArgsFixesOk | Cobalt_Launcher_Nano_0.7_alpha.py:363-369 | arguments already in that shape come back unchanged |
| MemoryArgs.SetMemory | Cobalt_Launcher_Nano_0.7_alpha.py:350-371 | a non-digit size and a size outside 1..32 are each refused, and each condition is the only cause of its refusal; a non-string `java_args` is refused too; otherwise only `java_args` changes, to arguments meeting `RewriteArgsSound` whose tokens are the old tokens, each rewritten on its own, with `-Xmx{gb}G -Xms{gb}G` in front exactly when the old arguments had no `-Xmx` |
| MemoryArgs.SetMemoryFixesOk | Cobalt_Launcher_Nano_0.7_alpha.py:350-371 | a record whose arguments already have that shape is saved back unchanged |
| MemoryArgs.RewriteArgsTwice | Cobalt_Launcher_Nano_0.7_alpha.py:363-369 | rewriting the rewritten arguments again with the same size changes nothing |
| MemoryArgs.SetMemoryIdempotent | Cobalt_Launcher_Nano_0.7_alpha.py:350-371 | setting the same size a second time leaves the record as the first call left it |
| Paging.Open | Cobalt_Launcher_Nano_0.7_alpha.py:102-105 | a new list starts on page 0 in a valid state |
| Paging.PageCountIsCeiling | Cobalt_Launcher_Nano_0.7_alpha.py:112 | the page count in the header is the ceiling of items / page size, and the page shown is one of those pages |
| Paging.Labels | Cobalt_Launcher_Nano_0.7_alpha.py:107-116 | a page shows at most `size` rows and never runs past the items; it shows fewer only as the last page, which then reaches the last item; row `i` is labelled `page * size + i + 1` |
| Paging.LabelIsGlobalPosition | Cobalt_Launcher_Nano_0.7_alpha.py:115-116 | the number printed before a row is that item's 1-based position in the whole list |
| Paging.Parse | Cobalt_Launcher_Nano_0.7_alpha.py:131-145 | a typed line is read as a number exactly when it is all digits |
| Paging.Choose | Cobalt_Launcher_Nano_0.7_alpha.py:144-149 | an index is returned exactly when it lies in `0 <= idx < len`; otherwise "invalid number" and nothing moves |
| Paging.Step | Cobalt_Launcher_Nano_0.7_alpha.py:131-151 | the state stays valid (page never negative, never past the items); "next" advances exactly when `(page+1)*size < len`; "previous" stops at 0; only the quit letter closes; any returned index is in range |
| Paging.Navigate | Cobalt_Launcher_Nano_0.7_alpha.py:120-151 | the loop as written (with `Step`): any index it returns is a valid item index; it ends without a choice only on the quit letter; a script that runs out leaves a valid state |
| Paging.NavigateFirstPageLabel | Cobalt_Launcher_Nano_0.7_alpha.py:115-147 | in the loop as written, on the first page, typing the number printed before a row returns that row's item at once |
| Paging.NavigateNextThenLabel | Cobalt_Launcher_Nano_0.7_alpha.py:115-151 | in the loop as written, with 40 items: after "next" the first row is labelled 16, and typing 16 returns index 30 |
| Paging.TypedNumberIsPageRelative | Cobalt_Launcher_Nano_0.7_alpha.py:143-147 | as written, typing `n` asks for position `page * size + n - 1` |
| Paging.LabelSelectsOtherItem | Cobalt_Launcher_Nano_0.7_alpha.py:143-147 | with 40 items and 15 per page, on page 2 the first row is labelled 16, and typing 16 chooses item 31 |
| Paging.LabelMissesOnLaterPages | Cobalt_Launcher_Nano_0.7_alpha.py:143-147 | on any page past the first, typing a row's label never chooses that row |
| Paging.StepCorrected | Cobalt_Launcher_Nano_0.7_alpha.py:131-151 | corrected step: a typed number `n` returns index `n - 1` exactly when `1 <= n <= len`; every other line behaves as `Step`; the state stays valid |
| Paging.CorrectedLabelSelectsItem | Cobalt_Launcher_Nano_0.7_alpha.py:115-116 | with the correction, typing a row's label always chooses that row |
| Paging.NavigateCorrected | Cobalt_Launcher_Nano_0.7_alpha.py:120-151 | the loop with the corrected step keeps the same guarantees: valid indices only, closes only on the quit letter, a valid state when the script runs out |
| Paging.NavigateTypedLabel | Cobalt_Launcher_Nano_0.7_alpha.py:115-147 | in the corrected loop, typing the number printed before a row, on any page, returns that row's item at once |
| Versions.Filter | Cobalt_Launcher_Nano_0.7_alpha.py:275-283 | an entry is kept exactly when it is in the manifest and its type is the one the category asks for |
| Versions.FilterAppend | Cobalt_Launcher_Nano_0.7_alpha.py:275-283 | filtering distributes over concatenation, so kept entries stay in manifest order |
| Versions.FilterKeepsMatching | Cobalt_Launcher_Nano_0.7_alpha.py:275-283 | a manifest whose entries all have the requested type is kept whole |
| Versions.UnknownTypeSelectsNothing | Cobalt_Launcher_Nano_0.7_alpha.py:275-283 | a category name other than the four known ones selects no version |
| Versions.ReverseIndex | Cobalt_Launcher_Nano_0.7_alpha.py:290 | position `i` of `s[::-1]` holds `s[len - 1 - i]` |
| Versions.RowIsLabel | Cobalt_Launcher_Nano_0.7_alpha.py:289-290 | the row shown at position `i` is the label of `filtered[len - 1 - i]` |
| Versions.PickFrom | Cobalt_Launcher_Nano_0.7_alpha.py:287-303 | the paged list as written over the rows; a chosen row maps back to an entry of the filtered list, and the list never reports "no versions" |
| Versions.ListByType | Cobalt_Launcher_Nano_0.7_alpha.py:268-304 | "no versions of this type" is reported exactly when no manifest entry has the requested type; a selected id belongs to a manifest entry of that type |
| Versions.ChosenRowNamesVersion | Cobalt_Launcher_Nano_0.7_alpha.py:289-303 | the version selected is `filtered[len - 1 - i]` for the chosen row `i`, whose displayed row is that version's label |
| Versions.TypedRowSelectsShownVersion | Cobalt_Launcher_Nano_0.7_alpha.py:289-303 | typing the number printed before a row on the first page selects the version whose label that row shows |
| Versions.LaterPageSelectsOtherVersion | Cobalt_Launcher_Nano_0.7_alpha.py:287-303 | with 40 versions, after "next" the row labelled 16 shows `filtered[24]`, but typing 16 selects `filtered[9]` |
| Launch.FirstCurrent | Cobalt_Launcher_Nano_0.7_alpha.py:410 | the result is absent exactly when no account's id equals `current_account`; otherwise it is a stored account whose id does |
| Launch.FirstCurrentIsEarliest | Cobalt_Launcher_Nano_0.7_alpha.py:410 | the earliest matching account is the one used |
| Launch.JavaExecutable | Cobalt_Launcher_Nano_0.7_alpha.py:443-445 | `java` unless `java_path` is truthy, in which case the string itself; a truthy non-string path is an error |
| Launch.PlanLaunch | Cobalt_Launcher_Nano_0.7_alpha.py:392-447 | each refusal holds exactly when its own check fails and every earlier check passed: no `selected_version`; no `current_account`, or one no account has; `java_args` neither text nor list (the summary's slice raises); the library fails; `java_args` a list (`.split()` raises); a truthy non-string `java_path`. "Account not found" never happens. Otherwise the command is the executable, then the `split()` words of `java_args`, then the library's command minus its first element, built for the selected version, the directory the flag selects and the name of the first stored account whose id is `current_account` |
| Launch.ArgsPassedWordByWord | Cobalt_Launcher_Nano_0.7_alpha.py:441-447 | when `java_args` is words joined by single spaces, exactly those words follow the executable |
| Launch.SelectedAccountPassesGuard | Cobalt_Launcher_Nano_0.7_alpha.py:405 | after choosing an account in the menu (any id but 0) with a version selected, launch gets past both early returns |
| Launch.PlainLaunch | Cobalt_Launcher_Nano_0.7_alpha.py:392-447 | with a selected version, an existing current account, text arguments and no Java path, the command is `java`, the argument words, then the library's command tail |
| Launch.DefaultLaunch | Cobalt_Launcher_Nano_0.7_alpha.py:392-447 | from the default record, with a version and the first offline account chosen, the command is `java` and the default argument words, run in the shared directory |
| Launch.DefaultArgsWords | Cobalt_Launcher_Nano_0.7_alpha.py:46 | the default arguments split into `-Xmx2G` and `-Xms1G` |

## Left out

- File reading and writing (`config.json`, `accounts.json`, notes, backups, logs, folder opening): each store is a value passed in and returned.
- A JSON top level that parses but is not an object (a list, say): `load_config` would fail on it with an uncaught `TypeError`. The model only has objects.
- Console output, colours and the `input()` loops: a script of typed lines stands for the input, and the printed messages become result constructors.
- The keyboard listener thread, `subprocess.Popen`, waiting for the game and the timed join: these are concurrency and process control. `PlanLaunch` stops at the assembled command. The one `Popen` failure the command decides (a truthy non-string `java_path`) is `BadJavaPath`.
- `minecraft_launcher_lib`: the manifest is an input to `ListByType`. The command builder is the `Provider` parameter, and its exceptions are its `None`.
- `install_version`, `show_info`, `create_backup`, `set_java_args`, `set_java_path`, `print_help`, `main`: they are outside the modelled core. `install_version`'s prompt after a pick is not modelled.
- `datetime.now()`: the creation time is a parameter.
- `str.isdigit` on non-ASCII digits (such as `²`, for which `int()` raises), and the regex `\d` on non-ASCII decimal digits (such as `٣`): only ASCII digits are modelled, so `set_memory` on arguments holding such a flag is not covered.
- An `accounts.json` whose top level parses but is not a list, or whose records lack an `"id"` key: the code would raise there (an `AttributeError` from `append` at line 74, a `KeyError` or `TypeError` from `["id"]` at lines 80, 87 and 405). The model's accounts always carry an integer id.
- `.lower()` on the typed page command: the model receives the lowered line.
- `Paging.Labels`: the `{:3}` right-alignment of the printed number is not modelled, only its value.
- `LauncherConfig.DirFor`: the path text `~/.minecraft_<version>` is not built. The model returns which directory, carrying the version value.
- `Launch.PlanLaunch`: its success contract describes the command, not the running game.
- NaN and infinite JSON numbers: `Real` is an exact rational, so `Real(0.0)` is the only falsy real.

## Findings

| source | as written | input that shows it | evidently intended | confidence | as-written member | corrected member |
|---|---|---|---|---|---|---|
| Cobalt_Launcher_Nano_0.7_alpha.py:69 | a new account's id is `len(accounts) + 1` | accounts with ids 1 and 2, delete id 1, add an account: both remaining accounts have id 2 | a new id that no stored account has | high (not executed) | Accounts.DeleteThenAddDuplicatesId | Accounts.FreshOpsKeepIdsUnique |
| Cobalt_Launcher_Nano_0.7_alpha.py:143-147 | the typed number is added to the page offset, while the row labels are already global positions (line 116) | 40 items, 15 per page, page 2: the first row is labelled 16, and typing 16 returns index 30 (item 31) instead of index 15 | typing a row's label chooses that row | high (not executed) | Paging.LabelMissesOnLaterPages | Paging.NavigateTypedLabel |
| Cobalt_Launcher_Nano_0.7_alpha.py:78-82 | `delete_account` always returns `True`, so the menu's "account not found" branch (line 250) is dead | any digit string that names no account: the menu says "account deleted" | report "not found" when no account has the id | high (not executed) | Accounts.DeleteNeverReportsNotFound | Accounts.CheckedDeleteReportsNotFound |

Each as-written operation (`Paging.Step`, `Accounts.AddOffline`, `Accounts.Delete`) is
kept, and the lemmas in the "as-written member" column exhibit the defect on it. The
paged list as the code has it (`Paging.Navigate`, and through it `Versions.PickFrom`
and `Versions.ListByType`) runs `Paging.Step` as written;
`Versions.LaterPageSelectsOtherVersion` shows the defect reaching the version picked.
The corrected loop is `Paging.NavigateCorrected`, over `Paging.StepCorrected`, with
`Paging.NavigateTypedLabel` as its proved property. The account store's corrected
operations are `Accounts.AddOfflineFresh` (used by `Accounts.ApplyFresh`) and
`Accounts.DeleteChecked` (used by `Accounts.DeleteCommandChecked`).
