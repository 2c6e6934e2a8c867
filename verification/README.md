# Shell command-line core in Dafny

This project models the parts of a small Unix shell written in C that
rewrite a command line and work out how to execute it. It covers:

- the token-array primitives of `lib/string_module.c` (growing a word,
  appending to a NULL-terminated array, opening a gap and filling it);
- the two alias tables: the sorted, `bsearch`-based table of `lib/alias.c`
  (limit 75), and the earlier unsorted table of `src/alias_test/alias.c`
  (limit 150) together with that file's `main` scenario;
- `parse_translated`, which splits an alias's replacement text into words
  through the global `trans` buffer;
- the command rewriting of `src/shell.c`: `alias` / `unalias` / `show aliases`
  dispatch, the first-match alias splice, and `$ NAME` environment
  substitution;
- the `cd` path helpers of `src/shell.c`: counting and locating `..`,
  cutting PWD back, and building the target;
- the early tokenizer of `src/backup.c`;
- the command history of `lib/command_history.c` (limit 100);
- the token-position logic of `lib/execution.c`:
  - counting pipes;
  - locating a redirection operator and its file;
  - walking the segments of a pipeline;
  - the descriptor rule of `generate_process`.

C arrays of `char*` are `seq<Option<string>>` (`None` is NULL) wherever the
NULL slots matter, and `seq<string>` elsewhere. Global state (`cmds`,
`alias_arr`, `trans`, `history`) is passed in and returned explicitly.
`getenv`, `open` and the process calls become parameters or returned data:
- the environment is a `map<string, string>`;
- HOME and PWD are strings;
- whether a file opens is a predicate;
- a started process is a `Spawn` record.

Each operation is paired with an independent definition or an inverse:
- `Translate.Words` is the whitespace-run reference for the tokenizers;
- `Execution.Segments` and `Execution.Join` are the pipeline segments and
  their inverse;
- `Rewrite.Subst` is the reference for the environment pass;
- `StrOrder.Less` is the `strcmp` order;
- the add/remove pairs of both alias tables are proved to cancel.

Behaviour of the code that a reader might not expect, which the model
follows as written:
- A refused `add_alias` (full table or duplicate name) still leaves the
  words of its text in `trans`, and the next successful add stores them
  too (`AliasTable.RefusedAddLeaksWords`).
- `alias` takes its replacement text from the fourth word
  (`alias NAME = TEXT`, src/shell.c:246).
- `generate_process` closes the two descriptors it was given in both
  processes: the child right after each `dup2` (lib/execution.c:299-300,
  306-307), the parent after the fork (lib/execution.c:322-327). No other
  descriptor is closed, so a pipeline child keeps the read end of its own
  pipe open (`Execution.StageWiring`).
- The four defects under "## Findings" are modelled as written and, for
  the rest of the model, as evidently intended.

## Model

| member | source | states |
|---|---|---|
| StringModule.BuildString | lib/string_module.c:17-39 | The pending word (NULL counts as empty) grows by exactly the character given, which becomes its last character, and nothing before it changes; `build_command` (src/backup.c:208-221) and `build_token` are the same step. |
| StringModule.BuildAllRoundTrip | lib/string_module.c:17-39 | Feeding the characters of a word one at a time to `build_string`, starting from NULL, rebuilds exactly that word; an empty input leaves NULL. |
| StringModule.AddString | lib/string_module.c:56-101 | A NULL source word fails with nothing changed. Otherwise the word lands at index `count`, the earlier slots are kept, a NULL terminator follows, the count grows by one and the source becomes NULL. |
| StringModule.AddStringIsPush | lib/string_module.c:56-101 | On a NULL-terminated array, `add_string` is an append to the word list: the result is again the NULL-terminated array of the longer list. |
| StringModule.AppendAllBuildsArgv | lib/string_module.c:56-101 | Appending words one by one from an empty array builds exactly the NULL-terminated argument array of those words, with the right count. |
| StringModule.MoveStringsDown | lib/string_module.c:104-188 | The documented `move_strings_down`: the slot at `start` is removed, `k` NULL slots open there, every later word moves to index `+k-1`, earlier slots are kept, and the size becomes `size + k - 1`. |
| StringModule.AddStrings | lib/string_module.c:208-229 | `add_strings` writes `from[0..k)` in order into `to[start..start+k)` and leaves every other slot alone. |
| StringModule.SpliceReplacesOne | src/shell.c:440-448 | Opening a gap of `k` at `start` and then filling it replaces the single word at `start` by the `k` new words, the rest kept in order. |
| StringModule.ShiftDown | lib/string_module.c:119-188 | The in-place shift that `move_strings_down` is meant to perform (top-down copy, then clearing the gap) produces exactly `MoveStringsDown`, for every `k`, including `k = 0` and `k = 1`. |
| ShiftAsWritten.MoveStringsDownAsWritten | lib/string_module.c:119-188 | The loop as written, on slots that may be NULL, live, freed or uninitialised; whenever it runs without undefined behaviour, the array has `n + k` slots. |
| ShiftAsWritten.LosesShiftedToken | lib/string_module.c:148-169 | With `k = 2` and two words after `start`, the NULL written at line 154 lands on the slot that already holds the moved copy of the last word, so that word is lost; the documented result keeps it. |
| ShiftAsWritten.ReadsFreedString | lib/string_module.c:151-160 | With `k = 1` and a word after `start`, line 153 frees the very string that line 159 then passes to `strlen`: undefined behaviour. |
| StrOrder.Less | lib/alias.c:285-288 | The `strcmp` order on names: no name sorts below itself, and a name that sorts below another has a first character no greater than the other's, which is non-empty. |
| StrOrder.LessAtFirstDifference | lib/alias.c:285-288 | Two names that agree up to position `k` and differ there are ordered as their characters at `k` are. |
| StrOrder.LessPrefix | lib/alias.c:285-288 | A proper prefix sorts before the longer name, and the longer name never sorts before its prefix. |
| StrOrder.LessIrreflexive | lib/alias.c:285-288 | No name compares below itself under `strcmp`. |
| StrOrder.LessAsymmetric | lib/alias.c:285-288 | If `a` sorts before `b`, then `b` does not sort before `a`. |
| StrOrder.LessTransitive | lib/alias.c:285-288 | The `strcmp` order is transitive. |
| StrOrder.LessTotal | lib/alias.c:285-288 | Two different names are always ordered one way or the other, so `alias_cmp` is a strict total order. |
| Translate.WordsWellFormed | lib/alias.c:116-129 | Every word of the reference split is non-empty, contains no whitespace, and is made of characters of the text. |
| Translate.WordsCountRuns | lib/alias.c:116-129 | There are exactly as many words as there are places where a non-whitespace run starts. |
| Translate.WordsNonEmpty | lib/alias.c:116-129 | A text containing a non-whitespace character yields at least one word. |
| Translate.WordsSplitAtSpace | lib/alias.c:125-126 | A whitespace character ends the word before it: the words of `w c t` are `w` (if non-empty) followed by the words of `t`. |
| Translate.ParseLoop | lib/alias.c:116-129 | The loop only appends to `trans`, leaving the words already there in place, and when started inside the line it ends with `token` NULL. |
| Translate.ParseLoopAppendsWords | lib/alias.c:116-129 | From any index, the C loop with a pending whitespace-free word appends exactly the words of that word joined to the rest of the line, and ends with no pending word. |
| Translate.ParseTranslated | lib/alias.c:112-131 | `parse_translated` appends the whitespace-separated words of the text to `trans`, in order, and leaves `token` NULL; the same holds for src/alias_test/alias.c:164-184. |
| Translate.ParseExample | lib/alias.c:112-131 | "ls -l" is split into "ls" and "-l". |
| AliasCore.IndexOf | src/alias_test/alias.c:147-152 | The index of the first entry with the name, with no earlier entry having it, or -1 exactly when no entry has it. |
| AliasCore.Find | src/alias_test/alias.c:145-153 | The lookup finds an entry exactly when one has the name, and the entry found has that name and is in the table. |
| AliasCore.AdjustAliases | lib/alias.c:142-217 | `adjust_aliases` copies each later entry one slot down in order: entries before the removed one stay, each later one moves down by one, and the table is one shorter, the same as deleting that entry. |
| AliasTable.InsertSorted | lib/alias.c:56 | The `qsort` after appending the new entry yields a sorted table holding exactly the old entries plus the new one. |
| AliasTable.SortedUnique | lib/alias.c:56 | Two sorted arrangements of the same entries are equal, so whatever `qsort` does, its result is determined. |
| AliasTable.FindAlias | lib/alias.c:94-101 | `bsearch` on the sorted table finds an entry exactly when one has the key, and returns the same entry as a linear search. |
| AliasTable.AddAlias | lib/alias.c:16-59 | The text is split into `trans` first. A full table or a known name is refused, with the entries unchanged and the words left buffered. Otherwise the entry takes every buffered word, `trans` empties, and the table stays sorted with exactly one more entry. |
| AliasTable.AddThenFind | lib/alias.c:16-101 | After a successful add, the name is found with the buffered words followed by the text's words, and every other name is found as before. |
| AliasTable.FindInSuperset | lib/alias.c:94-101 | Adding an entry under a different name does not change what a lookup of another name returns. |
| AliasTable.RemoveAlias | lib/alias.c:69-83 | An unknown name is reported and nothing changes. Otherwise exactly that entry goes, the table stays sorted, the name is no longer present, and `trans` is untouched. |
| AliasTable.RemoveKeepsOthers | lib/alias.c:69-83 | Removing one name leaves every other name's lookup as it was. |
| AliasTable.AddThenRemove | lib/alias.c:16-83 | Adding a new name and then removing it restores the entries exactly. |
| AliasTable.AddedSlotAsWritten | lib/alias.c:56-58 | The pointer `add_alias` returns after the sort, `&alias_arr[n_aliases]`, refers to an entry of the new table. |
| AliasTable.AddedSlotIsGreatest | lib/alias.c:56-58 | That returned slot holds the entry whose name is greatest, not necessarily the one just added. |
| AliasTable.AddedSlotIsNewEntryIff | lib/alias.c:56-58 | The returned slot is the new entry if and only if the new name sorts after every existing name. |
| AliasTable.AddedSlotExample | lib/alias.c:56-58 | Adding "a" to a table holding "b" returns the entry of "b". |
| AliasTable.RefusedAddLeaksWords | lib/alias.c:19-32 | A refused add leaves its words in `trans`, and the next successful add stores them in front of its own words. |
| AliasTable.AddFindRemoveExample | lib/alias.c:16-101 | Aliasing "ll" to "ls -l" in an empty table makes "ll" found with words "ls" and "-l"; removing it makes it not found. |
| AliasList.FindAlias | src/alias_test/alias.c:145-153 | The linear `find_alias` returns the first entry with the key, and NULL exactly when no entry has it. |
| AliasList.AddAlias | src/alias_test/alias.c:73-113 | A full table or a known name is refused, with the entries unchanged and the words left in `trans`. Otherwise the entry, carrying every buffered word, is appended after the unchanged old entries, `trans` empties, and names stay distinct. |
| AliasList.RemoveAlias | src/alias_test/alias.c:123-134 | It succeeds if and only if the name is present. An unknown name changes nothing; otherwise the entry at the lookup's index goes and nothing else (the multiset of entries loses exactly it), the name disappears, names stay distinct, and `trans` is untouched. |
| AliasList.RemovedSlotAsWritten | src/alias_test/alias.c:123-134 | The pointer `remove_alias` returns is NULL exactly when the name is absent. |
| AliasList.RemovedSlotIsNext | src/alias_test/alias.c:123-134 | After `adjust_aliases` the returned slot holds the entry that followed the removed one, or is the freed last slot; it never holds the removed entry. |
| AliasList.RemovedSlotExample | src/alias_test/alias.c:47-57 | Removing "ll" from a table holding ll and then lrt returns the slot now holding lrt. |
| AliasList.RemoveKeepsOrder | src/alias_test/alias.c:195-271 | Removal keeps the remaining entries in their original insertion order. |
| AliasList.AddThenRemove | src/alias_test/alias.c:73-134 | Appending a new name and removing it again restores the entries exactly. |
| AliasList.AddNames | src/alias_test/alias.c:73-113 | An add succeeds if and only if there is room and the name is new, and then the name list grows by that name at the end. |
| AliasList.RemoveNames | src/alias_test/alias.c:123-134 | Removing a present name succeeds and drops it from its position in the name list. |
| AliasList.MainAdds | src/alias_test/alias.c:40-44 | The five adds of `main` all succeed, whatever their texts, leaving names ll, lrt, rm, tsrc, dsrc in that order. |
| AliasList.MainScenario | src/alias_test/alias.c:47-57 | From that table, removing "ll" and then "tsrc" both succeed, leaving lrt, rm, dsrc in order. |
| Rewrite.FirstAlias | src/shell.c:438-450 | The scan returns the lowest index at or after its start whose word names an alias, or -1 exactly when no such word exists. |
| Rewrite.CheckForAlias | src/shell.c:434-452 | FAILURE, with nothing changed, if and only if no word names an alias. Otherwise the first such word is replaced by that alias's words and the rest is kept. |
| Rewrite.CheckForAliasIsSplice | src/shell.c:440-448 | The expansion equals what `move_strings_down` followed by `add_strings` make of the argument array. |
| Rewrite.NoReexpansion | src/shell.c:438-448 | An alias whose words begin with its own name is expanded once: `ls x` with `ls` aliased to `ls -F` becomes `ls -F x`. |
| Rewrite.CheckForAliasLength | src/shell.c:440-448 | A successful expansion lengthens the list by the alias's word count minus one, and keeps every word before the expanded one. |
| Rewrite.HandleAliases | src/shell.c:237-269 | `alias` with four or more words adds words 1 and 3, and `unalias` with two or more removes word 1. Exactly `show aliases` changes nothing. Anything else goes through alias expansion. FAILURE occurs if and only if `alias` or `unalias` has too few words, and then nothing changes. |
| Rewrite.ShowAliasesNeedsTwoWords | src/shell.c:258-266 | `show aliases` followed by another word is not the print command; it goes through alias expansion. |
| Rewrite.AliasThenUse | src/shell.c:237-269 | The token list `alias`, `ll`, `=`, `ls -l` (the replacement text already one token) followed by `ll`, `/tmp` leaves the command `ls`, `-l`, `/tmp`. |
| Rewrite.ConvertEnvVar | src/shell.c:466-513 | It fails, with the list unchanged, if and only if there is no next word or that word is undefined. Otherwise the value replaces the `$`, the name is consumed, and everything else keeps its order. |
| Rewrite.Subst | src/shell.c:287-293 | The substitution scan never lengthens the list and never changes the words before the position it starts from. |
| Rewrite.HandleEnvVars | src/shell.c:283-295 | The loop that steps back after each successful conversion terminates with SUCCESS and yields the reference substitution `Subst`. |
| Rewrite.SubstNoDollar | src/shell.c:287-293 | With no `$` word, the environment pass changes nothing. |
| Rewrite.SubstOne | src/shell.c:287-293 | A single `$ NAME` with a defined name, whose value is not `$`, becomes that value and the rest is kept. |
| Rewrite.SubstShift | src/shell.c:287-293 | The counter only moves forward past words it has left: scanning `p + q` from the start of `q` keeps `p` and treats `q` exactly as a scan of `q` alone. |
| Rewrite.SubstAppendFrom | src/shell.c:287-293 | For every split `p + q` and start `c` in `p`: unless `p` alone ends up ending in `$`, the pass over `p + q` is the pass over `p` followed by the pass over `q`. |
| Rewrite.SubstAppend | src/shell.c:283-295 | `handle_env_vars` splits over any cut after which the first part's result does not end in `$`; `SubstRescans` shows the cut that does cross. |
| Rewrite.SubstNoLookBack | src/shell.c:287-293 | Words already passed are not examined again: `$ $ X` with X set to `Y` and Y to `v` becomes `$ Y`. |
| Rewrite.SubstExample | src/shell.c:287-293 | `echo $ HOME` with HOME set to /root becomes `echo /root`. |
| Rewrite.SubstRescans | src/shell.c:287-293 | A value that is itself `$` is examined again and consumes the next word: `$ X Y` with X set to `$` and Y to `v` becomes `v`. |
| Paths.FindDots | src/shell.c:637-638 | `strstr(s + from, "..")` is the first index at or after `from` where ".." starts, and none exactly when ".." never starts there. |
| Paths.LastParent | src/shell.c:656-668 | `get_last_parent` finds nothing exactly when `strstr` finds nothing; otherwise it returns a ".." with no ".." after it. |
| Paths.Chase | src/shell.c:661-665 | The `while` loop of `get_last_parent`, started at a "..", ends at a ".." no earlier, with no ".." after it. |
| Paths.LastParentIffCount | src/shell.c:635-668 | `get_last_parent` returns NULL if and only if `count_parents` is 0. |
| Paths.LastParentCountsOne | src/shell.c:635-668 | The last ".." is the last one `count_parents` visits: counting from it finds exactly one. |
| Paths.CountParents | src/shell.c:635-642 | `count_parents` is 0 if and only if ".." occurs nowhere in the path, and it counts at most one parent per two characters, because matches do not overlap. |
| Paths.CountExample | src/shell.c:635-668 | "../../x" holds two parents, the last one starting at index 3. |
| Paths.ParentLoop | src/shell.c:533-540 | The backwards scan stops at the position just before the `n`-th '/' counted from the end. It stops at index 0 instead only when fewer slashes follow the second character. |
| Paths.GetParentDir | src/shell.c:526-554 | `get_parent_dir(n)` is a non-empty prefix of PWD that is followed by exactly `n` slashes, the first right after it. When PWD has too few slashes it is PWD's first character, and `n = 0` gives PWD itself. |
| Paths.ParentExample | src/shell.c:526-554 | From "/home/u", one level up is "/home" and two levels up is "/". |
| Paths.Strip | src/shell.c:586-592 | A leading "~/" or "./" is removed, and any other argument is kept whole. |
| Paths.SetNewDir | src/shell.c:570-620 | Without "..", the target is HOME or PWD, then '/', then the stripped argument. With "..", it is PWD cut back by the number of "..", then '/', then whatever follows the ".." that `get_last_parent` finds. |
| Paths.LastParentIsLastHit | src/shell.c:635-668 | `get_last_parent` lands on the last ".." of the non-overlapping scan that `count_parents` makes. |
| Paths.SetNewDirAfterLastCounted | src/shell.c:595-617 | With "..", the target is PWD cut back by `n`, then '/', then the text after the `n`-th ".." counted, where `n` is the number of ".." counted. For "/p/..." that is the ".." at index 3, leaving ".". |
| Paths.SetNewDirPwdReadsAhead | src/shell.c:616-617 | With PWD as the base and a ".." in the argument, the parent and its '/' that line 617 prints end before the tail it copies out of the same buffer begins. |
| Paths.SetNewDirHomeOverlap | src/shell.c:616-617 | With HOME as the base, the printed parent can run over the tail being copied. From /home/u with HOME "/h", `cd ~/../x` prints "/home/" over indices 0 to 5 while the tail starts at index 5. The model gives "/home//x". |
| Paths.SetNewDirPlain | src/shell.c:575-599 | Without "..", the target is the base directory, a '/', and the argument without a leading "~/" or "./". |
| Paths.SetNewDirUnderPwd | src/shell.c:595-617 | With at least one "..", the target starts with a non-empty prefix of PWD followed by '/', also when the argument started with '~' (for that case see the "Paths.SetNewDir" line under "## Left out"). |
| Paths.SetNewDirUpExample | src/shell.c:608-614 | From /home/u, `cd ..` targets "/home/". |
| Paths.SetNewDirUpIntoExample | src/shell.c:616-617 | From /home/u, `cd ../x` targets "/home//x": the text after the last ".." keeps its own leading '/'. |
| SplitInput.Strip | src/backup.c:122-130 | No special character (`$`, pipe, `<`, `>`, `&`) is left, and the result is no longer than the input. |
| SplitInput.StripKeepsOthers | src/backup.c:122-130 | Only the special characters go: a line without them is unchanged, and every other character occurs as often as in the line. |
| SplitInput.StripAppend | src/backup.c:122-130 | Removal works character by character, so the kept characters stay in their order. |
| SplitInput.AddCommand | src/backup.c:168-198 | A NULL pending word is ignored. Otherwise a copy goes to index `count`, NULL follows, the count grows by one, and earlier slots are kept. |
| SplitInput.AddCommandIsAddString | src/backup.c:168-198 | `add_command` builds the same array and count as `add_string`. |
| SplitInput.MidWords | src/backup.c:140-149 | The words completed by whitespace, followed by the pending word, are the reference words of the text, and the pending word has no whitespace. |
| SplitInput.SplitLoop | src/backup.c:119-153 | The loop only appends to the emitted words, leaving those already there in place, and when started inside a line whose last character is not special it ends with no pending word. |
| SplitInput.SplitFlushes | src/backup.c:119-153 | When the line does not end in a special character, the pending word joined to the line without its special characters is emitted word by word, and nothing stays pending. |
| SplitInput.SplitKeepsPending | src/backup.c:119-153 | When the line ends in a special character, the completed words are emitted and the partial last word stays pending for the next call. |
| SplitInput.SplitInputLine | src/backup.c:115-159 | What one `split_input` call emits and leaves pending, in both cases: the emitted words followed by the pending word are always the reference words of pending word + stripped line. |
| SplitInput.CleanTokens | src/backup.c:115-159 | Starting from no pending word, every emitted word is non-empty and contains neither whitespace nor a special character. |
| SplitInput.SplitDropsDollar | src/backup.c:122-130 | `ls $HOME` emits `ls` and `HOME`: the `$` is dropped, not split on. |
| SplitInput.SplitKeepsTrailingWord | src/backup.c:122-139 | `echo a` followed by a pipe character emits `echo` and leaves `a` pending. |
| History.SomesOfLift | lib/command_history.c:37-41 | Copying a command line with no NULL word keeps every word. |
| History.AddCmdsToHistory | lib/command_history.c:14-45 | A full history (100 entries) is refused with no change. Otherwise a new last entry holds the non-NULL words of the line in order, NULL-terminated; earlier entries are untouched, and every copied slot of the line is NULL afterwards. |
| History.EntryOfLine | lib/command_history.c:14-45 | A line of plain words is stored whole: the entry is its NULL-terminated argument array with its word count. |
| Execution.FindString | lib/execution.c:237-240 | A result other than -1 lies below the count and indexes a slot holding the key. |
| Execution.FindStringFirst | lib/execution.c:237-240 | No slot before the result holds the key, and the result is -1 exactly when none of the first `count` slots holds it. |
| Execution.FindFirst | lib/execution.c:58-65 | `find_string` over a window holding the words returns the index of the key's first occurrence, and -1 exactly when the key is absent. |
| Execution.CountPipes | lib/execution.c:353-369 | `count_pipes`, searching again from just after each pipe word and rebasing the relative index, counts exactly the pipe words of the command. |
| Execution.RedirectInput | lib/execution.c:55-88 | A process starts if and only if there is a "<", a word follows it and that file opens. The program then gets exactly the words before the first "<", input from the file and standard output. A missing "<" is reported. |
| Execution.RedirectOutput | lib/execution.c:102-134 | The same as `RedirectInput`, for ">" and output to the file. |
| Execution.RedirectInputAndOutput | lib/execution.c:148-206 | A missing ">" is reported first, then a missing "<". An output file that cannot be opened is reported before an input one. A process starts if and only if both files open, with the words before whichever operator comes first. |
| Execution.RedirectBothExample | lib/execution.c:156-203 | `ls > o < i` runs `ls` reading from i and writing to o. |
| Execution.ChildDups | lib/execution.c:296-308 | The child redirects descriptor 0 from its input if and only if that input is not 0, and descriptor 1 from its output if and only if that output is not 1. |
| Execution.ParentCloses | lib/execution.c:322-327 | The parent closes exactly the input and output that were handed on (those not 0 and 1), which covers every descriptor the child redirected. |
| Execution.ChildCloses | lib/execution.c:296-308 | The child closes each descriptor it duplicated: its input when it is not 0 and its output when it is not 1. This is exactly the set the parent closes. |
| Execution.StageWiring | lib/execution.c:296-327 | A pipeline child at position `k` redirects the previous pipe's read end (when `k > 0`) and its own write end. Both it and the parent close those two, and the read end of its own pipe stays open in the child. |
| Execution.Walk | lib/execution.c:234-266 | When the walk reaches the last program, it has started exactly one child per remaining pipe. |
| Execution.WalkChained | lib/execution.c:232-258 | Both as written and corrected, the children form a chain: each reads the previous pipe (the first reads standard input), writes its own, and the last program reads the final pipe. |
| Execution.PipelineWiring | lib/execution.c:232-263 | For the whole command: child `k` redirects and has its parent close pipe `k-1`'s read end and pipe `k`'s write end, and the last program reads the last pipe after one child per pipe word. |
| Execution.SegmentsNoPipe | lib/execution.c:234-258 | No program of a pipeline contains a pipe word. |
| Execution.SegmentsCount | lib/execution.c:234-258 | A command has one more program than it has pipe words. |
| Execution.SegmentsRoundTrip | lib/execution.c:234-258 | Joining the programs back with a pipe word between each two rebuilds the command. |
| Execution.WalkWords | lib/execution.c:234-266 | On a window holding the words, the corrected walk finds every pipe, reaches the last program, and starts each program with exactly its segment. |
| Execution.ExecuteAndPipeAsWritten | lib/execution.c:223-272 | As written, the children form a chain of pipes from standard input, and when the last program is reached there is one child per pipe word. |
| Execution.ExecuteAndPipe | lib/execution.c:223-272 | The corrected `execute_and_pipe` always reaches the last program, after one child per pipe word, and the argument vectors are exactly the pipeline's segments, in order. |
| Execution.PipelineAsWrittenKeepsPipe | lib/execution.c:237-256 | As written, `a`, pipe, `b`, pipe, `c` starts its second child as `b`, pipe, `c`: the second pipe word is never cleared, because line 240 uses the window-relative index on `cmds`. |
| Execution.PipelineSecondStage | lib/execution.c:237-256 | Corrected, the second child of `a`, pipe, `b`, pipe, `c` is `b` alone. |
| Execution.OnePipeAgrees | lib/execution.c:237-240 | With exactly one pipe word, the relative and absolute indices coincide, so the code as written equals the corrected walk. |

## Left out

- Terminal I/O is not modelled: `readline`, the prompt, `print_aliases`, `print_commands`, `print_history` and the error messages. Errors appear only as status or outcome values.
- Processes are not run: `fork`, `execvp`, `wait`, `setpgid` and signals. `execute_and_pipe`'s final `execvp` and `dup2` in the shell's own process are represented by the `last` stage, and a child's exec failure is out of scope.
- `pipe()` failing at lib/execution.c:245-250 is not modelled; every pipe is assumed to be created.
- `open` is replaced by the `canRead` / `canWrite` predicates. Opening NULL (an operator that is the last word) is the `CannotOpen(None)` outcome.
- `getenv` is replaced by an environment map, and by HOME and PWD parameters. `chdir`, `stat` and the rest of `handle_directory_change` are not modelled.
- Allocation is not modelled: every `malloc`/`realloc` is taken to succeed, so their FAILURE paths are absent.
- The allocation sizes are not checked either. `adjust_aliases` allocates one byte too few for a name (lib/alias.c:151-152, src/alias_test/alias.c:204-205), and `strcpy` then writes past the block. This model has no byte-level heap, so that overflow cannot be stated here.
- Execution.FindFirst: the body of `find_string` (and of `parse_string`) is not part of this model. `find_string` is taken to return the first index below its count whose word equals the key, or -1.
- Execution.Walk: where line 240 as written clears a slot before the current program, the write is dropped. Such slots belong to children already started, and nothing reads them again.
- Rewrite.ConvertEnvVar: a `$` as the last word makes the source call `getenv(NULL)`, which is undefined behaviour. The model treats it as an undefined name, and so fails with no change.
- Paths.GetParentDir: it requires a non-empty PWD. For an empty PWD the source starts its scan at index -1 and runs past the string, which has no defined result.
- Paths.SetNewDir: an argument starting with '~' but not "~/" is modelled as HOME + "/" + the whole argument, as the code writes it. A `current_path` longer than its buffer is not modelled. Line 617 prints into `current_path` while reading the tail `loc + 2` out of it. C leaves overlapping `sprintf` undefined, and the write overruns the read whenever the parent and its '/' are longer than `loc + 2`. That cannot happen when the base is PWD and the ".." is in the argument (`SetNewDirPwdReadsAhead`). It can happen when the base is HOME (`SetNewDirHomeOverlap`), or when every ".." lies inside PWD. For those inputs the model gives the evidently intended string: the parent, '/', and the tail as it was before the print.
- ShiftAsWritten.MoveStringsDownAsWritten: its contract gives only the length of the result. What it gets wrong is stated by `LosesShiftedToken` and `ReadsFreedString` on concrete inputs, and `ShiftDown` is the corrected operation that the rest of the model uses.
- `handle_echo`, `handle_program_execution`, `execute`, `process_quoted_string` and `parse_string` are outside the modelled core.
- The header files are modelled only through their constants: ALIAS_LIMIT 75, CMD_LIMIT 100, SUCCESS and FAILURE.

## Findings

| source | as written | input that shows it | evidently intended | confidence | as-written member | corrected member |
|---|---|---|---|---|---|---|
| lib/string_module.c:151-160 | The loop clears `arr[old + k]` after freeing `arr[old + k - 1]`; when `k = 1` it frees the string it is about to copy. | `["a","X","b","c"]`, `k = 2`, `start = 1` loses "c"; `["a","X","b"]`, `k = 1`, `start = 1` reads a freed string | every word after `start` moves to `+k-1`, as the doc comment says | not executed | ShiftAsWritten.LosesShiftedToken | StringModule.ShiftDown |
| lib/execution.c:240 | `cmds[pipe_location] = NULL`, where `pipe_location` is relative to `current_program` | `a`, pipe, `b`, pipe, `c` starts its second child as `b`, pipe, `c` | `current_program[pipe_location] = NULL` | not executed | Execution.PipelineAsWrittenKeepsPipe | Execution.ExecuteAndPipe |
| lib/alias.c:56-58 | returns `&alias_arr[n_aliases]` after `qsort` has moved the new entry | adding "a" to a table holding "b" returns the entry of "b" | return the entry just added | not executed | AliasTable.AddedSlotIsNewEntryIff | AliasTable.AddAlias |
| src/alias_test/alias.c:123-134 | returns `found`, the slot into which `adjust_aliases` has just copied the next entry, or which it freed when the entry was last (lib/alias.c:69-83 does the same) | removing "ll" from a table holding ll and then lrt returns the slot holding lrt | report the removed alias, or at least success, with a non-NULL result | not executed | AliasList.RemovedSlotIsNext | AliasList.RemoveAlias |
