# kcleaner selection-and-safety engine in Dafny

kcleaner is a small C tool that lists the kernel images under `/boot`,
marks the one that is running, and removes the ones the operator selects
(`-d 1-3,5`) or the ones auto-clean picks (`-a`), then refreshes the GRUB
configuration. This project models the logic that decides what gets
destroyed:

- **Discovery** (`discovery.dfy`). This covers `get_running_kernel` and `find_kernels`.
  - The running version is the text between the first `"Linux version "` and the next space of the first line of `/proc/version`.
  - One record is made per `vmlinuz-` entry, holding at most 100 of them.
  - The records are sorted greatest-first by `strcmp`.
- **Selection** (`selection.dfy`). This is the parser inside `delete_kernels`.
  - A character filter runs first.
  - The selection is then split into `strtok` tokens on `,`.
  - Each token is split at its first `-`, and its numbers are read with `atoi`.
  - The bounds checks follow, and one refused token aborts the whole request.
  - `Select` gives the resulting mask of kernel indices.
- **Safety** (`safety.dfy`). `Classify` is the token loop as a method. It keeps `delete_count`, `remaining_count` and `deleting_running`. `Warnings` derives the two warnings from those totals, and `MaskWarnings` derives them from the mask alone.
- **Console** (`console.dfy`). This is `confirm_deletion`.
  - The operator's input is a stream of characters, and each prompt makes one `fgets` into a 10-byte buffer.
  - A reply is affirmative when it starts with `y` or `Y`.
  - A read failure at end of input is a refusal.
- **Execution** (`execution.dfy`). This covers `delete_kernel`, the removal loop of `delete_kernels`, and the final `update_grub`, all recorded as a trace of events:
  - warnings;
  - questions with their answers;
  - removals;
  - one refresh.
- **Auto-clean** (`autoclean.dfy`). This is the `auto_clean` rule and its confirmation, removal and refresh sequence.

Removals and the refresh are collaborator calls. Their exit statuses are only printed, so the model records the call and nothing else. The privilege check is a boolean parameter.

In two places the code behaves differently from what a user of the tool would expect, and the model follows the code:

- **The refresh.** One would expect the boot loader to be refreshed only when at least one deletion succeeded. The code calls `update_grub` whenever the batch is confirmed, even if every removal failed or every running-kernel question was refused (kcleaner.c:298-308). `DeleteKernels` and `Clean` state this.
- **An unreadable running version.** One would expect an unreadable running version to match no record. The code compares with `strcmp` against the empty string, so an entry named exactly `vmlinuz-` is marked running (kcleaner.c:112). `Discovery.EmptyRunningVersionMarksBareImage` states this.

Auto-clean keeps only the *first* running kernel of the table (kcleaner.c:327-332), and this model does the same.

## Model

| member | source | states |
|---|---|---|
| Basics.IndexOf | kcleaner.c:81 | `strchr`: the result is the first position holding the character, and it is the string's length exactly when the character does not occur |
| Basics.Find | kcleaner.c:78 | `strstr`: the position returned holds an occurrence, no earlier position does, and None means there is no occurrence at all |
| Kernels.CountMarkedBounds | kcleaner.c:273 | the number of marked indices is at most the table size, is 0 exactly when nothing is marked, and equals the size exactly when everything is marked |
| Kernels.CountMarkedSet | kcleaner.c:241-244 | marking an index that was not marked raises the count by exactly one |
| Kernels.MarksRunningSet | kcleaner.c:246-248 | after marking index j, some marked kernel is running exactly when one was before or kernel j is running |
| Kernels.FirstRunning | kcleaner.c:325-332 | the index of the first running record, or -1 exactly when no record is running |
| Discovery.RunningVersion | kcleaner.c:76-86 | the version contains no space; a non-empty version occurs in the line as "Linux version " + version + " "; it is empty when the line is missing or lacks the marker |
| Discovery.RunningVersionExtracts | kcleaner.c:78-86 | for a line holding its first marker, then a space-free word, then a space, the result is exactly that word |
| Discovery.RunningVersionNeedsSpace | kcleaner.c:81-86 | when no space follows the marker, the running version stays empty |
| Discovery.ImageRecord | kcleaner.c:108-112 | the record's version is the entry name without "vmlinuz-"; its path is "/boot/" + name; it is running iff its version equals the running version |
| Discovery.ImagesAreImageEntries | kcleaner.c:107-115 | every record comes from an entry starting with "vmlinuz-", every such entry gives a record, and there are no more records than entries |
| Discovery.ImagesAppend | kcleaner.c:107-115 | scanning two runs of entries one after the other gives the records of the first followed by those of the second |
| Discovery.ScanBoot | kcleaner.c:107-115 | the readdir loop keeps the image records in directory order and stops at 100: the result is the first min(images, 100) of them |
| Discovery.StrLessIrreflexive | kcleaner.c:96 | no version sorts before itself under lexicographic order by character |
| Discovery.StrLessTransitive | kcleaner.c:96 | lexicographic order by character is transitive |
| Discovery.StrLessTotal | kcleaner.c:96 | any two distinct versions are ordered one way or the other |
| Discovery.Insert | kcleaner.c:119 | inserting into a descending table keeps it descending and adds exactly that record |
| Discovery.SortDescending | kcleaner.c:119 | the sorted table is a permutation of its input and is descending by version |
| Discovery.FindKernels | kcleaner.c:99-120 | at most 100 records; exactly min(images, 100); a permutation of the first records scanned; descending; every record is an image of the listing |
| Discovery.ImagesDistinct | kcleaner.c:108-109 | distinct entry names give distinct versions |
| Discovery.PermutationKeepsDistinct | kcleaner.c:119 | sorting keeps versions distinct |
| Discovery.DistinctEntriesSortStrictly | kcleaner.c:107-119 | the discovered table is strictly descending by version |
| Discovery.TextualNotNumericOrder | kcleaner.c:92-97 | versions 5.10.0, 5.4.0 and 6.1.0 sort as 6.1.0, 5.4.0, 5.10.0 (character order, not numeric order) |
| Discovery.DiscoveredRunningIsUnique | kcleaner.c:112 | in a discovered table at most one record is marked running |
| Discovery.EmptyRunningVersionMarksBareImage | kcleaner.c:112 | with no readable running version, an entry named exactly "vmlinuz-" becomes a running record with empty version |
| Selection.FirstInvalid | kcleaner.c:213-219 | None iff every character is a digit, ',' or '-'; otherwise the index of the first other character |
| Selection.AllSelectionCharsJoin | kcleaner.c:155-157 | two selections joined by ',' pass the filter iff both do |
| Selection.Tokens | kcleaner.c:226-227 | `strtok` tokens are non-empty and contain no ',' |
| Selection.TokensSplit | kcleaner.c:226-269 | the tokens of a + "," + b are the tokens of a followed by those of b |
| Selection.TokensOfCommaFree | kcleaner.c:226 | a non-empty comma-free selection is one token |
| Selection.TokensOfCommas | kcleaner.c:226-227 | a selection of commas only has no tokens |
| Selection.ParseToken | kcleaner.c:228-257 | an accepted token gives a span with 1 <= first <= last <= kernel count; a refused one reports an invalid range or invalid number naming the token |
| Selection.BareToken | kcleaner.c:251-257 | a token without '-' is accepted iff 1 <= atoi(token) <= kernel count, and then marks exactly that kernel |
| Selection.RangeToken | kcleaner.c:228-238 | a-b is accepted iff 1 <= atoi(a) <= atoi(b) <= kernel count, and then marks kernels atoi(a)..atoi(b); otherwise an invalid range |
| Selection.AtoiOneDigit | kcleaner.c:231 | atoi of a digit followed by a non-digit is that digit's value |
| Selection.LeadingDashRefused | kcleaner.c:230-234 | "-3" is refused as an invalid range, its empty start reading as 0 |
| Selection.TrailingDashRefused | kcleaner.c:230-234 | "3-" is refused as an invalid range, its empty end reading as 0 |
| Selection.SecondDashIgnored | kcleaner.c:230-234 | with at least two kernels "1-2-3" is accepted as the range 1..2: the end's atoi stops at the second '-' |
| Selection.ApplyTokens | kcleaner.c:226-270 | the loop succeeds iff every token is accepted; the mask is the union of the spans; a failure reports the first refused token |
| Selection.Select | kcleaner.c:213-270 | a bad character is reported before any token is parsed; success iff all characters pass and all tokens are accepted; otherwise the error is that of the first refused token; the mask marks index i iff some token covers kernel i + 1 |
| Selection.SelectUnion | kcleaner.c:240-267 | a + "," + b succeeds iff both parts do, and then its mask is the union of theirs |
| Selection.SelectIdempotent | kcleaner.c:240-267 | repeating a whole selection ("a,a") is accepted iff "a" is, and then gives the same mask |
| Selection.SelectCommutes | kcleaner.c:240-267 | "a,b" and "b,a" are accepted together and give the same mask |
| Selection.SelectOneToken | kcleaner.c:226-257 | a single-token selection succeeds iff its token is accepted, and marks what the token covers |
| Selection.JoinDigits | kcleaner.c:155-157 | digits joined by '-' or ',' pass the filter |
| Selection.SelectNumber | kcleaner.c:251-257 | a number n is accepted iff 1 <= n <= kernel count, and marks only index n - 1 |
| Selection.SelectRange | kcleaner.c:228-250 | a range a-b of digit strings is accepted iff 1 <= a <= b <= kernel count, and marks exactly indices a-1..b-1 |
| Selection.SelectConsecutive | kcleaner.c:240-267 | "a,b" with b = a + 1 marks exactly indices a-1 and a |
| Selection.SelectRepeatThenNext | kcleaner.c:259 | "a,a,b" with b = a + 1 marks exactly indices a-1 and a: the repeat adds nothing |
| Selection.DuplicatesCollapse | kcleaner.c:240-267 | "a,a,b" and "a-b" with b = a + 1 succeed together and give the same mask |
| Selection.EmptySelectionMarksNothing | kcleaner.c:226-276 | an empty or all-comma selection succeeds and marks nothing |
| Console.ReadLength | kcleaner.c:163-164 | one fgets takes at most the buffer room and never more than the input; it stops after the first newline |
| Console.ConfirmLine | kcleaner.c:163-169 | a reply of at most eight characters followed by a newline is consumed whole, newline included, and is a yes iff its first character is 'y' or 'Y' (so an empty line is a no); at end of input the reply is a no |
| Console.DialogueSplit | kcleaner.c:163-164 | answering a + b prompts is answering a, then b more from the input left over |
| Console.LongReplySpills | kcleaner.c:163-164 | a reply of more than nine characters without a newline leaves its tenth character to answer the next prompt |
| Safety.FirstBadCharacter | kcleaner.c:213-219 | the filter loop finds no bad character iff every character is allowed, and otherwise reports the first bad one |
| Safety.MarkSpan | kcleaner.c:240-267 | the marking loop adds exactly the span to the mask, and the counts and running flag stay true to the mask |
| Safety.Classify | kcleaner.c:213-270 | fails exactly when the selection parse fails, with the same error; otherwise the mask is the selection's, `delete_count` is the number of marked kernels, `remaining_count` is the rest, and `deleting_running` holds iff a marked kernel is running |
| Safety.WarningsMeaning | kcleaner.c:285-291 | the running-kernel warning appears iff a marked kernel is running; the critical warning appears iff every kernel is marked |
| Safety.WarningsOfMask | kcleaner.c:285-291 | the warnings chosen from the parse loop's totals are exactly those read off the mask: the running-kernel warning when a marked kernel is running, then the critical warning when every kernel is marked |
| Execution.DeleteKernel | kcleaner.c:172-200 | an index outside the table does nothing; a non-running kernel is removed at once; a running one asks first and is removed iff the answer is yes |
| Execution.DeleteMarkedOnlyMarked | kcleaner.c:298-302 | every event of the removal loop concerns a marked index |
| Execution.DeleteMarkedAscending | kcleaner.c:298-302 | removals happen in strictly ascending index order |
| Execution.DeleteMarkedRemoves | kcleaner.c:178-302 | every marked non-running kernel is removed; a marked running kernel is removed iff its own question was answered yes |
| Execution.DeleteKernelConsumes | kcleaner.c:178-179 | delete_kernel asks one question for a running kernel and none otherwise |
| Execution.DeleteMarkedConsumes | kcleaner.c:178-302 | the running-kernel questions are answered by successive replies, one per marked running kernel |
| Execution.RunningMarkedFrom | kcleaner.c:298-302 | the number of running-kernel questions the loop can put from an index on: at most the kernels left, and 0 iff none of them is both marked and running |
| Execution.RemovalLoop | kcleaner.c:178-302 | the loop emits only removals and running-kernel questions; it removes only marked kernels, every marked non-running one, and a running one iff its own question was answered yes, right after that question; every marked running kernel is asked about, and no other; kernels are visited in ascending index order; the answers are successive replies, one per marked running kernel |
| Execution.DeleteMarkedOrder | kcleaner.c:178-302 | in the removal loop the events about different kernels follow their indices, each kernel has at most one question and one removal with the question first, and a running kernel's removal comes right after its own question answered yes |
| Execution.BatchTrace | kcleaner.c:293-308 | after a prefix without removals, refreshes or running-kernel questions, a confirmed batch keeps the prefix in front, adds only removals, running-kernel questions and the refresh, with the same removal and question guarantees as the loop; its answers are the prefix's followed by one reply per marked running kernel; the refresh is last |
| Execution.BatchOrder | kcleaner.c:298-308 | a confirmed batch after a quiet prefix keeps the loop's order, and the refresh adds nothing to it |
| Execution.DecideLayout | kcleaner.c:285-296 | the warnings or "Keeping:" lines stay in front, the batch question comes right after them with the first reply as its answer, and none of those lines appears after the question |
| Execution.DecideRemovals | kcleaner.c:293-308 | nothing is removed unless the batch question is answered yes; then every marked non-running kernel is removed, a running kernel is removed iff its own question was answered yes, every marked running kernel is asked about, in ascending order; the refresh happens iff the answer is yes, and last |
| Execution.DecideAnswers | kcleaner.c:178-302 | the answers in the trace are successive replies of the input: one for the batch question, then after a yes one per marked running kernel |
| Execution.DecideOrder | kcleaner.c:293-302 | whatever the replies, the batch keeps the loop's order: kernels by ascending index, and a running kernel removed only right after its own question answered yes |
| Execution.ConfirmedTrace | kcleaner.c:298-308 | after a confirmed batch the refresh comes last and exactly once, and removals stay ascending |
| Execution.ConfirmedEvents | kcleaner.c:293-308 | after a prefix that removes nothing and asks only the batch question, every removal and running-kernel question of a confirmed batch comes from the removal loop, and the answers are the prefix's followed by the loop's |
| Execution.ConfirmAndRemove | kcleaner.c:285-308 | the warnings first, then the batch question; removals only after a yes and only of marked kernels, every marked non-running one; a running kernel is removed iff its own question was answered yes, and right after it; every marked running kernel is asked about; kernels are visited in ascending index order; the answers are successive replies; the refresh happens exactly when the answer is yes, and last |
| Execution.DecideBatch | kcleaner.c:273-308 | an empty mask stops with no question; otherwise the classification's warnings come first, in order, the batch question follows them, and the removals, running-kernel questions in index order, answers and refresh follow as for ConfirmAndRemove |
| Execution.DeleteKernels | kcleaner.c:202-309 | without privilege nothing happens; a refused selection ends as that error with an empty trace; nothing marked ends with no question; a privileged, accepted, non-empty selection is always asked about; the trace starts with exactly the warnings the mask calls for, in order, then the batch question, after which only removals, running-kernel questions and the refresh follow; removals happen only after a yes, only of marked kernels, in ascending order, and every marked non-running kernel is removed; a running kernel is removed iff its own question was answered yes, right after it, and questions follow index order; the answers are successive replies, one for the batch and one per marked running kernel; exactly one refresh, last, exactly when the batch was confirmed |
| AutoClean.CleanMask | kcleaner.c:316-339 | with at most two kernels nothing is marked; otherwise a kernel is marked iff it is not index 0 and not the first running kernel |
| AutoClean.MarkForClean | kcleaner.c:322-339 | the two loops of auto_clean compute exactly the auto-clean mask and count it |
| AutoClean.CleanCount | kcleaner.c:334-344 | auto-clean marks all kernels but one, or all but two when the first running kernel is not the newest; so at least one is marked, and the "no kernels to clean" branch is unreachable |
| AutoClean.CleanSparesRunning | kcleaner.c:327-339 | with at most one running kernel, auto-clean marks no running kernel |
| AutoClean.CleanSparesDiscoveredRunning | kcleaner.c:327-339 | on a table discovered from distinct entries, auto-clean never marks the running kernel |
| AutoClean.KeptAsWritten | kcleaner.c:353-357 | the "Keeping:" lines as coded start with index 0 |
| AutoClean.KeptAsWrittenReadsOutside | kcleaner.c:355-356 | with no running kernel, the "Keeping:" lines read a record outside the table |
| AutoClean.KeptIsUnmarked | kcleaner.c:353-357 | the corrected "Keeping:" lines name only valid indices, and exactly the unmarked ones |
| AutoClean.Announce | kcleaner.c:353-357 | the "Keeping:" lines name, in order, exactly the kernels auto-clean leaves unmarked, and nothing but "Keeping:" lines |
| AutoClean.ConfirmClean | kcleaner.c:322-372 | the mask is auto-clean's; the "Keeping:" lines come first, the batch question right after them, and only removals, running-kernel questions and the refresh after it; removals of marked kernels only after a yes, every marked non-running one, a running one iff its own question was answered yes and right after it, kernels in ascending index order; the answers are successive replies; the refresh exactly when the answer is yes, and last |
| AutoClean.Clean | kcleaner.c:311-373 | without privilege nothing happens; with at most two kernels nothing happens; otherwise the kept kernels are announced and the batch question always follows them; removals happen only of auto-clean's marks, only after a yes, in ascending order; a marked running kernel is removed iff its own question was answered yes, right after it; the answers are successive replies; exactly one refresh, last, exactly when the batch was confirmed |

## Left out

- Standard-input, directory and file I/O are parameters.
  - The `/boot` listing is a sequence of entry names.
  - The first line of `/proc/version` is `Option<string>`, None when it cannot be opened or read.
  - Standard input is a character string; end of input stands for every `fgets` failure.
- A `/proc/version` line longer than `BUFFER_SIZE` (1024) is not modelled: the line is given as read.
- `check_root_privileges` (`geteuid`) is a boolean parameter.
- The `strdup` allocation failure in `delete_kernels` is not modelled.
- `system()` calls for `rm`, `which` and `update-grub` are events without results.
  - `Remove(i)` stands for the command `rm -vf /boot/*<version>* && rm -vrf /lib/modules/<version>` (kcleaner.c:188-191). Its glob also matches the files of any other kernel whose version contains this one (`6.1.0` matches `vmlinuz-6.1.0-rc1`). So "only marked kernels are removed" holds for the removal commands issued, not for the files that disappear.
  - The exit statuses are only printed and never change control flow.
  - `update_grub`'s probe for the command and its "not found" note are inside the one `UpdateGrub` event.
- `printf` wording is not modelled. This covers the list of kernels about to be deleted and the auto-clean list of marked kernels. Warnings and the "Keeping:" lines are kept as events; the "Keeping:" lines are the corrected ones described under AutoClean.Clean below.
- `list_kernels`, its `du` size computation, `print_help` and `main`'s argument dispatch are display-only or trivial.
- Fixed-size buffers are not modelled:
  - the 256-byte `version` and `running_kernel` (`strcpy`/`strncpy` overflow on longer names);
  - the `PATH_MAX` truncation of `path` and of the `rm` command line.
  Strings are unbounded.
- Strings are `seq<char>`, not C byte strings.
  - `strcmp` compares unsigned bytes; the model compares characters by code point. On UTF-8 text, unsigned byte order is exactly code-point order, proper prefixes included (section 1 of RFC 3629), so the two agree on every name that is valid UTF-8.
  - `isdigit` is applied per byte in C; the model applies its ASCII test per character.
  - Directory entry names that are not valid text are not representable.
  - `InvalidCharacter` reports the offending character, where the source prints one byte.
- AutoClean.Clean: the trace carries the corrected "Keeping:" lines (`Kept`), not the lines as coded. When no kernel is running the code reads `kernels[-1]` (kcleaner.c:355-356); that read is undefined behaviour, so it has no event of its own and is shown only by `AutoClean.KeptAsWrittenReadsOutside` under Findings.
- Selection.Atoi: does not model 32-bit `int` overflow of very long digit runs, which is undefined behaviour in C; values are unbounded integers.
- Discovery.SortDescending: `qsort` is not stable. The model fixes one order among records with equal versions. Equal versions cannot arise from distinct directory entries.
- AutoClean.Clean: the source's `delete_count == 0` stop is not written out, because `AutoClean.CleanCount` shows it cannot be reached.
- Execution.DeleteKernels: the `delete_count > 0` guard before `update_grub` is always true at that point, so the model refreshes unconditionally after the loop.

## Findings

| source | as written | input that shows it | evidently intended | confidence | as-written member | corrected member |
|---|---|---|---|---|---|---|
| kcleaner.c:355-356 | prints `kernels[running_index].version` whenever `running_index != 0`, including the -1 left when no kernel is running | `-a` with three kernels and none marked running, e.g. `/proc/version` unreadable and no entry named exactly `vmlinuz-` | announce only the newest kernel when no kernel is running | high; not executed | AutoClean.KeptAsWrittenReadsOutside | AutoClean.KeptIsUnmarked |
