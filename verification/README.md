# Day planner core in Dafny

A model of the scheduling core of a terminal day planner written in C++.
The planner keeps an ordered list of activities for one day. Each
activity has these parts:

- a name and a requested length;
- a start, held both as a clock text ("HH:MM") and as a minute of the day;
- three flags:
  - rigid: the activity keeps its length;
  - fixed: the activity is pinned at its start;
  - frozen: the engine has cut the activity to the gap before a fixed successor.

After every edit the planner recalculates in two passes:

- `calcActLen` freezes each activity that is followed by a fixed one, then shares what is left of the day among the flexible activities in proportion to their lengths.
- `calcStartTimes` chains each flexible activity to the end of its predecessor.

Edits go through undoable commands. An `UndoManager` keeps them on two
bounded stacks (100 commands, 1 MiB of footprint) and can collect them into
groups. Settings come from a `key: value` file. The front end validates
cell edits before applying them.

The modules follow the source files:

| module (file) | models |
|---|---|
| `Outcomes` (outcomes.dfy) | `Option`, `Result`, and `Attempt`: the outcome of a call that may throw after changing part of the state |
| `CppArith` (cpp_arith.dfy) | C++ `/` and `%`, which truncate toward zero |
| `Text` (text.dfy) | `std::to_string`, `std::stoi`, `std::setw(2)`, trimming, `::tolower` |
| `Lists` (lists.dfy) | erase, insert and swap on sequences |
| `Activity` (act.dfy) | `Act`: time parsing and printing, constructors, setters |
| `TaskManager` (task_manager.dfy) | the list operations and the two recalculation passes |
| `TimerCascade` (cascade.dfy) | the timer command's cascade over later activities |
| `Commands` (commands.dfy) | every command class: execute, undo, description, footprint |
| `UndoManager` (undo_manager.dfy) | the two stacks, memory limits, grouping, and TaskManager's undo/redo wrappers |
| `Config` (config.dfy) | settings: defaults, load, save, typed getters and setters |
| `ConfigFile` (config_file.dfy) | the config file as text: the lines saveToFile writes and the `std::getline` loop that reads them back |
| `Frontend` (frontend.dfy) | the helpers of `main.cpp` that validate and apply edits and report the current and next activity |
| `Demo` (demo.dfy) | the sample day of `main_demo.cpp`, worked through |

Some behaviours are consequences of how the code is written. The model
states them as they are:

- **Undo re-pins at the recomputed start.** The undo of a toggle-fixed
  command, and of a move up or down, pins the activity at the start the
  recalculation gave it. It does not pin it at the start it had before
  (`Commands.ToggleFixedRoundTrip`, `Commands.MoveUpRoundTrip`,
  `Commands.MoveDownRoundTrip`). The round trip is exact only for an
  activity that was flexible.
- **Delete is undone by rebuilding.** Undoing a delete builds a new
  activity from the recorded name, start text, length and rigid flag
  (`Commands.DeleteRoundTrip`). Name, length, the rigid and fixed flags and a pinned start come
  back; the engine's own fields (actual length, frozen state) are
  recalculated by the next edit. So the delete round trip is stated over
  `Entries`: the fields a user sets.
- **The start minute is not wrapped.** `setStartTime(int)` stores the
  minute unwrapped but wraps the text. An activity that the recalculation
  starts past midnight and that the user then pins cannot be rebuilt from
  its text (`Commands.NotRestorablePastMidnight`). The round trips that
  rebuild from a text therefore assume `Canonical`: a pinned activity's
  minute is the reading of its text.

## Model

| member | source | states |
|---|---|---|
| CppArith.TruncDiv | src/Act.cpp:46-52 | C++ `/` on `int`: the magnitude is floor(abs a / abs b), and the quotient is negative only when the operand signs differ |
| CppArith.TruncMod | src/Act.cpp:46-52 | C++ `%`: `a == b * (a / b) + r`, with abs r < abs b, and r takes the dividend's sign |
| CppArith.TruncAgreesOnNatural | src/Act.cpp:46-52 | on non-negative operands, C++ `/` and `%` are the Euclidean ones |
| Text.NatToString | src/Act.cpp:51-52 | `std::to_string` of a natural number has one digit below 10 and two below 100 |
| Text.NatToStringDigits | src/Act.cpp:51-52 | the spelling is all digits and reads back as the number |
| Text.IntToString | src/Config.cpp:160-162 | `std::to_string` of a negative `int` is '-' followed by the spelling of its magnitude |
| Text.Stoi | src/Act.cpp:36-37 | `std::stoi`: a result is always within `int` range |
| Text.StoiReadsDigitRun | src/Act.cpp:36-37 | `std::stoi` reads a digit run followed by a non-digit as the run's value |
| Text.StoiIntToString | src/Config.cpp:122-132 | `std::stoi(std::to_string(n)) == n` for every `int` |
| Text.StoiEmpty | src/Act.cpp:36-37 | `std::stoi("")` throws |
| Text.Setw2 | src/main.cpp:29-36 | `std::setw(2)` with fill '0' gives at least two characters, and exactly the two digits for 0..99 |
| Text.TwoDigitValue | src/main.cpp:29-36 | a padded two-digit field reads back as its number |
| Text.TrimLeft | src/Config.cpp:68-71 | dropping leading characters leaves a suffix that starts outside the set; everything dropped was in it |
| Text.TrimRight | src/Config.cpp:68-71 | the same for trailing characters |
| Text.TrimSlice | src/Config.cpp:68-71 | the trimmed text is the stretch of the input between runs of trimmed characters |
| Text.TrimIdempotent | src/Config.cpp:68-71 | trimming twice changes nothing more |
| Text.TrimAllSpace | src/Config.cpp:68-71 | a text made only of trimmed characters trims to nothing |
| Text.LowerChar | src/Config.cpp:138-139 | `::tolower` moves 'A'..'Z' by 32 and leaves every other character |
| Text.ToLower | src/Config.cpp:138-139 | `std::transform` with `::tolower` lowers each character in place |
| Lists.Without | src/TaskManager.cpp:198-204 | `erase(begin() + i)`: one shorter, the prefix kept, the rest shifted down |
| Lists.Within | src/TaskManager.cpp:56-62 | `insert(begin() + i, x)`: x at i, the prefix kept, the rest shifted up |
| Lists.Swap | src/TaskManager.cpp:213-217 | `std::swap` of two positions; nothing else changes |
| Lists.WithoutWithin | src/TaskManager.cpp:56-62 | erasing what was just inserted gives the sequence back |
| Lists.WithinWithout | src/TaskManager.cpp:198-204 | re-inserting an erased element where it was gives the sequence back |
| Lists.SwapMultiset | src/TaskManager.cpp:213-217 | a swap is a permutation |
| Lists.WithoutDetermines | src/TaskManager.cpp:219-234 | a sequence is determined by one element and the rest |
| Activity.IndexOf | src/Act.cpp:30 | `find(':')`: the first position of the character, or npos exactly when it is absent |
| Activity.ParseTime | src/Act.cpp:29-45 | `timeStringToMinutes` throws with no colon, a colon first or a colon last; an accepted text gives a minute in 0..1439 |
| Activity.ClockParts | src/Act.cpp:36-44 | the range check accepts exactly hours 0..23 and minutes 0..59 that `std::stoi` read, and gives h * 60 + m |
| Activity.ParseMinutesToTime | src/Act.cpp:29-52 | `minutesToTime` always prints a text that `timeStringToMinutes` accepts: the clock minute for m >= 0, and 0 for a negative m ("0-5:0-30" reads as 0) |
| Activity.MinutesToTimeNegative | src/Act.cpp:46-52 | for a negative input, C++ `%` keeps both printed fields non-positive |
| Activity.MinutesToTimeShape | src/Act.cpp:46-52 | on a clock minute the text is "HH:MM": five characters, digits around a colon |
| Activity.TimeRoundTrip | src/Act.cpp:29-52 | `timeStringToMinutes(minutesToTime(m)) == m` on a clock minute |
| Activity.MinutesToTimeWraps | src/Act.cpp:46-52 | for m >= 0, adding a whole day does not change the text |
| Activity.DefaultStartIsNine | src/Act.cpp:18-28 | the default start "09:00" is minute 540, and minute 540 prints as "09:00" |
| Activity.NewFixed | src/Act.cpp:6-17 | the fixed constructor succeeds exactly when the time parses; it builds a fixed, unfrozen activity with that text and minute |
| Activity.NewFlexible | src/Act.cpp:18-28 | the flexible constructor builds an unfixed activity starting at 09:00 (minute 540) |
| Activity.SetStartTimeStr | src/Act.cpp:53-56 | `setStartTime(string)` throws exactly on a bad text, before anything changes; otherwise it writes only the text and its minute |
| Activity.SetStartTimeInt | src/Act.cpp:57-60 | `setStartTime(int)` stores the minute as given and the wrapped text; nothing else changes |
| Activity.SetStartTimeIntReadable | src/Act.cpp:57-60 | that text is always readable, and it agrees with the minute on a clock minute |
| Activity.SetCurrentTime | src/Act.cpp:61-73 | `setCurrentTime` pins the activity at `now` with matching text; nothing else changes |
| Activity.SetActLenRatio | src/Act.cpp:74-82 | rigid gives the length, frozen gives the frozen length, and otherwise length * ratio is cut toward zero; only the actual length changes |
| Activity.FlagMutators | src/Act.cpp:83-90 | the toggles undo themselves, `setRigid(b)` lands on b, and each setter changes its own field only |
| Activity.MutatorsKeepWellFormed | src/Act.cpp:53-90 | every setter keeps the start text readable |
| Activity.ClockFormatParses | src/main.cpp:142-147 | every text matching the clock pattern of `isValidTimeFormat` is a time `Act` accepts |
| Activity.MinutesToTimeFormat | src/Act.cpp:46-52 | `minutesToTime` of a clock minute matches that pattern |
| TaskManager.Freeze | src/TaskManager.cpp:104-126 | one freeze step: the gap to the fixed successor, cut at 0, becomes actual and frozen length, and `frozen` flips |
| TaskManager.FreezeAll | src/TaskManager.cpp:103-128 | the freeze pass, position by position, from the list as it was |
| TaskManager.FreezeLoopSpec | src/TaskManager.cpp:103-128 | the in-place loop computes the pointwise freeze and collects exactly the conflicts, in list order |
| TaskManager.FreezeLoopResult | src/TaskManager.cpp:103-128 | the loop from position 0 is FreezeAll and lists every conflict |
| TaskManager.ShareRatio | src/TaskManager.cpp:129-146 | the ratio (dayLength - rigid total) / flexible total, or 1, always has a positive denominator |
| TaskManager.Assign | src/TaskManager.cpp:147-149 | `setActLen(ratio)` on every task |
| TaskManager.CalcActLen | src/TaskManager.cpp:99-152 | calcActLen on a non-empty list keeps its length |
| TaskManager.CalcActLenUnfolds | src/TaskManager.cpp:99-152 | calcActLen is the share assignment after the pointwise freeze |
| TaskManager.CalcActLenIdentity | src/TaskManager.cpp:99-152 | the recalculation never changes name, start, length, rigid or fixed |
| TaskManager.CalcActLenFreeze | src/TaskManager.cpp:103-126 | wherever the successor is fixed, `frozen` flips and the frozen length is the gap, cut at 0; elsewhere both stay |
| TaskManager.CalcActLenShares | src/TaskManager.cpp:128-149 | rigid tasks get their length, frozen ones their frozen length, and others length * ratio cut toward zero |
| TaskManager.CalcActLenWarnings | src/TaskManager.cpp:107-116 | one warning per task whose fixed successor starts earlier, in order; `hasWarnings` holds exactly when there is one |
| TaskManager.CalcActLenNotIdempotent | src/TaskManager.cpp:123-124 | a second pass flips `frozen` back wherever the successor is fixed |
| TaskManager.CalcActLenIntendedFreezes | src/TaskManager.cpp:103-126 | with the flag set instead of flipped, a task is frozen exactly when it was or has a fixed successor |
| TaskManager.CalcActLenIntendedStable | src/TaskManager.cpp:123-124 | with the flag set, a second pass changes no frozen flag or frozen length |
| TaskManager.CalcActLenIntendedAgrees | src/TaskManager.cpp:99-152 | on a list with nothing frozen yet, the corrected pass equals the written one |
| TaskManager.AtNineParses | src/TaskManager.cpp:79 | `setStartTime("09:00")` cannot throw |
| TaskManager.StartLoopSpec | src/TaskManager.cpp:72-86 | the in-place loop meets the chained description from every position on |
| TaskManager.CalcStartTimesChained | src/TaskManager.cpp:72-86 | fixed tasks keep their start; a flexible first task starts at 09:00; any other flexible task starts at its predecessor's new start plus its actual length |
| TaskManager.AddTask | src/TaskManager.cpp:31-43 | adding appends the activity and keeps everything before it |
| TaskManager.InsertTaskAt | src/TaskManager.cpp:56-62 | an index past the end (a negative `int` wraps as `size_t`) changes nothing; otherwise the task lands at the index and the rest shift |
| TaskManager.InsertFixedTask | src/TaskManager.cpp:44-49 | a bad start throws before the list changes; otherwise the fixed activity is inserted |
| TaskManager.DeleteTask | src/TaskManager.cpp:198-204 | delete succeeds exactly on an index in range, removing that one activity |
| TaskManager.DeleteUndoesInsert | src/TaskManager.cpp:56-62 | deleting what was just inserted gives the list back |
| TaskManager.InsertUndoesDelete | src/TaskManager.cpp:198-204 | re-inserting the deleted activity where it was gives the list back |
| TaskManager.MoveTask | src/TaskManager.cpp:206-235 | a move is refused for a bad index or a move onto itself; it is always a permutation; an adjacent move swaps; a longer move lands at `to`, or at `to - 1` downwards |
| TaskManager.MoveTaskUp | src/TaskManager.cpp:237-242 | succeeds exactly for 0 < i < size, swapping with the predecessor |
| TaskManager.MoveTaskDown | src/TaskManager.cpp:244-249 | succeeds exactly for i < size - 1, swapping with the successor |
| TaskManager.MoveUpThenDown | src/TaskManager.cpp:237-249 | moving up then down restores the list |
| TaskManager.MoveDownThenUp | src/TaskManager.cpp:237-249 | moving down then up restores the list |
| TaskManager.MoveDownUndo | src/TaskManager.cpp:206-235 | a downward move is undone by moving back from where the element landed |
| TaskManager.MoveUpUndo | src/TaskManager.cpp:206-235 | a longer upward move is undone by a move to one past the old place |
| TaskManager.MoveThereAndBackReverses | src/TaskManager.cpp:219-234 | moving first-to-last and back on three activities gives the reversed list |
| TaskManager.MoveTaskIntended | src/TaskManager.cpp:206-235 | the corrected move: the element always lands at `to`, and the rest keep their order |
| TaskManager.MoveIntendedThereAndBack | src/TaskManager.cpp:206-235 | for the corrected move, moving there and back is the identity |
| TaskManager.MoveIntendedAgrees | src/TaskManager.cpp:213-234 | the corrected move equals the written one for adjacent and upward moves |
| TaskManager.UpdateTask | src/TaskManager.cpp:167-189 | out of range nothing changes; name, length and rigid are written first; an empty start unpins; a bad start throws with those writes in place; a good start pins |
| TaskManager.BeginAtAsWritten | src/TaskManager.cpp:64-70 | the written guard stops only an index equal to `size()`; every larger one, a negative one included, is refused |
| TaskManager.BeginAt | src/TaskManager.cpp:64-70 | the corrected beginAt pins a task of the list at `now` with matching text; every other task, and every other index, is untouched |
| TaskManager.BeginAtGuard | src/TaskManager.cpp:64-70 | the written and corrected versions agree everywhere but at index `size()` |
| TaskManager.BeginAtIdempotent | src/TaskManager.cpp:64-70 | starting the timer twice at the same minute is starting it once |
| TimerCascade.WrapDay | src/UndoManager.cpp:616-631 | folding the end time keeps it in the same minute of the day, within 0..1439 for a non-negative end |
| TimerCascade.LenientAgrees | src/UndoManager.cpp:632-650 | on a text the strict parser accepts, the lenient parser agrees |
| TimerCascade.ClockTextReadsBack | src/UndoManager.cpp:632-667 | the printed clock text of m reads back as m mod 1440 |
| TimerCascade.ClockTextParses | src/UndoManager.cpp:651-667 | what the command prints, `Act::setStartTime` accepts, as the same minute of the day |
| TimerCascade.NextAvailableWraps | src/UndoManager.cpp:616-631 | `calculateNextAvailableTime` is the clock text of start + duration |
| TimerCascade.StartMinutes | src/UndoManager.cpp:584-590 | the loop reads each start text leniently |
| TimerCascade.Walk | src/UndoManager.cpp:575-613 | the walk records only later activities that start before the cursor, each once, in increasing order |
| TimerCascade.Records | src/UndoManager.cpp:595-605 | each record holds the activity's old start and fixed flag, the printed cursor, and pinned |
| TimerCascade.WellFormedHasStart | src/UndoManager.cpp:585-588 | an activity with a readable start text has a non-empty one, so the `empty()` test never fires |
| TimerCascade.ConstructorsHaveStart | src/Act.cpp:6-28 | both constructors give a readable, non-empty start text |
| TimerCascade.WalkVisitsAll | src/UndoManager.cpp:575-613 | with no empty start text, the walk never stops early |
| TimerCascade.CascadeVisitsAll | src/UndoManager.cpp:560-615 | on well-formed activities the cascade walks to the end of the list |
| TimerCascade.ConflictingSuccessorPinned | src/UndoManager.cpp:590-605 | a successor starting before the timed activity ends is recorded next and pinned at that end, whether it was fixed or flexible |
| TimerCascade.CascadeFirst | src/UndoManager.cpp:560-574 | the first record pins the activity itself at `now`; an index out of range records nothing |
| TimerCascade.CascadeShape | src/UndoManager.cpp:560-615 | records name later activities only, each once and in order, with their old state kept for undo |
| TimerCascade.CascadeTexts | src/UndoManager.cpp:595-611 | every new start matches the clock pattern, and every moved activity moves strictly later |
| TimerCascade.SetState | src/UndoManager.cpp:493-513 | putting an activity into a recorded state throws exactly on a bad text; otherwise only start and fixed change, to the recorded ones |
| TimerCascade.ApplyStates | src/UndoManager.cpp:486-551 | the execute and undo loops keep the list's length, whether they complete or throw |
| TimerCascade.ApplyStatesAt | src/UndoManager.cpp:486-551 | each activity ends up in the state its record gives, or unchanged without a record |
| TimerCascade.ApplyCompletes | src/UndoManager.cpp:486-551 | with every target text acceptable, the loop runs through |
| TimerCascade.SetStateUndo | src/UndoManager.cpp:520-551 | putting an activity into a state and back into its own gives it back |
| TimerCascade.RestoreUndoesApply | src/UndoManager.cpp:486-551 | the undo loop restores exactly what the execute loop changed |
| TimerCascade.CascadeExecutes | src/UndoManager.cpp:486-519 | executing a timer start never throws |
| TimerCascade.CascadeUndo | src/UndoManager.cpp:486-551 | undoing a timer start restores the list the records came from |
| TimerCascade.CascadeDescribes | src/UndoManager.cpp:560-615 | the cascade's records describe the list they were taken from |
| Commands.Entries | src/UndoManager.cpp:43-457 | the user-set fields of each activity, position by position |
| Commands.RecomputeKeepsEntries | src/TaskManager.cpp:72-152 | the recalculation after each edit changes no entry |
| Commands.ExecuteMembers | src/UndoManager.cpp:677-683 | a group executes every member when it completes |
| Commands.Unpinned | src/UndoManager.cpp:364-381 | `if (isFixed()) setFixed()` leaves the activity unpinned and otherwise unchanged |
| Commands.Pinned | src/UndoManager.cpp:383-401 | `if (!isFixed()) setFixed()` leaves it pinned and otherwise unchanged |
| Commands.AddRoundTrip | src/UndoManager.cpp:43-57 | add throws, changing nothing, exactly on a bad start; otherwise it appends the activity and its undo gives the list back |
| Commands.DeleteRoundTrip | src/UndoManager.cpp:69-109 | delete removes position i; undo puts back an activity with the same entry, for a pinned activity whose minute is its text's reading |
| Commands.EditNameRoundTrip | src/UndoManager.cpp:120-144 | rename writes the new name and undo the recorded old one; the entries come back when that was the name in the list |
| Commands.EditLengthRoundTrip | src/UndoManager.cpp:233-257 | the same for the length |
| Commands.ToggleRigidRoundTrip | src/UndoManager.cpp:323-347 | the toggle flips rigid and undo sets the recorded old flag |
| Commands.ToggleFixedRoundTrip | src/UndoManager.cpp:276-304 | the toggle flips fixed; undo re-pins at the start the recalculation gave; exact only for a flexible activity |
| Commands.EditStartExecute | src/UndoManager.cpp:164-188 | a start edit pins at the new text, or unpins for "", and throws, changing nothing, on a bad text |
| Commands.EditStartRevert | src/UndoManager.cpp:190-216 | undo puts back the recorded old text and flag, and throws, changing nothing, on a bad old text |
| Commands.EditStartRoundTrip | src/UndoManager.cpp:164-216 | with the activity's own old text and flag recorded, undo after a start edit gives back every entry |
| Commands.NotRestorablePastMidnight | src/Act.cpp:57-60 | an activity started past midnight and then pinned cannot be rebuilt from its text |
| Commands.MoveUpExecute | src/UndoManager.cpp:364-381 | move up unpins the activity and swaps it with its predecessor |
| Commands.MoveUpRevert | src/UndoManager.cpp:383-402 | undo swaps back and re-pins where the activity now stands, if it was pinned |
| Commands.MoveUpRoundTrip | src/UndoManager.cpp:364-402 | after move up and undo, every other entry is back; the moved activity comes back re-pinned at the start it had one place up |
| Commands.MoveDownExecute | src/UndoManager.cpp:419-436 | move down unpins the activity and swaps it with its successor |
| Commands.MoveDownRevert | src/UndoManager.cpp:438-457 | undo swaps back and re-pins if it was pinned |
| Commands.MoveDownRoundTrip | src/UndoManager.cpp:419-457 | the mirror image of the move-up round trip |
| Commands.StartTimerRoundTrip | src/UndoManager.cpp:463-551 | the timer never throws and pins the activity at `now`; its undo gives back every entry |
| Commands.TimerRoundTrip | src/UndoManager.cpp:486-551 | the same for any records that describe the list and apply |
| Commands.GroupExecutesInOrder | src/UndoManager.cpp:677-683 | a group runs its members in order, each on what the previous left |
| Commands.GroupRevertsInReverse | src/UndoManager.cpp:684-690 | a group is undone last member first |
| Commands.GroupRoundTrip | src/UndoManager.cpp:677-690 | when each member's undo restores its list exactly, the group's undo restores the group's list |
| Commands.RevertOnEntries | src/UndoManager.cpp:52-257 | the undo of add, delete, rename, length, rigid and start edits reads only entries: equal entries give equal outcomes |
| Commands.ExecuteKeepsFaithful | src/UndoManager.cpp:43-257 | executing keeps a command of those kinds |
| Commands.GroupRestoresEntries | src/UndoManager.cpp:677-690 | a group of such commands, each restoring entries, is undone as one unit back to the entries it started from |
| Commands.UpdateTaskUndone | src/TaskManager.cpp:167-189 | updateTask with the old values undoes an updateTask, whether it ran through or threw part-way |
| Commands.GroupDescription | src/UndoManager.cpp:691-699 | one member shows its own description; more show the group's with the count; none shows the group's |
| Commands.TimerDescriptionCount | src/UndoManager.cpp:472-483 | the timer description mentions the later activities only when some were moved, with their number |
| Commands.GroupFootprint | src/UndoManager.cpp:700-707 | a group's footprint is its size and description plus every member's, so at least each member's |
| Commands.MembersFootprintPush | src/UndoManager.cpp:700-707 | a stack with one more command holds that command's footprint more |
| UndoManager.NewManager | src/UndoManager.cpp:713-714 | a new manager has empty stacks and no group |
| UndoManager.NewManagerValid | src/UndoManager.cpp:713-714 | it keeps the bookkeeping, and nothing can be undone or redone |
| UndoManager.BytesMembers | src/UndoManager.cpp:700-707 | a stack holds what a group of the same commands counts for its members |
| UndoManager.EvictUndoSpec | src/UndoManager.cpp:808-822 | the first loop takes each dropped footprint off both counters and stops at the first state within both limits |
| UndoManager.EvictRedoSpec | src/UndoManager.cpp:823-830 | the second loop drops redo commands only while the total is over 1 MiB |
| UndoManager.Enforce | src/UndoManager.h:284-285 | after enforcing, the undo stack holds at most 100 commands |
| UndoManager.EnforceDropsOldest | src/UndoManager.cpp:808-830 | only the oldest commands go, and redo commands only once the undo stack is empty |
| UndoManager.EnforceAccounts | src/UndoManager.cpp:808-830 | the count stays equal to the undo stack's footprint, and both stacks fit in 1 MiB unless both are emptied |
| UndoManager.EnforceWithinLimits | src/UndoManager.cpp:808-830 | a manager within both limits loses nothing |
| UndoManager.EnforceMinimal | src/UndoManager.cpp:808-830 | every dropped command was needed: keeping the last one dropped breaks a limit |
| UndoManager.ExecuteCommand | src/UndoManager.cpp:716-739 | a throwing command is not kept; in a group it joins the group; otherwise it is pushed, redo is cleared and limits are enforced |
| UndoManager.PushKeeps | src/UndoManager.cpp:725-738 | pushing keeps the bookkeeping, drops only the oldest, and drops nothing within the limits |
| UndoManager.PushKeepsTop | src/UndoManager.cpp:725-738 | a pushed command stays on top exactly when it alone fits in 1 MiB |
| UndoManager.Undo | src/UndoManager.cpp:748-763 | with nothing to undo nothing happens; otherwise the top is popped and its footprint taken off, then it moves to redo unless its undo throws |
| UndoManager.Redo | src/UndoManager.cpp:765-780 | the mirror image, with the footprint added back and no limit enforced |
| UndoManager.LastUndoDescription | src/UndoManager.cpp:782-788 | with nothing to undo, the description is empty |
| UndoManager.LastRedoDescription | src/UndoManager.cpp:789-795 | with nothing to redo, the description is empty |
| UndoManager.EndGroup | src/UndoManager.cpp:846-864 | outside a group nothing happens; an empty group is dropped; grouping always ends |
| UndoManager.StartGroup | src/UndoManager.cpp:835-845 | a non-empty open group is ended first; then a new empty group opens |
| UndoManager.ExecuteCommandValid | src/UndoManager.cpp:716-739 | execute keeps the bookkeeping: the count equals the undo footprint, at most 100 commands |
| UndoManager.UndoValid | src/UndoManager.cpp:748-763 | undo keeps the bookkeeping |
| UndoManager.RedoValid | src/UndoManager.cpp:765-780 | redo keeps the bookkeeping |
| UndoManager.GroupCallsValid | src/UndoManager.cpp:835-864 | starting and ending a group keep the bookkeeping |
| UndoManager.UndoThenRedo | src/UndoManager.cpp:748-780 | undo then redo restores the manager, but for the top, which is the re-executed command |
| UndoManager.RedoThenUndo | src/UndoManager.cpp:748-780 | redo then undo restores the redo stack and the count |
| UndoManager.UndoDescribesRedo | src/UndoManager.cpp:748-795 | after an undo, the next redo is described as the undone command was |
| UndoManager.GroupCollects | src/UndoManager.cpp:718-724 | while a group is open, commands join it in order and the stacks do not move |
| UndoManager.GroupEnds | src/UndoManager.cpp:846-864 | ending a group of two pushes them as one command on top |
| UndoManager.GroupedPair | src/UndoManager.cpp:835-864 | a group of two, started, ended and undone, gives back the list it started on |
| UndoManager.TaskUndoAsWritten | src/TaskManager.cpp:834-841 | the written wrapper is undefined exactly when undo leaves an empty list |
| UndoManager.TaskRedoAsWritten | src/TaskManager.cpp:843-850 | the same for redo |
| UndoManager.TaskUndo | src/TaskManager.cpp:834-841 | the corrected undo wrapper keeps the manager step and changes no entry |
| UndoManager.TaskRedo | src/TaskManager.cpp:843-850 | the corrected redo wrapper keeps the manager step and changes no entry |
| UndoManager.TaskWrappersAgree | src/TaskManager.cpp:834-850 | the corrected wrappers equal the written ones wherever those are defined |
| UndoManager.UndoFirstAddAsWritten | src/TaskManager.cpp:834-841 | undoing the first add on an empty day reaches the undefined case; the corrected wrapper gives the empty list |
| Config.ReadLine | src/Config.cpp:48-75 | a line is skipped exactly when empty or starting with '#' or ';'; it is invalid exactly when it has no colon; a read key is non-empty |
| Config.LoadLookup | src/Config.cpp:38-80 | after loading, a key has the value of the last line naming it, or the value it had |
| Config.LoadSaveable | src/Config.cpp:38-80 | loading never loses a key |
| Config.GetString | src/Config.cpp:117-120 | a missing key gives the default |
| Config.GetInt | src/Config.cpp:122-132 | a missing key, or a value `std::stoi` rejects, gives the default |
| Config.GetBool | src/Config.cpp:134-142 | a present key is true exactly when its lowered value is true, yes, 1 or on; a missing key gives the default |
| Config.Set | src/Config.cpp:156-158 | the key is set to the value; every other key keeps its own |
| Config.SetInt | src/Config.cpp:160-162 | the key is set to a non-empty text |
| Config.SetBool | src/Config.cpp:164-166 | the key is set to "true" or "false" |
| Config.SetLastOpenedFile | src/Config.cpp:208-210 | the last opened file reads back as given |
| Config.SetThenGetString | src/Config.cpp:117-158 | a string set is read back, whatever the default |
| Config.SetThenGetInt | src/Config.cpp:122-162 | an int set is read back |
| Config.SetThenGetBool | src/Config.cpp:134-166 | a bool set is read back |
| Config.GetBoolIgnoresCase | src/Config.cpp:134-142 | "TRUE", "Yes" and "ON" read as true; "enabled" reads as false |
| Config.ColonInValue | src/Config.cpp:57-65 | only the first colon splits, so a start time keeps its minutes |
| Config.CommentLinesIgnored | src/Config.cpp:52-54 | empty and comment lines change nothing |
| Config.ColonlessLineIgnored | src/Config.cpp:57-61 | a line without a colon changes nothing |
| Config.KeylessLineIgnored | src/Config.cpp:68-75 | a line whose key is only blanks changes nothing |
| Config.SaveLineReadsBack | src/Config.cpp:82-115 | a key line written by saveToFile reads back as the same setting |
| Config.SaveThenLoad | src/Config.cpp:38-115 | loading the lines saveToFile writes gives every saved key its value, when no value has blanks or tabs at its ends; every other key keeps what it had |
| ConfigFile.FileLines | src/Config.cpp:48 | no line `std::getline` reads holds a line break, and a text gives no lines exactly when it is empty |
| ConfigFile.FileLinesOfJoin | src/Config.cpp:48-115 | reading back lines written one per line gives the same lines, when none of them holds a line break |
| ConfigFile.JoinFileLines | src/Config.cpp:48-115 | writing out the lines read from a text that ends with a line break gives the text back |
| ConfigFile.SaveThenLoadText | src/Config.cpp:38-115 | loading the file text saveToFile writes gives every saved key its value, when no value holds a line break or has blanks or tabs at its ends |
| ConfigFile.LineBreakInValue | src/Config.cpp:48-96 | a value that holds a line break is read back as two lines, and the second line sets a key of its own |
| ConfigFile.DateFormatSetsDataDir | src/Config.cpp:94-96 | saving "%Y\ndata-dir: /x" as the date format loads back as date format "%Y" and data-dir "/x" |
| Frontend.TrimInput | src/main.cpp:134-139 | trim's result is no longer than its input and starts and ends outside " \t\n\r" |
| Frontend.TrimInputSpec | src/main.cpp:134-139 | trim returns one stretch of the input with only blanks around it; it is empty exactly for an all-blank input; it is idempotent |
| Frontend.ValidNumberValue | src/main.cpp:150-157 | `std::stoi` of a valid number is the value its digits spell, or throws above INT_MAX |
| Frontend.NumberRoundTrip | src/main.cpp:150-157 | `std::to_string(n)` is a valid number exactly when n >= 0, and reads back as n |
| Frontend.ValidTimeParses | src/main.cpp:142-147 | every non-empty accepted time parses, to a minute of the day |
| Frontend.ClockTimesValid | src/main.cpp:142-147 | every clock time is accepted, padded with blanks or with a one-digit hour |
| Frontend.MinutesToTimeString | src/main.cpp:29-36 | on a minute of the day, the text is the one `Act` prints |
| Frontend.ClockTextRoundTrip | src/main.cpp:29-36 | on a minute of the day, the text reads back and passes the time check |
| Frontend.ClockTextPastMidnight | src/main.cpp:29-36 | past the end of the day the hour keeps counting, and the text is rejected |
| Frontend.CurrentIndex | src/main.cpp:42-50 | the first task in list order that runs at `now`, or none exactly when none runs |
| Frontend.CurrentTask | src/main.cpp:39-55 | a task is reported exactly when one runs, with a positive remainder and the right end |
| Frontend.CurrentTaskIsFirst | src/main.cpp:39-55 | the first running task is the one reported, and the minutes left never exceed its length |
| Frontend.NextIndex | src/main.cpp:61-69 | the first task in list order that starts after `now`, or none exactly when none does |
| Frontend.NextTask | src/main.cpp:58-74 | an upcoming task is reported exactly when one starts later, with a positive wait |
| Frontend.NextTaskIsFirst | src/main.cpp:58-74 | the reported task is the first later one in list order |
| Frontend.ReportText | src/main.cpp:39-74 | the printed sentence starts with the task's name |
| Frontend.YesNoDisjoint | src/main.cpp:194-218 | no word reads as both yes and no |
| Frontend.EditCell | src/main.cpp:192-258 | a cell is refused as not editable exactly outside columns 0..4 |
| Frontend.EditFixed | src/main.cpp:194-207 | column 0 accepts exactly yes- and no-words and sets fixed to match |
| Frontend.EditRigid | src/main.cpp:209-218 | column 1 sets rigid the same way |
| Frontend.EditName | src/main.cpp:220-226 | column 2 accepts exactly a non-empty name |
| Frontend.EditStartSpec | src/main.cpp:228-245 | column 3 is refused exactly for a non-empty non-clock text; "" unpins; a clock time pins there |
| Frontend.EditLengthSpec | src/main.cpp:247-253 | column 4 is accepted exactly for digits spelling a positive `int`; more than INT_MAX throws |
| Frontend.ApplyEdit | src/main.cpp:183-277 | a bad index or column is refused unchanged; other refusals leave the list alone |
| Frontend.ApplyEditLands | src/main.cpp:183-277 | an accepted edit lands at i and every other task keeps its own fields; it is refused exactly when a conflict remains |
| Frontend.WarningsMeanConflict | src/main.cpp:261-271 | the warning list is non-empty exactly when the list has a conflict |
| Demo.DemoTasksAdded | src/main_demo.cpp:5-12 | the four `addTask` calls build the sample list |
| Demo.DemoFreeze | src/main_demo.cpp:5-14 | only "A" is frozen, to the 210 minutes up to "B"; the ratio is 210 / 85 |
| Demo.DemoSchedule | src/main_demo.cpp:5-14 | actual lengths 210, 24, 148, 37 and starts 10:00, 13:30, 13:54, 16:22 |

## Left out

- Terminal UI and `main()`: `main()`, `printUsage`, `listAllTasks`, `displayAllTasks`, `getCurrentAttributeValue`, and the ftxui screen are input/output.
- File input/output: TaskManager's `saveToFile`/`loadFromFile` (JSON), the file-selection helpers (fzf, fd, find), the date-based file names, and the data-directory lookups are left out. Config's load and save are modelled on the lines of the file, and `ConfigFile` relates those lines to the file's text. Whether the file opens is not modelled.
- `getDouble`, `set(double)`, `isValidHours`, `hoursToMinutes` and `getDayLengthHours`: floating point.
- `getLastOpenedFile`, `saveSessionState`, `createDefaultConfig` and `getAllSettings`: they read the file system or only expose the map.
- `getTask`, `getTaskRef`, `getTasks`, `taskSize`, `setDayLength`, `clearTasks`, `canUndo`/`canRedo` wrappers and stack-size getters: plain accessors, modelled by reading the sequence.
- The wall clock: `std::time` and `std::localtime` become a parameter `now`, the local hour * 60 + minute.
- `sizeof`: each class's object size is a field of a `Sizes` parameter. The footprint function is a parameter `w` of the manager, tied to the command footprints by `UndoManager.BytesMembers`.
- Null-pointer checks on commands and on the manager pointer: the model has no null.
- Console messages and exception texts: a throw is `Raised` or `Err`, and the warning text of `calcActLen` is a `Conflict` record.
- Activity.SetActLenRatio: the `double` ratio is kept as the exact fraction (dayLength - rigid) / flexible. `static_cast<int>(length * ratio)` is truncated toward zero from that fraction. A `double` can round `length * ratio` to one below an integer the exact fraction reaches, so the model can differ by one minute.
- TaskManager.ShareRatio: the same exact-fraction abstraction.
- TaskManager.CalcActLen: `int` overflow in the totals, in `length * ratio` and in start + actual is not modelled. Integers are unbounded, since a day's minutes are far from the limits. `std::stoi`'s `int` range is modelled.
- TaskManager.CalcActLen: it requires a non-empty list, because on an empty one the freeze loop's `size() - 1` wraps. Every command calls it only after its index check, so on a non-empty list. The wrappers are the exception (see Findings).
- Commands.DeleteRoundTrip: it promises the entries back only when a pinned activity is `Canonical`. `Commands.NotRestorablePastMidnight` shows the case it leaves out.
- Commands.EditStartRoundTrip: it requires the activity to be `Restorable`: its text parses, and a pinned one is `Canonical`. It also requires the new start to parse; a bad one throws, which `Commands.EditStartExecute` states.
- Commands.StartTimerRoundTrip: it requires every activity to be `Restorable`, as above.
- TimerCascade.CascadeUndo: it requires every activity to be `Canonical`, as above.
- Commands.GroupRestoresEntries: covers groups of add, delete, rename, length, rigid and start edits. The toggle-fixed, move and timer commands re-pin at recomputed starts, so their undo depends on more than the entries.
- Commands.GroupRoundTrip: requires each member to restore its list exactly; GroupRestoresEntries is the entry-level version.
- Config.SaveThenLoad: it is stated over the sequence of lines saveToFile writes. There, a value with a line break is one element, but in the file it is two lines. `ConfigFile.SaveThenLoadText` is the round trip over the file's text.
- ConfigFile.SaveThenLoadText: it requires that no saved value holds a line break. `Config::set` accepts any text, and saveToFile writes such a value across two lines. `ConfigFile.LineBreakInValue` and `ConfigFile.DateFormatSetsDataDir` show the second line being read as a setting of its own.
- Frontend.ApplyEdit: the regular expression of `isValidTimeFormat` is modelled as the character predicate `ClockFormat`, not by a regex engine.

## Findings

| source | as written | input that shows it | evidently intended | confidence | as-written member | corrected member |
|---|---|---|---|---|---|---|
| src/TaskManager.cpp:834-850 | `undo()`/`redo()` always call `calcActLen`, whose loop bound `tasks.size() - 1` wraps on an empty list and indexes out of range | add one flexible activity to an empty day, then undo | skip the recalculation on an empty list | high, not executed | UndoManager.UndoFirstAddAsWritten | UndoManager.TaskUndo |
| src/TaskManager.cpp:64-70 | `beginAt` refuses `index > size()`, so `index == size()` writes past the end | `beginAt(tasks.size())` | refuse `index >= size()` | high, not executed | TaskManager.BeginAtAsWritten | TaskManager.BeginAt |
| src/TaskManager.cpp:123-124 | `toggleFrozen()` flips the flag, so every second recalculation unfreezes a task before a fixed one | a flexible task followed by a fixed one, then any two edits | mark the task frozen | medium, not executed | TaskManager.CalcActLenNotIdempotent | TaskManager.CalcActLenIntendedStable |
| src/TaskManager.cpp:226-232 | a non-adjacent downward move lands at `to - 1`, while an adjacent move lands at `to` | `moveTask(0, 2)` on three activities puts the first at position 1 | land at `to` in both cases | low, not executed | TaskManager.MoveThereAndBackReverses | TaskManager.MoveIntendedThereAndBack |
