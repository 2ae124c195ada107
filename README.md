# A Dafny model of the OS-course exercises

This project models the sequential core of a set of operating-systems
course exercises written in C. Most of each program is process, thread,
signal or IPC plumbing. The logic inside is stated and proved here. There
is one module per program, plus `Common`. `Common` holds bytes, `Option`,
the C-locale `isspace` and the reading of a NUL-terminated string out of a
character buffer.

- `Bogatyr` (bogatyr.dfy) is the "choir" of `Bogatyr/lesson13_bogatyr.c`.
  - n processes share one System V message queue. The queue is modelled
    as a map from message type to a FIFO sequence.
  - The conductor gathers the registrations and sorts the pids with
    `cmp_pid`. The i-th distinct byte of the song goes to the i-th pid.
  - For each byte, the conductor hands the turn to the byte's owner and
    waits for an ACK with the same position. It then sends DONE and waits
    for n - 1 BYEs.
  - The class `Choir` holds the queue, standard output and each worker's
    phase. The conductor's methods are proved against it.
  - The headline result is `Choir.Conduct`. The bytes written are the song,
    followed by one `'\n'` exactly when the song is empty or does not end
    in one. With more distinct bytes than processes, the result is exit 3,
    nothing is written, and each worker is sent DONE. The queue is removed
    without waiting for answers, so the workers that had already read
    their DONE exit with 5 and the others, whose receive then fails, exit
    with 1.
- `Shell` and `ShellArgv` (shell.dfy, shell_argv.dfy) model the line
  processing of `Lesson_4/lesson4_myshell.c`. Each works in place on a
  character array, as the C code does.
  - `trim`, the quote-aware `split_segments`, `expand_tilde` and `is_builtin`.
  - `parse_argv`, which compacts each word through the write position `w`, and its growing argument table.
  - `extract_redirs`, which compacts the table.
  - The preprocessing of one input line.
- `Ls` (ls.dfy) models the helpers of `Lesson_10/lesson10_myls.c`: the
  permission string, colours, digit counts, the entry filter and
  compaction, the column layout and the option parser.
- `Shower` (shower.dfy) models the unisex shower of
  `Lesson_6/lesson6_shower+bonus.c`: admission, the streak fairness rule,
  the wake-ups and leaving. The recheck after taking a place is modelled
  as written (`State.Recheck`, then `State.CountWait`), which loses a
  wake-up (see Findings), and in the corrected form `State.Enter`.
- `Pizza` (pizza.dfy) models the circular queue and the poison-pill
  protocol of `Lesson_7/lesson7_pizza.c`.
- `Kitchen` (kitchen.dfy) models the Hoare-style monitor of
  `Lesson_8/lesson8_pizza_hoare.c`.
- `PCat` (pcat.dfy) models the one-slot monitor, the first-error latch and
  `write_all` of `Lesson_8/lesson8_pcat2.c`.
- `Assembly` (assembly.dfy) models the nut/screw counters of
  `Lesson_9/lesson9_task3_test.c`.
- `SignalCat` (signalcat.dfy) models the LSB-first bit transfer over
  real-time signals of `Lesson_11/lesson11_signal_cat.c` and its
  reassembly, including an early fin.
- `WordCount` (wordcount.dfy) models the chunked byte, word and line
  counting of `Lesson_4/lesson4_counter.c`.
- `Cp` (cp.dfy) models `join_path`, the overwrite question, the same-file
  guard, the copy loop and the operand dispatch of `Lesson_3/lesson3_my_cp.c`.
- `Echo` (echo.dfy) models `Lesson_1/lesson1_my_echo.c`.

The system calls, threads, signals and IPC are not executed by the model.
What the system answers (read sizes, `write` results, `stat` data, the
elected pid, `$HOME`, the terminal width) is a parameter. Each critical
section under a mutex or semaphore is one atomic method (one exception,
`Shower.State.Enter`, is the corrected form of a finding below). A blocking wait
becomes the precondition that the wait is over. The threaded programs are
each proved for one sequential schedule.

## Model

| member | source | states |
|---|---|---|
| Echo.Echo | Lesson_1/lesson1_my_echo.c:4-20 | the bytes `main` prints are `Output(argv)`: the words after the program name (and after `-n` when it is argv[1]) joined by single spaces, then a newline unless `-n` was given |
| Echo.JoinSnoc | Lesson_1/lesson1_my_echo.c:11-16 | one more word adds exactly one separating space and nothing else |
| Echo.JoinSpaces | Lesson_1/lesson1_my_echo.c:11-16 | words without spaces are joined with exactly `n - 1` spaces: no leading or trailing space |
| Echo.NewlineRule | Lesson_1/lesson1_my_echo.c:7-19 | the trailing newline is written exactly when argv[1] is not `-n`; with `-n` the output is argv[2..] joined |
| Echo.Examples | Lesson_1/lesson1_my_echo.c:5-19 | no arguments give `"\n"`, `-n` alone gives `""`, a later `-n` is printed literally |
| WordCount.CountFd | Lesson_4/lesson4_counter.c:17-36 | after all reads the counts passed in have grown by the bytes, words and lines of the concatenation of the chunks, so the way the input is split into reads does not matter (`in_word` carries across chunks) |
| WordCount.CountChunk | Lesson_4/lesson4_counter.c:25-35 | the loop over one buffer moves the word and line counts and `in_word` from the input read before it to the input including it, whatever the previous chunk ended with |
| WordCount.StepCounts | Lesson_4/lesson4_counter.c:26-34 | one byte adds a line exactly when it is `'\n'` and a word exactly when it is not a space and the byte before it is a space or absent |
| WordCount.WordsAppend | Lesson_4/lesson4_counter.c:21-36 | the words of `s + t` are those of `s` and of `t`, less one when a word runs across the seam |
| WordCount.WordsAtMostBytes | Lesson_4/lesson4_counter.c:28-34 | never more words than bytes |
| WordCount.BlankHasNoWords | Lesson_4/lesson4_counter.c:28-34 | input made only of C-locale whitespace has no words |
| WordCount.LinesAreNewlines | Lesson_4/lesson4_counter.c:27 | the line count is the number of `'\n'` bytes |
| Cp.Truncate | Lesson_3/lesson3_my_cp.c:38-40 | what `snprintf` leaves: a prefix of the text, of its full length when it fits in `outsz - 1` characters, of `outsz - 1` characters otherwise |
| Cp.JoinPath | Lesson_3/lesson3_my_cp.c:35-41 | the joined path always fits in the buffer: shorter than `outsz` |
| Cp.JoinPathShape | Lesson_3/lesson3_my_cp.c:35-41 | when it fits, the result is dir without one trailing `'/'`, then one `'/'`, then the name; an empty dir gives `"/" + name` |
| Cp.JoinPathTruncates | Lesson_3/lesson3_my_cp.c:35-41 | when it does not fit, the result is the first `outsz - 1` characters of the path that would have been written |
| Cp.StripLen | Lesson_3/lesson3_my_cp.c:46 | the length of the path without its trailing slashes, and the character before it is no slash |
| Cp.ComponentStart | Lesson_3/lesson3_my_cp.c:46 | the start of the last component: no slash from there on, a slash just before it |
| Cp.Basename | Lesson_3/lesson3_my_cp.c:46 | POSIX `basename` is never empty and is `"/"` or holds no slash |
| Cp.BasenameOfJoin | Lesson_3/lesson3_my_cp.c:143-147 | the base name of `dir/name` followed by any number of slashes is `name`, so each copy keeps its source's file name |
| Cp.ConfirmOverwrite | Lesson_3/lesson3_my_cp.c:25-33 | the answer is yes exactly when the first character read is `'y'` or `'Y'`, and the rest of that line, its newline included, is read away (nothing more when the first character is the newline) |
| Cp.LineEndAt | Lesson_3/lesson3_my_cp.c:28-31 | the end of the first line is the first newline, or the end of the input |
| Cp.CopyData | Lesson_3/lesson3_my_cp.c:88-98 | each chunk read is written in full, the `off` cursor moving past short writes; the destination receives the concatenation of the chunks exactly when no write fails, and otherwise a prefix of it; the result is 0 exactly when no write or read fails |
| Cp.FlattenPrefix | Lesson_3/lesson3_my_cp.c:90-97 | the bytes of the first chunks begin the bytes of all chunks |
| Cp.CopyFile | Lesson_3/lesson3_my_cp.c:49-105 | a failed open and a directory source return -1 before anything is written; the same regular file (equal device and inode) is refused; under -i a "no" skips the file with 0; the destination opens at once or, under -f after an error other than ENOENT, after unlink; the result is 0 exactly when the file was skipped or fully copied and closed, and then the destination holds every byte read |
| Cp.SameFileRefused | Lesson_3/lesson3_my_cp.c:63-69 | a source that is the destination itself is never opened for writing and never asked about |
| Cp.Targets | Lesson_3/lesson3_my_cp.c:143-147 | one copy per source, in order, each to the directory joined with the source's base name |
| Cp.Dispatch | Lesson_3/lesson3_my_cp.c:125-151 | fewer than two operands exit 1 with no copy; two operands and a non-directory destination make the single copy, exit 0 exactly when it succeeds; more operands and a non-directory destination exit 1 with no copy; a directory destination copies the sources in order as CopyAll does |
| Cp.CopyAll | Lesson_3/lesson3_my_cp.c:143-151 | the copies are made in order and stop at the first failure; the exit status is 0 exactly when every copy was made and succeeded, 1 only after a failing copy |
| Ls.TypeChar | Lesson_10/lesson10_myls.c:30-32 | the type letter is one of `d l c b p s -` |
| Ls.TypeCharDetermines | Lesson_10/lesson10_myls.c:30-32 | a type letter other than `-` names exactly one file type |
| Ls.Triple | Lesson_10/lesson10_myls.c:33-44 | one permission triple has three places |
| Ls.PermString | Lesson_10/lesson10_myls.c:33-44 | places 1 to 9 of the mode string, nine characters |
| Ls.ModeToStr | Lesson_10/lesson10_myls.c:28-46 | the buffer holds the type letter, the owner, group and other triples with the setuid, setgid and sticky overlays, and the terminating NUL |
| Ls.ModeStringShape | Lesson_10/lesson10_myls.c:28-46 | the result is a C string of exactly ten characters whose places 1 to 9 are the permission string |
| Ls.NoNulInTriples | Lesson_10/lesson10_myls.c:33-44 | no permission place is a NUL |
| Ls.XPlaceMeaning | Lesson_10/lesson10_myls.c:42-44 | places 3, 6 and 9 show s/s/t when the special bit and the execute bit are both set, S/S/T when only the special bit is, and x or `-` otherwise |
| Ls.UserRoundTrip | Lesson_10/lesson10_myls.c:33-35 | the owner triple gives back the read, write, execute and setuid bits |
| Ls.GroupRoundTrip | Lesson_10/lesson10_myls.c:36-38 | the group triple gives back its three bits and setgid |
| Ls.OtherRoundTrip | Lesson_10/lesson10_myls.c:39-41 | the others triple gives back its three bits and the sticky bit |
| Ls.PermStringRoundTrip | Lesson_10/lesson10_myls.c:33-44 | the permission string loses nothing: all twelve permission and special bits can be read back from it |
| Ls.ColorCode | Lesson_10/lesson10_myls.c:48-59 | there is a colour exactly for directories, links, sockets, fifos, block and character devices and regular files someone may execute (NULL otherwise); every colour is an SGR escape sequence |
| Ls.ColorByType | Lesson_10/lesson10_myls.c:48-59 | the colour depends only on the file type and, for a regular file, on whether any execute bit is set |
| Ls.ColorsDistinguishTypes | Lesson_10/lesson10_myls.c:48-59 | different types get different colours, except block and character devices, which share one |
| Ls.ColorTells | Lesson_10/lesson10_myls.c:50-57 | the length and seventh character of a colour tell which type it belongs to |
| Ls.ColoredName | Lesson_10/lesson10_myls.c:61-74 | the text written is the name, or the colour, the name and the reset sequence |
| Ls.ColoredNameRule | Lesson_10/lesson10_myls.c:61-74 | the name is wrapped exactly when colour is `always`, or `auto` on a terminal, and the type has a colour |
| Ls.ParseColor | Lesson_10/lesson10_myls.c:350-357 | the setting is 0, 1 or 2: 2 exactly for `"always"`, 0 exactly for `"never"`, and 1 for NULL, empty, `"auto"` and anything else |
| Ls.SelVisibleHidesDotFiles | Lesson_10/lesson10_myls.c:89 | without -a exactly the names starting with `'.'` are hidden, `.` and `..` among them |
| Ls.DigitCount | Lesson_10/lesson10_myls.c:91-96 | `d >= 1` and `10^(d-1) <= x < 10^d` (d = 1 for 0 to 9) |
| Ls.DigitCountUnique | Lesson_10/lesson10_myls.c:91-96 | the digit count is the only d with that bound |
| Ls.Digits | Lesson_10/lesson10_myls.c:91-96 | the dividing loop returns the number of decimal digits of x |
| Ls.KeptMembers | Lesson_10/lesson10_myls.c:207-213 | compaction keeps exactly the entries with a name and never grows the list |
| Ls.KeptIdempotent | Lesson_10/lesson10_myls.c:207-213 | compacting a compacted list changes nothing |
| Ls.KeptAppend | Lesson_10/lesson10_myls.c:207-213 | compaction distributes over concatenation, so the order of the kept entries is the original order |
| Ls.KeptSnoc | Lesson_10/lesson10_myls.c:209-210 | one more entry is kept exactly when its name is set |
| Ls.Compact | Lesson_10/lesson10_myls.c:207-213 | in place: the first `w` cells hold the named entries in their original order, `w` is their count, and the cells beyond `n` are untouched |
| Ls.TermWidth | Lesson_10/lesson10_myls.c:253-270 | the width is the reported positive column count, or 80 |
| Ls.Layout | Lesson_10/lesson10_myls.c:272-279 | the cell width is the inode column, the longest name and a gap of two; at least one column, and as many as fit the width; `rows = ceil(n / cols)` |
| Ls.CeilDiv | Lesson_10/lesson10_myls.c:279 | `(n + c - 1) / c` is the least r with `r * c >= n` |
| Ls.CellOf | Lesson_10/lesson10_myls.c:283 | index `r + c * rows` lies in row r and column c |
| Ls.PrintOrder | Lesson_10/lesson10_myls.c:248-307 | off a terminal the names are printed in order, one per line; on a terminal the walk `idx = r + c * rows` prints every index below n exactly once |
| Ls.WalkStep | Lesson_10/lesson10_myls.c:282-293 | printing `idx` extends the walk by one column of the current row |
| Ls.AfterBreak | Lesson_10/lesson10_myls.c:285 | once idx passes the last name, no later column of the row holds one, so the break loses nothing |
| Ls.RowDone | Lesson_10/lesson10_myls.c:281-306 | a row walked across every column holds all names of that row |
| Ls.WalkDone | Lesson_10/lesson10_myls.c:281-306 | after the last row every index below n has been printed, once |
| Ls.Pad | Lesson_10/lesson10_myls.c:300 | the padding fills the cell, or is the gap of two when the cell is already full |
| Ls.Stop | Lesson_10/lesson10_myls.c:369 | the position of the first `"--"`, or the number of arguments |
| Ls.StopAtFirstDashDash | Lesson_10/lesson10_myls.c:369 | everything after the first `"--"` is ignored |
| Ls.OptsFrom | Lesson_10/lesson10_myls.c:372-377 | -n turns on -l as well |
| Ls.ParseArgs | Lesson_10/lesson10_myls.c:364-383 | the result is exit 2 exactly when an argument before the first `"--"` does not start with `'-'` or holds a letter outside `linRad`; otherwise the options are those the letters of those arguments turn on, with the colour from `MYLS_COLOR` |
| Ls.ScanLetters | Lesson_10/lesson10_myls.c:370-382 | one argument is accepted exactly when all its letters are option letters, and they are all set |
| Ls.OptionExamples | Lesson_10/lesson10_myls.c:366-383 | `-n` alone gives a numeric long listing; `-` alone sets nothing; `file` and `-x` are refused |
| Shower.MaxStreak | Lesson_6/lesson6_shower+bonus.c:47-54 | the limit is always positive: a positive MAX_STREAK wins, otherwise 2·N when N > 0, otherwise 4 |
| Shower.DecideWakesWaiters | Lesson_6/lesson6_shower+bonus.c:277-305 | when the room empties only a gender with waiters is woken, and nobody is woken exactly when nobody waits |
| Shower.DecideStreakYields | Lesson_6/lesson6_shower+bonus.c:287-293 | with both waiting, a gender whose streak reached the limit while the other's did not yields to the other |
| Shower.DecideTieAlternates | Lesson_6/lesson6_shower+bonus.c:294-299 | with both waiting and no streak decision, `turn` picks the gender, and the other value of `turn` picks the other gender |
| Shower.State.Exclusive | Lesson_6/lesson6_shower+bonus.c:158-177 | the state invariant keeps men and women from being inside at once |
| Shower.State.Init | Lesson_6/lesson6_shower+bonus.c:91-108 | nobody inside or waiting, `cur` NONE, `turn` MEN, both streaks 0, SEM_CAP = N and both wait queues at 0 |
| Shower.State.IdleAdmits | Lesson_6/lesson6_shower+bonus.c:155-177 | in an idle room with nobody waiting the admission test lets anyone in, whatever the streaks |
| Shower.State.Check | Lesson_6/lesson6_shower+bonus.c:155-177 | the result is the admission test (caller's gender or NONE, nobody of the other gender inside, no fairness block, MAX_STREAK from the environment and N); a refusal adds one to the caller's own wait counter and nothing else changes; the invariant is kept, and so is "an idle room has nobody waiting" |
| Shower.State.Recheck | Lesson_6/lesson6_shower+bonus.c:182-234 | the recheck as written: on success `cur` becomes the caller's gender, its count and streak grow by one and the other streak is cleared; on failure the place is given back and nothing else changes, in particular no wait counter |
| Shower.State.Admit | Lesson_6/lesson6_shower+bonus.c:221-231 | the caller keeps its place and enters: `cur` is its gender, its count and streak grow by one, the other streak is 0 |
| Shower.State.CountWait | Lesson_6/lesson6_shower+bonus.c:212-215 | the separate critical section after a failed recheck: the caller's wait counter grows by one and nothing else changes |
| Shower.LostWakeup | Lesson_6/lesson6_shower+bonus.c:205-217 | with N = 2, a man entering and leaving between a woman's first check, her failed recheck and her CountWait leaves the room idle with her counted as waiting and her wait queue at 0: the idle-room invariant is broken |
| Shower.State.Enter | Lesson_6/lesson6_shower+bonus.c:182-235 | corrected recheck: on success, as Recheck; on failure the place is given back and the caller's wait counter grows in the same critical section; the invariant is kept, and so is "an idle room has nobody waiting" |
| Shower.State.Resume | Lesson_6/lesson6_shower+bonus.c:217 | a woken waiter takes one unit of its wait queue and changes nothing else; both invariants are kept |
| Shower.State.WakeWomenLocked | Lesson_6/lesson6_shower+bonus.c:248-257 | the women's wait queue is raised by exactly the previous `women_wait`, which becomes 0; `cur` WOMEN, `turn` MEN, both streaks 0 |
| Shower.State.WakeMenLocked | Lesson_6/lesson6_shower+bonus.c:259-268 | the mirror image for men |
| Shower.State.Leave | Lesson_6/lesson6_shower+bonus.c:270-310 | the caller's count drops by one and its place is given back; while someone is still inside nothing else changes; when the room empties the decision table (only women waiting, only men waiting, streak rule, then `turn`) wakes one gender, or with nobody waiting `cur` becomes NONE and both streaks 0; both invariants are kept |
| Pizza.PizzaQueue.Init | Lesson_7/lesson7_pizza.c:33-42 | an empty queue of the given capacity: `head = tail = 0`, no items, every slot free |
| Pizza.PizzaQueue.Push | Lesson_7/lesson7_pizza.c:44-56 | the value is stored at `tail`, every other cell is unchanged, `tail` advances modulo the capacity, `head` stays; one slot fewer, one item more, and the value is appended to the FIFO contents |
| Pizza.PizzaQueue.Pop | Lesson_7/lesson7_pizza.c:58-72 | the result is the oldest value, read at `head`; `head` advances modulo the capacity, `tail` stays; one item fewer, one slot more, and the value leaves the front of the contents |
| Pizza.WrapStep | Lesson_7/lesson7_pizza.c:51 | advancing with `% capacity` wraps to 0 exactly at the end of the buffer |
| Pizza.QueueCapacity | Lesson_7/lesson7_pizza.c:199-203 | the capacity is positive and holds every pizza and one poison per courier, with at most one cell spare |
| Pizza.PizzaIdNotPoison | Lesson_7/lesson7_pizza.c:103 | a pizza id is never negative, so never taken for the poison |
| Pizza.PizzaIdsDistinct | Lesson_7/lesson7_pizza.c:103 | ids are unique while no cook makes 1000 pizzas or more |
| Pizza.TotalPizzas | Lesson_7/lesson7_pizza.c:184-190 | `total_pizzas` is the sum of every cook's count |
| Pizza.CookedShape | Lesson_7/lesson7_pizza.c:92-112 | all cooks together push exactly `total_pizzas` values, all of them pizzas |
| Pizza.CourierTake | Lesson_7/lesson7_pizza.c:123-131 | a courier takes the longest prefix of pizzas and stops on the first negative value |
| Pizza.TakeUntilPoison | Lesson_7/lesson7_pizza.c:123-131 | pizzas followed by a poison are all taken, and the courier stops at the poison |
| Pizza.Cook | Lesson_7/lesson7_pizza.c:87-117 | a cook appends its ids `id*1000 + i`, in order, and uses that many slots |
| Pizza.PushPoisons | Lesson_7/lesson7_pizza.c:241-243 | `main` appends exactly K poisons |
| Pizza.Courier | Lesson_7/lesson7_pizza.c:119-151 | a courier returns the pizzas before the first poison, in FIFO order, and removes them and that poison from the queue |
| Pizza.RunSequential | Lesson_7/lesson7_pizza.c:184-248 | with cooks run one after another, then the poisons, then the couriers, the queue never overflows and the pizzas delivered are every cooked pizza in the order pushed (none when K is 0) |
| Kitchen.Kitchen.Init | Lesson_8/lesson8_pizza_hoare.c:20-27 | `free_tables = tables`, `ready_pizzas = 0`, `active_cooks = cooks`, nobody cooking, nothing finished or taken |
| Kitchen.Kitchen.StartCooking | Lesson_8/lesson8_pizza_hoare.c:30-37 | runs only with a free table and takes exactly one; free tables plus cooks at work stay equal to `tables` |
| Kitchen.Kitchen.FinishCooking | Lesson_8/lesson8_pizza_hoare.c:40-49 | one more ready pizza and one more free table, and the invariant is kept |
| Kitchen.Kitchen.CookDone | Lesson_8/lesson8_pizza_hoare.c:52-61 | one cook fewer, nothing else changes |
| Kitchen.Kitchen.TakePizza | Lesson_8/lesson8_pizza_hoare.c:65-83 | result 0 with nothing changed exactly when no pizza is ready and no cook is left; otherwise 1 and one ready pizza fewer, so `ready_pizzas` never goes negative; at 0 every finished pizza has been taken |
| Kitchen.CookThread | Lesson_8/lesson8_pizza_hoare.c:108-137 | a cook finishes its n pizzas, gives back every table it took and leaves |
| Kitchen.CourierThread | Lesson_8/lesson8_pizza_hoare.c:139-163 | after the cooks are done a courier takes every ready pizza and stops on 0; then the pizzas taken equal the pizzas finished |
| Kitchen.RunSequential | Lesson_8/lesson8_pizza_hoare.c:187-239 | with the cooks run one after another and then the couriers, the pizzas delivered equal the sum of the cooks' counts |
| PCat.Monitor.Init | Lesson_8/lesson8_pcat2.c:34-39 | the monitor starts zeroed: slot empty, not done, not stopped, no error |
| PCat.Monitor.Fail | Lesson_8/lesson8_pcat2.c:47-55 | `stop` becomes true; the errno and context are recorded on the first failure only and kept on every later one; the slot is untouched |
| PCat.Monitor.Put | Lesson_8/lesson8_pcat2.c:93-106 | once the slot is empty or `stop` is set: with `stop` nothing is deposited; otherwise the chunk is copied into the slot, `len` is its size and `full` is set |
| PCat.Monitor.Finish | Lesson_8/lesson8_pcat2.c:136-139 | the writer marks itself done and changes nothing else |
| PCat.Monitor.Get | Lesson_8/lesson8_pcat2.c:148-167 | `stop` ends the reader even with a full slot; an empty slot after `done` ends it normally; otherwise it takes the `len` bytes of the slot and empties it, so a chunk deposited before `done` is still delivered |
| PCat.Monitor.Outcome | Lesson_8/lesson8_pcat2.c:195-201 | the status is 1 exactly when `stop` is set, and then the reported errno is the recorded one, or EIO when that is 0 |
| PCat.WriteAll | Lesson_8/lesson8_pcat2.c:65-78 | the result is 0 exactly when every byte reached the descriptor, after retrying each EINTR; otherwise it is -1 right after the first other error; what is written is always a prefix of the data, as long as the calls report |
| PCat.CompletesStep | Lesson_8/lesson8_pcat2.c:68-76 | one answer of `write` leaves the rest of the data to a later call, or ends the loop |
| PCat.RunSequential | Lesson_8/lesson8_pcat2.c:80-206 | with the threads alternating chunk by chunk, standard output receives every chunk in order and the status is 0; after a read error it holds the chunks read before it and the status is 1 |
| Assembly.ParseTarget | Lesson_9/lesson9_task3_test.c:116-120 | the target is always positive: argv[1] when it converts to a positive number, otherwise 5 |
| Assembly.Shared.Init | Lesson_9/lesson9_task3_test.c:126-144 | nuts 0, screw 0, `device_id` 1, completed 0, not stopped, 2 nut slots and 1 screw slot; the invariant holds |
| Assembly.Shared.TakeSlot | Lesson_9/lesson9_task3_test.c:55-56 | a worker takes one slot of its own kind and changes nothing else |
| Assembly.Shared.CheckStop | Lesson_9/lesson9_task3_test.c:59-66 | with `stop` set the slot is given back and the worker does not install; otherwise it goes on with the current `device_id` |
| Assembly.Shared.Install | Lesson_9/lesson9_task3_test.c:72-109 | the part is counted (nuts for a wrench, screw for a screwdriver); with 2 nuts and 1 screw the device completes: `completed` and `device_id` grow by one, nuts and screw return to 0, 2 nut slots and 1 screw slot reopen, and `stop` is set once `completed >= target`; the slot accounting (`nuts` plus the nut slots in use or free is 2, and the same with 1 for the screw) keeps the over-limit branch unreachable, `device_id == completed + 1` and `completed <= target` |
| Assembly.WorkerRound | Lesson_9/lesson9_task3_test.c:52-110 | one turn of `worker_loop`: a worker that sees `stop` ends without installing; otherwise it continues, and at most one device is completed |
| Assembly.RunSequential | Lesson_9/lesson9_task3_test.c:115-160 | with the two wrench workers and the screwdriver worker taking turns, exactly `target` devices (argv[1], or 5) are completed and `device_id` ends one past the last |
| SignalCat.Shown | Lesson_11/lesson11_signal_cat.c:64 | the echoed character is the byte itself when it is printable ASCII (32..126), '.' otherwise, so it is always printable |
| SignalCat.ParentSend | Lesson_11/lesson11_signal_cat.c:38-79 | the parent sends, for each byte, its eight bits least significant first as data signals with payload 0 or 1, then one fin with payload 2 (8·len + 1 signals), and echoes one shown character per byte |
| SignalCat.SetBitMask | Lesson_11/lesson11_signal_cat.c:108-109 | `c \|= (bit << b)` for a bit 0 or 1 is OR-ing the single-bit mask of position b |
| SignalCat.NextAccepted | Lesson_11/lesson11_signal_cat.c:96-100 | the inner wait loop skips every signal not from the parent or neither data nor fin, and returns the first accepted one; it finds none exactly when no accepted signal is left |
| SignalCat.RecvByte | Lesson_11/lesson11_signal_cat.c:90-113 | up to eight accepted signals are taken as bits, each ORed in at its position; it stops before a fin with payload 2 (a fin with another payload counts as a bit `payload & 1`), and the byte is the decoding of the bits taken |
| SignalCat.RecvInto | Lesson_11/lesson11_signal_cat.c:89-115 | the byte built, partial after an early fin, is stored at `buf[i]`; the buffer is the assembly of all the bits received so far |
| SignalCat.WaitFin | Lesson_11/lesson11_signal_cat.c:117-125 | the final wait succeeds exactly when a fin with payload 2 from the parent is among the remaining accepted signals |
| SignalCat.ChildRecv | Lesson_11/lesson11_signal_cat.c:81-127 | over the accepted signals: the child ends early exactly when a fin with payload 2 comes among the first 8·len, and then holds the bits before it with one ACK per bit; it finishes exactly when no early fin comes and one follows the 8·len bits, and then holds the bytes built from them and has sent 8·len + 1 ACKs |
| SignalCat.DecodeByte | Lesson_11/lesson11_signal_cat.c:46-63 | decoding the eight bits the parent sends for a byte gives the byte back |
| SignalCat.RelevantAppend | Lesson_11/lesson11_signal_cat.c:96-100 | the child's filter distributes over concatenation of inboxes |
| SignalCat.StreamIsRelevant | Lesson_11/lesson11_signal_cat.c:38-79 | everything the parent sends passes the child's filter unchanged |
| SignalCat.AssembleBits | Lesson_11/lesson11_signal_cat.c:89-115 | assembling the bits of `msg`'s data signals into a buffer of `|msg|` bytes gives `msg` |
| SignalCat.RoundTrip | Lesson_11/lesson11_signal_cat.c:38-127 | when the accepted part of the child's inbox is exactly what the parent sends (foreign signals in between are skipped), the child finishes, holds the message and has sent 8·len + 1 ACKs |
| SignalCat.PrintedText | Lesson_11/lesson11_signal_cat.c:128-130 | `printf("%s\n", buf)` shows the longest prefix of the buffer without a 0 byte, stopping at the first 0 |
| SignalCat.PrintedWhole | Lesson_11/lesson11_signal_cat.c:128-130 | a message without 0 bytes is printed whole |
| SignalCat.EarlyFinZeroFill | Lesson_11/lesson11_signal_cat.c:84-86 | after an early fin, every byte that no bit reached stays 0, as `memset` left it |
| Shell.SkipSpaces | Lesson_4/lesson4_myshell.c:23 | the offset reached by skipping leading white space (C locale `isspace`) stops at a non-space or the end |
| Shell.SkipSpacesSkips | Lesson_4/lesson4_myshell.c:23 | everything skipped is white space |
| Shell.StripRight | Lesson_4/lesson4_myshell.c:25-26 | the end left after dropping trailing white space is at a non-space or at the start |
| Shell.StripRightDrops | Lesson_4/lesson4_myshell.c:25-26 | everything dropped is white space |
| Shell.TrimShape | Lesson_4/lesson4_myshell.c:21-28 | the line is its leading white space, then the trimmed string (no white space at either end), then its trailing white space |
| Shell.TrimUnique | Lesson_4/lesson4_myshell.c:21-28 | conversely, white space around a string without white space at its ends trims back to that string |
| Shell.TrimIdempotent | Lesson_4/lesson4_myshell.c:21-28 | trimming twice is trimming once |
| Shell.TrimmedFixed | Lesson_4/lesson4_myshell.c:21-28 | a string without white space at its ends is its own trim |
| Shell.Trim | Lesson_4/lesson4_myshell.c:21-28 | on the buffer: the result points past the leading white space at a C string holding the trim, the trailing white space is overwritten with NULs, and nothing else in the buffer changes |
| Shell.SplitSegments | Lesson_4/lesson4_myshell.c:56-80 | on the buffer: the returned offsets point at C strings holding exactly the segments (pieces cut at unquoted delimiters, trimmed, empty ones dropped), in order; the only changes are NULs inside the line |
| Shell.SegmentsTrimmed | Lesson_4/lesson4_myshell.c:71-75 | every kept segment is non-empty and trimmed |
| Shell.JoinPieces | Lesson_4/lesson4_myshell.c:62-77 | the untrimmed pieces joined with the delimiter give the line back: cutting loses only the delimiters |
| Shell.NoDelimOneSegment | Lesson_4/lesson4_myshell.c:62-77 | a line without the delimiter is one segment, its trim, or none when that is empty |
| Shell.SegmentsExample | Lesson_4/lesson4_myshell.c:65-69 | a delimiter inside single quotes does not cut, and the quotes stay in the segment |
| Shell.HomeDir | Lesson_4/lesson4_myshell.c:36-37 | the home directory is `$HOME`, or `/` when it is unset or empty |
| Shell.ExpandTilde | Lesson_4/lesson4_myshell.c:30-45 | only `~` alone or `~/…` is expanded; any other argument is returned unchanged; an expansion is one character shorter than the home directory plus the argument |
| Shell.ExpandTildeInverse | Lesson_4/lesson4_myshell.c:36-44 | an expansion starts with the home directory, and putting `~` back in its place gives the argument |
| Shell.ExpandTildeIdempotent | Lesson_4/lesson4_myshell.c:30-45 | when the home directory does not start with `~`, expanding twice is expanding once |
| Shell.ExpandTildeExamples | Lesson_4/lesson4_myshell.c:30-45 | `~` with `$HOME` unset or empty is `/`, `~/x` is then `//x`, `~/x` with home `/home/u` is `/home/u/x`, while `~user`, the empty string and `a~` stay as they are |
| Shell.StrCmp | Lesson_4/lesson4_myshell.c:49-51 | the sign of `strcmp` is -1, 0 or 1 |
| Shell.StrCmpZero | Lesson_4/lesson4_myshell.c:49-51 | `strcmp` is zero exactly on equal strings |
| Shell.StrCmpAntisymmetric | Lesson_4/lesson4_myshell.c:49-51 | swapping the operands flips the sign |
| Shell.IsBuiltinExactly | Lesson_4/lesson4_myshell.c:47-52 | a command is a built-in exactly when it is present and is `exit`, `cd` or `pwd` |
| ShellArgv.WordEnd | Lesson_4/lesson4_myshell.c:94-100 | the scan of a word always moves forward while characters are left, and stays within the line |
| ShellArgv.WordChars | Lesson_4/lesson4_myshell.c:94-101 | the word copied in place is never longer than the text scanned (strictly shorter when the scan stopped at a separator, leaving room for the NUL), and holds no NUL |
| ShellArgv.CapAfter | Lesson_4/lesson4_myshell.c:83 | the table is 8 entries at first and only grows |
| ShellArgv.CapAfterRoom | Lesson_4/lesson4_myshell.c:102-103 | the table always has room for the words stored in it |
| ShellArgv.CapSmall | Lesson_4/lesson4_myshell.c:83 | up to 8 words the table keeps its first 8 entries |
| ShellArgv.CapStays | Lesson_4/lesson4_myshell.c:102 | a table exactly full after n words is doubled by the next word and does not grow again until 2n words |
| ShellArgv.FullAgain | Lesson_4/lesson4_myshell.c:102-105 | a table exactly full after n words is exactly full again after 2n, so the overrun at `argv[argc]` recurs at 8, 16, 32, … words |
| ShellArgv.EightWordsOverrun | Lesson_4/lesson4_myshell.c:102-105 | the line `a a a a a a a a` has 8 words, and after them the table has exactly 8 entries, so the NULL is written one past its end |
| ShellArgv.Store | Lesson_4/lesson4_myshell.c:102-103 | storing at `argc` doubles a full table first, keeps the entries before `argc` and puts the value at `argc` |
| ShellArgv.ParseArgv | Lesson_4/lesson4_myshell.c:82-107 | on the buffer: the result is a NULL-terminated table whose entries point at C strings holding exactly the words of the segment (white space separates words outside quotes, quote characters are dropped), in order; only the segment's bytes change; the table is the size the doubling from 8 gives, plus one doubling more when the last word filled it, so the NULL is stored inside it |
| ShellArgv.WordUnquoted | Lesson_4/lesson4_myshell.c:94-100 | a word and what follows it keep the same characters as the scan from the word's start |
| ShellArgv.WordsConcat | Lesson_4/lesson4_myshell.c:87-104 | the words put together are the segment without its quote characters and without the white space outside quotes |
| ShellArgv.HasWord | Lesson_4/lesson4_myshell.c:88-103 | a segment starting with a character other than white space has at least one word |
| ShellArgv.BlankNoWords | Lesson_4/lesson4_myshell.c:88-90 | a segment of white space only has no words |
| ShellArgv.PlainWords | Lesson_4/lesson4_myshell.c:87-104 | without quotes every word is non-empty and holds no white space |
| ShellArgv.WordsExamples | Lesson_4/lesson4_myshell.c:94-100 | quotes keep white space inside a word and are dropped themselves: `'a b'` is the one word `a b`, and `''` is one empty word |
| ShellArgv.ExtractRedirs | Lesson_4/lesson4_myshell.c:115-136 | the result is 0 or -1, and -1 exactly when an operator has no word after it; on 0 the input path, the output path and the append flag are those the scan finds, and the table holds the kept words in order, NULL-terminated |
| ShellArgv.ExtractAppend | Lesson_4/lesson4_myshell.c:120-133 | a scan that gets through `a` goes on into the words after `a` from where it stopped |
| ShellArgv.LastRedirectWins | Lesson_4/lesson4_myshell.c:121-131 | one more `<`, `>` or `>>` with its file at the end replaces the earlier input or output path, `>>` setting append and `>` clearing it, and changes nothing else |
| ShellArgv.MissingOperand | Lesson_4/lesson4_myshell.c:122 | an operator as the last word is a syntax error |
| ShellArgv.WordKept | Lesson_4/lesson4_myshell.c:132 | a word that is not an operator is kept after the words kept before it |
| ShellArgv.NoOpsIdentity | Lesson_4/lesson4_myshell.c:115-136 | without operators no path is set and all the words are kept |
| ShellArgv.ExtractFacts | Lesson_4/lesson4_myshell.c:120-133 | from any point of the scan, the kept words hold no operator, and no more words are kept than were read |
| ShellArgv.ExtractKept | Lesson_4/lesson4_myshell.c:115-136 | the kept words hold no operator and are no more than the words given, and append is set only when a `>>` was among them |
| ShellArgv.ExtractExamples | Lesson_4/lesson4_myshell.c:115-136 | `cat < in >> out` reads `in`, appends to `out` and keeps `cat`; `> out` keeps no word; `ls >` is a syntax error |
| ShellArgv.Chomp | Lesson_4/lesson4_myshell.c:333 | one `'\n'` at the end of the line is dropped, and a line without one is left alone |
| ShellArgv.ReadCommand | Lesson_4/lesson4_myshell.c:331-348 | one pass of the input loop gives one NULL-terminated argument table per `\|`-segment of the chomped, trimmed line, each pointing at that segment's words |
| ShellArgv.BlankPipeline | Lesson_4/lesson4_myshell.c:335-336 | a blank line gives no command |
| ShellArgv.PipelineWords | Lesson_4/lesson4_myshell.c:344-347 | every command of a line has a first word, so the empty-command check after `parse_argv` never fires |
| Bogatyr.MtTo | Bogatyr/lesson13_bogatyr.c:18-21 | a process's private mailbox type (pid + 1000) never collides with LOCK, REG or ACK for a positive pid |
| Bogatyr.MtToInjective | Bogatyr/lesson13_bogatyr.c:18-21 | different processes have different mailboxes |
| Bogatyr.CmpPid | Bogatyr/lesson13_bogatyr.c:63-67 | `cmp_pid` is -1, 0 or 1 exactly when the first pid is below, equal to or above the second (no overflow, unlike `pa - pb`) |
| Bogatyr.CmpPidOrder | Bogatyr/lesson13_bogatyr.c:63-67 | `cmp_pid` is antisymmetric and transitive, a total order `qsort` can use |
| Bogatyr.SortPids | Bogatyr/lesson13_bogatyr.c:161 | the sorted pids are a permutation of the registered ones |
| Bogatyr.SortPidsSorted | Bogatyr/lesson13_bogatyr.c:161 | the sorted pids are ascending by `cmp_pid` and a permutation of the registered ones |
| Bogatyr.Qsort | Bogatyr/lesson13_bogatyr.c:161 | the array ends up holding its old contents sorted |
| Bogatyr.DistinctPerm | Bogatyr/lesson13_bogatyr.c:161 | a permutation of distinct pids has no repetition either |
| Bogatyr.CollectUnique | Bogatyr/lesson13_bogatyr.c:69-81 | the buffer receives the distinct bytes of the song in first-occurrence order; the count is their number, or the capacity when there are more (the early return) |
| Bogatyr.UniqueStep | Bogatyr/lesson13_bogatyr.c:72-78 | one more byte adds itself to the distinct bytes exactly when it was not seen before |
| Bogatyr.UniquePrefix | Bogatyr/lesson13_bogatyr.c:72-79 | the distinct bytes of a prefix are a prefix of the distinct bytes of the whole |
| Bogatyr.UniqueDistinct | Bogatyr/lesson13_bogatyr.c:69-81 | each byte is collected at most once |
| Bogatyr.UniqueMembers | Bogatyr/lesson13_bogatyr.c:69-81 | the collected bytes are exactly the bytes of the song |
| Bogatyr.UniqueOrder | Bogatyr/lesson13_bogatyr.c:69-81 | the collected bytes come in the order of their first occurrence in the song |
| Bogatyr.UniqueAtMost256 | Bogatyr/lesson13_bogatyr.c:164-165 | there are never more than 256 distinct bytes, so the overflow return at line 77 cannot happen |
| Bogatyr.React | Bogatyr/lesson13_bogatyr.c:268-299 | a worker answers each message with at most one reply, always on MT_ACK |
| Bogatyr.TurnAnswer | Bogatyr/lesson13_bogatyr.c:279-292 | on TURN a singing worker writes the byte exactly when it is its own non-zero symbol, keeps singing, and answers with an ACK carrying the TURN's position |
| Bogatyr.DoneAnswer | Bogatyr/lesson13_bogatyr.c:270-298 | on DONE a singing worker sends one BYE and finishes; a worker still waiting for ASSIGN exits with 5; neither writes anything |
| Bogatyr.AssignAnswer | Bogatyr/lesson13_bogatyr.c:269-272 | the ASSIGN sets the worker's symbol and nothing else happens |
| Bogatyr.WritesOwnSymbol | Bogatyr/lesson13_bogatyr.c:279-283 | a worker writes nothing but its own non-zero symbol |
| Bogatyr.Drain | Bogatyr/lesson13_bogatyr.c:275-299 | the worker loop over the messages of its mailbox sends only to MT_ACK, consumes messages, and stops early only when it has ended |
| Bogatyr.DrainOne | Bogatyr/lesson13_bogatyr.c:275-299 | a worker given one message reacts to it once and leaves nothing |
| Bogatyr.Choir.constructor | Bogatyr/lesson13_bogatyr.c:109-141 | the queue once every process has registered and the conductor has taken the LOCK: one REG per process in arrival order, empty mailboxes, every other process waiting for its ASSIGN, nothing written |
| Bogatyr.Choir.Send | Bogatyr/lesson13_bogatyr.c:46-52 | a message joins the end of its type's queue and nothing else changes |
| Bogatyr.Choir.Recv | Bogatyr/lesson13_bogatyr.c:54-61 | the oldest message of the requested type is taken off the queue and nothing else changes |
| Bogatyr.Choir.WorkerStep | Bogatyr/lesson13_bogatyr.c:268-299 | one round of a worker: the oldest message of its mailbox is taken, its phase, the output and MT_ACK change as the worker's reaction says |
| Bogatyr.Choir.RunWorker | Bogatyr/lesson13_bogatyr.c:268-299 | a worker runs until it would block or has ended; the new phase, output and queue are those of the worker loop over its mailbox |
| Bogatyr.Choir.Deliver | Bogatyr/lesson13_bogatyr.c:46-52 | a message sent to a worker's empty mailbox is handled by that worker at once |
| Bogatyr.Choir.Gather | Bogatyr/lesson13_bogatyr.c:150-158 | the conductor takes the n REG messages and stores the pids in arrival order; the bad-REG exit 2 cannot happen |
| Bogatyr.Choir.Abort | Bogatyr/lesson13_bogatyr.c:167-178 | with too many symbols DONE goes to every pid, the conductor's own mailbox included, and the queue is removed without waiting; a worker that read its DONE before the removal (the set `caught`) exits with 5, every other one finds the queue gone at its ASSIGN receive and exits with 1 through `die` (lines 41-44 and 270); nothing is written, and the DONEs of the conductor and of the uncaught workers are left unread |
| Bogatyr.DoneLeft | Bogatyr/lesson13_bogatyr.c:170-174 | every message the abort leaves in a mailbox is a single DONE addressed to it |
| Bogatyr.DoneLeftKeys | Bogatyr/lesson13_bogatyr.c:170-174 | a DONE is left in the mailbox of `p` exactly when `p` is one of the pids and is the conductor or was not caught |
| Bogatyr.OwnerTable | Bogatyr/lesson13_bogatyr.c:181-186 | after the fill, the i-th distinct symbol belongs to the i-th sorted pid and every other byte to nobody (-1) |
| Bogatyr.DistinctOwners | Bogatyr/lesson13_bogatyr.c:181-186 | different symbols have different owners |
| Bogatyr.BuildOwner | Bogatyr/lesson13_bogatyr.c:181-186 | the owner array is the table OwnerTable describes |
| Bogatyr.FindAssigned | Bogatyr/lesson13_bogatyr.c:190-194 | the search finds the first distinct symbol owned by the pid, or 0 |
| Bogatyr.AssignedSymbol | Bogatyr/lesson13_bogatyr.c:188-206 | the ASSIGN for the i-th sorted pid carries the i-th distinct symbol, or 0 (sing nothing) when there are fewer symbols than pids |
| Bogatyr.Choir.SendAssigns | Bogatyr/lesson13_bogatyr.c:188-206 | every worker takes its ASSIGN and sings the symbol of its place; the conductor's own ASSIGN stays unread in its mailbox and it keeps its symbol as `my_ch` |
| Bogatyr.TurnFacts | Bogatyr/lesson13_bogatyr.c:209-218 | every byte of the song has an owner among the pids (so the `-1` skip never fires); when it is the conductor its own symbol is that byte, otherwise the owner is a worker singing that very byte |
| Bogatyr.Choir.Sing | Bogatyr/lesson13_bogatyr.c:208-235 | the whole song is written, byte by byte in order, each by its owner; every TURN's ACK comes back with its position (the exit 4 cannot happen), and the queue and the workers are as before |
| Bogatyr.SongLine | Bogatyr/lesson13_bogatyr.c:237-241 | the output after the song always ends in `'\n'`: one is added exactly when the song is empty or does not end in one |
| Bogatyr.Byes | Bogatyr/lesson13_bogatyr.c:245-249 | every message the workers answer DONE with is a BYE on MT_ACK |
| Bogatyr.ByesCount | Bogatyr/lesson13_bogatyr.c:251 | with the conductor once among the distinct pids, n - 1 BYEs come |
| Bogatyr.Choir.SendDone | Bogatyr/lesson13_bogatyr.c:244-249 | DONE goes to every pid but the conductor's; every worker finishes, and MT_ACK holds one BYE per worker, in pid order |
| Bogatyr.AllByes | Bogatyr/lesson13_bogatyr.c:251-256 | when every message is a BYE, waiting for all of them takes them all |
| Bogatyr.Choir.AwaitByes | Bogatyr/lesson13_bogatyr.c:251-256 | messages are taken from MT_ACK until n - 1 BYEs have come; only BYEs count |
| Bogatyr.Choir.Prepare | Bogatyr/lesson13_bogatyr.c:149-161 | the pids gathered and sorted: ascending, distinct, positive, the conductor among them, each with an empty mailbox, the workers unchanged |
| Bogatyr.Choir.Proceed | Bogatyr/lesson13_bogatyr.c:163-263 | the result is 3 exactly when the song has more distinct bytes than there are processes, then nothing is written and every worker exits with 5 if it read its DONE before the queue was removed and with 1 otherwise; otherwise 0, the song and its newline are written, every worker has ended and the queue is removed |
| Bogatyr.Choir.Perform | Bogatyr/lesson13_bogatyr.c:180-263 | once the symbols fit: the song and its newline are written, every worker has said BYE and finished, MT_ACK is empty and the queue is removed |
| Bogatyr.Choir.Finale | Bogatyr/lesson13_bogatyr.c:208-263 | with every worker singing the symbol of its place: the song and its newline are written, every worker has said BYE and finished, MT_ACK is empty and the queue is removed |
| Bogatyr.Choir.Conduct | Bogatyr/lesson13_bogatyr.c:146-264 | the conductor path of `main`: exit 3 exactly when the distinct bytes outnumber the processes, with nothing written and each worker exiting with 5 if it was caught by its DONE and with 1 otherwise; otherwise exit 0 with the song and one final newline written, every worker finished and MT_ACK drained |

## Left out

- IPC and process plumbing are not modelled: `msgget`, `msgctl` other than
  the `removed` flag, `semget`/`semop`, `shm*`, `sem_open`/`mmap`, `fork`,
  `exec`, `wait`, `pipe`, `dup2` and `run_pipeline`. The EINTR-retry
  wrappers of `msgsnd`/`msgrcv` and of `semop` are not modelled either: a
  send always succeeds, and a receive requires its message to be there.
  The one failing receive that is modelled is the worker's on the queue
  `Choir.Abort` removes.
- The LOCK election in `Bogatyr/lesson13_bogatyr.c` (the `usleep`
  stagger and the `IPC_NOWAIT` grab) is not modelled, because its winner is
  left to scheduling. The conductor's pid `self` is a parameter.
- Bogatyr.Choir.Conduct models one interleaving: each worker handles a
  message as soon as it is delivered. On the singing path the conductor
  blocks on every ACK, so the output is the same under any interleaving,
  but that is not proved.
- Bogatyr.Choir.Abort: which workers read their DONE before the queue is
  removed depends on timing (the `usleep` stagger at line 137 can hold a
  worker back for up to 49 ms). It is the parameter `caught`; the model
  does not say which sets are possible.
- Bogatyr.Choir.Proceed and Bogatyr.Choir.Conduct: on the abort path they
  state the exit code of each worker only through `caught`, as
  `Choir.Abort` does.
- Bogatyr: the usage check and the `n <= 0` check (exit 1), `atoi`, and
  reading the song from argv or with `getline` are not modelled. `n` and
  the song are parameters, and the song is a byte sequence without NUL.
- Bogatyr: exits 2 (bad REG) and 4 (bad ACK), and the `singer == -1` skip,
  are not modelled as outcomes. They are proved unreachable in the model's
  schedule.
- Bogatyr: `pid_t` is an unbounded positive integer. `MT_TO` is computed
  without the `long` width.
- Bogatyr.Qsort: `qsort` is a library routine. It is modelled by an
  insertion sort under `cmp_pid`, which gives the same result for distinct
  pids.
- Shell: `getline` itself, EOF handling, the prompt, `run_pipeline`, the
  built-ins' effects, `fork`/`exec` and signals are left out as I/O and
  process control.
- Shell: `malloc`/`realloc` failure, which ends the program through `die`,
  is not modelled. Tables are sequences, and `strdup`/`strcpy`/`strcat` in
  `expand_tilde` are concatenation.
- Shell: NULL pointer arguments are not modelled; `Option` stands in for
  them where the code tests them.
- Ls: `format_time` is left out because it uses floating point and
  localtime. `getpwuid`/`getgrgid`, `print_long_line`, `scandir`, `lstat`,
  `isatty` and `ioctl(TIOCGWINSZ)` are left out as foreign lookups; their
  results are parameters.
- Shower, Pizza, Kitchen, PCat and Assembly: pthread and semaphore wake-ups
  are not modelled, and each program is proved for one sequential
  schedule. Sleeps and random delays are left out.
- Assembly.Shared.Install: the over-limit error branch is not modelled as
  an outcome. The slot accounting proves it unreachable.
- Cp: `getopt_long`, the `-v` messages and `usage` are left out as
  argument and output handling. The flags are parameters.
- Cp.Basename: the model is POSIX `basename` from `<libgen.h>`, because the
  library routine itself is not part of this model.
- PCat: `read_retry` and the `open`/`read` calls of the writer thread are
  left out. The chunk each read returns is a parameter.
- SignalCat: `sigqueue`, `sigwaitinfo` and the signal mask are left out.
  The child's inbox is given as a sequence of signals. The parent's
  waits for ACKs are left out as well, because they only pace the
  transfer.
- WordCount: the `unsigned long long` counters are unbounded naturals; a
  wrap-around past 2^64 bytes is not modelled.
- WordCount: the `read` calls themselves are left out; the chunks are
  parameters. A failing `read` (the `perror` and exit 1) is left out with
  them.
- The programs `Final_test/single.c`, the `Lesson_5` stadiums, the
  `Lesson_2` demos, `lesson3_my_cat.c`, `lesson4_pipe_my_cat.c` and
  `lesson7_cp_mmap.c` are not part of this model. Their logic is timing,
  I/O copying or process spawning.

## Findings

| source | as written | input that shows it | evidently intended | confidence | as-written member | corrected member |
|---|---|---|---|---|---|---|
| Lesson_4/lesson4_myshell.c:102-105 | the table is doubled only before a word is stored, and then `argv[argc] = NULL` is written with no check, so when the last word fills the table the NULL lands one entry past its end | a segment of exactly 8 words, such as `a a a a a a a a` (and again at 16, 32, … words) | grow the table before the terminating NULL as well, so that `argv[argc]` is always inside it | not executed | ShellArgv.EightWordsOverrun | ShellArgv.ParseArgv |
| Lesson_6/lesson6_shower+bonus.c:208-217 | after a failed recheck the mutex is released (line 209) before the caller counts itself as waiting in a new critical section (212-215) | N = 2, MAX_STREAK unset: a woman passes the first check on the idle room; a man enters before her recheck, which refuses her; he leaves before her line 212, finds nobody waiting and sets `cur` to NONE; she then counts herself and blocks on SEM_WQ with the room empty, and nothing wakes her until someone else enters and leaves | count the refused caller as waiting before the mutex is released, as the first check does at 238-240, so that whoever empties the room sees it | not executed | Shower.LostWakeup | Shower.State.Enter |
