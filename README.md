# keylux — a verified model of the keyboard clock faces

keylux lights the keys of a backlit keyboard. Every selected module builds a
map from key name to hex colour. The scheduler merges the maps of the modules
that are due, and `set_key` sends the merged map to `keyledsctl set-leds` as
`key=colour` binds. This project models the core of `main.py` in Dafny:

- **Palette** (`palette.dfy`): the five colour constants. It also holds the
  key names `F1`..`F12`, `0`..`9` and `KP0`..`KP9`, Python's `str` on a
  natural number, `str.rjust`, and the 12-hour dial slot
  (`hour % 12`, with 0 shown as 12).
- **BinaryClock** (`binary_clock.dfy`): `mod_binary_time`. The number row
  without the separator `6` shows the 5-bit hour and the 6-bit minute. In
  second mode the row starts with `GRAVE`, shows the 6-bit minute and the
  6-bit second, and the F row lights the hour's dial key. `BinaryTime` is a
  method built from the source's loops. Its contract is the predicate
  `IsBinaryFace`, which describes the whole map. Lemmas show that the face
  reads back as the time it shows and that the face is unique.
- **NumClock** (`num_clock.dfy`): `mod_num_time`. The hour is shown on the
  F row: foreground up to hour 12, alternate after. The minute is shown on
  the number row and, in second mode, the second on the keypad. Of the two
  zero-padded digits, the tens key is foreground and the units key
  alternate; a repeated digit gets the combined colour. `NumTime` is proved
  against `IsNumFace`, with a read-back lemma and a uniqueness lemma.
- **Scheduler** (`scheduler.dfy`): `compile_mods`. A module is a rate plus
  what its build returns now. `CompileMods` is the source's loop, proved
  equal to the merge `Compiled`. Lemmas state the merge's key set, that the
  last writer of a key wins, and what is skipped.
- **Registry** (`registry.dfy`): `modules_library` with its rates, and the
  builds of its entries.
- **Startup** (`startup.dfy`): the start-up steps.
  - Drop unknown names.
  - Sort by rate. The sort is stable, and `StableSortUnique` shows that any
    stable sort by rate gives the same result.
  - Split into one-shot modules (rate <= 0) and periodic modules (rate > 0).
  - Take the tick width: the first periodic rate, capped at one second.
- **Leds** (`leds.dfy`): the bind list and the command of `set_key`.
  `ParseBind` is its inverse.

Time of day is passed in as hour < 24, minute < 60 and second < 60.
Scheduler time and rates are integer milliseconds: the source's rates of
60 s and 1 s become 60000 and 1000, and `min(frequency, 1)` becomes a cap of
1000.

With no periodic module selected, the check at line 123 means to end the
program after the initial frame. The code reads `iter_build[0]` at line 115
first and raises `IndexError`. The model states both and uses the corrected
start-up (see Findings).

## Model

| member | source | states |
|---|---|---|
| Palette.NatToString | main.py:59 | `str(n)` has at least one character, and exactly one when n < 10 |
| Palette.NatToStringInjective | main.py:59 | different numbers have different decimal strings |
| Palette.RJust | main.py:34-36 | `rjust` pads on the left to the width and never truncates: the length is max(width, \|s\|), s is a suffix, every pad character is the fill |
| Palette.TwoDigits | main.py:59 | `str(n).rjust(2, "0")` for n < 100 is the tens digit followed by the units digit |
| Palette.HourSlot | main.py:46-48 | the dial slot is between 1 and 12 and agrees with the hour modulo 12 (0 and 12 both give 12) |
| Palette.FKey | main.py:49-50 | `f"F{i}"` starts with 'F', so it differs from every number-row key |
| Palette.FKeyDistinct | main.py:49-50 | different numbers name different function keys |
| Palette.DigitKey | main.py:62 | `str(d)` of a digit is that one character |
| Palette.KeypadKey | main.py:75 | `f"KP{d}"` is 'K', 'P' and the digit character |
| Palette.KeypadKeyInjective | main.py:75 | different digits name different keypad keys |
| BinaryClock.RemoveFirst | main.py:30 | `list.remove` drops exactly the first occurrence |
| BinaryClock.RemoveSeparator | main.py:28-30 | removing "6" from the number row leaves 1,2,3,4,5,7,8,9,0,MINUS,EQUAL |
| BinaryClock.RowKeysDistinct | main.py:29-32 | the bit row, with or without GRAVE, has no repeated key, no separator and no F key |
| BinaryClock.Binary | main.py:34-36 | `format(n, "b")` is a non-empty string of '0' and '1' |
| BinaryClock.FromBinaryOfBinary | main.py:34-36 | reading `format(n, "b")` back gives n |
| BinaryClock.BinaryFits | main.py:34-36 | a number below 2^w has at most w binary digits |
| BinaryClock.BitsRoundTrip | main.py:34-36 | `format(n, "b").rjust(w, "0")` for n < 2^w has exactly w binary digits and reads back as n |
| BinaryClock.Bits | main.py:34-36 | `format(n, "b").rjust(w, "0")` is made of binary digits only and is at least w long, never empty |
| BinaryClock.RenderShape | main.py:38 | the rendered string is as long as the key row; its halves are the hour and minute bits, or the minute and second bits in second mode |
| BinaryClock.Render | main.py:38 | the render string, `hour + minute` or `minute + seconds` in second mode, is made of binary digits only |
| BinaryClock.ReadNumberOfBits | main.py:39-43 | a row coloured by a bit string reads back as the bit string's value |
| BinaryClock.BinaryTime | main.py:27-52 | the result is exactly the face `IsBinaryFace`: exactly the row keys, "6" and (second mode) F1..F12; bits as foreground/background in order; "6" separator-coloured; only the hour's F key foreground |
| BinaryClock.PaintFace | main.py:37-51 | the map built from any distinct row and bit string is that row's face |
| BinaryClock.PaintBits | main.py:39-43 | the enumerate loop gives exactly the row keys, each coloured by its bit |
| BinaryClock.DimFKeys | main.py:49-50 | the `range(12)` loop adds F1..F12 as background and keeps every other key |
| BinaryClock.LightHour | main.py:45-51 | after the F-row loop, the hour's dial key is foreground and the other eleven background |
| BinaryClock.BinaryFaceReadBack | main.py:34-43 | a binary face reads back as hour and minute, or minute and second in second mode |
| BinaryClock.BinaryFaceUnique | main.py:27-52 | one time and mode admit only one binary face |
| NumClock.PairColour | main.py:65-69 | a digit key is non-background exactly when it is the tens or units digit, and combined exactly when both digits are equal to it |
| NumClock.DigitColour | main.py:59 | for n < 100 a digit key is coloured exactly when it is one of the two digits of n |
| NumClock.DigitRowKeyInjective | main.py:62 | two digit keys of the same row are equal exactly when their digits are |
| NumClock.HourColour | main.py:64 | the hour key is the foreground colour up to hour 12 and the alternate foreground colour exactly when the hour is past 12 |
| NumClock.NumTime | main.py:54-79 | the result is exactly the face `IsNumFace`: domain F1..F12, 0..9 and (second mode) KP0..KP9; one F key lit in the hour's colour; the digit rule for the minute and the second |
| NumClock.LightHourKey | main.py:64 | only the hour's F key gets the hour colour; all other F and digit keys stay background |
| NumClock.KeypadApart | main.py:74-75 | no function key or number-row key is a keypad key, so the keypad loop adds new keys |
| NumClock.DimRows | main.py:60-63 | the first loop gives exactly F1..F12 and 0..9, all background |
| NumClock.DimKeypad | main.py:74-75 | the keypad loop adds KP0..KP9 as background and keeps every other key |
| NumClock.MarkDigits | main.py:65-69 | after the digit branch every digit key of the row has the digit rule's colour, and no other key changes |
| NumClock.TwoDigitKeys | main.py:65-69 | the keys named by the two padded characters are those of the tens and units digits, and the characters are equal exactly when the digits are |
| NumClock.ReadDigits | main.py:65-69 | decoding a digit row yields a number below 100 |
| NumClock.FindDigitOfRule | main.py:65-69 | on a row coloured by the digit rule, the search for a colour finds the one digit with that colour, or nothing |
| NumClock.DigitsReadBack | main.py:65-69 | a row coloured by the digit rule for n decodes as n |
| NumClock.FindLitFKeyOfFace | main.py:64 | the first non-background function key is the hour's dial key, with the alternate colour exactly after 12 o'clock |
| NumClock.NumFaceReadBack | main.py:54-79 | a numeric face reads back as the dial slot and past-noon flag, the minute and (second mode) the second |
| NumClock.NumFaceUnique | main.py:54-79 | one time and mode admit only one numeric face |
| NumClock.FaceAt1405 | main.py:56-69 | at 14:05 F2 is lit in the alternate colour, "0" is foreground, "5" alternate, and every other digit background |
| NumClock.MidnightLooksLikeNoon | main.py:56-64 | hours 0 and 12 give the same face |
| Scheduler.CompiledDomain | main.py:90-99 | a key is in the merge exactly when some module that is due and returns a map has that key |
| Scheduler.Due | main.py:93 | a forced update or a module of rate <= 0 is always due; otherwise a module is due exactly when the time modulo its rate is below the tick |
| Scheduler.CompiledLastWins | main.py:98 | each merged key has the value of the last module that wrote it |
| Scheduler.CompileMods | main.py:90-99 | the loop's result is the merge: its keys are those of the built maps, and each value comes from the key's last writer |
| Scheduler.LaterOverrides | main.py:98 | with A before B both writing x, the result's x is B's |
| Scheduler.SkippedContributesNothing | main.py:93-97 | a module that is not due, or returns None, leaves the merge unchanged wherever it stands in the list: the merge of `a + [m] + b` is that of `a + b` |
| Scheduler.OneShotAlwaysBuilt | main.py:93 | a module of rate <= 0 contributes its keys at every instant, forced or not |
| Scheduler.ForcedBuildsAll | main.py:93 | a forced update includes every returned map, whatever the time |
| Registry.Lookup | main.py:82-88 | exactly the five names are known; rates are 0, 1 s or 60 s, and rate <= 0 exactly for `clear` |
| Registry.Build | main.py:83-87 | a build keeps the entry's rate; `clear` returns None and each clock returns its face, in second mode for the "_s" names |
| Startup.Known | main.py:102-103 | the known entries are exactly the lookups of the names that are in the library |
| Startup.KnownAppend | main.py:102-103 | dropping unknown names keeps the arguments' order |
| Startup.Insert | main.py:105 | inserting keeps a sequence sorted by rate and adds exactly one entry |
| Startup.InsertWithRate | main.py:105 | insertion puts the new entry before all earlier entries of its rate |
| Startup.SortByRate | main.py:105 | `sorted(..., key=update_rate)` is sorted by rate and a permutation of its input |
| Startup.SortByRateStable | main.py:105 | entries of equal rate keep their input order |
| Startup.StableSortUnique | main.py:105 | two sequences that are sorted by rate and have the same entries per rate in the same order are equal |
| Startup.OneShots | main.py:108-110 | `init_build` as the loop appends it; it is never longer than its input, and `Startup.SplitMembers` and `Startup.OneShotsWithRate` state which entries it keeps |
| Startup.Periodics | main.py:108-112 | `iter_build` as the loop appends it; it is never longer than its input, and `Startup.SplitMembers` and `Startup.PeriodicsWithRate` state which entries it keeps |
| Startup.SplitMembers | main.py:108-112 | `init_build` holds only entries of rate <= 0 and `iter_build` only entries of rate > 0, all from the input, and together they are a permutation of it |
| Startup.Partition | main.py:106-112 | the loop puts exactly the rate <= 0 entries, in order, into init_build and the rest into iter_build; on a sorted list init_build + iter_build is the list |
| Startup.OneShotsWithRate | main.py:108-112 | init_build keeps each rate <= 0 entry in order and no other |
| Startup.PeriodicsWithRate | main.py:108-112 | iter_build keeps each rate > 0 entry in order and no other |
| Startup.SplitSorted | main.py:105-112 | the one-shots of a sorted list are its prefix and the periodics the remainder |
| Startup.TickWidth | main.py:115-116 | the tick width fails exactly when iter_build is empty |
| Startup.TickWidthIsFastest | main.py:115-116 | on a sorted list of periodic modules the tick is positive, at most one second, at most every rate, and one of the rates or one second |
| Startup.TickWidthExample | main.py:115-116 | rates of 1 s and 60 s give a tick of 1 s |
| Startup.Startup | main.py:102-124 | the plan's first frame is `clear`, then the one-shots, then the periodics, in sorted order and a permutation of the known entries; there is no tick exactly when nothing is periodic, else the tick is `min(iter_build[0].update_rate, 1 s)`, which is positive, at most every periodic rate, and one second or one of the rates |
| Startup.PlanKeepsOrder | main.py:102-112 | in the plan, each rate's modules keep their command-line order |
| Startup.StartupFailsWithoutPeriodic | main.py:115-123 | start-up as written fails exactly when no selected known module has a positive rate |
| Startup.StartupAsWritten | main.py:102-116 | start-up as written fails with IndexError exactly when `iter_build` is empty; otherwise it puts `clear` first, keeps `iter_build`, and takes the tick as `min(iter_build[0].update_rate, 1 s)` |
| Startup.StartupAsWrittenCounterexample | main.py:115 | with no arguments, or only `clear`, start-up as written raises IndexError |
| Startup.StartupAgrees | main.py:102-124 | wherever start-up as written succeeds, the corrected start-up gives the same plan |
| Leds.ParseBind | main.py:16 | splitting a bind at its first '=' succeeds exactly when it has one, and the parts rebuild the bind |
| Leds.Bind | main.py:16 | `f"{k}={v}"` is one longer than key and colour together and has its '=' right after the key |
| Leds.BindRoundTrip | main.py:16 | a key without '=' and its colour are recovered from `f"{k}={v}"` |
| Leds.Binds | main.py:16 | there is one bind per dictionary entry |
| Leds.BindsReadBack | main.py:16 | each bind reads back as its entry, in entry order |
| Leds.SetKeyCommand | main.py:15-19 | there is no command exactly when there are no entries; otherwise it is `keyledsctl set-leds` followed by one bind per entry |
| Leds.CommandSentIffNonEmpty | main.py:16-19 | for a listed dictionary the command is sent exactly when the dictionary is non-empty, with one bind per key |
| Leds.CommandCoversMap | main.py:16-19 | every bind of the command is an item of the dictionary, and every item has a bind |
| Leds.KeysCount | main.py:16 | a listing of a dictionary's items has one entry per key |
| Leds.ClearCommand | main.py:83 | the `clear` module sends `keyledsctl set-leds all=f1f1f1` |

## Left out

- `subprocess.run` in `set_key` (main.py:20) is an external process. The model computes the command and does not run it.
- The `clear` module's side effect, its own `set_key` call, is not part of a build. Its build returns None, and `Leds.ClearCommand` gives the command it sends.
- `os.sys.argv`, `datetime.now()` and `time()` are parameters: the module names, the time of day, and integer milliseconds.
- The busy-wait sync loop and the sleep and drift loop (main.py:126-139) are wall-clock and floating-point timing. They are not modelled.
- Scheduler.CompileMods: the due check `time() % rate` on floating-point seconds is modelled on integer milliseconds.
- Scheduler.CompileMods: each module's build result is taken as given for the current instant, as `Module.result`. In the source, each build reads the clock itself, inside the loop, and only when the module is due. `Registry.Build` relates a result to the time it shows.
- Scheduler.CompileMods: one instant `now` serves the due check of every module in a call, while main.py:93 reads `time()` anew for each module.
- Python dictionaries keep insertion order; Dafny maps do not. `set_key` is modelled on the sequence of items, and `Leds.ListsMap` relates that sequence to the map.
- Startup.SortByRate: Python's `sorted` is modelled by a stable insertion sort. `Startup.StableSortUnique` shows that every stable sort by rate gives the same list.
- Startup.Startup: the plan stops at the start-up decisions. The forced first frame and the later frames are `Scheduler.CompileMods` over `initBuild + iterBuild` and `iterBuild`; the model does not chain the two.
- NumClock.NumFaceReadBack: it recovers only the dial slot and whether the hour is past 12, not the hour itself, because hours 0 and 12 give the same face (`NumClock.MidnightLooksLikeNoon`).

## Findings

| source | as written | input that shows it | evidently intended | confidence | as-written member | corrected member |
|---|---|---|---|---|---|---|
| main.py:115 | `frequency = iter_build[0].update_rate` runs before the empty check at line 123 | no arguments, or only `clear`: `iter_build` is empty and line 115 raises IndexError (`Startup.StartupAsWrittenCounterexample`) | with no periodic module, send the initial frame and exit, as line 123 does | not executed | Startup.StartupAsWritten | Startup.Startup |
