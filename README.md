# Guest-list extractor of the Zabbix VM check

The script `zabbix/get_vm_guests.py` reads a cached `virsh list` dump and
prints one line for Zabbix. That line is either:

- the names of the running guests, each followed by one space;
- `None` when no guest name survives its filters;
- `ERROR: No vm guest file on host!` when the dump cannot be opened.

This project models the script's five stages in Dafny and proves what each
stage guarantees:

1. Cleanup of every line (line 10). All spaces are removed. Then the line goes
   through `strip('\n')`, `strip('running')`, `strip('idle')` and
   `strip('no state')`. These are Python character-set strips: each removes the
   longest leading and trailing runs of characters drawn from its argument.
2. Removal of the leading guest number `^[0-9]+` (line 13).
3. The `.com` filter and `x.split(' ')` (line 16).
4. The output loop that appends `' '.join(item) + " "` for each item, with the
   `"None"` sentinel when there are no items (lines 17-22).
5. The error message when the file cannot be opened (lines 26-27).

Layout:

- `py_strings.dfy`, module `PyStrings`: the Python string operations the
  script uses. These are space removal, `lstrip`/`rstrip`/`strip` with a
  character set, `split` with an explicit separator, `join` and `endswith`.
  Space removal, the strips and `split` come with lemmas that characterise
  them exactly. `join` and `endswith` are defined directly as Python defines
  them; `join` is tied to `split` by a round-trip lemma.
- `vm_guests.dfy`, module `VmGuests`: the stages as functions over the dump's
  lines (the three list comprehensions). The output loop is the method
  `AssembleVmStr`, proved against the left fold `Accumulated`. `GetVmGuests`
  is the script's body. Its input is `Option<seq<string>>`: `None` stands for
  a file that could not be opened, and `Some(lines)` holds the file's lines.
  Its result is the string the script prints.
- `vm_guests_facts.dfy`, module `VmGuestsFacts`: properties of the whole
  pipeline. They cover order preservation, the split being a no-op on
  survivors, the shape of the printed string, which lines survive, and worked
  rows of a `virsh list` dump.

## Model

| member | source | states |
|---|---|---|
| `PyStrings.RemoveAll` | zabbix/get_vm_guests.py:10 | `re.sub(' ', '', line)`: deletes every space; it has no contract of its own and is characterised by `RemoveAllSpec` and `RemoveAllConcat` |
| `PyStrings.LStrip` | zabbix/get_vm_guests.py:10 | `lstrip(chars)`: drops leading characters from `chars`; no contract of its own, characterised by `LStripSpec` and `LStripAt` |
| `PyStrings.RStrip` | zabbix/get_vm_guests.py:10 | `rstrip(chars)`: drops trailing characters from `chars`; no contract of its own, characterised by `RStripSpec` and `RStripAt` |
| `PyStrings.Strip` | zabbix/get_vm_guests.py:10 | `strip(chars)`: the leading run, then the trailing run, of characters from `chars` removed; no contract of its own, characterised by `StripSpec` and `StripUnique` |
| `PyStrings.EndsWith` | zabbix/get_vm_guests.py:16 | `str.endswith(suffix)`: defined directly as the last characters of the string being the suffix; used through `SuffixMembers`, `StripKeepsSuffix` and `SurvivorsSpec` |
| `PyStrings.Join` | zabbix/get_vm_guests.py:20 | `sep.join(parts)`: defined directly as the pieces with `sep` between them; tied to `Split` by the round trip `JoinSplit` |
| `PyStrings.RemoveAllSpec` | zabbix/get_vm_guests.py:10 | `re.sub(' ', '', line)` leaves no space and keeps every other character with its multiplicity |
| `PyStrings.RemoveAllConcat` | zabbix/get_vm_guests.py:10 | space removal works piece by piece: removing from `a + b` is removing from `a`, then from `b` |
| `PyStrings.RemoveAllAbsent` | zabbix/get_vm_guests.py:10 | a string without spaces is unchanged by space removal |
| `PyStrings.LStripSpec` | zabbix/get_vm_guests.py:10 | `lstrip(chars)` returns a suffix; every character it cut is in `chars`; the result is empty or starts outside `chars` |
| `PyStrings.RStripSpec` | zabbix/get_vm_guests.py:10 | `rstrip(chars)` returns a prefix; every character it cut is in `chars`; the result is empty or ends outside `chars` |
| `PyStrings.LStripAt` | zabbix/get_vm_guests.py:10 | if the first `i` characters are in `chars` and the next one is not, `lstrip` returns exactly `s[i..]` |
| `PyStrings.RStripAt` | zabbix/get_vm_guests.py:10 | if the characters from `j` on are in `chars` and the one before `j` is not, `rstrip` returns exactly `s[..j]` |
| `PyStrings.StripSpec` | zabbix/get_vm_guests.py:10 | `strip(chars)` returns a contiguous block of `s` with only characters of `chars` around it, and neither end of the block is in `chars` |
| `PyStrings.StripUnique` | zabbix/get_vm_guests.py:10 | conversely, any such block is exactly what `strip` returns |
| `PyStrings.RStripBlock` | zabbix/get_vm_guests.py:10 | `rstrip` of the tail that starts at `i` ends at the last character not in `chars` |
| `PyStrings.StripIdempotent` | zabbix/get_vm_guests.py:10 | stripping a second time with the same characters changes nothing |
| `PyStrings.StripNothing` | zabbix/get_vm_guests.py:10 | a nonempty string whose ends are outside `chars` is unchanged by `strip` |
| `PyStrings.StripTail` | zabbix/get_vm_guests.py:10 | a trailing run of characters from `chars` after such a block is cut off, and the block is kept |
| `PyStrings.StripKeepsSuffix` | zabbix/get_vm_guests.py:10 | `strip` keeps a suffix whose first and last characters are outside `chars` |
| `PyStrings.SuffixMembers` | zabbix/get_vm_guests.py:16 | every character of a suffix that `endswith` accepts occurs in the string |
| `PyStrings.Split` | zabbix/get_vm_guests.py:16 | `split(sep)` always returns at least one piece |
| `PyStrings.SplitSpec` | zabbix/get_vm_guests.py:16 | no piece holds the separator, and there is one more piece than separators |
| `PyStrings.JoinSplit` | zabbix/get_vm_guests.py:16-20 | round trip: joining the pieces of `split(sep)` with `sep` gives back the string |
| `PyStrings.JoinEmptyHead` | zabbix/get_vm_guests.py:20 | `join` of a list with an empty first piece starts with the separator |
| `PyStrings.JoinConsHead` | zabbix/get_vm_guests.py:20 | a character put in front of the first piece comes out in front of the joined string |
| `PyStrings.SplitWithoutSeparator` | zabbix/get_vm_guests.py:16 | a string without the separator splits into the one-element list holding itself |
| `VmGuests.CleanLine` | zabbix/get_vm_guests.py:10 | one element of the cleanup comprehension: space removal, `strip('\n')`, then the three state strips; characterised by `CleanLineSpec` and `CleanLineMembers` |
| `VmGuests.StripStates` | zabbix/get_vm_guests.py:10 | the chained `strip('running').strip('idle').strip('no state')`; characterised by `StripStatesOfRow`, `KeptEnds` and `RunningLettersCut` |
| `VmGuests.Output` | zabbix/get_vm_guests.py:16 | the comprehension `[x.split(' ') for x in guest_list if x.endswith(".com")]`; characterised by `OutputSpec` and `OutputIsSingletons` |
| `VmGuests.Accumulated` | zabbix/get_vm_guests.py:17-20 | the accumulator after the loop has appended `' '.join(item) + " "` for each item in order; the loop is proved equal to it in `AssembleVmStr`, and `AccumulatedOfSingletons` gives its value on split survivors |
| `VmGuests.VmStr` | zabbix/get_vm_guests.py:17-22 | the accumulation, or `"None"` for an empty list; `AssembleVmStr` computes it and `ReportNoneIffNoGuests` and `ReportListsGuests` state its value |
| `VmGuests.Guests` | zabbix/get_vm_guests.py:10-16 | the names that pass the three comprehensions, in order; characterised by `GuestsOfLine`, `GuestsConcat` and `LineSurvives` |
| `VmGuests.Report` | zabbix/get_vm_guests.py:8-27 | what the whole script prints; computed by `GetVmGuests`, and its value is stated by `ReportMissingFile`, `ReportListsGuests`, `ReportNoneIffNoGuests` and `ReportOfFileIsNotError` |
| `VmGuests.CleanLineSpec` | zabbix/get_vm_guests.py:10 | a cleaned line holds no space and is one contiguous block of the line with its spaces removed |
| `VmGuests.VirshList` | zabbix/get_vm_guests.py:10 | the cleanup comprehension yields at most one entry per line, because the `line != ""` guard drops empty lines |
| `VmGuests.VirshListNoSpaces` | zabbix/get_vm_guests.py:10 | no entry of the cleaned list holds a space |
| `VmGuests.VirshListOfFile` | zabbix/get_vm_guests.py:10 | when no line is empty, the cleanup is the cleaning of each line, in order, one entry per line |
| `VmGuests.VirshListAt` | zabbix/get_vm_guests.py:10 | the same fact for one position `k` |
| `VmGuests.RemoveGuestNumber` | zabbix/get_vm_guests.py:13 | the number removal never lengthens a line |
| `VmGuests.RemoveGuestNumberSpec` | zabbix/get_vm_guests.py:13 | `re.sub("^[0-9]+", "", s)`: `s` is a run of digits followed by the result, and the result does not start with a digit |
| `VmGuests.GuestList` | zabbix/get_vm_guests.py:13 | the guest-number comprehension has one entry per cleaned line |
| `VmGuests.GuestListAt` | zabbix/get_vm_guests.py:13 | entry `k` is the number removal applied to cleaned line `k` |
| `VmGuests.Survivors` | zabbix/get_vm_guests.py:16 | the filter never lengthens the list |
| `VmGuests.SurvivorsSpec` | zabbix/get_vm_guests.py:16 | every survivor ends with `.com`; a name ending with `.com` occurs as often as in the guest list, any other name never |
| `VmGuests.OutputSpec` | zabbix/get_vm_guests.py:16 | the filter comprehension has one entry per survivor: the survivor split at spaces |
| `VmGuests.AssembleVmStr` | zabbix/get_vm_guests.py:17-22 | the loop's accumulator equals the left fold of `' '.join(item) + " "` over the items; the result is `"None"` when there are none |
| `VmGuests.GetVmGuests` | zabbix/get_vm_guests.py:8-27 | the script prints the error message for a missing file, and otherwise the assembled string of the three comprehensions |
| `VmGuestsFacts.RemoveGuestNumberIdempotent` | zabbix/get_vm_guests.py:13 | removing the guest number a second time changes nothing |
| `VmGuestsFacts.RemoveGuestNumberKeepsSuffix` | zabbix/get_vm_guests.py:13 | the number removal keeps a suffix that starts with a non-digit |
| `VmGuestsFacts.RemoveGuestNumberOfRow` | zabbix/get_vm_guests.py:13 | a run of digits followed by a name that does not start with a digit loses exactly the digits |
| `VmGuestsFacts.VirshListConcat` | zabbix/get_vm_guests.py:10 | the cleanup of two parts of a dump is the cleanup of each, in order |
| `VmGuestsFacts.GuestListConcat` | zabbix/get_vm_guests.py:13 | the number removal of two parts is the number removal of each, in order |
| `VmGuestsFacts.SurvivorsConcat` | zabbix/get_vm_guests.py:16 | the filter of two parts is the filter of each, in order: no reordering across parts |
| `VmGuestsFacts.GuestsOfLine` | zabbix/get_vm_guests.py:10-16 | a one-line dump yields that line's cleaned, numberless text if it ends with `.com`, and nothing otherwise |
| `VmGuestsFacts.GuestsConcat` | zabbix/get_vm_guests.py:10-16 | the guests of a dump are the guests of its first part followed by those of the rest |
| `VmGuestsFacts.GuestListNoSpaces` | zabbix/get_vm_guests.py:10-13 | no entry of the guest list holds a space |
| `VmGuestsFacts.OutputIsSingletons` | zabbix/get_vm_guests.py:16 | entry `k` of the split filter output is the one-element list holding survivor `k` |
| `VmGuestsFacts.SpaceTerminated` | zabbix/get_vm_guests.py:17-22 | each name followed by one space: its length is the sum of the names' lengths plus one each, and it ends with a space |
| `VmGuestsFacts.SpaceTerminatedSnoc` | zabbix/get_vm_guests.py:19-20 | appending a name to the list appends the name and one space to the string |
| `VmGuestsFacts.AccumulatedOfSingletons` | zabbix/get_vm_guests.py:19-20 | when every item is a one-element list, the loop's accumulation is each name followed by one space |
| `VmGuestsFacts.ReportMissingFile` | zabbix/get_vm_guests.py:26-27 | a missing file prints exactly `ERROR: No vm guest file on host!` |
| `VmGuestsFacts.ReportListsGuests` | zabbix/get_vm_guests.py:17-20 | with survivors, the output is each survivor followed by one space; it ends with a space and its length is the sum of the survivors' lengths plus one each |
| `VmGuestsFacts.ReportNoneIffNoGuests` | zabbix/get_vm_guests.py:17-22 | the output is exactly `None` if and only if no line survives |
| `VmGuestsFacts.ReportOfFileIsNotError` | zabbix/get_vm_guests.py:17-27 | a file that was read never prints the error message |
| `VmGuestsFacts.LineSurvives` | zabbix/get_vm_guests.py:10-16 | a line whose space-free, newline-stripped text ends with `.com` survives, with its cleaned, numberless text ending with `.com` |
| `VmGuestsFacts.DigitNotStripped` | zabbix/get_vm_guests.py:10 | no digit is in any of the strip sets |
| `VmGuestsFacts.VirshRowYieldsName` | zabbix/get_vm_guests.py:10-16 | a row made of a guest number, a `.com` name and the state `running`, `idle` or `no state`, ending with a newline or with nothing, cleans to the number and the name, and yields exactly the name |
| `VmGuestsFacts.StripStatesOfRow` | zabbix/get_vm_guests.py:10 | the three state strips cut the state word off a row and keep the number and the name |
| `VmGuestsFacts.ReportOfOneGuest` | zabbix/get_vm_guests.py:17-20 | a dump with exactly one guest prints that name and one space |
| `VmGuestsFacts.RemoveSpaceAfterWord` | zabbix/get_vm_guests.py:10 | a space after a space-free word is dropped and the word is kept |
| `VmGuestsFacts.RemoveSpacesOfRow` | zabbix/get_vm_guests.py:10 | the spaces between the fields of a row disappear in the cleanup's first step |
| `VmGuestsFacts.ExampleRunningGuest` | zabbix/get_vm_guests.py:10-24 | the row `1 guest01.example.com running` cleans to `1guest01.example.com`, yields `guest01.example.com` and prints it with one trailing space |
| `VmGuestsFacts.LineWithoutSuffixCharIsDropped` | zabbix/get_vm_guests.py:10-16 | a line lacking one of the characters of `.com` never yields a guest |
| `VmGuestsFacts.CleanLineMembers` | zabbix/get_vm_guests.py:10 | the cleanup never introduces a character the line lacks |
| `VmGuestsFacts.NumberlessMembers` | zabbix/get_vm_guests.py:13-16 | a cleaned line lacking a character of `.com` does not end with `.com` once its number is removed |
| `VmGuestsFacts.ExampleForeignDomain` | zabbix/get_vm_guests.py:16-22 | the row `2 foo.org idle` prints `None` |
| `VmGuestsFacts.KeptEnds` | zabbix/get_vm_guests.py:10 | a string whose two ends no strip removes passes every strip of the cleanup unchanged |
| `VmGuestsFacts.RunningLettersCut` | zabbix/get_vm_guests.py:10 | a space-free line that starts with letters of `running` loses all of them, up to the first character no strip removes |
| `VmGuestsFacts.ExampleCharacterSetStrip` | zabbix/get_vm_guests.py:10 | the strips remove characters, not words: `nginx.example.com` cleans to `x.example.com` |

## Left out

- Opening `/var/log/zabbix/vm_guests.txt` and catching `IOError` (lines 8-9 and 26) are file I/O. The file is the input `Option<seq<string>>`: `None` for a file that could not be opened, `Some(lines)` otherwise.
- An `IOError` raised while the file is being read, after some lines were processed, is not modelled. The model treats the file as either unreadable or read in full.
- The `print` statements (lines 24 and 27) write to standard output. The model returns the printed string instead, without the newline that `print` adds.
- Python's general `re` engine is not modelled. Only the two substitutions the script uses are written out as string functions: `' '` becomes nothing, and `^[0-9]+` becomes nothing.
- How Python cuts a file into lines is not modelled. The input is the sequence of lines as iteration over the file yields them, each with its trailing `'\n'` where the file has one.
- The cron job and `virsh list`, which produce the dump (line 6), are external to the script.
- Characters are Dafny `char`s. Python 2 would treat the file as bytes, but the script only compares single ASCII characters, so the two agree.
- VmGuests.VirshList: its own contract states only the length bound. The map it computes on a file's lines is stated by `VirshListOfFile`.
- VmGuests.RemoveGuestNumber: its own contract states only the length bound. The digits-then-result shape is stated by `RemoveGuestNumberSpec`.
- VmGuests.GuestList: its own contract states only the length. The entries are stated by `GuestListAt`.
- VmGuests.Survivors: its own contract states only the length bound. Which names survive, and how often, is stated by `SurvivorsSpec`.
- PyStrings.Split: its own contract states only that there is at least one piece. The pieces are stated by `SplitSpec` and the round trip by `JoinSplit`.
