# Photo import script: a Dafny model

`import.rb` imports photos from a camera's memory card. It walks a directory and keeps
the JPEG and text files it finds, with their modification times. It sorts them newest
first and splits them into *events*: a photo starts a new event when it was taken more
than a given number of hours before the next newer photo. Event 1 is the most recent
one. The script then shows or copies the photos of the events named by the `-e` option.

The model covers the `Camera` class and the `-e` option parser:

- `PhotoFilter` (`filter.dfy`): the file filter of `make_list`. The directory walk is a
  sequence of entries (path, file type, mtime).
- `EventSegments` (`segmentation.dfy`): the event ids of a newest-first list of times, as
  functions, with their properties.
  - the first id, and how each id follows from the one before;
  - ids never decrease, rise by at most one, and leave no id unused;
  - selecting one id gives a contiguous block;
  - the blocks partition the list.
- `PhotoCamera` (`camera.dfy`): the `Camera` class with `flist`, `slist` and
  `@count`.
  - `make_list` is `MakeList`, a loop that allocates one `Photo` per kept entry.
  - `time_sort` is `TimeSort`. It sorts, then tags every record in place through the
    `Tag` loop.
  - `event(num)` is `Event` and `latest` is `Latest`.
  - A record is a heap object. `file.push(@count)` changes a record that `flist` and
    `slist` share, so `flist` sees the ids too.
- `EventExpression` (`eventexpr.dfy`): the `-e` block of `parse_option`. It covers the
  illegal-character check, `String#split(",")`, the leftmost `(\d)-(\d)` match, and the
  loop that builds `Options[:events]`.
- `Basics` (`basics.dfy`): the `Option` and `Result` wrappers.

## Behaviour as written

The model follows the code wherever a plain description of the script would say
something else:

- The filter condition parses as `(ftype == "file" && f =~ /.*jpg/i) || f =~ /.*txt/i`.
  A path containing "txt" is kept whatever its type, a directory included.
- Both regular expressions are unanchored, so "jpg" anywhere in the full path is enough.
  The match ignores case; the model folds ASCII letters only.
- A range piece of `-e` *replaces* the list built so far, so `-e 1,3-5` selects 3, 4 and 5,
  not 1, 3, 4 and 5.
- A piece without a range is appended as a string. A string never equals an integer
  event id, so `-e 2` selects nothing.
- `(\d)-(\d)` is single digits at the leftmost match, so `-e 12-15` is the range 2..1,
  which is empty.
- `String#split` drops trailing empty fields.
- A gap of exactly the threshold does not start a new event.
- A negative threshold makes even the first record split, so the ids then start at 2.
- With no kept file, `time_sort` fails at `@slist[0][1]`. Here `OpenCamera` returns
  `Failure(NoPhotos)`, and `TimeSort` returns `false` and leaves `@count` alone.
- The sort is not promised to be stable. The model fixes one order, an insertion sort
  reversed. Every contract depends only on what any sort would give: a permutation of
  `flist` whose times never increase.
- With a threshold of zero or more, the id each record gets and `@count` do not depend
  on the tie order. The times along `slist` are the same for every tie order, and records
  with equal times always share an event.
- The order of equal-time records within `slist` and within an event does depend on the
  tie order. `slist` is public through `attr_reader` (import.rb:83), and the copy and move
  loop handles an event's records in that order (import.rb:137-141).
- With a negative threshold, the tie order decides which of two records with equal times
  gets the lower id.

## Model

| member | source | states |
|---|---|---|
| `PhotoFilter.OccursStep` | import.rb:47-48 | `pat` occurs in a non-empty path iff it matches at the start or occurs in the rest |
| `PhotoFilter.ContainsNoCase` | import.rb:47-48 | the left-to-right scan standing for `f =~ /.*pat/i` succeeds exactly when `pat` occurs somewhere in the path, ignoring case |
| `PhotoFilter.Keep` | import.rb:47-48 | an entry is kept iff it is a regular file whose path contains "jpg", or its path contains "txt" (Ruby's `&&`-over-`\|\|` precedence) |
| `PhotoFilter.TxtKeptWhateverItsType` | import.rb:47-48 | any entry whose path contains "txt" is kept, whatever `File.ftype` says |
| `PhotoFilter.NonFileKeptOnlyForTxt` | import.rb:47-48 | a non-regular entry is kept exactly when its path contains "txt" |
| `PhotoFilter.Selected` | import.rb:46-51 | the records pushed for a walk are never more than the entries walked |
| `PhotoFilter.SelectedAppend` | import.rb:46-51 | walking one more entry appends its `[path, mtime]` exactly when it is kept, so records follow walk order |
| `PhotoFilter.SelectedMembers` | import.rb:46-51 | a record is pushed iff some kept entry of the walk has its path and mtime |
| `PhotoCamera.Photo.constructor` | import.rb:49 | a new record `[f, File.mtime(f)]` has the given path and time and no event id yet |
| `PhotoCamera.Camera.constructor` | import.rb:37-41 | `flist` holds the records of the kept entries in walk order, all new and untagged; `slist` is empty |
| `PhotoCamera.Camera.MakeList` | import.rb:45-51 | `flist` becomes the old `flist` followed by one new, untagged record per kept entry, in walk order; `slist` and `@count` are unchanged |
| `PhotoCamera.Insert` | import.rb:58-59 | inserting a record gives the old list's records plus that one (multiset) |
| `PhotoCamera.SortByTime` | import.rb:58-59 | the sort by mtime is a permutation of its input |
| `PhotoCamera.SortByTimeAscending` | import.rb:58-59 | the sort by mtime gives times that never decrease |
| `PhotoCamera.InsertAscending` | import.rb:58-59 | inserting into a list sorted by time keeps it sorted |
| `PhotoCamera.Reversed` | import.rb:60 | `reverse` has the same length, puts element `k` at `n-1-k`, and is a permutation |
| `PhotoCamera.NewestFirst` | import.rb:58-60 | sorting by mtime then reversing gives a permutation of `flist`, of the same length, whose times never increase |
| `PhotoCamera.DistinctPermutation` | import.rb:58-60 | a reordering of a list without a repeated record has none either, so tagging never tags one record twice |
| `EventSegments.SortedUnique` | import.rb:58-60 | two newest-first lists of the same multiset of times are equal |
| `EventSegments.EqualTimesSameId` | import.rb:65-71 | with a threshold of zero or more, records with the same time get the same id |
| `PhotoCamera.TimesMultiset` | import.rb:58-60 | two lists holding the same records hold the same multiset of times |
| `PhotoCamera.NewestFirstTimesUnique` | import.rb:58-71 | every newest-first order of the same records gives the same times along `slist`, hence the same ids by position and the same `@count` |
| `PhotoCamera.TieOrderIrrelevant` | import.rb:58-71 | with a threshold of zero or more, a record gets the same id whichever order the sort gives records with equal times |
| `PhotoCamera.TieOrderVisible` | import.rb:58-60 | two records with equal times may come in either order: both orders sort the same list newest first, and they differ |
| `PhotoCamera.Tag` | import.rb:62-71 | the loop tags record `k` of `slist` with `EventIds(times)[k]` and returns the last id as `@count` |
| `PhotoCamera.Camera.TagSorted` | import.rb:63-71 | once `slist` is `flist` newest first, the loop leaves both lists as they are and the camera segmented |
| `PhotoCamera.Camera.TimeSort` | import.rb:57-72 | `slist` is `flist` newest first; it fails iff `flist` is empty; on success every record carries its EventIds id and `@count` is the last id; `flist` is unchanged |
| `PhotoCamera.OpenCamera` | import.rb:37-43 | `Camera.new` succeeds iff some walked entry is kept; then `flist` is the kept records and the camera is segmented |
| `PhotoCamera.Matches` | import.rb:75 | Ruby's `file[2] == num` holds only between an integer id and an integer key, never for nil or a string |
| `PhotoCamera.Select` | import.rb:75 | `find_all` keeps exactly the records of the list whose id equals the key; a string key selects nothing |
| `PhotoCamera.SelectIsFilter` | import.rb:75 | on tagged records, `find_all` is the filter of the list by its id sequence |
| `PhotoCamera.Camera.Event` | import.rb:74-76 | `event(key)` holds exactly the `slist` records whose id equals the key; a string key selects nothing |
| `PhotoCamera.Camera.Latest` | import.rb:78-80 | `latest` holds exactly the `slist` records with id 1 |
| `PhotoCamera.EventIsBlock` | import.rb:74-76 | on a segmented camera, `event(n)` is one contiguous slice of `slist`, newest first |
| `PhotoCamera.EventRangeIsGroups` | import.rb:74-76 | the events `a..b` one after the other are the id groups `a..b` of `slist` |
| `PhotoCamera.EventsPartition` | import.rb:62-76 | the events from the first id to `@count`, concatenated, give `slist` back: every record is in exactly one event |
| `PhotoCamera.EventInRange` | import.rb:62-76 | every id from the first to `@count` names a non-empty event |
| `PhotoCamera.EventOutOfRange` | import.rb:62-76 | an id before the first or after `@count` names an empty event |
| `PhotoCamera.LatestIsNewest` | import.rb:78-80 | with a threshold of zero or more, `latest` is non-empty, starts with the newest record and is the prefix of `slist` with id 1 |
| `PhotoCamera.FlistTagged` | import.rb:69 | through the shared records every entry of `flist` is in `slist` and carries an id between the first and `@count` |
| `EventSegments.Splits` | import.rb:66 | the hours test is a comparison of the gap in seconds with `hours * 3600`; a gap equal to it does not split |
| `EventSegments.IdsFrom` | import.rb:65-71 | the tagging from a given base time and counter gives one id per time |
| `EventSegments.EventIds` | import.rb:62-71 | the ids of a list of times: one per time |
| `EventSegments.IdsFromStep` | import.rb:65-71 | each id after the first is the one before, plus one when the gap between the two times splits |
| `EventSegments.EventIdsFirst` | import.rb:62-69 | the first record gets id 1, or 2 when the threshold is negative |
| `EventSegments.EventIdsStep` | import.rb:65-71 | an id is one more than the one before iff the gap splits, and equal to it iff not |
| `EventSegments.EventIdsUnitSteps` | import.rb:65-71 | each id is the one before or one more |
| `EventSegments.EventIdsMonotone` | import.rb:65-71 | ids never decrease along `slist` |
| `EventSegments.EventIdsDense` | import.rb:62-71 | every value from the first id to the last is the id of some record |
| `EventSegments.Filter` | import.rb:75 | `find_all` over the ids selects at most as many elements as there are |
| `EventSegments.FilterMembers` | import.rb:75 | an element is selected for `n` iff it sits at a position whose id is `n` |
| `EventSegments.FilterBlock` | import.rb:75 | with non-decreasing ids, the selection for `n` is the slice from the first id `>= n` to the first id `> n` |
| `EventSegments.GroupsBlock` | import.rb:75 | with non-decreasing ids, the selections for `a..b` concatenated are one slice |
| `EventSegments.GroupsPartition` | import.rb:75 | with non-decreasing ids, the selections from the first id to the last give the whole list back |
| `EventSegments.FilterAbsent` | import.rb:75 | an id no position carries selects nothing |
| `EventSegments.FilterPresent` | import.rb:75 | the element at a position with id `n` is selected for `n` |
| `EventSegments.ExampleDay` | import.rb:62-71 | photos at 10:00, 9:50, 8:00, 7:55 and 6:00 with a one-hour threshold get ids 1, 1, 2, 2, 3 |
| `EventExpression.FirstIllegal` | import.rb:99 | `val =~ /[^0-9\,\-]/` is nil iff every character is a digit, `,` or `-`; otherwise it is the index of the first other character |
| `EventExpression.ParseEvents` | import.rb:96-111 | fails iff the value holds a character other than a digit, `,` or `-`; otherwise returns Events of the split pieces |
| `EventExpression.Fields` | import.rb:103 | at least one field, and no field contains a comma |
| `EventExpression.JoinFields` | import.rb:103 | joining the fields with commas gives the value back |
| `EventExpression.FieldsJoin` | import.rb:103 | splitting comma-free pieces joined with commas gives the pieces back |
| `EventExpression.DropTrailingEmpty` | import.rb:103 | `split` keeps a prefix of the fields; every dropped field is empty and the last kept one is not |
| `EventExpression.RubySplit` | import.rb:103 | `val.split(",")` gives comma-free pieces, the last one non-empty, a prefix of the fields with only empty fields dropped |
| `EventExpression.FindRangeFrom` | import.rb:104 | a match of `(\d)-(\d)` from an offset yields two single digits |
| `EventExpression.FindRange` | import.rb:104 | a match of `(\d)-(\d)` in a piece yields two single digits |
| `EventExpression.FindRangeCorrect` | import.rb:104-105 | `(\d)-(\d)` fails iff no digit-hyphen-digit occurs; otherwise it yields the digits of the leftmost occurrence |
| `EventExpression.FindRangeFromCorrect` | import.rb:104-105 | the same for the search from a given offset |
| `EventExpression.Range` | import.rb:105 | `Range.new(a, b).to_a` is `a, a+1, ..., b`, empty when `a > b` |
| `EventExpression.LastRange` | import.rb:103-109 | the index of the last piece holding a range, with no range piece after it, or -1 |
| `EventExpression.StepCases` | import.rb:104-108 | a piece without a range is appended as a string and keeps the list before it; a range piece replaces the list, whatever it held, by the keys of its own range, at most ten single-digit numbers |
| `EventExpression.EventsMembers` | import.rb:103-110 | every number in `Options[:events]` is a single digit and every string is one of the pieces |
| `EventExpression.EventsAppend` | import.rb:103-109 | handling one more piece as the loop body does turns Events of the pieces so far into Events of all of them |
| `EventExpression.EventsPrefixStep` | import.rb:103-109 | the events of the first `i + 1` pieces are one loop turn applied to those of the first `i` |
| `EventExpression.RangeResets` | import.rb:104-105 | a range piece discards every piece before it: the parse of the whole list equals the parse from that piece on |
| `EventExpression.NoHyphenOnlyStrings` | import.rb:103-107 | a value without a hyphen gives only strings, which select no record |
| `EventExpression.ExampleRangeReplaces` | import.rb:103-109 | `-e 1,3-5` gives the events 3, 4, 5 |
| `EventExpression.ExampleMultiDigit` | import.rb:104-105 | `-e 12-15` gives no event: the match is `2-1` |
| `EventExpression.ExampleSingleNumber` | import.rb:103-107 | `-e 3,,` gives the string "3" and nothing for the trailing commas |

## Left out

- `Find.find`, `File.ftype` and `File.mtime` are not modelled. The walk is an input
  sequence of entries, in the order `Find.find` yields them.
- The `rescue` in `make_list` (import.rb:52-54), which prints the message and exits, is
  not modelled. Errors of the walk are outside the model.
- Modification times are whole seconds. Ruby's `Time` can carry a fraction of a second,
  which the model drops.
- `hours` is an exact real. Ruby's `to_f` division and comparison are floating point, so
  rounding at the threshold is not modelled.
- The display loop (import.rb:144-150) is not modelled because it is output only. It
  prints counts and dates, and it fails on an empty event.
- The copy and move loop (import.rb:128-142) is not modelled because it is file-system
  I/O.
- The `-c`, `-m`, `-t`, `-l` and `-v` handlers are not modelled, and neither is
  `OptionParser`'s own parsing of `ARGV`. They only set `Options` entries. The threshold
  appears as the `hours` parameter and the event list as `ParseEvents`' result.
- `-e` given without a value is not modelled. `val` is then nil and the Ruby code fails;
  the model takes a string.
- Non-ASCII case folding of the `/i` flag is not modelled, because only ASCII letters
  bear on "jpg" and "txt".
- The tie order of Ruby's sort is not modelled. `SortByTime` is an insertion sort. The
  contracts about ids, `@count` and the times along `slist` hold for every order of
  records with equal times; the order of those records within `slist` is the insertion
  sort's.
- The directory default `PHOTO_DIR` and `@dir` are folded into the walk.
- `protected` (import.rb:82) is not modelled. In Ruby only `initialize` calls `make_list`
  and `time_sort`, once each; in the model `MakeList` and `TimeSort` are public. A second
  `TimeSort` would overwrite each record's id, where a second `file.push(@count)` would
  append a fourth element and leave `file[2]` as it was.
- `attr_reader` is not modelled, because Dafny fields are readable.
- The constructor builds `flist` only. `OpenCamera` is `Camera.new`: it adds the
  `time_sort` call that `initialize` makes at import.rb:42.
