# Slack channel opener — verified model of the core

This project is a Dafny model of the core of a Raycast extension that opens Slack channels.
The extension keeps a list of channels in a JSON file. Users search it, open a channel by deep
link or web URL, give channels aliases, and replace the list by pasting an export.

The model covers three source files:

- `src/lib/slack.ts` (module `Slack`):
  - the deep link and web URL of a channel;
  - its icon, type label and display name;
  - the multi-word search, with its filter, its relevance score and its comparator;
  - the default ordering by channel kind, activity and name.
- `src/lib/storage.ts` (module `Storage`):
  - reading, validating and writing the storage file;
  - the update reminder;
  - adding and removing a custom alias.
  - The file is the object `Storage.ChannelFile`, whose field holds the parsed document, or
    nothing when the file is missing or unreadable.
- `src/update-channels.tsx` (module `UpdateChannels`):
  - the validation of pasted channel data and the notification it ends in;
  - the import, as a method on the storage file;
  - the "last updated" text.

Supporting modules:

- `Types` holds the records of `src/types.ts`. It also defines JavaScript truthiness for optional
  values, where an empty string counts as absent.
- `Strings` models the string built-ins the core relies on, with lower-casing on ASCII letters:
  - `toLowerCase`, `trim`, `split(/\s+/)`;
  - `indexOf`/`includes`/`startsWith`, `join(' ')`;
  - an ordinal `localeCompare`;
  - decimal formatting of a count.
- `Sorting` models `Array.prototype.filter` (`Filter`, which keeps input order) and
  `Array.prototype.sort` with a comparator as a stable insertion sort:
  - `SortSpec` on sequences;
  - `InsertionSort`/`SortedCopy` in place on an array, proved equal to `SortSpec`;
  - permutation, ordering and grouping lemmas for comparators of different strength.
  - stability for any comparator (`SortStable`): an element the comparator does not put after
    a later one stays before it.

Main results:

- Search:
  - The search keeps exactly the channels in which every query word occurs in one of the
    channel's fields. The filter keeps them in input order. Matching against the combined space-joined string admits nothing extra,
    because query words contain no white space.
  - A blank query returns the input unchanged.
  - With the stable insertion sort used to model `Array.prototype.sort`, searching is
    idempotent, and matches that the comparator does not separate keep their input order. Both
    depend on the sort: see `Slack.SearchIdempotent` under "Left out".
- Search comparator:
  - It is inconsistent for two channels that both equal the query, or both start with it: each
    claims to come first (`SearchComparatorNotAntisymmetric`).
  - On the pairs the sort actually moves, it is still a strict weak order
    (`SearchComparatorIsStrictWeakOrder`). So the result is fully ordered as exact matches,
    then prefix matches, then the rest by descending score and then by name.
  - The word-order penalty of the score is the same for every channel (`PenaltyCancels`), so
    only the bonuses separate two channels. "alpha-beta" and "beta-alpha" both earn 100 + 50
    for the query "alpha beta" and so tie at 140 (`AlphaBetaScores`). Between such a tie the
    lower-cased names decide (`ScoreThenName`).
- Default ordering:
  - Its comparator is not transitive (`DefaultComparatorNotTransitive`).
  - What holds for any input: the result is a permutation, grouped by kind in the order
    channel, group, im, mpim, and every adjacent pair is in comparator order.
  - The sort is stable (`DefaultOrderKeepsTies`, from `Sorting.SortStable`): channels of one kind with the same activity
    time keep their input order.
- Storage:
  - What is written is read back.
  - Alias updates touch only the first channel with the id.
  - An import replaces the file exactly when validation succeeds, and never otherwise. Every
    stored channel exports back to exactly the pasted one.

## Model

| member | source | states |
|---|---|---|
| Slack.SplitAtFirst | src/lib/slack.ts:4-6 | the first separator splits a link back into the two parts it was built from |
| Slack.DeepLinkRoundTrip | src/lib/slack.ts:4-6 | `GenerateSlackDeepLink`: the deep link carries exactly the team id and channel id (team id without `&`) |
| Slack.WebUrlRoundTrip | src/lib/slack.ts:8-15 | `GenerateSlackWebUrl`: the web URL carries exactly the team id and channel id (team id without `/`) |
| Slack.WebUrlIgnoresType | src/lib/slack.ts:10-14 | `GenerateSlackWebUrl`: both branches give the same URL: the channel kind does not change it |
| Slack.IconsAndLabelsDistinct | src/lib/slack.ts:33-61 | `GetChannelIcon`, `GetChannelTypeLabel`: different kinds get different icons and labels; no kind gets the fallback label "Channel" |
| Slack.FormatChannelNameShape | src/lib/slack.ts:63-69 | `FormatChannelName`, `BaseName`: with an alias "alias (base)", else the display name or name; an empty alias is no alias; a non-empty name gives a non-empty result |
| Slack.NormalizeQueryEmptyIff | src/lib/slack.ts:72-76 | `NormalizeQuery`: the normalized query is empty exactly when the query is white space only |
| Slack.LowerTruthy | src/lib/slack.ts:83-88 | `SearchTargets`: the targets are exactly the lower-cased non-empty fields |
| Slack.CombinedTargetAddsNothing | src/lib/slack.ts:91-97 | `Matches`: the combined-string test accepts a channel exactly when every word occurs in one field |
| Slack.FilterMatching | src/lib/slack.ts:81-98 | `Matches`: the filter keeps each matching channel as often as in the input and no other |
| Slack.FilterKeepsOrder | src/lib/slack.ts:81 | two matching channels come out of the filter in their input order |
| Slack.FilterOfMatching | src/lib/slack.ts:81-98 | filtering a list of matching channels returns it unchanged |
| Slack.Bonus | src/lib/slack.ts:117-119 | 100 exactly when the name starts with the word, 50 when it contains it elsewhere, 0 when absent |
| Slack.BonusTotal | src/lib/slack.ts:116-121 | the bonuses of n words lie between 0 and 100·n |
| Slack.ScoreIsBonusMinusPenalty | src/lib/slack.ts:116-121 | `Score`: the score is the bonus total minus 5·n·(n-1) |
| Slack.ScoreBounds | src/lib/slack.ts:113-123 | the score lies between -5·n·(n-1) and 100·n - 5·n·(n-1) |
| Slack.PenaltyCancels | src/lib/slack.ts:125-128 | score differences between channels are bonus differences |
| Slack.GetScore | src/lib/slack.ts:113-123 | the accumulating loop computes the score of the lower-cased name |
| Slack.ExactMatchFirst | src/lib/slack.ts:105-106 | `CompareForSearch`: a name equal to the query is placed before any other name, from both sides |
| Slack.PrefixMatchBeforeOthers | src/lib/slack.ts:109-110 | `CompareForSearch`: a name starting with the query is placed before one that neither equals nor starts with it |
| Slack.ScoreThenName | src/lib/slack.ts:125-131 | `CompareForSearch`: among other names the higher score comes first; equal scores are compared by name; 0 only for equal names |
| Slack.SearchComparatorNotAntisymmetric | src/lib/slack.ts:105-110 | two exact or two prefix matches each compare as first (-1 both ways) |
| Slack.SearchMovesIffKeyLess | src/lib/slack.ts:99-132 | the comparator is positive exactly when the key order puts the second channel first |
| Slack.SearchComparatorIsStrictWeakOrder | src/lib/slack.ts:99-132 | "compares greater" is asymmetric and negatively transitive |
| Slack.KeyLessSplits | src/lib/slack.ts:99-132 | the key order is negatively transitive |
| Slack.SearchChannels | src/lib/slack.ts:71-133 | `SearchResult`: returns the filtered list sorted with the search comparator |
| Slack.EmptyQueryReturnsInput | src/lib/slack.ts:74-76 | `SearchResult`: a blank query returns the channels unchanged |
| Slack.SearchKeepsExactlyTheMatches | src/lib/slack.ts:79-98 | the result is a sub-multiset: every channel in which each query word occurs in some field, as often as in the input |
| Slack.SearchResultOrdered | src/lib/slack.ts:99-132 | exact matches, then prefix matches, then the rest by descending score and ascending name |
| Slack.SearchIdempotent | src/lib/slack.ts:71-133 | with the modelled stable sort, searching the result again with the same query changes nothing |
| Slack.SearchKeepsOrderOfTies | src/lib/slack.ts:81-132 | two matching input channels, the later of which the key order does not put first (such as two names both starting with the query), keep their input order in the result |
| Slack.NameMatches | src/lib/slack.ts:83-97 | a channel whose lower-cased name contains every word passes the filter |
| Slack.SingleWordQuery | src/lib/slack.ts:72-79 | a lower-case query without white space normalizes to itself and is one word |
| Slack.AllThreeMatch | src/lib/slack.ts:81-98 | an exact, a prefix and a containing channel all pass a one-word filter, in order |
| Slack.ThreeByClass | src/lib/slack.ts:99-111 | containing, prefix and exact channels are sorted into exact, prefix, containing |
| Slack.ExactPrefixContainsExample | src/lib/slack.ts:71-133 | searching ["team-design", "design-review", "design"] for "design" (stated for any such word) gives exact, prefix, containing |
| Slack.AlphaBetaScores | src/lib/slack.ts:116-121 | "alpha-beta" and "beta-alpha" both score 140 for the words "alpha" and "beta" |
| Slack.SortChannels | src/lib/slack.ts:135-156 | `DefaultOrder`: returns a copy of the list sorted with the default comparator |
| Slack.DefaultComparatorWithinType | src/lib/slack.ts:145-154 | `CompareDefault`: within one kind: with both timestamps the newer first, otherwise by name |
| Slack.DefaultComparatorNotTransitive | src/lib/slack.ts:136-155 | there are three channels that the default comparator orders in a cycle |
| Slack.DefaultOrderKeepsTies | src/lib/slack.ts:149-151 | channels of one kind with the same activity time keep their input order |
| Slack.DefaultOrderProperties | src/lib/slack.ts:135-156 | `DefaultOrder`, `TypePriority`: the default order is a permutation, grouped by kind in priority order, and adjacent pairs are in comparator order |
| Sorting.Insert | src/lib/slack.ts:136 | inserting grows the list by one |
| Sorting.SortSpec | src/lib/slack.ts:136 | sorting keeps the length |
| Sorting.InsertPermutes | src/lib/slack.ts:99 | inserting adds exactly the inserted element |
| Sorting.SortPermutes | src/lib/slack.ts:99 | the sort is a permutation of its input |
| Sorting.SortThreeReversed | src/lib/slack.ts:99 | three strictly descending elements are reversed |
| Sorting.InsertionSort | src/lib/slack.ts:136 | sorting an array in place leaves it equal to the sort of its old contents |
| Sorting.SortedCopy | src/lib/slack.ts:136 | sorting a fresh copy returns the sort of the input |
| Sorting.InsertNext | src/lib/slack.ts:99 | one insertion step inserts the next element into the sorted prefix and leaves the rest |
| Sorting.InsertAt | src/lib/slack.ts:99 | insertion stops after the last element not greater than the new one |
| Sorting.InsertShape | src/lib/slack.ts:99 | every insertion puts the element after a non-greater neighbour and before greater ones |
| Sorting.InsertOrdered | src/lib/slack.ts:99 | insertion keeps a strict-weak-ordered list fully ordered |
| Sorting.SortOrdered | src/lib/slack.ts:99 | with a strict weak order, the sort is fully ordered |
| Sorting.InsertAdjacentOrdered | src/lib/slack.ts:136 | insertion keeps neighbours in order for any asymmetric comparator |
| Sorting.SortAdjacentOrdered | src/lib/slack.ts:136 | with any asymmetric comparator, neighbours in the sort are in order |
| Sorting.InsertGrouped | src/lib/slack.ts:145-146 | insertion keeps a list grouped by a rank the comparator compares first |
| Sorting.SortGrouped | src/lib/slack.ts:145-146 | the sort groups by a rank the comparator compares first |
| Sorting.SortOfOrdered | src/lib/slack.ts:99 | an already ordered list is left as it is |
| Sorting.InsertKeepsPrecedence | src/lib/slack.ts:136 | inserting keeps the relative order of the elements already placed |
| Sorting.InsertBehindNotGreater | src/lib/slack.ts:136 | an inserted element lands behind every element the comparator does not put after it |
| Sorting.SortStable | src/lib/slack.ts:136 | stability: an element that the comparator does not put after a later one stays before it, for any comparator |
| Sorting.Filter | src/lib/slack.ts:81 | `filter` keeps each accepted element as often as in the input and nothing else |
| Sorting.FilterOfKept | src/lib/slack.ts:81 | filtering a list whose every element is accepted returns it unchanged |
| Sorting.FilterKeepsOrder | src/lib/slack.ts:81 | two accepted elements come out of `filter` in their input order |
| Strings.Lower | src/lib/slack.ts:72 | lower-casing maps every character and keeps the length |
| Strings.LowerOfLower | src/lib/slack.ts:72 | a string without capitals is its own lower case |
| Strings.TrimStart | src/lib/slack.ts:72 | removes exactly the leading white space |
| Strings.TrimEnd | src/lib/slack.ts:72 | removes exactly the trailing white space |
| Strings.TrimEmptyIff | src/update-channels.tsx:56 | `Trim`: the trimmed text is empty exactly when the text is white space only |
| Strings.TrimWithoutEdges | src/lib/slack.ts:72 | a string without white space at either end is its own trim |
| Strings.TokenLength | src/lib/slack.ts:79 | a token runs up to the first white space |
| Strings.Words | src/lib/slack.ts:79 | the words are non-empty, hold no white space, and are none exactly for blank text |
| Strings.WordsJoinCollapse | src/lib/slack.ts:79 | the words joined by single spaces are the text with every white-space run between words made one space and none at the ends (`CollapseSpace`, a character-by-character reference) |
| Strings.JoinSpacedInjective | src/lib/slack.ts:79 | joining non-empty words without white space by spaces loses nothing: equal joins come from equal lists |
| Strings.WordsUnique | src/lib/slack.ts:79 | `Words` is the only list of non-empty white-space-free words whose join is the collapsed text, so the two lemmas above pin the words down |
| Strings.TokenLengthOfRun | src/lib/slack.ts:79 | a token ends where its white space starts |
| Strings.WordsOfToken | src/lib/slack.ts:79 | a single token is one word |
| Strings.WordsOfTwo | src/lib/slack.ts:79 | two tokens joined by a space are two words |
| Strings.IndexOfFrom | src/lib/slack.ts:117 | the first occurrence at or after the start, or -1 when there is none |
| Strings.ContainsIff | src/lib/slack.ts:96-97 | `Contains`: `includes` holds exactly when there is an occurrence |
| Strings.IndexOfZeroIffPrefix | src/lib/slack.ts:109-118 | `IndexOf`: `indexOf` is 0 exactly when the string starts with the word |
| Strings.CharOfOccurrence | src/lib/slack.ts:96-97 | every character inside an occurrence is a character of the word |
| Strings.OccurrenceInPart | src/lib/slack.ts:91-97 | an occurrence without spaces in "a b" lies in a or in b |
| Strings.OccurrenceInLeft | src/lib/slack.ts:91-97 | an occurrence in a is one in "a b" |
| Strings.OccurrenceInRight | src/lib/slack.ts:91-97 | an occurrence in b is one in "a b", shifted |
| Strings.ContainsAcrossSpace | src/lib/slack.ts:91-97 | a word without a space occurs in "a b" exactly when it occurs in a or in b |
| Strings.ContainsJoinIff | src/lib/slack.ts:91-97 | `JoinSpaced`: a word without a space occurs in the joined targets exactly when it occurs in one of them |
| Strings.CompareStrings | src/lib/slack.ts:131 | the comparison is -1, 0 or 1, and 0 exactly for equal strings |
| Strings.CompareStringsAntisymmetric | src/lib/slack.ts:131 | swapping the arguments negates the result |
| Strings.CompareStringsTransitive | src/lib/slack.ts:154 | "before" is transitive |
| Strings.NatToString | src/update-channels.tsx:81 | the numeral is non-empty and all digits |
| Strings.NatToStringRoundTrip | src/update-channels.tsx:90 | the numeral's digits read back as the number |
| Storage.ReadChannels | src/lib/storage.ts:12-33 | storage is read exactly when the file exists with a truthy version and a channel array, and it is the file as it is |
| Storage.ReadAfterWrite | src/lib/storage.ts:35-39 | `Encode`: storage written with a non-zero version is read back unchanged |
| Storage.WriteAfterRead | src/lib/storage.ts:35-39 | valid storage that is read and written back is the same file |
| Storage.GetChannels | src/lib/storage.ts:51-54 | the stored list, or the empty list without valid storage |
| Storage.GetLastUpdateTime | src/lib/storage.ts:56-61 | the update time exactly when storage is valid and has one |
| Storage.NewStorage | src/lib/storage.ts:41-49 | the written record reads back with exactly the given channels and time |
| Storage.ReminderThreshold | src/lib/storage.ts:63-69 | `ShouldShowUpdateReminder`: remind exactly when there is no update time or more than `reminderDays` whole days of milliseconds have passed |
| Storage.DefaultReminderAfterAWeek | src/lib/storage.ts:63 | with the default 7 days: no reminder exactly one week later, a reminder one millisecond after |
| Storage.FindChannelIndex | src/lib/storage.ts:75 | the index of the first channel with the id, or none when no channel has it |
| Storage.SetAliasEffect | src/lib/storage.ts:75-77 | `SetAlias`: only the first channel with the id changes, only in its alias; without one nothing changes |
| Storage.AddThenRemoveAlias | src/lib/storage.ts:71-91 | adding then removing an alias equals removing it; the channel ends with no alias |
| Storage.SameIdsSameIndex | src/lib/storage.ts:75 | the first-match index depends only on the ids |
| Storage.ChannelFile.constructor | src/lib/storage.ts:6 | the file starts with the given contents |
| Storage.ChannelFile.UpdateChannels | src/lib/storage.ts:41-49 | the file holds version 1, the time and exactly the channels |
| Storage.ChannelFile.AddCustomAlias | src/lib/storage.ts:71-80 | no write without storage or without the channel; otherwise the file with that channel's alias set |
| Storage.ChannelFile.RemoveCustomAlias | src/lib/storage.ts:82-91 | no write without storage or without the channel; otherwise the file with that channel's alias deleted |
| UpdateChannels.InvalidChannels | src/update-channels.tsx:76-78 | `MissingRequired`: the invalid channels are exactly those missing id, name, team id or type, with multiplicity |
| UpdateChannels.NoInvalidIffComplete | src/update-channels.tsx:76-82 | no channel is invalid exactly when every channel has all required fields |
| UpdateChannels.FromChannel | src/update-channels.tsx:76-77 | a stored channel, exported and pasted again, has every required field exactly when its id, name and team id are non-empty |
| UpdateChannels.ToChannels | src/update-channels.tsx:85 | the stored channels are the pasted ones, in order, every field kept: each exports back to exactly the pasted channel |
| UpdateChannels.ExportThenImport | src/update-channels.tsx:76-85 | channels with non-empty id, name and team id, exported and pasted back, pass the field check and are stored exactly as they were |
| UpdateChannels.ValidateSubmission | src/update-channels.tsx:55-85 | `HasStructure`: "No Data" exactly for blank text; on other text a syntax error gives its parser message and a missing version or channel array gives "Invalid data format"; missing fields exactly when some channel is invalid, with their count; success exactly for parsable, structured data with complete channels, and the stored channels export back to exactly the pasted ones |
| UpdateChannels.NumeralThen | src/update-channels.tsx:81 | a message that starts with a count's numeral reads that count back |
| UpdateChannels.SuccessToastReportsCount | src/update-channels.tsx:87-91 | `SubmitToast`: the success message reports the number of imported channels |
| UpdateChannels.MissingFieldsToastReportsCount | src/update-channels.tsx:80-81 | the failure message reports the number of invalid channels |
| UpdateChannels.ClipboardTestAgreesWithSubmit | src/update-channels.tsx:46-53 | `IsValidChannelJson`, `HasStructure`: on non-blank text the clipboard test accepts exactly what passes the format checks of the submission |
| UpdateChannels.HandleSubmit | src/update-channels.tsx:55-104 | shows the toast of the validation; on success the file holds exactly the pasted channels, on failure it is unchanged |
| UpdateChannels.DayRemainder | src/update-channels.tsx:112 | `diff % MS_PER_DAY` as JavaScript computes it: the sign of the dividend, smaller than a day in magnitude, and differing from the dividend by whole days |
| UpdateChannels.PluralIffMoreThanOne | src/update-channels.tsx:115-117 | the unit is plural exactly when the count is above one |
| UpdateChannels.FloorDivBounds | src/update-channels.tsx:111 | the floored quotient brackets the dividend |
| UpdateChannels.HoursInRange | src/update-channels.tsx:112 | for a past time the hours figure is the whole hours after the whole days, 0 to 23 |
| UpdateChannels.FormatLastUpdateDays | src/update-channels.tsx:110-115 | `FormatLastUpdate`, `Ago`, `AgoSuffix`: a day or more ago: the text starts with the number of whole days elapsed |
| UpdateChannels.HoursBranch | src/update-channels.tsx:116-117 | between an hour and a day: the hours text |
| UpdateChannels.FormatLastUpdateHours | src/update-channels.tsx:110-117 | `FormatLastUpdate`, `Ago`, `AgoSuffix`: an hour to a day ago: the text starts with the whole hours elapsed, 1 to 23 |
| UpdateChannels.FormatLastUpdateRecent | src/update-channels.tsx:118-120 | `FormatLastUpdate`: under an hour ago, or in the future: "Less than an hour ago" |

## Left out

- `openChannelInSlack` (src/lib/slack.ts:17-31) is left out. It opens a URL and, when a deep link fails, falls back to the web URL; the URLs it opens are modelled.
- File system and JSON:
  - The storage file is its parsed document (`Option<StoredDocument>`), so write failures and the directory creation are not modelled.
  - Missing files and unreadable files are the same `None`, and console logging is dropped.
  - `JSON.stringify` with indentation is not modelled.
  - JSON values other than the documented shapes (for example `null`, or a `version` that is a string) are not represented, and neither are extra fields.
- Pasted text:
  - The pasted text enters as text plus the outcome of `JSON.parse` (`ParseOutcome`). The syntax error message comes from the parser and is a parameter.
  - The fallback message "Invalid JSON data" (src/update-channels.tsx:99) is never shown in the model. Every exception in that block is an `Error`.
  - The clipboard reading of `loadInfo` is not part of this model. Its test `isValidChannelJson` is modelled on the parse outcome.
- `HandleSubmit`: does not model a failing `updateChannels` write, which the source reports as "Update Failed" with the write error.
- React state is not modelled: the loading flag, `pop()` and the form itself.
- Characters:
  - `toLowerCase` is modelled on ASCII letters only.
  - `\s` and `trim` use the ECMAScript white-space and line-terminator characters: tab, line feed, vertical tab, form feed, carriage return, space, U+00A0, U+1680, U+2000 to U+200A, U+2028, U+2029, U+202F, U+205F, U+3000 and U+FEFF. Characters added to Unicode category Zs after this list are not covered.
  - `localeCompare` is modelled as ordinal comparison of characters. Locale collation, which the source gets from the runtime, is not modelled.
- Sorting: `Array.prototype.sort` is modelled as a stable insertion sort.
  - The engine's algorithm may call the comparator on other pairs.
  - Because the search comparator is not antisymmetric and the default comparator is not transitive, another engine may order some inputs differently.
  - What is proved about the results rests on the insertion sort.
- Slack.SearchIdempotent: holds for the modelled stable sort only. Two names that both equal the query, or both start with it, compare as first both ways (src/lib/slack.ts:105, 109). The model keeps such a pair in input order (`SearchKeepsOrderOfTies`), but the language leaves their order to the engine. An engine whose sort reverses a run it sees as descending swaps the pair on each search, so a second search can differ from the first.
- Dates are integer milliseconds:
  - ISO date strings, their parsing, invalid dates (`NaN`) and the clock are left out.
  - The current time is a parameter.
  - `lastActivity` is an optional number of milliseconds, and every present timestamp counts as set. The source's empty timestamp string, which is falsy, is not represented.
- `shouldShowUpdateReminder`'s `reminderDays` is an integer, not an arbitrary JavaScript number.
- `ChannelType` is the four documented kinds. Unknown type strings are not representable, so the `default` branches of the icon and label switches (src/lib/slack.ts:43-44, 58-59) cannot be reached.
- Search examples with literal channel names are stated for any channel of the right kind of match, not for the literal strings, except for the two scores of "alpha-beta" and "beta-alpha".
- The archived filter and the preference handling in the command files are not part of this model. Those command files are `src/index.tsx`, and the form rendering of `src/update-channels.tsx`.
