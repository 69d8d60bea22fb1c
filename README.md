# Double-Checker duplicate detection, in Dafny

Double-Checker finds redundant ROM files in a folder. It has three steps:

1. It files every file of the ROM folder under a *base name*. The base name is the file name after these steps, in order:
   - the extension is dropped;
   - bracketed tags such as `(USA)` or `[b1]` are removed;
   - everything from the first `+` on is dropped;
   - a final sequel numeral is dropped, but only on long titles that contain a separator;
   - trailing junk and surrounding whitespace are trimmed;
   - the result is lower-cased.
2. It ignores members of multi-part sets, named by markers such as "(Disc 2)", "(Side B)", "Vol 1" or "Disk 2 of 4". A marker the rules do not catch, such as "Vol. 1" on its own, leaves the name in the scan (`DottedVolumeIsNotMultiPart`). Names that share a base name form a *duplicate group*, sorted.
3. The user picks one file per group to keep, and every other member of the group is listed for deletion, together with its cover image.

This project models that core and proves what it does. The modules are:

- **`JsText`** (`text.dfy`): the character classes JavaScript regular expressions use:
  - `\s` is WhiteSpace plus LineTerminator, which is also what `trim` removes;
  - `.` matches everything except a line terminator;
  - `\d` is the ASCII digits.

  It also holds ASCII case folding and two greedy scanners (`SkipForward`, `SkipBack`).
- **`MultiPart`** (`multipart.dfy`): the `MULTI_PART_PATTERNS` table as data (`Patterns`) and `IsMultiPart`.
  - A scanner decides each rule.
  - Lemmas prove the scanner equal to the declarative reading of each regular expression: keyword, `\s*`, a non-empty run of marks, closer. They also prove that the `i` flag makes the classification blind to case.
- **`BaseName`** (`basename.dfy`): `getBaseName`, one function per stage, each with its contract. On top of these:
  - case-insensitivity lemmas, stage by stage;
  - the "no tag survives" lemma;
  - worked keys, including the documented "R-Type II" case;
  - a proof that the function is *not* idempotent: a key containing a `.` is shortened again by a second pass.
- **`StringOrder`** (`ordering.dfy`): the order `Array.prototype.sort` uses on strings.
  - It is proved total, and two sorted permutations of a list are proved equal.
  - `SortInPlace` is an in-place insertion sort on an `array<string>`. Its result is proved sorted and a permutation of its input.
- **`Grouper`** (`grouper.dfy`): `scanForDuplicates`.
  - It is specified by `NamesFor`, the names filed under a key in folder order, and by `DuplicateGroups`.
  - The imperative `ScanForDuplicates` fills a map with one loop, as the source does. It then keeps the keys with more than one name and sorts each list in place.
  - Lemmas prove three things. The groups are disjoint. Every member of a group is a non-multi-part file with that key. The result does not depend on the order in which the folder lists its entries.
- **`Deletion`** (`deletion.dfy`): the first half of `deleteSelectedFiles`, up to the confirmation.
  - `PlanDeletion` builds `filesToDelete` with the source's nested loops. Its result states the folder guard, the empty-list case and a missing selection.
  - Lemmas prove four things:
    - a file is listed exactly when it is a member of a group and not that group's kept file;
    - a kept file is never listed;
    - with the default selection (the first, smallest file of each group), everything but the first member of each group is listed;
    - the image names tried for a ROM are built from its stem.

A base name never ends in `_`. So `duplicateGroups`, a plain object keyed by base name, can never receive the key `__proto__`. The map model therefore needs no special case for it.

## Model

| member | source | states |
|---|---|---|
| MultiPart.IsMultiPart | script.js:77-79 | The classifier: some rule of `Patterns`, the nine rules of script.js:16-30 as data, matches at some position of the name; its meaning is proved by `IsMultiPartIffOccurs` and `IsMultiPartIgnoresCase` |
| MultiPart.MatchesAt | script.js:16-30 | Whether one rule of the table matches at one position, decided by scanning; proved equal to the rule's regular expression by `MatchesIffRegex` |
| MultiPart.IsMultiPartIffOccurs | script.js:77-79 | A name is multi-part exactly when one of the table's regular expressions, read declaratively, matches at some position of it |
| MultiPart.MatchesIffRegex | script.js:16-30 | For every rule of the table's shape, the scanner accepts at a position exactly when the rule's regular expression matches there |
| MultiPart.PatternsWellFormed | script.js:16-30 | Every bracketed rule of the table has marks that are case-blind and are neither whitespace nor `)`, and the second word of the mission-disk rule is non-empty and does not start with whitespace; the loose rule needs no condition. So each scanner is exact |
| MultiPart.BracketedIffRegex | script.js:18-24 | `\(kw\s*[marks]+\)` matches at a position exactly when the bracketed scanner accepts there |
| MultiPart.PhraseIffRegex | script.js:25 | `\(mission\s*disk\)` matches at a position exactly when the phrase scanner accepts there |
| MultiPart.LooseKeywordIffRegex | script.js:29 | `kw\s*[\dIVX]+` matches at a position exactly when the scanner accepts there |
| MultiPart.LooseIffRegex | script.js:29 | The unbracketed alternation matches exactly when one of its keywords does |
| MultiPart.MatchesAtLower | script.js:17-29 | Under the `i` flag a rule matches the lower-cased name at a position exactly when it matches the name there |
| MultiPart.IsMultiPartIgnoresCase | script.js:77-79 | A name and its lower-cased form are classified alike |
| MultiPart.DiscMarkerIsMultiPart | script.js:18 | "Mission Pack (Disc 2).rom" is part of a multi-part set |
| MultiPart.LooseRuleMatchesInsideWords | script.js:29 | "Particle Storm (USA).rom" counts as multi-part, because "part" followed by the letter i matches the unbracketed rule |
| MultiPart.LooseRuleMatchesVolInsideWords | script.js:29 | "Revolver (Europe).rom" counts as multi-part, because "vol" followed by v matches the unbracketed rule |
| MultiPart.BracketedRuleNeedsOpener | script.js:18-25 | The eight bracketed rules match only at a `(` of the name |
| MultiPart.LooseRuleNeedsInitial | script.js:29 | The loose rule matches with a keyword only where the name holds that keyword's initial, in either case |
| MultiPart.DottedVolumeIsNotMultiPart | script.js:16-30 | "Game Vol. 1.rom" is not part of a multi-part set: the `.` after "Vol" stops the loose rule, and no rule is bracketed there |
| BaseName.LastIndexOf | script.js:83 | -1 when the character is absent, else the index of its last occurrence |
| BaseName.StripExtension | script.js:83 | When a `.` occurs after the first character, the result is the non-empty text before the last `.`; otherwise the name is unchanged |
| BaseName.StripExtensionOf | script.js:83 | A non-empty stem followed by `.` and a dot-free extension gives back the stem |
| BaseName.TagLength | script.js:87 | A match found at the start is at least two characters long and ends with a closing bracket |
| BaseName.RemoveTags | script.js:87 | The tag removal never lengthens the name, and leaves a name without an opening bracket unchanged |
| BaseName.RemoveTagsKeepsChars | script.js:87 | Every character of the result occurs in the input |
| BaseName.RemoveTagsLeavesNoTag | script.js:87 | Without line terminators, no opening bracket in the result is followed anywhere later by a closing bracket |
| BaseName.UnclosedOpenerSurvives | script.js:87 | A name with no closing bracket is left unchanged, including any opening bracket |
| BaseName.RemoveTagsPlainPrefix | script.js:87 | Text with no opening bracket that does not end in whitespace passes through unchanged ahead of the rest |
| BaseName.RemoveTagsLeadingTag | script.js:87 | Whitespace, an opening bracket, tag text and a closing bracket at the start are cut out together |
| BaseName.RegionTagDropped | script.js:85-87 | "Super Game (USA).rom" has the key "super game" |
| BaseName.BeforeFirstPlus | script.js:90 | The result has no `+`, is a prefix of the input, and when shorter is followed there by a `+` |
| BaseName.SequelNumeralHasNoSpace | script.js:96 | A sequel numeral is non-empty and holds no whitespace, opening or closing bracket, `+` or `.` |
| BaseName.StripSequelNumeral | script.js:96 | The result is a prefix; it is shorter exactly when some suffix matches `\s+(?:\d+\|I\|…\|VIII)$` (case-blind); the removed suffix is the leftmost match |
| BaseName.SequelGuard | script.js:95 | The guard of the sequel stage: a `-` or `:` in a title longer than 15 characters; `ShortSequelTitleKept` shows a title it rejects |
| BaseName.StripSequel | script.js:95-97 | The result is a prefix; it is shorter only when the guard holds and the removed part is a whitespace-and-numeral suffix; without the guard the title is unchanged; under the guard it is shorter exactly when such a suffix exists |
| BaseName.StripSequelDropsNumeral | script.js:95-97 | Under the guard, a non-empty title that does not end in whitespace, followed by a space and a numeral, loses exactly the space and the numeral |
| BaseName.ShortSequelTitleKept | script.js:92-97 | "R-Type II.rom" keeps its numeral: its key is "r-type ii" |
| BaseName.LongSequelTitleStripped | script.js:92-97 | "Long Title - Subtitle II.rom" has the key "long title - subtitle" |
| BaseName.TrimEnd | script.js:100 | The result is a prefix, does not end in whitespace, and only whitespace was removed |
| BaseName.TrimStart | script.js:100 | The result is a suffix, does not start with whitespace, and only whitespace was removed |
| BaseName.Trim | script.js:100 | The result has no whitespace at either end, holds only characters of the input, and keeps a last character that was not whitespace |
| BaseName.DropTrailingJunk | script.js:100 | The result is a prefix, does not end in whitespace, `-` or `_`, and only such characters were removed |
| BaseName.Cleanup | script.js:100-103 | The result has no whitespace at either end, does not end in `-` or `_`, has no upper-case letter, and each character is the lower case of an input character |
| BaseName.CleanupOfCleanTitle | script.js:100-103 | A title that is already clean at both ends is only lower-cased |
| BaseName.GetBaseName | script.js:81-104 | A key has no `+`, no whitespace at either end, does not end in `-` or `_`, and has no upper-case letter |
| JsText.Lower | script.js:103 | `toLowerCase` on ASCII: the length is kept and each character is lower-cased on its own; the stages commute with it (`RemoveTagsLower` and the other `…Lower` lemmas) |
| BaseName.LastDotLower | script.js:83 | Lower-casing does not move the last `.` |
| BaseName.StripExtensionLower | script.js:83 | The extension stage commutes with lower-casing |
| BaseName.TagLengthLower | script.js:87 | The tag match at the start is the same on the lower-cased name |
| BaseName.RemoveTagsLower | script.js:87 | The tag stage commutes with lower-casing |
| BaseName.BeforeFirstPlusLower | script.js:90 | The `+` stage commutes with lower-casing |
| BaseName.SequelNumeralLower | script.js:96 | A word is a sequel numeral exactly when its lower-cased form is one |
| BaseName.StripSequelNumeralLower | script.js:96 | Stripping the numeral commutes with lower-casing |
| BaseName.SequelCutLower | script.js:96 | The numeral is cut at the same place in the lower-cased text |
| BaseName.StripSequelLower | script.js:95-97 | The guarded sequel stage commutes with lower-casing |
| BaseName.DropTrailingJunkLower | script.js:100 | The junk stage commutes with lower-casing |
| BaseName.TrimEndLower | script.js:100 | Trimming the end commutes with lower-casing |
| BaseName.TrimStartLower | script.js:100 | Trimming the start commutes with lower-casing |
| BaseName.CleanupLower | script.js:100-103 | The cleanup gives the same result on the lower-cased text |
| BaseName.BaseNameIgnoresCase | script.js:81-104 | A file name and its lower-cased form have the same key |
| BaseName.SameKeyAcrossCase | script.js:81-104 | Names that differ only in letter case have the same key |
| BaseName.NoTagInLower | script.js:103 | Lower-casing creates no bracketed tag |
| BaseName.NoTagInCleanup | script.js:100-103 | The cleanup creates no bracketed tag |
| BaseName.NoTagInBaseName | script.js:81-104 | A key of a name without line terminators holds no opening bracket followed later by a closing one |
| BaseName.PlainTitleKey | script.js:81-104 | A clean title without brackets, `+` or the long-title guard, plus an extension, has the lower-cased title as key; a final numeral stays |
| BaseName.TaggedTitleKey | script.js:81-104 | Such a title followed by ` (tag)` and an extension has the lower-cased title as key |
| BaseName.SequelTitleKey | script.js:81-104 | A clean guarded title followed by a space, a numeral and an extension has the lower-cased title, without the numeral, as key |
| BaseName.DottedNameShrinks | script.js:81-104 | A name with a `.` after its first character has a strictly shorter key |
| BaseName.KeyWithDotIsNotFixed | script.js:81-104 | A key that still holds a `.` after its first character is changed by a second pass, so the function is not idempotent |
| BaseName.SecondPassChangesKey | script.js:81-104 | "Super Mario Bros. 3.nes" has the key "super mario bros. 3", whose own key is "super mario bros" |
| StringOrder.LessEq | script.js:143 | The order `sort()` uses on strings: character by character, a proper prefix first; proved a total order by the four lemmas below |
| StringOrder.LessEqReflexive | script.js:143 | The default sort order places every string no later than itself |
| StringOrder.LessEqAntisymmetric | script.js:143 | Two strings each no later than the other are equal |
| StringOrder.LessEqTransitive | script.js:143 | The default sort order is transitive |
| StringOrder.LessEqTotal | script.js:143 | Any two strings are comparable |
| StringOrder.AdjacentSortedIsSorted | script.js:143 | A list ordered between neighbours is ordered between every pair |
| StringOrder.SortedUnique | script.js:143 | Two sorted lists with the same elements are equal, so the sorted group is determined by its members |
| StringOrder.InsertBack | script.js:143 | One insertion pass extends the ordered prefix by one element, leaves the elements after it untouched, keeps the prefix a permutation of what it held, and so the whole array too |
| StringOrder.SortInPlace | script.js:143 | `files.sort()` leaves the array sorted and a permutation of what it held |
| Grouper.Filing | script.js:118-127 | Where the scan files an entry: folders, multi-part names and empty keys nowhere, everything else under its key; what that means for the groups is proved by `GroupMember` and `SharedKeyIsGrouped` |
| Grouper.FilingIgnoresCase | script.js:118-127 | A file name and its lower-cased form are filed in the same place |
| Grouper.NamesFor | script.js:118-132 | The names filed under one key, in folder order; never more names than entries; its members are characterised by `NamesForMembers` |
| Grouper.NamesForSkip | script.js:118-124 | An entry that is not filed adds no name under any key |
| Grouper.NamesForFile | script.js:127-131 | A filed entry appends its name under its own key and under no other |
| Grouper.FileEntries | script.js:115-132 | After the first loop, a key is present exactly when some name is filed under it, and it holds those names in folder order |
| Grouper.KeepDuplicates | script.js:140-145 | The kept keys are exactly those with more than one name; each list is sorted and a permutation of the candidate list |
| Grouper.DuplicateGroups | script.js:140-145 | What `duplicateGroups` holds after the scan: a key exactly when two or more names are filed under it, holding those names sorted; `GroupsOfUnique` shows only one map fits |
| Grouper.ScanForDuplicates | script.js:106-149 | The groups are exactly the keys shared by two or more filed names, each holding those names sorted |
| Grouper.NamesForMembers | script.js:118-132 | A name is filed under a key exactly when some entry of that name is filed under that key |
| Grouper.GroupMember | script.js:115-145 | Every group member is a file of the folder, not multi-part, whose key is the group's non-empty key |
| Grouper.GroupsDisjoint | script.js:115-145 | No name is in two groups |
| Grouper.NamesForTwo | script.js:118-132 | Two entries filed under the same key give that key more than one name |
| Grouper.SharedKeyIsGrouped | script.js:115-145 | Two distinct eligible files with the same non-empty key are in that key's group |
| Grouper.NamesForOnce | script.js:118-132 | In a folder of distinct names, each name is filed at most once under any key |
| Grouper.GroupNamesDistinct | script.js:115-145 | In a folder of distinct names, a group holds no name twice |
| Grouper.NamesForAppend | script.js:118-132 | Scanning two runs of entries files the first run's names, then the second's |
| Grouper.NamesForPermutation | script.js:118-132 | Reordering the entries permutes the names filed under each key |
| Grouper.GroupsOfUnique | script.js:140-145 | The groups are determined by the entries |
| Grouper.GroupsOfPermutation | script.js:140-145 | Entries listed in another order give the same groups |
| Grouper.ScanOrderIndependent | script.js:115-145 | The scan's groups do not depend on the order in which the folder lists its entries |
| Deletion.PlanDeletion | script.js:249-268 | No folders gives the folder error; a group without a kept file gives the missing-selection outcome; otherwise the delete list, or "nothing to delete" exactly when it is empty |
| Deletion.Rejected | script.js:258-262 | The members of one group other than the kept file, in group order; never longer than the group; characterised by `RejectedMembers`, `RejectedLength` and `RejectedAllBut` |
| Deletion.DeleteList | script.js:255-263 | `filesToDelete`: the rejected members of each group, group after group; characterised by `DeleteListMembers` |
| Deletion.RejectedMembers | script.js:258-262 | A group member is listed exactly when it is not the kept file |
| Deletion.RejectedLength | script.js:258-262 | A group of distinct names that holds the kept file lists all but one member |
| Deletion.RejectedAllBut | script.js:258-262 | A group that does not hold the kept name has every member listed |
| Deletion.DeleteListMembers | script.js:255-263 | A file is listed exactly when it belongs to some group and is not that group's kept file |
| Deletion.KeptNeverDeleted | script.js:255-263 | When groups share no name, a group's kept member is never listed |
| Deletion.ScannedGroupsAreDisjoint | script.js:140-145 | The scan's groups share no name |
| Deletion.DeleteListNotEmpty | script.js:255-268 | A group member other than the kept file makes the list non-empty |
| Deletion.ScannedGroupsHaveTwo | script.js:140-145 | Every group of the scan has at least two members |
| Deletion.DefaultSelection | script.js:223 | The default choice picks one member of every group |
| Deletion.DefaultKeepsFirstInOrder | script.js:223 | In a sorted group, the default kept file comes no later than any member |
| Deletion.DefaultDeletesAllButFirst | script.js:223 | With the default choice on the scan's groups of a folder of distinct names, exactly the members after the first of each group are listed |
| Deletion.ImageStem | script.js:189 | The stem is a prefix; when the name has a `.` it ends just before the last one, and when it has none the stem is empty |
| Deletion.ImageNames | script.js:189-191 | One image name per image extension, in the order of `IMAGE_EXTENSIONS`: the name without its extension plus the image extension when a `.` follows the first character, else the bare image extension |
| Deletion.ImageStemIsStrippedName | script.js:298 | With a `.` after the first character, the image stem is the name without its extension |
| Deletion.UndottedNameHasBareImageNames | script.js:298-301 | A ROM name without a `.` looks for images named by the bare extensions |

## Left out

- User interface: the DOM, buttons, status bar, progress bar, result list, visual selection and timers are left out. So are `console.log` and `console.warn`, the confirmation dialog and the deletion loop that follows it. None of them decides which files are grouped or listed.
- File-system access is left out. The folder pickers and `removeEntry` are not modelled. The folder iterator becomes a `seq<Entry>`, and "both folders chosen" becomes the boolean `foldersChosen`. Errors thrown during the scan are not modelled.
- The scan's guard for a missing ROM folder only reports a status and returns. It is not modelled.
- The image lookup shown next to each group calls `getFileHandle` on the image folder. Only the candidate image names (`ImageNames`) are modelled.
- The checked radio button is looked up with a CSS selector. Here it is the `selection` parameter, a map from group key to the kept name. A group without a checked button makes `.value` of `null` throw. Here that is the `SelectionMissing` outcome.
- Deletion.PlanDeletion: the order in which `for..in` visits the keys of `duplicateGroups` is the `order` parameter, and is not derived from key insertion order.
- Grouper.KeepDuplicates: the `Map` is walked in an arbitrary order (`:|`) rather than insertion order. The groups it produces do not depend on that order.
- JsText.Lower: `toLowerCase` is modelled on the ASCII letters only. Non-ASCII upper-case letters are left as they are.
- Strings are sequences of Unicode scalar values. JavaScript measures length (`length > 15`) and sorts in UTF-16 code units, so the model can differ from the source for characters outside the Basic Multilingual Plane.
- Regular expressions are modelled only as far as the table of multi-part patterns and the three `replace` calls of `getBaseName` use them. No general regex engine is modelled.
- BaseName.GetBaseName: the function is not idempotent, so no idempotence is claimed. `KeyWithDotIsNotFixed` and `SecondPassChangesKey` show where it fails.
