# Employee management console — Dafny model

A model of the core of `EmployeeApp`, a console program that keeps employee
documents in a MongoDB collection `employees`. The model covers these parts of
what the program does to a document and to the collection between reading a
line from the console and printing the outcome:

- the input clean-up the program applies: `trim`, ASCII `toLowerCase`,
  `isBlank`, `split(",")`; e-mail normalisation; the `\d{4}-\d{2}-\d{2}` date
  shape check; and the skill-list parser;
- the three commands that change the collection: add, update and delete by
  e-mail;
- the two searches with a fixed meaning: exact department match, and the
  inclusive joining-date range;
- listing one page of five documents sorted by name or by joining date;
- department statistics, the `$group`/`$sum: 1` aggregation.

The collection is a value, `Store = seq<Employee>`, in natural (insertion)
order. Add and update are pure functions from the store and the raw console lines to a
`Reply(status, store)`. The status is the message the program prints:
`Added | EmailExists | InvalidDate` or `Updated | NotFound | NoChanges`. The
store is the collection afterwards. Delete by e-mail prints the same message
whatever happens, so it returns only the store afterwards. The store operations the program relies on
are modelled by their documented meaning:

- `find(eq(...)).first()`, `updateOne` and `deleteOne` act on the first
  matching document;
- `find(filter)` returns every matching document;
- `$gte`/`$lte` and `sort` compare strings in code-point order;
- `skip`/`limit` cut a window out of the sorted cursor.

Modules, one per component:

- `JavaString`: `trim`, `isBlank`, `toLowerCase` and `split` with a one-char
  pattern and limit 0. It includes `split`'s rule that trailing empty fields
  are removed, and that the whole input comes back when the separator is
  absent.
- `LexOrder`: the string order used by the store; a total order.
- `Validation`: e-mail normalisation, the date shape and its chronological
  reading, skill parsing.
- `Employees`: the document, the collection, first-match and filter.
- `Commands`, `Search`, `Paging`, `Statistics`: the console operations.

Three behaviours of the code that are easy to misread:

- Update decides "blank" with `String.isBlank` (`Character.isWhitespace`), not
  with "empty after trimming". A department input of a single NUL char is not
  blank, so it is stored, although `trim` would strip it.
  `JavaString.TrimEmptyDoesNotMeanBlank` shows the two tests differ.
- Update stores the new department exactly as typed, untrimmed.
- The lower-case/trimmed e-mail invariant holds only for documents this program
  wrote. Lookups normalise their input, but stored documents are not
  re-normalised. `Employees.WellFormed` is therefore a hypothesis of the
  lemmas that need it, not something the store guarantees.

## Model

| member | source | states |
|---|---|---|
| JavaString.Trim | src/main/java/EmployeeApp.java:62 | `trim` never lengthens its input; what it returns starts and ends with a char above U+0020; an input already in that form comes back unchanged |
| JavaString.TrimWindow | src/main/java/EmployeeApp.java:73 | what `trim` keeps is one contiguous window of the input, and every char it drops on either side is at most U+0020 |
| JavaString.TrimEmptyIff | src/main/java/EmployeeApp.java:82 | `trim` returns the empty string exactly when every char of the input is at most U+0020 |
| JavaString.TrimStartDropsPrefix | src/main/java/EmployeeApp.java:62 | the leading half of `trim` removes a prefix made only of trimmable chars |
| JavaString.TrimEndDropsSuffix | src/main/java/EmployeeApp.java:62 | the trailing half of `trim` removes a suffix made only of trimmable chars |
| JavaString.TrimIdempotent | src/main/java/EmployeeApp.java:62 | trimming twice is trimming once |
| JavaString.BlankTrimsToEmpty | src/main/java/EmployeeApp.java:112-113 | an input `IsBlank` accepts (only ASCII whitespace, the `isBlank` test) trims to the empty string |
| JavaString.TrimEmptyDoesNotMeanBlank | src/main/java/EmployeeApp.java:112-113 | the converse fails: a lone NUL trims to empty yet is not blank, so the update skips only truly blank inputs |
| JavaString.ToLower | src/main/java/EmployeeApp.java:62 | `toLowerCase` keeps the length and maps each char on its own: upper-case ASCII letters to lower case, every other char unchanged |
| JavaString.ToLowerFacts | src/main/java/EmployeeApp.java:62 | lower-casing leaves no upper-case ASCII letter, keeps trimmed ends trimmed, and is the identity exactly on strings without upper-case letters |
| JavaString.Fields | src/main/java/EmployeeApp.java:80 | the comma-separated fields: at least one, none containing the separator, and the whole input when the separator is absent |
| JavaString.DropTrailingEmpty | src/main/java/EmployeeApp.java:80 | `split` with limit 0 removes only empty fields at the end, keeps the rest in order, and leaves no empty field last |
| JavaString.Split | src/main/java/EmployeeApp.java:80 | `split` gives the whole input when the separator is absent; otherwise the fields in order with only empty fields dropped, and none of them at the end, every piece separator-free |
| JavaString.JoinFields | src/main/java/EmployeeApp.java:80 | joining the fields with the separator gives back the input |
| JavaString.FieldsJoin | src/main/java/EmployeeApp.java:80 | splitting separator-free parts joined with the separator gives back the parts |
| JavaString.FieldsPrefix | src/main/java/EmployeeApp.java:80 | a separator-free prefix only extends the first field |
| LexOrder.LexLeReflexive | src/main/java/EmployeeApp.java:199-200 | the store's string order is reflexive |
| LexOrder.LexLeAntisymmetric | src/main/java/EmployeeApp.java:199-200 | two strings ordered both ways are equal |
| LexOrder.LexLeTransitive | src/main/java/EmployeeApp.java:199-200 | the order is transitive, so a range `start <= d <= end` implies `start <= end` |
| LexOrder.LexLeTotal | src/main/java/EmployeeApp.java:227-228 | any two strings are ordered one way or the other, so sorting is defined |
| LexOrder.LexLeConcat | src/main/java/EmployeeApp.java:199-200 | for prefixes of equal length, the prefixes decide unless they are equal, in which case the rests decide |
| Validation.NormalizeEmailFacts | src/main/java/EmployeeApp.java:62 | `NormalizeEmail`, the `trim().toLowerCase()` applied to every e-mail input (lines 62, 97, 136): a normalised e-mail is trimmed and lower-case; normalising is the identity exactly on such e-mails, hence idempotent |
| Validation.NormalizeEmailExample | src/main/java/EmployeeApp.java:62 | `" A@B.COM "` normalises to `"a@b.com"`, which normalises to itself |
| Validation.DateShapeIsTrimmed | src/main/java/EmployeeApp.java:73-74 | a date that passes the shape check is unchanged by `trim` |
| Validation.CalendarInvalidDateAccepted | src/main/java/EmployeeApp.java:74 | the shape check accepts `2023-02-30`, which reads as year 2023, month 2, day 30: the calendar is not checked |
| Validation.DigitsOrderIsNumeric | src/main/java/EmployeeApp.java:199-200 | on equal-length digit strings, string order is numeric order |
| Validation.DigitsNumberInjective | src/main/java/EmployeeApp.java:199-200 | equal-length digit strings with equal values are equal |
| Validation.DateOrderIsChronological | src/main/java/EmployeeApp.java:197-202 | on date-shaped strings, the store's string order is exactly year-month-day order |
| Validation.DateLexParts | src/main/java/EmployeeApp.java:199-200 | date-shaped strings compare by year field, then month field, then day field |
| Validation.FormatDateRoundTrip | src/main/java/EmployeeApp.java:72-74 | a date written zero-padded as `yyyy-MM-dd` passes the check and reads back as the same year, month and day |
| Validation.DateShapeIsFormatted | src/main/java/EmployeeApp.java:72-74 | every string `IsDateShape` accepts (the `\d{4}-\d{2}-\d{2}` test of lines 74 and 192) is the zero-padded rendering of its own year, month and day |
| Validation.ParseSkills | src/main/java/EmployeeApp.java:80-83 | every parsed skill is non-empty, trimmed and free of commas |
| Validation.TokensAreSkills | src/main/java/EmployeeApp.java:80-83 | trimming and dropping empties turns comma-free tokens into well-formed skills |
| Validation.NonEmptyElements | src/main/java/EmployeeApp.java:82 | the empty-string filter keeps only non-empty strings of its input |
| Validation.NonEmptyAppend | src/main/java/EmployeeApp.java:82 | the filter distributes over concatenation |
| Validation.ParseSkillsSeesAllFields | src/main/java/EmployeeApp.java:80-83 | removing `split`'s trailing empty fields makes no difference to the parsed skills |
| Validation.DroppedEmptiesAreIgnored | src/main/java/EmployeeApp.java:80-83 | trailing empty tokens add nothing after trimming and filtering |
| Validation.ParseJoinedSkills | src/main/java/EmployeeApp.java:80-83 | a non-empty list of well-formed skills, written comma-separated, parses back to itself |
| Validation.CleanTokensOfSkills | src/main/java/EmployeeApp.java:81-82 | trimming and filtering leave a list of well-formed skills unchanged |
| Validation.ParseSkillsExample | src/main/java/EmployeeApp.java:80-83 | `"Go, , Rust,"` parses to `["Go", "Rust"]` |
| Employees.IndexOfEmail | src/main/java/EmployeeApp.java:64 | `find(eq("email", e)).first()`: the first document with that e-mail, or none exactly when no document has it |
| Employees.Select | src/main/java/EmployeeApp.java:171 | `find(filter)` returns each matching document as often as it is stored, and no other |
| Employees.RemoveAt | src/main/java/EmployeeApp.java:137 | removing one document keeps the others in order and removes exactly one copy of it |
| Commands.Add | src/main/java/EmployeeApp.java:57-93 | duplicate normalised e-mail is refused first; then a bad trimmed date; otherwise exactly one document is appended with the e-mail normalised, the date trimmed, the skills parsed, and name and department as typed |
| Commands.AddPreservesWellFormed | src/main/java/EmployeeApp.java:64-91 | adding keeps every document well formed and every e-mail unique |
| Commands.AddPreservesEmailsUnique | src/main/java/EmployeeApp.java:64-91 | if the stored e-mails are distinct before an add they are distinct after it, whatever form the stored documents are in |
| Commands.AddedRecordIsReachable | src/main/java/EmployeeApp.java:62-67 | after an add, any spelling that normalises the same finds the new document, is refused by a second add, can update it, and deleting by it restores the store |
| Commands.Update | src/main/java/EmployeeApp.java:95-127 | not found exactly when no document has the normalised e-mail; "no changes" exactly when both inputs are blank; only the first match changes, with department set as typed and skills parsed, each only when its input is not blank |
| Commands.UpdatePreservesWellFormed | src/main/java/EmployeeApp.java:111-122 | an update keeps every document well formed and every e-mail unique |
| Commands.UpdateIdempotent | src/main/java/EmployeeApp.java:111-122 | repeating an update changes nothing further |
| Commands.NonBlankEmptySkillsClear | src/main/java/EmployeeApp.java:113-118 | the skills input `" , "` is not blank, so it replaces the skills with the empty list |
| Commands.DeleteByEmail | src/main/java/EmployeeApp.java:134-137 | the first document with the normalised e-mail is removed and the rest keep their order; with no such document the store is unchanged |
| Commands.DeletePreservesWellFormed | src/main/java/EmployeeApp.java:134-137 | deleting keeps the store well formed |
| Commands.DeleteRemovesTheEmail | src/main/java/EmployeeApp.java:134-137 | with unique e-mails no document keeps the e-mail after a delete, and a second delete is a no-op |
| Search.SearchByDepartment | src/main/java/EmployeeApp.java:168-172 | returns exactly the documents whose department equals the trimmed input, case-sensitively, each as often as stored |
| Search.SearchByDateRange | src/main/java/EmployeeApp.java:186-203 | rejects exactly when a trimmed bound fails the shape check; otherwise returns exactly the documents with `start <= joiningDate <= end` |
| Search.ReversedRangeIsEmpty | src/main/java/EmployeeApp.java:197-202 | a well-formed range whose start is after its end returns no documents, and no error |
| Search.DateRangeIsChronological | src/main/java/EmployeeApp.java:197-202 | for a stored document whose `joiningDate` passes the shape check, it is returned exactly when its date is between the bounds by year, month and day |
| Paging.Insert | src/main/java/EmployeeApp.java:227-228 | inserting into a sorted sequence keeps it sorted and adds exactly that document |
| Paging.SortBy | src/main/java/EmployeeApp.java:226-235 | the sort returns a rearrangement of the collection that is ascending on the chosen key |
| Paging.SortFieldOf | src/main/java/EmployeeApp.java:218-236 | sort choice 1 sorts by name, and every other choice by joining date |
| Paging.SkipIsWholePages | src/main/java/EmployeeApp.java:222-223 | `Skip`, the `(page - 1) * 5` of line 223, while it lies within a Java `int`: for page 1 and above it is a non-negative multiple of five skipping `page - 1` whole pages; below page 1 it is negative |
| Paging.Page | src/main/java/EmployeeApp.java:222-223 | a page is the window of at most five documents from position `(page - 1) * 5` of the sorted cursor, empty past the end |
| Paging.ListPage | src/main/java/EmployeeApp.java:214-236 | the listed page has the size the window formula gives, is sorted by the chosen key (name for choice 1, joining date otherwise), and holds only stored documents |
| Paging.PageOfSortedIsSorted | src/main/java/EmployeeApp.java:226-235 | a page cut from a sorted cursor is itself sorted |
| Paging.PageOfPosition | src/main/java/EmployeeApp.java:222-223 | for pages cut from one sorted cursor, the document at rank `i` appears on page `i / 5 + 1` in slot `i % 5`, so those pages cover the whole collection |
| Paging.PagesDisjoint | src/main/java/EmployeeApp.java:222-223 | two different pages cut from one sorted cursor together hold no more copies of any document than the collection |
| Paging.TiesCanRepeatAcrossListings | src/main/java/EmployeeApp.java:226-235 | each listing is a separate sorted query, so with six documents of one name, page 1 of one listing and page 2 of another can both show the fifth document while neither shows the sixth |
| Paging.SecondPageOfSeven | src/main/java/EmployeeApp.java:222-223 | with seven documents, page 2 holds the documents ranked 6 and 7 |
| Paging.SortedPermutationsShareKeys | src/main/java/EmployeeApp.java:227-228 | any two ascending arrangements of one collection agree key by key; only ties may be ordered differently |
| Paging.PageKeysIndependentOfTies | src/main/java/EmployeeApp.java:226-235 | whatever order the store gives to equal keys, a page shows the same sequence of keys |
| Statistics.Bump | src/main/java/EmployeeApp.java:253 | counting one more document raises the total by one |
| Statistics.BumpCounts | src/main/java/EmployeeApp.java:253 | counting one more document in department `d` raises the count of `d` by one and no other count |
| Statistics.BumpNames | src/main/java/EmployeeApp.java:252 | a department already grouped keeps the group names; a new one adds a group |
| Statistics.Tally | src/main/java/EmployeeApp.java:250-254 | one group per distinct department; each count equals the number of documents in that department and is at least 1; the groups are exactly the stored departments; the counts sum to the number of documents |
| Statistics.GroupCountIsHeadcount | src/main/java/EmployeeApp.java:250-254 | every group's count is its department's headcount, at least 1 |
| Statistics.OneGroupPerDepartment | src/main/java/EmployeeApp.java:252 | a department no document carries has no group, and one that some document carries has a group |
| Statistics.TallyExample | src/main/java/EmployeeApp.java:250-254 | two documents in one department and one in another give two groups, counting 2 and 1 |

## Left out

- Console I/O: prompts, `Scanner` reading, `nextInt`, the printed messages and the `toJson` rendering are not modelled. The raw lines are parameters, and the message a command prints is its status.
- The menu loop in `main` and invalid menu or search choices are not modelled. Their only effect is a message.
- `connectDB` and the MongoDB client are not modelled. The collection is a value, and the store's failures (network, server errors) are not modelled.
- Delete by ID is not modelled: `ObjectId` parsing and the `_id` field belong to the driver, not to this program. Only delete by e-mail is.
- The name search and the skill search are not modelled. Both hand user input to the server as case-insensitive regular expressions, and regular-expression matching is not modelled.
- JavaString.ToLower: only ASCII letters are lowered. Java's locale-dependent full Unicode mapping is not modelled.
- JavaString.IsWhitespace: only the ASCII whitespace of `Character.isWhitespace` is modelled. The Unicode space separators above U+007F are not.
- Paging.SkipIsWholePages: `Skip` is unbounded. Line 223 computes it in a 32-bit `int`, which wraps once `(page - 1) * 5` leaves the `int` range: page 500000000 gives a negative skip, and page -858993458 gives 1. The lemma requires the product to fit, and the wrapped values are not modelled.
- Paging.ListPage: requires `page >= 1` and `(page - 1) * 5` within a Java `int`. The program passes zero, negative or overflowed skips straight to the store, whose behaviour for them is not specified.
- Paging.PagesDisjoint: holds only for pages of one sorted cursor. Each listing runs its own query, so across separate listings documents with equal sort keys can repeat or be skipped (`TiesCanRepeatAcrossListings`). Only the keys on a page are fixed (`PageKeysIndependentOfTies`).
- Paging.SortBy: the store's order among equal keys is unspecified. The model fixes one, and `PageKeysIndependentOfTies` shows that pages agree up to ties.
- Statistics.Tally: the order of the groups the aggregation returns is unspecified. The model lists them in order of first appearance, and no lemma depends on that order.
- Delete reports "deleted" whether or not a document matched. The model returns the store only, unchanged when nothing matched.
- Concurrency between several console sessions on one collection is not modelled.
