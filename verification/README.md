# captain task store, modelled in Dafny

This project models the core of *captain* (`cap`), a command-line task
manager. *Dos* are tasks, asks, tells, brags and similar items. They can be
assigned to *tags* (the "crew"), carry a documentation record, and be
promoted to a `.do` file. There are also named message *templates*.

The model covers:

- **Records and store** (`model.dfy`).
  - The `Do`, `Tag`, `DoTag`, `DoDoc` and `Template` rows.
  - One table per entity. Keys come from an AUTOINCREMENT-style counter.
  - `DoTag` link rows have no key and may repeat. A do's tags load in tag-key order, each tag once per link to it.
  - The schema constraints are unique tag names and unique template names. The template index is taken to span deleted templates too.
  - Store operations: create, save (whole-row overwrite), lookup under a deletion filter, and tag and link handling.
- **The ORDER BY builder** (`order.dfy`).
  - `mapPriority`, the priority rank `CASE`, and `DoOrder`.
  - The diagnostics `DoOrder` prints.
  - The sort key each order gives a row.
  - The keys compare as SQLite compares values (`ordering.dfy`).
- **Queries** (`query.dfy`, `sorting.dfy`).
  - `log`, `today` and `crew`, each a filter, then a sort, then a limit.
  - An answer is specified as any correct top-n selection, because rows with equal keys may come back in any order.
  - A concrete insertion sort is proved to give such an answer.
- **Command transitions** (`commands.dfy`).
  - `do`, `brag`, `did`, `scratch`, `unscratch`, `set prio`, `recruit`, `rename`, `reassign`, `doc` and `view`.
  - Each one keeps the schema constraints.
  - Each one keeps the rule that a completed do has a completion time.
  - Each one keeps the rule that a do has at most one doc, so the doc a do loads is well defined.
- **Presentation** (`ansi.dfy`, `render.dfy`).
  - Escape stripping and display width.
  - The cell formatters.
  - The `log` table rows with doc mark, first tag and redaction.
  - The detail view.
- **Confirmation prompt** (`confirm.dfy`).
  - The key-event state machine.
  - The Yes/No prompt, with a characterisation of when it answers yes.
- **Templates** (`templates.dfy`).
  - The create, edit, delete and list guards and effects.
  - The yes/no answer parser.
  - The byte-counted preview.
- **Promotion** (`promote.dfy`).
  - The eligibility guard and the `.do` name normaliser.
  - The file layout, and the transition that marks a do promoted.

Several behaviours of the code are easy to misread:

- **Descending priority sort.** `--sort priority --order desc` lists *low* first, because it sorts the rank (1 = high) descending.
- **Redaction length.** The redacted description repeats the placeholder once per UTF-8 *byte*. It is therefore longer than the text for any non-ASCII description.
- **`doc` with empty text.** `doc` stores whatever the editor returns, even empty text. It never removes the documentation record.
- **`set prio`** only finds soft-deleted dos, so on a live do it reports "not found".
- **The unknown-sort warning** quotes the direction token, not the sort token.
- **`reassign`** adds a link and keeps the earlier ones. The new tag shows up in the do's key-ordered tag list, which is at the end only when no earlier tag has a larger key.

Inputs the program reads from the outside world are parameters:

- the current time, as whole seconds;
- the answer of the confirmation prompt;
- the text returned by the editor;
- the typed file name and the delete answer;
- whether the virtual file system accepted the file;
- the template engine's syntax check, as a predicate;
- the per-character display width, as a function `w`.

## Model

| member | source | states |
|---|---|---|
| `Text.TrimSpace` | cmd/template.go:68 | the result is the input without leading and trailing white space (Go's `unicode.IsSpace` set), and neither of its ends is white space |
| `Text.TrimSpaceIdempotent` | cmd/template.go:180 | trimming trimmed text changes nothing |
| `Text.TrimSpaceEmpty` | cmd/template.go:68-72 | the trimmed text is empty exactly when every character is white space |
| `Text.ByteLenBounds` | cmd/log.go:133 | Go's `len` (UTF-8 bytes) is at least the character count, equals it exactly for ASCII text, and is at most four times it |
| `Text.DecimalRoundTrip` | cmd/log.go:138 | the decimal id cell reads back as the id |
| `Ordering.KeyCmpTrans` | cmd/cli.go:265 | the ORDER BY comparison of composite keys is transitive, so sorting by it is well defined |
| `Ordering.KeyCmpAntisym` | cmd/cli.go:265 | the ORDER BY comparison is antisymmetric, and two keys tie only when equal |
| `Ordering.DescNumber` | cmd/cli.go:336 | a single numeric DESC term puts a row first exactly when its number is at least the other's |
| `Sorting.SortBy` | cmd/cli.go:265 | the sorted rows are a permutation of the input in key order |
| `Sorting.SelectTop` | cmd/cli.go:265-269 | sort-then-limit yields a correct top-n answer: rows of the pool, as many as LIMIT allows (all for a negative limit), in key order, none left out that sorts strictly before one kept |
| `Sorting.SelectAllIsPermutation` | cmd/cli.go:265 | with no limit the answer is a permutation of the filtered rows |
| `Model.CreateDo` | cmd/db.go:24-33 | a created do gets a non-zero key no row had, the creation time when none was given, priority medium when none was given (a column default assumed in Left out), and is otherwise stored exactly as built; other rows and tables are untouched |
| `Model.SaveDo` | cmd/cli.go:71 | saving overwrites exactly the saved row and keeps every other row and table |
| `Model.SaveThenFetch` | cmd/db.go:24-33 | fetching a saved do returns exactly the saved fields, and a saved deleted do is invisible to live lookups |
| `Model.FetchDo` | cmd/cli.go:61 | a lookup under a deletion filter finds the row exactly when it exists and passes the filter |
| `Model.TagByName` | cmd/cli.go:360 | finds the stored tag with that name, or reports that no tag has it |
| `Model.CreateTag` | cmd/db.go:39-42 | creating a tag fails exactly when the name is taken, and otherwise adds one tag under a fresh key with that name |
| `Model.SaveTag` | cmd/cli.go:366-367 | saving a renamed tag replaces only that tag, unless another tag already has the name, in which case nothing changes |
| `Model.DeleteLinksEffect` | cmd/commands_test.go:628-638 | deleting a do's links leaves it with no tags and every other do with exactly its own tags |
| `Model.TagsOf` | cmd/log.go:100 | the preloaded tags of a do are stored tags in key order, and each stored tag appears exactly as many times as there are links from the do to it |
| `Model.TagsOfUnique` | cmd/log.go:100 | those two properties determine the tag list: any list with them is the loaded one |
| `Model.FirstTagLowestKey` | cmd/log.go:122-125 | a do linked to a stored tag has a first loaded tag whose key is no larger |
| `Model.AddLinkTags` | cmd/cli.go:476-481 | adding a link adds exactly one more copy of that tag to the do's tags, and leaves every other do's tags as they were |
| `Model.AddLinkTagsLast` | cmd/cli.go:476-481 | the new tag lands at the end of the do's list exactly when no tag already listed has a larger key |
| `Model.DocOf` | cmd/cli.go:510-514 | the loaded doc is the lowest-keyed doc of the do, as `First` takes it, and the only one while each do has at most one doc; the zero record exactly when the do has none |
| `Model.DoTypeLabelsDistinct` | cmd/log.go:26-45 | the seven do type values are non-empty and pairwise distinct, so each matches exactly one case of `fmtDo`'s switch |
| `OrderBuilder.MapPriority` | cmd/cli.go:79-90 | "low" maps to low and "high" to high; every other string, including "med", "medium" and "", maps to medium |
| `OrderBuilder.PriorityRank` | cmd/cli.go:225-232 | the rank is 1 exactly for high, 3 exactly for low, 2 otherwise |
| `OrderBuilder.ParseColumnName` | cmd/cli.go:215-224 | every sortable column is selected by its own name |
| `OrderBuilder.DoOrder` | cmd/cli.go:199-247 | a known column name sorts by that column, ascending exactly when the direction is "asc"; "default" and every unknown name give the composite order |
| `OrderBuilder.Diagnostics` | cmd/cli.go:203-236 | a warning is printed for a direction other than asc/desc and for an unknown sort other than "default"; both quote the direction token |
| `OrderBuilder.SingleColumnOrder` | cmd/cli.go:215-223 | a single-column order compares that column's values, reversed for DESC |
| `OrderBuilder.PriorityOrder` | cmd/cli.go:224-232 | sorting by priority compares ranks: ascending puts high first, descending puts low first |
| `OrderBuilder.PriorityDescListsLowFirst` | cmd/cli.go:224-232 | with descending priority a low do sorts strictly before a high one, and the other way round ascending |
| `OrderBuilder.CompositeOrder` | cmd/cli.go:237-245 | the composite order puts incomplete before complete, then lower rank first, then newer first |
| `Query.Candidates` | cmd/cli.go:265-269 | the candidate rows are exactly the stored dos the WHERE clause admits |
| `Query.LogQuery` | cmd/cli.go:265-269 | `log` returns a correct top-n answer for the live, windowed rows under the `DoOrder` key |
| `Query.LogQueryRows` | cmd/cli.go:265-269 | every `log` row is stored and not deleted, there are at most n rows, they are in `DoOrder` order, and without `--all` none was completed before the look-back horizon |
| `Query.LogQueryComplete` | cmd/cli.go:265-269 | with no limit every admitted row is listed |
| `Query.TodayQuery` | cmd/cli.go:281-294 | `today` returns at most 100 rows, a correct top-n answer for live rows inside a one-day window under the composite order |
| `Query.TodayIsLog` | cmd/cli.go:281-294 | `today` equals `log -n 100 --sort default` with a one-day look-back, whatever the direction token |
| `Query.LinkCount` | cmd/cli.go:333-334 | a tag's count is zero exactly when no link points at it, and never more than the number of links |
| `Query.Mates` | cmd/cli.go:332-335 | the grouped rows are one per tag, each tag's name with its link count |
| `Query.MateOrderDescending` | cmd/cli.go:336 | rows in `count DESC` order have non-increasing counts |
| `Query.CrewQuery` | cmd/cli.go:332-337 | `crew` has one row per tag, every tag's row appears, every row is some tag's, and counts never increase down the list |
| `Commands.DoCmd` | cmd/cli.go:37-44 | `do` adds exactly one row, a live, incomplete, medium-priority task with no completion time and every flag false, and leaves every other row and table unchanged |
| `Commands.BragCmd` | cmd/cli.go:434-444 | `brag` adds exactly one row, a live, medium-priority brag completed at creation time with every flag false and no reason, and leaves every other row and table unchanged |
| `Commands.Did` | cmd/cli.go:61-75 | `did` changes a live do only when confirmed, and then sets completed and the completion time together and nothing else; otherwise the store is unchanged |
| `Commands.Scratch` | cmd/cli.go:147-159 | `scratch` finds only live dos and, when confirmed, sets only `deleted` |
| `Commands.Unscratch` | cmd/cli.go:174-187 | `unscratch` finds any do and, when confirmed, clears only `deleted` |
| `Commands.ScratchThenUnscratch` | cmd/cli.go:147-184 | scratching a live do and resurrecting it restores the original store |
| `Commands.ScratchHides` | cmd/cli.go:147-156 | a scratched do is no longer visible to live lookups but is to deleted-only ones |
| `Commands.SetField` | cmd/cli.go:97-120 | `set` rejects every field but "prio", finds only soft-deleted dos, and changes only their priority to the mapped value |
| `Commands.SetPrioMissesLiveDos` | cmd/cli.go:109-113 | `set prio` on a live do reports not found and changes nothing |
| `Commands.Recruit` | cmd/cli.go:307-313 | `recruit` aborts with the store unchanged exactly when the name is taken; otherwise the tags become the old tags plus one tag with that name under a fresh key, and no other table changes |
| `Commands.Rename` | cmd/cli.go:358-367 | `rename` keeps the tag's key and changes only its name, unless the new name belongs to another tag, when nothing changes |
| `Commands.Reassign` | cmd/cli.go:460-481 | `reassign` needs a live do and an existing tag, then appends exactly one link; the do gains one copy of that tag with the old ones kept, other dos' tags are untouched, and no other table changes |
| `Commands.DocCmd` | cmd/cli.go:495-552 | `doc` on a live do makes the edited text its documentation, reusing the existing record when there is one, adds at most the one new record, for that do, and leaves other dos' docs and every other table unchanged |
| `Commands.SaveDoc` | cmd/cli.go:545-552 | the save step updates the loaded doc or creates the first one under the next key, after which the do's doc holds the edited text; other dos' docs and other tables are unchanged, and each do keeps at most one doc |
| `Commands.ViewCmd` | cmd/cli.go:566-576 | `view` reports a missing live do, a do without documentation, or the do's own description with the text of its doc, the only one while each do has at most one |
| `Commands.DocThenView` | cmd/cli.go:540-588 | what `doc` saves is what `view` shows |
| `Ansi.StripAnsi` | cmd/log.go:87-91 | stripping never lengthens the text |
| `Ansi.StripPlain` | cmd/log.go:87-91 | text without ESC is unchanged by stripping |
| `Ansi.SgrPrefix` | cmd/log.go:87 | a leading ESC [ params m sequence is removed entirely |
| `Ansi.StripAppend` | cmd/log.go:87-91 | stripping distributes over a boundary where an ESC begins, since a match cannot run across it |
| `Ansi.Paint` | cmd/log.go:29 | colouring text does not change what stripping leaves |
| `Ansi.PaintStrips` | cmd/log.go:29 | coloured text without ESC strips back to itself |
| `Ansi.StripNotIdempotent` | cmd/log.go:87-91 | on ESC ESC [ m [ m a second strip removes more, so stripping is not idempotent |
| `Ansi.WidthFunc` | cmd/log.go:93-95 | the width is the summed character width of the stripped text, and of the text itself when it has no ESC |
| `Ansi.PaintWidth` | cmd/log.go:93-95 | colour does not change the measured width |
| `Ansi.WidthExamples` | cmd/log_test.go:198-217 | "hello" measures 5, red text in colour measures 3, and "" measures 0 |
| `Render.TypeLabelsDistinct` | cmd/log.go:26-45 | the seven known types print seven different labels, and "unknown" is printed exactly for a type that is not one of them |
| `Render.FmtDo` | cmd/log.go:26-45 | stripped, the type cell is the type's label for the seven known types and "unknown" for any other |
| `Render.FmtBox` | cmd/log.go:47-52 | the box is filled exactly when the do is completed |
| `Render.FmtPrio` | cmd/log.go:54-67 | stripped, the priority cell is the priority text; it is painted red exactly when the priority is high |
| `Render.FmtBool` | cmd/log.go:69-74 | stripped, a boolean shows as "true" or "false" |
| `Render.FmtDate` | cmd/log.go:76-85 | the date cell shows the completion time, underlined, when completed, and the creation time otherwise |
| `Render.Redact` | cmd/log.go:133 | the redacted text is one placeholder glyph per UTF-8 byte of the description |
| `Render.ShownDescription` | cmd/log.go:131-134 | the description is redacted exactly when the do is sensitive and `--unhide` is off |
| `Render.FmtRow` | cmd/log.go:116-146 | a row has the doc mark exactly when the doc exists, the first loaded tag's name or "", the id digits, and the shown description |
| `Render.RowTagLowestKey` | cmd/log.go:122-125 | the `For` cell of a do linked to a tag names a linked tag whose key is no larger |
| `Render.DoLog` | cmd/log.go:104-147 | an empty result prints the notice, otherwise the fixed headers and one row per do in query order |
| `Render.StoredRowsListable` | cmd/log.go:79-80 | under the completion rule every stored do meets `fmtDate`'s need for a completion time |
| `Render.RedactLength` | cmd/log.go:133 | redaction keeps the character count exactly for ASCII descriptions and lengthens all others |
| `Render.RedactWidth` | cmd/log.go:133 | with a one-cell glyph the redacted width is the byte count, equal to the original width for printable ASCII |
| `Render.TagStringAppend` | cmd/log.go:208-211 | the tag line of two tag lists is the two tag lines joined |
| `Render.DoDetails` | cmd/log.go:200-221 | the detail view shows the id, description, joined tag names, type label, the priority (red exactly when high), and each flag as "true"/"false" |
| `Render.TagStringGrows` | cmd/log.go:208-211 | one more tag at the end of the list adds its name at the end of the tag line |
| `Render.ReassignedTagLine` | cmd/log.go:208-211 | reassigning a do to a tag with a key at least as large as all its current tags adds that name at the end of its `for:` line |
| `Confirm.NewConfirmationModel` | cmd/views.go:22-30 | a new prompt has the cursor on the first option and nothing decided |
| `Confirm.Update` | cmd/views.go:36-59 | arrows move the cursor within the options; enter quits and confirms exactly when the cursor is on the first option; q or ctrl+c quits unconfirmed; any other message changes nothing |
| `Confirm.Run` | cmd/views.go:97-102 | running the prompt keeps the cursor on an option, and a confirmed prompt has quit |
| `Confirm.Confirmation` | cmd/views.go:95-103 | the Yes/No prompt only confirms once it has quit |
| `Confirm.ConfirmationAnswer` | cmd/views.go:95-103 | the prompt answers yes exactly when the first quitting key is enter and the last arrow before it selected Yes, or none was pressed |
| `Confirm.ConfirmationExamples` | cmd/views.go:40-55 | enter confirms at once; down then enter, q and ctrl+c do not; right, left, other, enter does |
| `Templates.LiveTemplate` | cmd/template.go:33 | finds the live template with that name, or reports that none is live |
| `Templates.Create` | cmd/template.go:31-88 | create stops on a live name, saves nothing for empty or unparsable trimmed content, and otherwise adds exactly one row holding the trimmed content under a fresh key, unless a deleted template holds the name (see Left out); dos, tags, links and docs are unchanged |
| `Templates.InsertTemplate` | cmd/template.go:83-88 | a new template under an unused name is found live by that name |
| `Templates.Edit` | cmd/template.go:137-193 | edit sets only the content, to the trimmed text, and refreshes the update time, when it parses; every other row and table is unchanged |
| `Templates.IsYesSpelledOut` | cmd/template.go:217-219 | the delete answer is yes exactly for y or yes in any case, with surrounding white space |
| `Templates.Delete` | cmd/template.go:206-226 | delete on a yes answer marks the live template deleted, refreshes the update time, and leaves every other row and table unchanged |
| `Templates.DeletedNameBlocksCreate` | cmd/template.go:33-88 | after a delete, creating the same name again reports success but adds nothing, under the unique index assumed in Left out |
| `Templates.Preview` | cmd/template.go:113-116 | the preview has no newline and at most 50 bytes; longer text becomes its first 47 bytes and "..." |
| `Templates.PreviewShort` | cmd/template.go:113-116 | short ASCII text without newlines is shown whole |
| `Templates.List` | cmd/template.go:99-100 | list returns exactly the live templates, most recently updated first |
| `Templates.ListView` | cmd/template.go:102-122 | an empty list prints the notice, otherwise one name-and-preview row per listed template |
| `Promote.Eligible` | cmd/promote.go:22-28 | a do can be promoted exactly when it exists, is not deleted and is not promoted |
| `Promote.DocContent` | cmd/promote.go:31-34 | the content passed on is the do's doc text, the only one while each do has at most one, or "" when it has none |
| `Promote.NormaliseName` | cmd/vfs_helper.go:39-41 | the file name ends in ".do"; it is unchanged if it already did and gets ".do" appended otherwise |
| `Promote.NormaliseIdempotent` | cmd/vfs_helper.go:39-41 | normalising twice is normalising once |
| `Promote.FileContent` | cmd/vfs_helper.go:50 | the file starts with "# ", then the description, a blank line, and ends with the doc content |
| `Promote.FileContentRoundTrip` | cmd/vfs_helper.go:50 | for a one-line description the heading and body read back from the file are the description and the doc |
| `Promote.PromoteCmd` | cmd/promote.go:22-76 | promote needs an eligible do and a non-blank name; a refused file leaves the store unchanged; success writes the normalised file and sets only `promoted` |
| `Promote.PromoteOnce` | cmd/promote.go:22-28 | a promoted do is not eligible again |
| `Promote.ReportedNameDiffers` | cmd/promote.go:76 | the success message names the created file exactly when the typed name did not already end in ".do" |

## Left out

- Configuration loading, the interactive file browser, cobra wiring and flag parsing. The flags `-n`, `--sort`, `--order`, `--all` and `--unhide`, and the look-back days, are plain parameters.
- Process exits, printing and errors from opening the database. A failed insert that ends the program is the outcome `Aborted` with the store unchanged.
- Id arguments are given as numbers. The model does not parse the command-line text of an id.
- The editor, temporary files and reading the edited file back. The edited text is an input.
- Terminal I/O:
  - The bubbletea program loop is a run over a finite message list, and a failing run is not modelled.
  - `fmt.Scanln` tokenising of the delete answer is not modelled.
  - `bufio` line reading of the promote file name is not modelled.
- The virtual file system (manager setup, `CreateFile`, `SetFileContent`, `Save`). Whether setup and creation succeed is one input. The error of the final VFS save is ignored by the program and not modelled.
- Time formatting ("02-Jan-06 15:04", "2006-01-02"). A date cell records which instant it shows and whether it is underlined.
- lipgloss table borders and cell styles, the `View` rendering of the prompt, glamour markdown rendering in `view`, and `CrewLog` printing.
- The exact reset sequence of the colour library, which differs between library versions. `Ansi.Paint` uses ESC [ 0 m. Any ESC [ … m suffix strips the same way. Output with colour disabled is not modelled.
- Ansi.WidthFunc: adds up a width per character. The library measures grapheme clusters and counts each cluster at the width of its first non-zero-width character. Emoji with modifiers and joined sequences therefore measure differently, and no choice of `w` closes the gap.
- Templates.Create and Templates.DeletedNameBlocksCreate assume that the unique index on template names also covers deleted templates. The template record is declared outside the modelled files. If the index covers only live names, create after delete would insert a new row instead.
- Model.CreateDo assumes that the priority column defaults to medium. The record's declaration in cmd/db.go has no priority field, and the column declaration is outside the modelled files. Commands.DoCmd and Commands.BragCmd inherit the assumption. Without the default their rows would hold "", which the priority sort ranks with medium but `fmtPrio` prints as empty.
- Commands.ViewCmd, Commands.DocThenView and Promote.PromoteCmd name the lowest-keyed doc, while `Preload("Doc")` keeps whichever row it loads last. The two agree whenever a do has at most one doc (`OneDocPerDo`), which every command keeps: `doc` creates a record only when the do has none. A store with several docs for one do is outside what the program produces.
- Model.TagsOf assumes the preload's tag query returns tags in key order. That query has no ORDER BY, and key order is what SQLite gives for a lookup by key list.
- The stored values of the Learn, PR and Meta types are declared outside the modelled files. The model uses placeholder values, and only their being distinct matters. The printed labels are those of `fmtDo`.
- Unicode width tables. The width of a character is a parameter `w`. Only printable ASCII is pinned to one cell, and the redaction glyph's width is an assumption of `Render.RedactWidth`.
- The template engine's syntax check, which is the predicate `parses`.
- `ask` and `tell`, which ignore the error of inserting a possibly duplicate tag and then link whatever key results.
- The stub `edit` command, which does nothing.
- `mapType` and `fmtReason`, which no modelled file defines.
- `Text.ToLower` lowers ASCII letters only. Go lowers all of Unicode, but no other character lowers to "y", "e" or "s", so `Templates.IsYesSpelledOut` is unaffected.
- GORM's `UpdatedAt` handling is modelled only for templates (set on create and on every save). Dos carry no update time.
- Rows with equal sort keys may come back in any order. Query answers are therefore specified as any correct top-n selection (`Sorting.IsTopN`) rather than SQLite's particular tie order.
- Text columns compare by code point, which is SQLite's BINARY collation for valid UTF-8.
