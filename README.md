# Citation review: sidebar grouping and the batch endpoints

This project models three parts of the citation review application in Dafny.

- **The sidebar's grouping of citations** (`client/src/Sidebar.tsx`), in `sidebar.dfy`. For the
  current question, every catalog document gets an entry listing its citations as *page groups*.
  A page group holds a first page, a last page and the index of its citation. The groups are
  sorted by `firstPage * 1000 + lastPage`. Each group is marked selected, and each knows whether
  its neighbours are selected. The module also models the page group header ("Page n",
  "Pages a-b", "Unable to locate citation") and what the answer area shows.
- **The batch endpoint of the reference back end**
  (`reference-azure-backend/functions/src/functions-psql/post.ts`), in `reference_post.dfy`.
  Citations have string ids of the form `formId-creator-timestamp`. Each handled event is stored
  whole in the events table.
- **The batch endpoint of the sample back end** (`function-sample/src/functions/post.ts`), in
  `sample_post.dfy`. Ids come from a serial counter, and each citation records when its bounds
  were set. Events are stored in typed columns.

Shared pieces:
- `wrappers.dfy` holds `Option`.
- `types.dfy` holds `Review` and `Bound`.
- `text.dfy` models two pieces of ECMAScript behaviour the code relies on. One is the text of an
  integer (`String(n)`, what `Page {firstPage}` and `formId + '-'` produce). The other is the
  order `<` on strings. `Array.prototype.sort()` without a comparator (section 23.1.3.30 of
  ECMA-262) orders numbers by that order on their texts.

The grouping is pure, so it is modelled with functions and lemmas:
- `pageNumbers.sort()` sorts page numbers as strings. A citation on pages 9 and 10 therefore gets
  first page 10 and last page 9 (`Sidebar.TextOrderExample`). Its header then reads "Pages 10-9",
  and no current page selects it, because no page lies between 10 and 9. The model keeps this
  order as the code has it, and the rest of the grouping is stated on top of it.
- The outer sort is proved to be a stable, sorted permutation. Two groups with equal keys keep
  the order of their citations.
- A missing neighbour or group is `undefined` in the code. Every consumer only tests it for
  truth, so the model uses `false`.

The two back ends change database state, so each is a class:
- The fields are the citations table and the events table; the sample back end also has its id
  counter. `SamplePost.Database` keeps `Valid`: every row sits under its own id, below the counter.
- Every handler is a method proved against the functions `ApplyEvent` and `ApplyBatch`.
  `ApplyBatch` applies the events of a batch in order.
- The reference back end's table can be rebuilt from its log (`ReferencePost.BatchReplay`): the
  rows with an id hold what the logged events fold to, provided the batch generates that id at
  most once. `ReferencePost.DuplicateIdBreaksReplay` shows the case where it fails.
- The loop in `post` keeps the invariant that the state equals `ApplyBatch` of the events handled
  so far.
- The `switch` in the loop body is the method `HandleEvent`.
- The clock is a parameter (`now`, or `times[i]` for the i-th event of a batch).

Two behaviours of the code are worth stating on their own:
- An update naming an unknown citation id raises no error. It changes no row, is still logged,
  and the batch still answers 200 (`UpdateOfUnknownIdOnlyLogs` in both back ends,
  `ReferencePost.ReviewBeforeAddIsLost`).
- The neighbour flags of a group are the selection flags of the adjacent groups. A group next to
  a selected group therefore carries the flag, even when it is not selected itself
  (`Sidebar.NeighbourFlags`).

## Model

| member | source | states |
|---|---|---|
| Text.NatDecimal | client/src/Sidebar.tsx:493 | the text of a natural number is a non-empty string of digits, with no leading zero unless the number is 0 |
| Text.Decimal | client/src/Sidebar.tsx:493 | the text of an integer is digits, preceded by a minus sign exactly when the integer is negative |
| Text.NatDecimalRoundTrip | client/src/Sidebar.tsx:493 | the digits of a natural number's text denote that number |
| Text.DecimalRoundTrip | reference-azure-backend/functions/src/functions-psql/post.ts:9 | reading back the text of any integer gives the integer |
| Text.DecimalInjective | reference-azure-backend/functions/src/functions-psql/post.ts:9 | distinct integers have distinct texts |
| Text.StrLessIrreflexive | client/src/Sidebar.tsx:85 | no string sorts before itself |
| Text.StrLessTransitive | client/src/Sidebar.tsx:85 | the string order used by the default sort is transitive |
| Text.StrLessTotal | client/src/Sidebar.tsx:85 | of two distinct strings, one sorts before the other |
| Sidebar.PageTextLessTransitive | client/src/Sidebar.tsx:85 | the order of pages by their texts is transitive |
| Sidebar.PrependTextSorted | client/src/Sidebar.tsx:85 | a page whose text precedes the head's can be put in front of a sorted list |
| Sidebar.ConsTextSorted | client/src/Sidebar.tsx:85 | a page that no page of a sorted list precedes can be put in front of it |
| Sidebar.ConsSortedBy | client/src/Sidebar.tsx:85 | the same for any order |
| Sidebar.KeepHeadTextSorted | client/src/Sidebar.tsx:85 | inserting behind the head keeps a text-sorted list sorted |
| Sidebar.TailTextSorted | client/src/Sidebar.tsx:85 | the tail of a text-sorted list is text-sorted |
| Sidebar.MultisetKeepHead | client/src/Sidebar.tsx:85 | inserting behind the head adds exactly the inserted element |
| Sidebar.InsertByText | client/src/Sidebar.tsx:85 | inserting a page into a text-sorted list gives a text-sorted list with exactly that page added |
| Sidebar.SortByText | client/src/Sidebar.tsx:85 | `sort()` without a comparator returns a permutation of the pages in which no page's text precedes an earlier page's |
| Sidebar.PageNumbers | client/src/Sidebar.tsx:81-85 | the sorted pages are non-empty and text-sorted; they are a permutation of the bounds' pages, or the unlocated page alone when there are no bounds or the list of bounds is empty |
| Sidebar.PageNumbersAsWritten | client/src/Sidebar.tsx:81-85 | as written, the sorted pages are text-sorted and a permutation of the pages of `bounds ?? [unlocated]` |
| Sidebar.FirstLastAsWritten | client/src/Sidebar.tsx:81-88 | as written, first and last page are undefined exactly when the bounds are an empty list |
| Sidebar.EmptyBoundsLeavePagesUndefined | client/src/Sidebar.tsx:81-88 | as written, `bounds: []` leaves both pages undefined, whereas absent bounds give the unlocated page |
| Sidebar.CorrectedAgreesWithAsWritten | client/src/Sidebar.tsx:81-88 | the corrected pages agree with the code as written on every input except the empty list |
| Sidebar.UnlocatedCitationGroup | client/src/Sidebar.tsx:81-90 | a citation without bounds gets first and last page 1000 |
| Sidebar.PageGroupEnds | client/src/Sidebar.tsx:81-90 | first and last page are pages of the citation; no page's text precedes the first page's, and the last page's text precedes no page's |
| Sidebar.SingleBoundGroup | client/src/Sidebar.tsx:81-90 | a citation with one bound is on that bound's page alone |
| Sidebar.TenBeforeNine | client/src/Sidebar.tsx:85 | the text "10" sorts before "9" |
| Sidebar.SortNineTen | client/src/Sidebar.tsx:85 | `[9, 10].sort()` is `[10, 9]` |
| Sidebar.TextOrderExample | client/src/Sidebar.tsx:81-90 | bounds on pages 9 and 10 give first page 10 and last page 9 |
| Sidebar.ToPageGroup | client/src/Sidebar.tsx:80-90 | the page group of one citation; it keeps the citation index, and its pages are stated by PageGroupEnds, SingleBoundGroup and UnlocatedCitationGroup |
| Sidebar.DocumentIndices | client/src/Sidebar.tsx:71-78 | the bound indices that survive the filter are increasing, all on the document, and include every citation on the document |
| Sidebar.IndicesConcat | client/src/Sidebar.tsx:89 | the indices of two joined lists are the joined indices |
| Sidebar.MultisetRemoveHead | client/src/Sidebar.tsx:115 | removing one element from each of two rearrangements leaves rearrangements |
| Sidebar.MultisetIndices | client/src/Sidebar.tsx:115 | rearranging groups rearranges their citation indices alike |
| Sidebar.PrependKeySorted | client/src/Sidebar.tsx:41-43 | a group with a smaller key can be put in front, keeping the list (stably) sorted |
| Sidebar.KeepHeadKeySorted | client/src/Sidebar.tsx:41-43 | inserting behind the head keeps a key-sorted list sorted, and stable when the inserted group is last in citation order |
| Sidebar.TailSorted | client/src/Sidebar.tsx:41-43 | a tail of a (stably) sorted list is (stably) sorted |
| Sidebar.InsertByKey | client/src/Sidebar.tsx:41-43 | inserting a group gives a key-sorted permutation with exactly that group added, stable when it comes last in citation order |
| Sidebar.EarlierIndices | client/src/Sidebar.tsx:115 | in increasing citation order, every earlier group has a smaller index than the last |
| Sidebar.SortKey | client/src/Sidebar.tsx:41-43 | the key of `sortIndex`; the order it induces is stated by SortByKey and PageGroupsSorted, and UnlocatedSortsLast uses it |
| Sidebar.SortByKey | client/src/Sidebar.tsx:115 | `.sort(sortIndex)` gives a permutation sorted by `firstPage * 1000 + lastPage`, with the same citation indices, and keeps citation order on equal keys |
| Sidebar.UnsortedPageGroups | client/src/Sidebar.tsx:71-91 | the document's citations as page groups, in citation order, per UnsortedGroups |
| Sidebar.DocumentPageGroups | client/src/Sidebar.tsx:71-115 | those groups after `.sort(sortIndex)`; DocumentGroupsCover and PageGroupsSorted state what they are |
| Sidebar.IsSelected | client/src/Sidebar.tsx:117-124 | the selection rule; PageGroupSelection and SelectedGroupIsUnique state its consequences |
| Sidebar.MarkSelection | client/src/Sidebar.tsx:117-131 | each group with its selection flag, per ViewOfGroups |
| Sidebar.WithNeighbours | client/src/Sidebar.tsx:135-141 | each group with its neighbours' flags, false at the ends, per ViewOfGroups and NeighbourFlags |
| Sidebar.DocumentView | client/src/Sidebar.tsx:132-147 | the entry of a document for given sorted groups; every field is stated by ViewOfGroups |
| Sidebar.GroupDocument | client/src/Sidebar.tsx:68-147 | the entry of one catalog document; GroupDocumentView, PageGroupsCoverDocument and DocumentFlags state it |
| Sidebar.GroupedCitations | client/src/Sidebar.tsx:66-69 | one entry per catalog document, in catalog order, each marked selected exactly when it is the displayed document |
| Sidebar.CountInIncreasing | client/src/Sidebar.tsx:71-78 | in an increasing list every value occurs at most once |
| Sidebar.UnsortedGroups | client/src/Sidebar.tsx:71-91 | before the sort, the groups are those of the document's citations, in citation order |
| Sidebar.DocumentGroupsCover | client/src/Sidebar.tsx:71-115 | after the sort, every group belongs to a citation on the document, and every such citation appears exactly once |
| Sidebar.ViewOfGroups | client/src/Sidebar.tsx:117-147 | the entry lists the sorted groups, each with its selection and neighbour flags, plus the first, last and no-citation flags |
| Sidebar.GroupDocumentView | client/src/Sidebar.tsx:68-141 | a document's entry lists its sorted groups, each with its selection flag and its neighbours' flags |
| Sidebar.ViewCover | client/src/Sidebar.tsx:132-141 | an entry built from covering groups lists each citation of the document exactly once |
| Sidebar.PageGroupsCoverDocument | client/src/Sidebar.tsx:71-141 | in each entry, the groups are a permutation of the filtered citations |
| Sidebar.PageGroupsSorted | client/src/Sidebar.tsx:115 | the groups of an entry are sorted by key, and equal keys are in citation order |
| Sidebar.UnlocatedSortsLast | client/src/Sidebar.tsx:32-43 | with pages below 1000, every located citation comes before every citation with no bounds or an empty list of them |
| Sidebar.ViewSelection | client/src/Sidebar.tsx:117-124 | the selection rule on an entry built from any groups |
| Sidebar.PageGroupSelection | client/src/Sidebar.tsx:117-124 | nothing is selected outside the displayed document; there, with a selected citation, exactly its group is selected; otherwise the groups whose pages enclose the current page are |
| Sidebar.ViewNeighbours | client/src/Sidebar.tsx:135-141 | the neighbour flags on an entry built from any groups |
| Sidebar.NeighbourFlags | client/src/Sidebar.tsx:135-141 | each group's prev/next flags are the selection flags of the adjacent groups, false at the ends |
| Sidebar.ViewNoCitations | client/src/Sidebar.tsx:146 | an entry built from covering groups has no groups exactly when no citation is on the document |
| Sidebar.DocumentFlags | client/src/Sidebar.tsx:142-146 | the first/last flags are the selection of the first/last group of the displayed document; `noCitations` holds exactly when the displayed document has no citation |
| Sidebar.CountTwoPositions | client/src/Sidebar.tsx:117-124 | a value at two positions occurs at least twice |
| Sidebar.SelectedGroupIsUnique | client/src/Sidebar.tsx:117-124 | with a citation selected, at most one group of an entry is selected: that citation's, in the displayed document |
| Sidebar.SelectedCitationIsExclusive | client/src/Sidebar.tsx:66-124 | with a citation selected and each document listed once, at most one group in the whole sidebar is selected |
| Sidebar.SelectedCitationIsShown | client/src/Sidebar.tsx:66-124 | a selected citation on the displayed document has its group shown and selected |
| Sidebar.PageGroupLabel | client/src/Sidebar.tsx:484-501 | the header reads "Unable to locate citation" exactly for the unlocated page; "Page " and a text that reads back as the page for a single page; otherwise "Pages ", the first page's text, "-" and the last page's text |
| Sidebar.UnlocatedCitationLabel | client/src/Sidebar.tsx:484-489 | a citation without bounds, or with an empty list of them, is headed "Unable to locate citation" |
| Sidebar.SingleBoundLabel | client/src/Sidebar.tsx:490-495 | a citation with one bound on a page other than 1000 is headed "Page " and that page's number |
| Sidebar.UnreviewedCitations | client/src/Sidebar.tsx:152-154 | the result holds exactly the unreviewed citations |
| Sidebar.AnswerArea | client/src/Sidebar.tsx:330-373 | the editor exactly while editing; else the request to review exactly while a citation is unreviewed; else the offer to answer exactly when there is no answer, and the answer itself otherwise |
| ReferencePost.CreateCitationId | reference-azure-backend/functions/src/functions-psql/post.ts:8-10 | the id `formId-creator-now`; CitationIdRoundTrip and CitationIdInjective state that it determines its parts |
| ReferencePost.CitationIdRoundTrip | reference-azure-backend/functions/src/functions-psql/post.ts:8-10 | a citation id reads back into the form id, creator and timestamp it was made from |
| ReferencePost.CitationIdInjective | reference-azure-backend/functions/src/functions-psql/post.ts:8-10 | two ids are equal only when form, creator and clock reading all are |
| ReferencePost.NewRow | reference-azure-backend/functions/src/functions-psql/post.ts:17-30 | the row an add inserts, per AddCitationInsertsOneRow |
| ReferencePost.SetBounds | reference-azure-backend/functions/src/functions-psql/post.ts:33-42 | the bounds update on every row with the id, per UpdateBoundsChangesOnlyBounds |
| ReferencePost.SetReview | reference-azure-backend/functions/src/functions-psql/post.ts:44-53 | the review update on every row with the id, per UpdateReviewChangesOnlyReview |
| ReferencePost.ApplyEvent | reference-azure-backend/functions/src/functions-psql/post.ts:95-127 | the effect of one event; its three cases are stated by AddCitationInsertsOneRow, UpdateReviewChangesOnlyReview and UpdateBoundsChangesOnlyBounds |
| ReferencePost.ApplyBatch | reference-azure-backend/functions/src/functions-psql/post.ts:140-152 | the batch fold, per ApplyBatchConcat, OtherEventIsSkipped and BatchLog; Database.Post is proved equal to it |
| ReferencePost.AddCitationInsertsOneRow | reference-azure-backend/functions/src/functions-psql/post.ts:95-103 | an add inserts exactly one row after the existing ones, with the event's fields under the generated id, and logs the event with `citationId` set to that id |
| ReferencePost.UpdateReviewChangesOnlyReview | reference-azure-backend/functions/src/functions-psql/post.ts:108-115 | a review update changes only the review, of exactly the rows with that id, and logs the event |
| ReferencePost.UpdateBoundsChangesOnlyBounds | reference-azure-backend/functions/src/functions-psql/post.ts:120-127 | a bounds update changes only the bounds, of exactly the rows with that id, and logs the event |
| ReferencePost.UpdateOfUnknownIdOnlyLogs | reference-azure-backend/functions/src/functions-psql/post.ts:33-53 | an update of an id no row has leaves the citations table unchanged and is still logged |
| ReferencePost.ApplyBatchConcat | reference-azure-backend/functions/src/functions-psql/post.ts:140-152 | applying a batch is applying its first part and then its second part |
| ReferencePost.ApplyBatchSnoc | reference-azure-backend/functions/src/functions-psql/post.ts:140-152 | one more event is one more step |
| ReferencePost.OtherEventIsSkipped | reference-azure-backend/functions/src/functions-psql/post.ts:141-151 | an event of any other type can be dropped from a batch without changing the outcome |
| ReferencePost.BatchLog | reference-azure-backend/functions/src/functions-psql/post.ts:95-127 | the log after a batch is the old log plus one entry per handled event, in order; what is appended does not depend on the citations table |
| ReferencePost.UpdateIgnoresClock | reference-azure-backend/functions/src/functions-psql/post.ts:108-127 | a review or bounds update has the same effect whatever the clock reads, which Database.HandleEvent uses |
| ReferencePost.ReplayStep | reference-azure-backend/functions/src/functions-psql/post.ts:56-86 | one logged event body folded onto what is known of a citation: an add carrying the id records it, and an update applies only once the citation is known |
| ReferencePost.Replay | reference-azure-backend/functions/src/functions-psql/post.ts:56-86 | the logged events folded in order, a reference definition tied to the table by BatchReplay |
| ReferencePost.MadeCount | reference-azure-backend/functions/src/functions-psql/post.ts:17-18 | the number of adds of a batch whose generated id is the given one |
| ReferencePost.Agrees | reference-azure-backend/functions/src/functions-psql/post.ts:17-53 | the rows with an id agree with the fold: there is none exactly when nothing is recorded, and each holds the recorded bounds and review |
| ReferencePost.ReplayAppend | reference-azure-backend/functions/src/functions-psql/post.ts:140-152 | folding two parts of a log is folding the first and then the second |
| ReferencePost.ReplayEvent | reference-azure-backend/functions/src/functions-psql/post.ts:95-127 | each handled event keeps the table in agreement with the fold of its log entry, unless it is a second add of the id |
| ReferencePost.BatchReplay | reference-azure-backend/functions/src/functions-psql/post.ts:132-155 | when no row had the id before and the batch generates it at most once, the rows with that id after the batch hold exactly what the batch's log entries fold to, and there is none exactly when the fold records nothing |
| ReferencePost.DuplicateIdBreaksReplay | reference-azure-backend/functions/src/functions-psql/post.ts:17-30 | two adds with the same form, creator and clock reading but different bounds leave two rows under one id that no fold agrees with |
| ReferencePost.AddThenReview | reference-azure-backend/functions/src/functions-psql/post.ts:95-115 | an add followed by a review of its generated id leaves the new row with that review |
| ReferencePost.ReviewBeforeAddIsLost | reference-azure-backend/functions/src/functions-psql/post.ts:108-115 | a review sent before the add that creates its id changes nothing, yet both events are logged |
| ReferencePost.Database.constructor | reference-azure-backend/functions/src/functions-psql/post.ts:136-137 | new, empty tables standing for the connection |
| ReferencePost.Database.InsertCitation | reference-azure-backend/functions/src/functions-psql/post.ts:17-30 | appends the row under `createCitationId`, returns it, and leaves the log alone |
| ReferencePost.Database.UpdateCitationBounds | reference-azure-backend/functions/src/functions-psql/post.ts:33-42 | sets the bounds of every row with that id |
| ReferencePost.Database.UpdateCitationReview | reference-azure-backend/functions/src/functions-psql/post.ts:44-53 | sets the review of every row with that id |
| ReferencePost.Database.InsertAddEvent | reference-azure-backend/functions/src/functions-psql/post.ts:56-64 | appends the event as one log entry |
| ReferencePost.Database.InsertUpdateReviewEvent | reference-azure-backend/functions/src/functions-psql/post.ts:67-75 | appends the event as one log entry |
| ReferencePost.Database.InsertUpdateBoundsEvent | reference-azure-backend/functions/src/functions-psql/post.ts:78-86 | appends the event as one log entry |
| ReferencePost.Database.AddCitation | reference-azure-backend/functions/src/functions-psql/post.ts:95-103 | for an add event, the new state is `ApplyEvent`; for any other event nothing changes |
| ReferencePost.Database.AddReview | reference-azure-backend/functions/src/functions-psql/post.ts:108-115 | for a review event, the new state is `ApplyEvent`; for any other event nothing changes |
| ReferencePost.Database.UpdateBounds | reference-azure-backend/functions/src/functions-psql/post.ts:120-127 | for a bounds event, the new state is `ApplyEvent`; for any other event nothing changes |
| ReferencePost.Database.HandleEvent | reference-azure-backend/functions/src/functions-psql/post.ts:141-151 | one pass of the loop is `ApplyEvent` |
| ReferencePost.Database.Post | reference-azure-backend/functions/src/functions-psql/post.ts:132-155 | the new state is `ApplyBatch` of the whole batch, in order, and the status is 200 |
| SamplePost.EmptyIsValid | function-sample/src/functions/post.ts:16-27 | a new database, with the serial counter at 1, satisfies `Valid` |
| SamplePost.SetBounds | function-sample/src/functions/post.ts:30-35 | sets bounds and `bounds_created_at` of the row with the id, per UpdateBoundsChangesOnlyBounds |
| SamplePost.SetReview | function-sample/src/functions/post.ts:37-41 | sets the review of the row with the id, per UpdateReviewChangesOnlyReview |
| SamplePost.ApplyEvent | function-sample/src/functions/post.ts:83-105 | the effect of one event; its cases are stated by AddCitationInsertsFreshRow, the two update lemmas and UpdateOfUnknownIdOnlyLogs |
| SamplePost.ApplyBatch | function-sample/src/functions/post.ts:114-126 | the batch fold, per BatchKeepsValid, BatchLog and BatchReplay; Database.Post is proved equal to it |
| SamplePost.ReplayStep | function-sample/src/functions/post.ts:44-76 | one log entry folded onto what is known of a citation; EventReplay ties it to ApplyEvent |
| SamplePost.Replay | function-sample/src/functions/post.ts:44-76 | the log folded in order, a reference definition tied to the table by BatchReplay and LogDeterminesCitations |
| SamplePost.AddCitationInsertsFreshRow | function-sample/src/functions/post.ts:83-89 | an add stores one row under the next serial id, which was free, with the event's fields and `bounds_created_at` = now; it keeps every other row and logs an 'add' entry with the same fields and the new id |
| SamplePost.UpdateReviewChangesOnlyReview | function-sample/src/functions/post.ts:92-97 | a review update changes only the review of the row with that id, and logs a 'review' entry |
| SamplePost.UpdateBoundsChangesOnlyBounds | function-sample/src/functions/post.ts:100-105 | a bounds update changes only the bounds and `bounds_created_at` of the row with that id, and logs an 'update' entry |
| SamplePost.UpdateOfUnknownIdOnlyLogs | function-sample/src/functions/post.ts:30-41 | an update of an unknown id leaves the citations table unchanged and is still logged |
| SamplePost.ApplyBatchSnoc | function-sample/src/functions/post.ts:114-126 | one more event is one more step |
| SamplePost.BatchKeepsValid | function-sample/src/functions/post.ts:114-126 | every row stays under its own id, below the serial counter, which never goes back |
| SamplePost.BatchLog | function-sample/src/functions/post.ts:44-76 | a batch appends exactly one entry per handled event and leaves earlier entries untouched |
| SamplePost.ReplaySnoc | function-sample/src/functions/post.ts:83-105 | folding one more entry is one more step |
| SamplePost.EventReplay | function-sample/src/functions/post.ts:83-105 | each handled event changes a row exactly as its log entry folds onto it |
| SamplePost.BatchReplay | function-sample/src/functions/post.ts:110-129 | after a batch, every citation's bounds and review are its old ones with the batch's log entries folded on in order |
| SamplePost.CreatedCitationReplay | function-sample/src/functions/post.ts:83-105 | a citation created in the batch has exactly the bounds and review its log entries fold to |
| SamplePost.LogDeterminesCitations | function-sample/src/functions/post.ts:110-129 | from an empty database, the whole log determines every citation's bounds and review |
| SamplePost.AddMoveAccept | function-sample/src/functions/post.ts:83-105 | add, move the bounds and accept, in one batch: one row with id 1, the new bounds stamped at the second time, accepted, and three log entries 'add', 'update', 'review' |
| SamplePost.Database.InsertCitation | function-sample/src/functions/post.ts:16-27 | stores the row under the next serial id with `bounds_created_at` = now and returns it |
| SamplePost.Database.UpdateCitationBounds | function-sample/src/functions/post.ts:30-35 | sets bounds and `bounds_created_at` of the row with that id, if any |
| SamplePost.Database.UpdateCitationReview | function-sample/src/functions/post.ts:37-41 | sets the review of the row with that id, if any |
| SamplePost.Database.InsertAddEvent | function-sample/src/functions/post.ts:44-56 | appends an 'add' entry with the given columns |
| SamplePost.Database.InsertReviewEvent | function-sample/src/functions/post.ts:59-66 | appends a 'review' entry with id, review and creator |
| SamplePost.Database.InsertUpdateEvent | function-sample/src/functions/post.ts:69-76 | appends an 'update' entry with id, bounds and creator |
| SamplePost.Database.AddCitation | function-sample/src/functions/post.ts:83-89 | the new state is `ApplyEvent` of the add event; the new id was free, the row sits under it, and `Valid` is kept |
| SamplePost.Database.AddReview | function-sample/src/functions/post.ts:92-97 | the new state is `ApplyEvent` of the review event |
| SamplePost.Database.UpdateBounds | function-sample/src/functions/post.ts:100-105 | the new state is `ApplyEvent` of the bounds event |
| SamplePost.Database.HandleEvent | function-sample/src/functions/post.ts:115-125 | one pass of the loop is `ApplyEvent` and keeps `Valid` |
| SamplePost.Database.Post | function-sample/src/functions/post.ts:110-129 | the new state is `ApplyBatch` of the whole batch, in order, `Valid` is kept, and the status is 200 |
| SamplePost.Database.constructor | function-sample/src/functions/post.ts:8-9 | a new database is `Empty`: no rows, no events, the serial counter at 1, and `Valid` |

## Left out

- Rendering: the JSX, React hooks, click handlers, dispatch to the app state, icons and styling
  of `Sidebar.tsx` are left out. Only the grouping, the header text of a page group and the
  choice of what the answer area shows are modelled.
- Number texts: page numbers, form ids and timestamps are integers. ECMAScript texts of
  non-integers and of numbers of 1e21 or more (exponent notation) are not modelled.
- Type guards: `selectedCitation` and `pageNumber` are optional values. The code's truthiness
  test on the selected citation object (always truthy when present) becomes `Some`.
- External effects: the database connection, drizzle and postgres, and the values the updates
  return (used only for logging) are left out. So are `context.log`, the parsing of the request
  body and the `created_at` column of the events table.
- Database failures: a failing query would abort the batch part-way, and the model has no
  failures. Concurrent requests are not modelled either; the code uses no transaction.
- Clocks: `Date.now()` and the database's `now()` are parameters, one reading per event.
- Event mutation: the reference back end writes `citationId` into the request's event object
  before logging it. The model logs a copy that has the id set; nothing else reads the original
  object.
- ReferencePost.Database.InsertCitation: the citations schema is not part of this model, so
  `citation_id` is not assumed unique. Two adds with the same form, creator and millisecond give
  two rows with one id, and an update then changes both. The replay property
  (ReferencePost.BatchReplay) is therefore stated only for ids a batch generates at most once, on
  a table that did not have them yet.
- Sidebar.UnreviewedCitations: states which citations are in the result, but not their order or
  multiplicity, because the answer area uses only whether the list is empty.
- `sortBy` comes from `client/src/State`, which is not part of this model. Sidebar.SortByKey
  assumes that `sortBy(key)` is a comparator ordering ascending on the key. Stability on equal
  keys comes from `Array.prototype.sort`, which section 23.1.3.30 of ECMA-262 requires to be
  stable.
- The schema of the sample back end (`function-sample/src/schema`) is not part of this model.
  The model assumes that `citations.id` is a serial column starting at 1 that never reuses a
  value. SamplePost.Empty, SamplePost.Valid and the id 1 in SamplePost.AddMoveAccept rest on
  that assumption.
- `reference-azure-backend/functions/src/functions-psql/get.ts`, `entity/Form.ts` and
  `entity/Template.ts` are not part of this model.
- ReferencePost.ParseCitationId is not in the source, nor are its helpers ReferencePost.IndexOf
  and ReferencePost.LastIndexOf (the first and the last position of a character). They read an
  id back, so that the id format can be stated as a round trip.

## Findings

| source | as written | input that shows it | evidently intended | confidence | as-written member | corrected member |
|---|---|---|---|---|---|---|
| client/src/Sidebar.tsx:81-88 | `citation.bounds ?? [{ pageNumber: unlocatedPage }]` replaces only a missing list of bounds | a citation whose `bounds` is `[]`: `pageNumbers` is empty and `firstPage` and `lastPage` are `undefined`; they compare equal, so the header reads "Page" with no number, no current page selects the group, and its sort key is NaN | a citation with no located region is treated as unlocated and headed "Unable to locate citation" | not executed | Sidebar.FirstLastAsWritten (shown by Sidebar.EmptyBoundsLeavePagesUndefined) | Sidebar.PageNumbers (with Sidebar.UnlocatedCitationGroup and Sidebar.UnlocatedCitationLabel) |
