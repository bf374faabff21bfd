# To-do list model

A Dafny model of the task-list logic of a single-page to-do app. It covers:

- the `Task` record (`src/lib/types.ts`);
- the four state updaters of the home page (`addTask`, `updateTask`, `deleteTask`, `handleDragEnd` in `src/app/page.tsx`);
- the display order of the list (`src/components/TaskList.tsx`);
- the completion toggle and the payment-amount default of a task card (`src/components/TaskCard.tsx`);
- the YouTube id extraction of the video player (`src/components/VideoPlayer.tsx`).

Every one of these is a pure computation in the app. React is handed a function `prev => next` or a derived value. So the model is made of functions on values (`seq<Task>`, `Task`, `string`) and lemmas about them. A function cannot change its argument, so the sort works on a copy and leaves `tasks` as it was.

Modules and files:

- `TaskModel` (`task_model.dfy`): the record, plus the predicates on task lists: orders equal indices, orders nondecreasing, unique ids.
- `TaskStore` (`task_store.dfy`): the updaters.
- `TaskList` (`task_list.dfy`): the stable sort by `order`.
- `TaskCard` (`task_card.dfy`): the toggle and the amount.
- `VideoPlayer` (`video_player.dfy`): `extractVideoId`.

## Deletes do not renumber

One might expect a delete to renumber the remaining tasks, so that orders always run 0..n-1, as a drag does. The code does not do this. `deleteTask` only filters, and `addTask` numbers a new task by the list length. The model follows the code, so orders can have gaps and duplicates:

- `TaskStore.DeleteCanBreakOrdersAtIndices` shows a gap;
- `TaskStore.DeleteThenAddCanDuplicateOrders` shows a duplicate;
- `TaskList.NewTaskCanBeListedFirst` shows a new task listed above an older one (see Findings).

What a delete does keep is proved: orders stay nondecreasing along the array (`TaskStore.DeleteKeepsOrdersNondecreasing`).

## How `extractVideoId` is modelled

The pattern is `/^.*(youtu.be\/|v\/|u\/\w\/|embed\/|watch\?v=|\&v=)([^#\&\?]*).*/`. It is written out as explicit searches:

- `^.*` is greedy and stops at the first line terminator. The match therefore uses the rightmost position, up to the end of the first line, at which one of the six markers matches (`LastMarkerAtOrBefore` searching back from `LineEnd(url, 0)`).
- The six markers start with six different characters, so at most one of them matches at any position (`MarkerLength`).
- The pattern has no `u` flag, so it works on UTF-16 code units. The `.` of `youtu.be` matches one code unit other than a line terminator. A character outside the Basic Multilingual Plane is two code units, so it cannot stand for the dot: the `b` after it would have to match its second unit (`IsDotChar`, `WideDotIsNoMarker`).
- Group 2 is the longest run of characters other than `#`, `&` and `?` (`RunEnd`). That run may cross line terminators.
- The id is the run when it has exactly 11 characters, and null otherwise.

Line terminators are modelled as ECMAScript defines them (LF, CR, U+2028, U+2029). URLs with line terminators in them are not excluded.

## Model

| member | source | states |
|---|---|---|
| TaskModel.Task | src/lib/types.ts:1-11 | the task record: id, title, description, due date, priority, completion flag, optional video URL, optional payment amount and display order |
| TaskModel.Priority | src/lib/types.ts:6 | the three priorities `low`, `medium`, `high` |
| TaskModel.DueDate | src/lib/types.ts:5 | the due date, carried through unchanged and never inspected |
| TaskStore.AddTask | src/app/page.tsx:47-48 | the list grows by one, the previous entries are unchanged, and the new last entry is the given task with `order` set to the previous length |
| TaskStore.AddKeepsOrdersAtIndices | src/app/page.tsx:48 | if every order equals its index before an add, that still holds after it |
| TaskStore.AddAllFromEmpty | src/app/page.tsx:47-48 | adds starting from the empty list keep insertion order and number the tasks 0..n-1 |
| TaskStore.UpdateTask | src/app/page.tsx:52-55 | the length is kept, every entry with the updated id becomes the updated task, and every other entry is unchanged |
| TaskStore.UpdateUnknownIdIsIdentity | src/app/page.tsx:52-55 | an update whose id is in no entry leaves the list identical |
| TaskStore.UpdateUniqueIsSlotWrite | src/app/page.tsx:52-55 | with unique ids, updating the task at index k replaces exactly slot k |
| TaskStore.DeleteTask | src/app/page.tsx:58-60 | the result keeps every entry whose id differs, with its multiplicity, and no entry with the id; every survivor is an original entry, unchanged (orders are not touched) |
| TaskStore.DeleteConcat | src/app/page.tsx:58-60 | deleting from a concatenation deletes from each part, so the survivors keep their relative order |
| TaskStore.DeleteUnknownIdIsIdentity | src/app/page.tsx:58-60 | deleting an absent id leaves the list identical |
| TaskStore.DeleteKeepsOrdersNondecreasing | src/app/page.tsx:58-60 | a delete keeps orders nondecreasing along the array |
| TaskStore.DeleteCanBreakOrdersAtIndices | src/app/page.tsx:58-60 | a delete can break "every order equals its index": from a list numbered 0, 1, deleting the first leaves order 1 at index 0 |
| TaskStore.DeleteThenAddCanDuplicateOrders | src/app/page.tsx:47-60 | a delete followed by an add can give two tasks the same order |
| TaskStore.DeletesThenAddCanInvertOrders | src/app/page.tsx:47-60 | deleting the first two of three tasks and then adding one gives the new task order 1, below the order of the task in front of it, so orders are no longer nondecreasing |
| TaskStore.DeleteTaskRenumbered | src/app/page.tsx:58-60 | corrected delete: the survivors of `deleteTask`, in the same relative order, with every order equal to its index |
| TaskStore.FindIndex | src/app/page.tsx:37-38 | `findIndex` by id: -1 exactly when no entry has the id, otherwise the first index holding it |
| TaskStore.ArrayMove | src/app/page.tsx:39 | `arrayMove` as remove-then-insert: same length and elements, the moved element at `to`, the others in their relative order |
| TaskStore.ArrayMoveAt | src/app/page.tsx:39 | for every index, which source index the moved array takes its element from |
| TaskStore.UnorderedArrayMove | src/app/page.tsx:39-42 | forgetting orders commutes with the move |
| TaskStore.Reindex | src/app/page.tsx:39-42 | the renumbering `map` sets every order to its index and changes no other field |
| TaskStore.DragEndEvent | src/app/page.tsx:31-32 | the dragged id and the optional target id |
| TaskStore.IsMove | src/app/page.tsx:33-35 | a target exists and differs from the dragged task |
| TaskStore.DragIdsRegistered | src/app/page.tsx:82 | a real move names two ids present in the list |
| TaskStore.HandleDragEnd | src/app/page.tsx:31-45 | no target, or a target equal to the dragged task, leaves the list unchanged; otherwise the length is kept and orders become exactly 0..n-1 |
| TaskStore.DragEndIsMoveThenReindex | src/app/page.tsx:35-42 | a real drag finds both ids and is the renumbered move from the dragged task's index to the target's index |
| TaskStore.DragEndMoves | src/app/page.tsx:31-45 | with orders forgotten, a real drag is a permutation in which the dragged task lands at the target's old index and all other tasks keep their relative order |
| TaskStore.DragEndAt | src/app/page.tsx:31-45 | element by element: each task of the result is the task from the source index the move names, with its order set to its new index |
| TaskList.InsertByOrder | src/components/TaskList.tsx:13 | one insertion step of the sort adds the task to the multiset and keeps a nondecreasing list nondecreasing |
| TaskList.SortByOrder | src/components/TaskList.tsx:13 | the sorted copy has the same length, is a permutation of the input, and is nondecreasing by order |
| TaskList.InsertKeepsEqualOrders | src/components/TaskList.tsx:13 | an insertion step passes no task of equal order |
| TaskList.SortIsStable | src/components/TaskList.tsx:13 | for every order value, the tasks carrying it appear in the sorted copy in their input order |
| TaskList.SortOfNondecreasingIsIdentity | src/components/TaskList.tsx:13 | a list already nondecreasing by order is displayed as it is stored |
| TaskList.SortOfIndexedIsIdentity | src/components/TaskList.tsx:13 | when every order equals its index, the displayed list is the stored list |
| TaskList.StableSortIsUnique | src/components/TaskList.tsx:13 | any list that is nondecreasing by order and keeps each order's tasks in input order equals the sorted copy, so any stable sort gives the same display |
| TaskList.SortedAgreeingAreEqual | src/components/TaskList.tsx:13 | two nondecreasing lists with the same tasks per order, in the same order, are equal |
| TaskList.NewTaskCanBeListedFirst | src/app/page.tsx:47-60 | as written: after deleting the first two of three tasks and adding one, the new task is last in the array but listed first |
| TaskList.NewTaskIsListedLast | src/app/page.tsx:47-60 | with the corrected delete, a task added after a delete is listed last and the display equals the array |
| TaskCard.ToggleComplete | src/components/TaskCard.tsx:47-49 | `completed` is negated and every other field, `id` and `order` included, is unchanged |
| TaskCard.ToggleTwiceIsIdentity | src/components/TaskCard.tsx:48 | toggling twice gives back the original task |
| TaskCard.ToggleThroughUpdate | src/components/TaskCard.tsx:47-49 | with unique ids, a toggle passed through `updateTask` flips exactly that task's `completed` and changes nothing else |
| TaskCard.PaymentAmount | src/components/TaskCard.tsx:134 | the amount is 0 when absent or stored as 0, the stored amount when present and nonzero, and positive exactly when a positive amount is stored |
| VideoPlayer.IsLineTerminator | src/components/VideoPlayer.tsx:52 | the characters `.` does not match: LF, CR, U+2028, U+2029 |
| VideoPlayer.IsDotChar | src/components/VideoPlayer.tsx:52 | what the `.` of `youtu.be` can stand for: a character of one UTF-16 code unit that is not a line terminator |
| VideoPlayer.IsWordChar | src/components/VideoPlayer.tsx:52 | `\w`: ASCII letters, digits and `_` |
| VideoPlayer.IsIdChar | src/components/VideoPlayer.tsx:52 | the class `[^#\&\?]` of group 2 |
| VideoPlayer.MarkerLength | src/components/VideoPlayer.tsx:52 | a marker that matches lies inside the string |
| VideoPlayer.LineEnd | src/components/VideoPlayer.tsx:52 | how far `^.*` can reach from a position: a position between it and the end of the string |
| VideoPlayer.LineEndIsFirstTerminator | src/components/VideoPlayer.tsx:52 | the first line ends at the first line terminator: `^.*` passes no terminator and stops at one |
| VideoPlayer.LastMarkerAtOrBefore | src/components/VideoPlayer.tsx:52 | the backtracking of the greedy `^.*`: a position it returns is at or before its start and has a marker |
| VideoPlayer.LastMarkerIsRightmost | src/components/VideoPlayer.tsx:52 | the backward search returns the rightmost marker position at or before its start, and none only when no position has a marker |
| VideoPlayer.RunEnd | src/components/VideoPlayer.tsx:52 | the end of group 2: a position between its start and the end of the string |
| VideoPlayer.RunEndIsMaximal | src/components/VideoPlayer.tsx:52 | group 2 is a maximal run of characters other than `#`, `&`, `?` |
| VideoPlayer.MaximalRunIsUnique | src/components/VideoPlayer.tsx:52 | that maximal run is unique |
| VideoPlayer.IdAfterMarker | src/components/VideoPlayer.tsx:52-54 | an id read after a marker has 11 characters and none of `#`, `&`, `?` |
| VideoPlayer.ExtractVideoId | src/components/VideoPlayer.tsx:50-55 | a non-null result has exactly 11 characters and contains no `#`, `&` or `?` |
| VideoPlayer.ExtractAtChosenMarker | src/components/VideoPlayer.tsx:50-55 | given the rightmost marker of the first line and the maximal run after it, the result is that run when it has 11 characters and null otherwise, even when an earlier marker is followed by a good id |
| VideoPlayer.ChosenMarkerIsFound | src/components/VideoPlayer.tsx:52 | the search from the end of the first line stops at the rightmost marker |
| VideoPlayer.NoMarkerNoId | src/components/VideoPlayer.tsx:52-54 | no marker in the first line gives null |
| VideoPlayer.NoMarkerAnywhereNoId | src/components/VideoPlayer.tsx:52-54 | a URL in which no marker occurs gives null |
| VideoPlayer.SingleLineIsSearchedInFull | src/components/VideoPlayer.tsx:52 | without line terminators, `^.*` may reach the end of the URL |
| VideoPlayer.PlainPrefixIsIgnored | src/components/VideoPlayer.tsx:52 | text without line terminators put in front of a URL that has a marker in its first line does not change the result |
| VideoPlayer.MarkerShape | src/components/VideoPlayer.tsx:52 | every marker is free of line terminators and ends in `/` or in `v=` |
| VideoPlayer.MarkerThenPlainText | src/components/VideoPlayer.tsx:50-55 | whatever precedes it on the line, a marker followed by plain text and an optional parameter tail yields that text when it has 11 characters, and null otherwise |
| VideoPlayer.LinkGivesId | src/components/VideoPlayer.tsx:50-55 | the same for `head + marker + id + tail`, for any marker recognised once at its own start |
| VideoPlayer.ShortLinkGivesId | src/components/VideoPlayer.tsx:52-54 | `…youtu?be/<id>` gives the id when it has 11 characters, with any `IsDotChar` in place of the dot |
| VideoPlayer.WideDotIsNoMarker | src/components/VideoPlayer.tsx:52 | a character outside the Basic Multilingual Plane in place of the dot gives no marker |
| VideoPlayer.VLinkGivesId | src/components/VideoPlayer.tsx:52-54 | `…v/<id>` gives the id when it has 11 characters |
| VideoPlayer.UserLinkGivesId | src/components/VideoPlayer.tsx:52-54 | `…u/<w>/<id>`, `<w>` a word character, gives the id when it has 11 characters |
| VideoPlayer.EmbedLinkGivesId | src/components/VideoPlayer.tsx:52-54 | `…embed/<id>` gives the id when it has 11 characters |
| VideoPlayer.WatchLinkGivesId | src/components/VideoPlayer.tsx:52-54 | `…watch?v=<id>` gives the id when it has 11 characters |
| VideoPlayer.ParamLinkGivesId | src/components/VideoPlayer.tsx:52-54 | `…&v=<id>` gives the id when it has 11 characters |
| VideoPlayer.ShortLinkExample | src/components/VideoPlayer.tsx:52-54 | `https://youtu.be/dQw4w9WgXcQ` yields `dQw4w9WgXcQ` |
| VideoPlayer.ShortIdExample | src/components/VideoPlayer.tsx:54 | `https://youtu.be/abc` yields null |
| VideoPlayer.DotMatchesAnyCharacter | src/components/VideoPlayer.tsx:52 | `youtuXbe/dQw4w9WgXcQ` yields `dQw4w9WgXcQ` |
| VideoPlayer.WatchPageExample | src/components/VideoPlayer.tsx:52-54 | `https://www.youtube.com/watch?v=dQw4w9WgXcQ&t=10` yields `dQw4w9WgXcQ` |
| VideoPlayer.EmbedExample | src/components/VideoPlayer.tsx:52-54 | `https://www.youtube.com/embed/dQw4w9WgXcQ` yields `dQw4w9WgXcQ` |
| VideoPlayer.RightmostMarkerWins | src/components/VideoPlayer.tsx:52-54 | `youtu.be/dQw4w9WgXcQ?v/abc` yields null: the later marker `v/` wins although the earlier one is followed by a good id |

## Left out

- Loading and saving the list through `localStorage` with `JSON.parse`/`JSON.stringify` (src/app/page.tsx:20-29) is browser I/O. So is the fact that `dueDate` comes back as a string; `DueDate` is an uninterpreted value.
- React state, rendering, the form and UI flags (`isFormOpen`, `showVideo`, `showPayment`), and dnd-kit's sensors and collision detection are UI code.
- The YouTube iframe API loading and player construction (src/components/VideoPlayer.tsx:15-48) are DOM and foreign calls.
- The payment widget, the currency formatter, the page layout and `date-fns` formatting are foreign or display code. The form that creates tasks is not part of this model, so ids are whatever the caller supplies.
- TaskStore.ArrayMove: dnd-kit's `arrayMove` is not part of this model. It is modelled as copy, remove the element at `from`, insert it at `to`.
- TaskStore.HandleDragEnd: requires both ids to be present when the drag is a real move. dnd-kit only reports ids registered from the list, so the case where `findIndex` returns -1 is not modelled.
- TaskCard.PaymentAmount: `paymentAmount` is a JavaScript number; it is modelled as an integer, so fractions and NaN are not modelled.
- TaskList.SortByOrder: the comparator `a.order - b.order` is modelled as integer comparison, so floating-point orders and NaN are not modelled. Sorting is modelled as a stable insertion sort; `StableSortIsUnique` shows it agrees with every stable sort by order, which ECMAScript's `Array.prototype.sort` is.
- VideoPlayer.ExtractVideoId: strings are sequences of Unicode scalar values, whereas the pattern works on UTF-16 code units. The dot of `youtu.be` is modelled on code units (`IsDotChar`). `[^#\&\?]` accepts both code units of a wide character, so group 2 covers the same characters. Its length, however, is counted in scalar values, so a group 2 holding characters outside the Basic Multilingual Plane is measured shorter than JavaScript measures it. Strings holding a lone surrogate cannot be written in the model.
- VideoPlayer.MarkerLength: its own contract only says that a marker found lies inside the string. Which texts are markers is stated by `MarkerShape` and by the per-form link lemmas.
- VideoPlayer.LinkGivesId: the per-form link lemmas cover ids of plain text (no `/`, `=` or line terminator in them) and tails that start with `#`, `&` or `?` and hold no `/` or `v=`. Every other input is covered by the general `ExtractAtChosenMarker`.

## Findings

| source | as written | input that shows it | evidently intended | confidence | as-written member | corrected member |
|---|---|---|---|---|---|---|
| src/app/page.tsx:58-60 | `deleteTask` filters without renumbering, and `addTask` numbers a new task by the list length | tasks with ids a, b, c and orders 0, 1, 2: delete a, delete b, then add d; d gets order 1 and is listed above c, which kept order 2 | a delete renumbers the survivors 0..n-1, so orders equal indices and a new task is always listed last | medium, not executed | TaskList.NewTaskCanBeListedFirst | TaskStore.DeleteTaskRenumbered |

`TaskList.NewTaskIsListedLast` proves the intended property for the corrected delete. The rest of the model keeps `TaskStore.DeleteTask` as written, because that is what the app does.
