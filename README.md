# Test-case report dashboard, modelled in Dafny

The dashboard keeps a catalog of test groups in memory. Each group owns an
ordered list of test cases, and each case has an id, a title, a status
(success or fail), a prompt, a code snippet and a preview page. On top of
the catalog sit:

- three statistics: total cases, successful cases and groups;
- a single modal slot (upload, viewer, delete or none);
- a viewer payload and a pending delete target.

The handlers do the following:

- add a group;
- add a case to the first group;
- delete a group or a case in two steps, initiate then confirm;
- open the content viewer, or open a preview URL in a new window;
- move a case between groups by drag and drop. The drag payload is the JSON
  text of `{caseId, sourceGroupId}`.

The model has five modules:

- `Types` (`types.dfy`): the closed datatypes of the data model.
- `Catalog` (`catalog.dfy`): the catalog as a value, and everything proved
  about it. This covers the statistics, id uniqueness, the append, delete
  and move rebuilds, and their effects on counts, membership and order.
- `DragProtocol` (`drag_protocol.dfy`): the drag payload. The encoder writes
  exactly what `JSON.stringify` writes for the two-field object. The
  decoder fails closed. The round trip `Decode(Encode(p)) == Some(p)` is
  proved.
- `Modals` (`modals.dfy`): the three dialogs.
  - `UploadForm` is a class whose fields the edit, file and submit handlers
    update.
  - `ContentViewer` is a class that counts object URLs as they are acquired
    and released. Its invariant is that every created URL is either revoked
    or is the single URL the frame shows.
  - The delete dialog is a pure button dispatch.
- `App` (`app.dfy`): the `Dashboard` class. It holds the catalog, the
  modal slot, the viewer payload, the delete target, the viewer and the
  form. Its invariant `Valid()` requires unique ids across the catalog and
  a viewer in step with the payload.
  - Every handler is a method. Its contract states the new catalog, modal
    slot, payload and delete target, and what happens to the viewer's URLs.
  - The statistics are computed by a loop proved equal to `StatsOf`.

The code does not enforce unique ids: it takes them from the clock. The model
therefore takes a fresh id as a parameter, and the handlers that create
groups or cases require it to be unused.
`MoveWithDuplicateIdsLosesCases` shows that a drop loses a case when the
dragged case's id occurs twice in the source group: both copies leave the
source and only one reaches the target. This is why uniqueness is part of
`Dashboard.Valid()`.

Several behaviours of the code are easy to assume otherwise. The model
keeps each as the code has it:

- The upload form rejects only the exact empty title. A title of blanks is
  accepted.
- Closing the viewer does not revoke its object URL. Only a new payload or
  unmounting does.
- Cancel in the delete dialog closes it but leaves the delete target
  recorded.
- Closing the upload dialog keeps every field.
- A successful submission resets the form even when the catalog then
  refuses the case because there is no group.
- Group deletion removes every group carrying the id.
- Case deletion happens only when the recorded case id is present and
  non-empty.
- Adding a case does not check the title.

## Model

| member | source | states |
|---|---|---|
| Types.ParseStatus | types.ts:1-4 | only the two status values "success" and "fail" read back as a status, each as the status whose value it is; any other text is not a status |
| Types.StatusValueRoundTrip | types.ts:1-4 | each status reads back from its value as itself, and the two statuses have different values |
| Catalog.SuccessIn | App.tsx:38 | the number of successful cases in a list is at most the list's length |
| Catalog.StatsOf | App.tsx:33-41 | the statistics are the case count, the success count and the group count, with success never above total |
| Catalog.StatsSplit | App.tsx:36-39 | each statistic of two catalogs side by side is the sum of their statistics, so the totals are sums over groups |
| Catalog.FindGroup | App.tsx:122-123 | the index found is that of the first group with the id; none is found exactly when no group has it |
| Catalog.FindCase | App.tsx:128 | the case found is in the list and has the id; none is found exactly when no case has it |
| Catalog.FindCaseFirst | App.tsx:128 | the case found is the first one carrying the id |
| Catalog.WithoutCase | App.tsx:131 | filtering out an id removes exactly the cases with that id, keeps only cases of the list, and changes nothing when the id is absent |
| Catalog.WithoutCaseAt | App.tsx:131 | filtering out an id held by exactly one case removes that case and keeps every other case in its original order |
| Catalog.WithNewCase | App.tsx:66-67 | appending a case changes only the first group, which keeps its id and title and gains the case at the end of its list |
| Catalog.RemoveGroup | App.tsx:80 | after the group filter no group has the id, every other id keeps its number of groups, and an absent id changes nothing |
| Catalog.RemoveCase | App.tsx:82-87 | the case filter keeps the number, ids and titles of groups, leaves every group with another id as it is, and filters the cases of the groups with the id |
| Catalog.MoveCase | App.tsx:119-133 | a drop keeps the number, ids and titles of the groups |
| Catalog.AddGroupEffect | App.tsx:44-51 | appending an empty group raises the group count by one, leaves total and success alone, and keeps ids unique when its id is fresh |
| Catalog.AddCaseStats | App.tsx:53-69 | appending a case to the first group raises total by one, raises success by one exactly when the case succeeded, and leaves the group count alone |
| Catalog.AddCasePlacement | App.tsx:56-68 | a case with a fresh id appended to the first group keeps ids unique and is found in the first group, unchanged |
| Catalog.RemoveGroupAt | App.tsx:80 | deleting a group with a unique id removes exactly that group and keeps the others in their order |
| Catalog.RemoveGroupEffect | App.tsx:79-80 | a confirmed group deletion lowers total by the group's case count, success by its successes and the group count by one; none of its cases is left anywhere, and ids stay unique |
| Catalog.RemoveGroupKeepsIdsUnique | App.tsx:80 | deleting any group id, present or not, keeps ids unique |
| Catalog.RemoveCaseCounts | App.tsx:82-87 | case deletion never raises the count of any case id and does not change the count of ids other than the one deleted |
| Catalog.RemoveCaseAt | App.tsx:82-87 | with unique group ids, case deletion rewrites only the one group with the id |
| Catalog.RemoveCaseInOrder | App.tsx:82-87 | with unique ids, deleting the case at position k of group i removes exactly that case, keeps the group's other cases in order and leaves every other group as it is |
| Catalog.RemoveCaseStats | App.tsx:81-87 | a confirmed case deletion lowers total by one, lowers success by one exactly when the case succeeded, and keeps the group count |
| Catalog.RemoveCaseGone | App.tsx:81-87 | after a confirmed case deletion no case with that id is left, and ids stay unique |
| Catalog.RemoveCaseKeepsIdsUnique | App.tsx:81-87 | deleting any case id from any group id keeps ids unique |
| Catalog.MoveNoOp | App.tsx:119-130 | a drop on the source group, with an unknown source or target, or with the case absent from the source, changes nothing |
| Catalog.MovePermutes | App.tsx:127-133 | with unique ids a drop rearranges the catalog's cases without adding, losing or changing any |
| Catalog.MoveKeepsCounts | App.tsx:127-133 | with unique ids a drop keeps total and success |
| Catalog.MoveIdCount | App.tsx:127-133 | with unique ids a drop that applies keeps the number of cases of every id |
| Catalog.MoveKeepsIdsUnique | App.tsx:127-133 | a drop keeps ids unique |
| Catalog.MoveEffect | App.tsx:112-139 | with unique ids a drop keeps all three statistics and unique ids |
| Catalog.MoveRelocates | App.tsx:127-133 | a case in group `src` dropped on another existing group is afterwards found in that group, field for field the same |
| Catalog.MoveInOrder | App.tsx:127-133 | with unique ids, dropping the case at position k of one group on another group removes exactly that case from the source, keeps the source's other cases in order, appends the case to the end of the target, and leaves every other group as it is |
| Catalog.MoveBackRestores | App.tsx:127-133 | moving a case to another group and back returns it to its original group with the statistics unchanged |
| Catalog.MoveBackReorders | App.tsx:131-132 | moving the first of two cases away and back puts it after the other, so the original position is not restored |
| Catalog.MoveWithDuplicateIdsLosesCases | App.tsx:131-132 | with two cases sharing an id, a drop removes both from the source and appends one to the target, so the total drops from 2 to 1 |
| DragProtocol.EscapePrintable | App.tsx:109 | an escaped string holds no raw control character, as JSON requires inside a string literal |
| DragProtocol.Encode | App.tsx:108-110 | the drag text opens with the case id key, ends with a closing brace and holds no raw control character; DecodeEncode reads it back |
| DragProtocol.Decode | App.tsx:114-118 | a transfer text that decodes starts with the case id key |
| DragProtocol.ParseEscaped | App.tsx:109 | reading an escaped string literal gives the string back and stops right after its closing quote |
| DragProtocol.DecodeEncode | App.tsx:108-118 | the drop reads back exactly the case id and source group id the drag start wrote |
| DragProtocol.DecodeFailsClosed | App.tsx:115-118 | empty transfer text, or text that does not open with the case id key, decodes to nothing |
| Modals.UploadForm.constructor | components/Modals.tsx:74-79 | the form starts with empty title, prompt, code and HTML, status success and "No file chosen" |
| Modals.UploadForm.EditTitle | components/Modals.tsx:124 | editing the title changes the title only |
| Modals.UploadForm.EditPrompt | components/Modals.tsx:132 | editing the prompt changes the prompt only |
| Modals.UploadForm.EditCode | components/Modals.tsx:141 | editing the code changes the code only |
| Modals.UploadForm.EditHtml | components/Modals.tsx:166 | editing the HTML changes the HTML only |
| Modals.UploadForm.SelectStatus | components/Modals.tsx:174-181 | the chosen option's value becomes the status whose value it is, and no other field changes |
| Modals.UploadForm.ChooseFile | components/Modals.tsx:82-85 | a picked file shows its name and changes nothing else; an emptied input changes nothing |
| Modals.UploadForm.FileLoaded | components/Modals.tsx:86-92 | a loaded file becomes the HTML and fills the code only when the code is empty; a non-empty code is never overwritten and no other field changes |
| Modals.UploadForm.Submit | components/Modals.tsx:97-108 | an empty title is refused with no field changed; any other title hands over the current values once and resets the form to its initial state |
| Modals.ContentViewer.constructor | components/Modals.tsx:13-24 | the first render creates one URL exactly when the payload is a preview with content |
| Modals.ContentViewer.SetData | components/Modals.tsx:15-24 | a new payload revokes the previous URL if there was one and creates one exactly when the new payload is a preview with content; at most one URL is live and every created URL is revoked or shown |
| Modals.ContentViewer.Unmount | components/Modals.tsx:20 | unmounting revokes the live URL, so every URL created has been revoked |
| Modals.Render | components/Modals.tsx:26-59 | nothing is drawn when closed or without a payload; otherwise the title, a frame exactly for a preview with a URL, the content verbatim otherwise, and the content length and the kind's mode label in the footer |
| Modals.ModeLabelsDistinct | components/Modals.tsx:59 | the footer's mode label tells the three kinds apart |
| Modals.FrameOnlyOnLiveUrl | components/Modals.tsx:15-54 | in a mounted viewer, an open dialog shows a frame exactly for a preview with non-empty content and the frame's URL is live; anything else shows the content as text |
| Modals.ButtonCallback | components/Modals.tsx:216-218 | Delete is the only button that confirms; Cancel only closes |
| Modals.DeletePrompt | components/Modals.tsx:204-213 | a closed dialog draws nothing; an open one asks about "Group and all its cases" exactly for a group |
| App.InitialCatalog | constants.ts:1321-1352 | the seed catalog has three cases, all successful, in one group, with unique ids |
| App.AfterDelete | App.tsx:76-88 | a group target leaves no group with its id and keeps every other group count; a case target keeps every group with another id and the number of groups; a case target without a case id changes nothing |
| App.AfterDeleteKeepsIdsUnique | App.tsx:79-88 | a confirmed deletion keeps ids unique |
| App.DragThenDrop | App.tsx:108-133 | a card dragged from its group and dropped on another reads back intact, ends up in the target group unchanged, and the statistics stay |
| App.Dashboard.constructor | App.tsx:25-28 | the dashboard opens on the seed catalog with no modal, no viewer payload and no delete target, and a pristine form |
| App.Dashboard.ComputeStats | App.tsx:33-41 | accumulating case and success counts group by group yields the statistics of the catalog |
| App.Dashboard.AddGroup | App.tsx:44-51 | an empty group titled "New Test Group" is appended at the end, every earlier group stays in order, the group count rises by one, and ids stay unique |
| App.Dashboard.AddCase | App.tsx:53-69 | with no group nothing changes; otherwise the case is appended to the first group only, is found there, total rises by one and success by one exactly for a successful case |
| App.Dashboard.InitiateDelete | App.tsx:71-74 | the target is recorded and the delete dialog opens; no group changes |
| App.Dashboard.ConfirmDelete | App.tsx:76-91 | without a target nothing changes; with one the deletion is applied, the dialog closes, the target is cleared, and ids stay unique |
| App.Dashboard.DeleteQuestion | App.tsx:294-298 | the dialog asks about a group exactly when the recorded target is a group, and draws nothing unless the delete modal is active |
| App.Dashboard.PressDeleteButton | App.tsx:294-299 | Cancel closes the dialog without deleting and keeps the target; Delete with a target applies the recorded deletion, closes the dialog and clears the target; Delete without a target changes nothing |
| App.Dashboard.OpenViewer | App.tsx:93-96 | the payload is set and the viewer is the one open modal; the previous URL is revoked, a fresh URL exists exactly for a preview with content, and at most one is live |
| App.Dashboard.PressPreview | App.tsx:251-258 | content starting with "http" opens in a new window and changes no state, the viewer included; anything else opens the viewer on a preview payload: the previous URL is revoked, and a fresh URL, the next in creation order, exists exactly for non-empty content |
| App.Dashboard.OpenUpload | App.tsx:189 | the upload dialog opens with the form as it was |
| App.Dashboard.CloseModal | App.tsx:286 | closing empties the modal slot and changes nothing else, in particular not the form's fields |
| App.Dashboard.SubmitUpload | components/Modals.tsx:97-108 | an empty title changes nothing; otherwise the case is added when there is a group, and the form resets and the dialog closes either way |
| App.Dashboard.Drop | App.tsx:112-139 | empty or unreadable transfer text changes nothing; otherwise the catalog becomes the move of the decoded case; statistics and unique ids are kept |

## Left out

- The seeded page sources, scripts and shaders in `constants.ts` are opaque
  strings. The seed is modelled by its shape only: group `g1` with cases
  `c1` to `c3`.
- Rendering, styling, icons and the stat card component are not modelled.
- Avatar upload is not modelled.
- The group-title and header inputs are not modelled. They have no change
  handler, so there is no rename operation.
- Ids from `Date.now()` become a caller-supplied fresh id.
- `window.open` becomes the returned URL of `Dashboard.PressPreview`.
- `alert` becomes a refusal result.
- `console.error` is dropped.
- `Blob` and `URL.createObjectURL`/`revokeObjectURL` become numbered URLs
  with a live set and created/revoked counters.
- The asynchronous `FileReader` becomes two steps: `ChooseFile`, then
  `FileLoaded`.
- React scheduling is not modelled. Every handler is one atomic
  transition, and the viewer's effect runs inside the payload change.
- DragProtocol.Decode: it accepts only the canonical object shape that
  `handleDragStart` writes (App.tsx:108-110): keys in that order, no
  whitespace, no other fields. `JSON.parse` also accepts the same object
  with keys reordered, with whitespace or with extra fields, and the source
  then moves the case. The model decodes such text to `None` and changes
  nothing. Only the dashboard's own drag start writes this payload, and it
  always writes the canonical shape.
- Modals.UploadForm.FileLoaded: the code field is checked when the file
  content arrives. The source checks the value captured when the file was
  picked, so an edit made while the file is being read is not seen.
- Modals.UploadForm.SelectStatus: it requires the option value to read
  back as a status. The select offers only the two status values. The
  source's unchecked cast of any other string is not modelled.
- Modals.Render: the footer counts Dafny characters (code points). The
  source's `content.length` counts UTF-16 code units, which differs for
  characters outside the Basic Multilingual Plane.
- Modals.ContentViewer.SetData: it runs on every payload change. The
  source's effect runs when the payload object changes identity, and every
  call to open the viewer creates a new object.
- App.Dashboard.AddCase: the catalog is a value. The source pushes onto
  the first group's array in place. That array is shared with the previous
  state and the seed constant, and this aliasing is not modelled.
- App.Dashboard.Drop: the source also reassigns the source group's cases
  and pushes onto the target's array in place, on group objects shared
  with the previous state. The model rebuilds the affected groups instead.
- App.Dashboard.Drop: text that is not JSON makes `JSON.parse` throw, and
  the JSON value `null` makes the destructuring throw. Both are caught and
  logged. Any other JSON value that is not such an object (a number, a
  string, a boolean, an array) gives undefined fields. No group matches
  them, so the handler returns at App.tsx:125. Every one of these paths
  leaves the catalog unchanged, and the model covers them all in the
  `None` branch of `Decode`.
