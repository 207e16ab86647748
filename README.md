# EduCore student tracker: a Dafny model of the roster and the teacher chat

EduCore is a single-page tool for a mathematics teacher, written in JavaScript.
It registers students, marks daily attendance, logs academic progress, keeps a
per-student history of simulated "AI" requests, shows three summary counts, and
runs a teacher chat whose "AI" answer just echoes the message. All of it lives in
`script.js`. This project models the in-memory state of that file and the
operations that change it, and proves the rules they keep:

- `options.dfy` (module `Options`): the optional value that lookups return.
- `text.dfy` (module `Text`): JavaScript's `String.prototype.trim`, with the
  exact set of ECMAScript white-space and line-terminator characters. Also a
  helper that reads a value back out of a fixed text template.
- `records.dfy` (module `Records`): the student record and its three
  append-only lists (attendance, progress, AI history). It also holds the
  templated AI text and the outcome of an operation: applied, silently ignored,
  or refused with an alert.
- `roster.dfy` (module `Roster`): the roster `state.alumnos` as a value.
  - lookup by id (`obtenerAlumno`, a `find`);
  - removal by id (the `filter` in `eliminarAlumno`);
  - the three counts of the summary view (the `reduce` calls in `renderResumen`);
  - the roster invariant: ids are unique and each student has at most one
    attendance mark per date;
  - lemmas on how adding, replacing and deleting a student move the counts.
- `tracker.dfy` (module `Tracker`): class `RosterState`, the global `state`
  plus `alumnoIAActual`. It has one method per operation that changes them in
  place. Each method keeps the roster invariant and states the new roster
  exactly: unchanged when the operation refuses or ignores its input.
- `chat.dfy` (module `Chat`): class `ChatLog`, the global `chatDocente`, with
  send and clear. A log built by these operations is a sequence of
  user/answer pairs, and that shape is proved to be preserved.
- `navigation.dfy` (module `Navigation`): class `Navigator`, the section
  switcher `cambiarSeccion`, as a set of hidden sections plus a set of active
  menu buttons.

Values the source reads from the page become method parameters: form fields,
select values, the chat input. So do the generated id (`crypto.randomUUID`)
and today's date (`fechaHoyISO`). A new id is one never issued before, since
random UUIDs do not repeat. The tracker keeps the set of issued ids as ghost
state, so a removed student's id never comes back.

Details of `script.js` the model keeps:

- Status strings are the Spanish values the page offers ("Presente"/"Ausente",
  "Dominado"/"En proceso"/"Reforzar").
- Name and age are trimmed before the emptiness test. The stored values are the
  trimmed ones.
- The progress status is checked for emptiness BEFORE the student lookup.
  So an empty status with an unknown id is a silent no-op, not a failure.
- Switching to an id that no section has leaves every section hidden. The
  model does not promise "exactly one visible" in that case.

## Model

| member | source | states |
|---|---|---|
| Text.Trim | script.js:103-104 | the trimmed value is the slice of the input between its leading and trailing white space; it is empty exactly when the input is all white space (the `!nombre`/`!edad` test), and otherwise starts and ends with a non-space |
| Records.TopicOf | script.js:159 | a topic read back from an AI text really is the topic that rebuilds that text with the same kind and name |
| Records.TopicOfContent | script.js:159 | the template `Simulación IA: Generando <tipo> sobre "<tema>" para <nombre>` keeps the topic: it is recovered exactly from the text |
| Records.AIContent | script.js:159 | the AI text is the fixed prefix, then the kind, then the topic, then the student's name, each verbatim at its own offset |
| Records.MarkedOnSomeStatus | script.js:180 | a day counts as marked exactly when some attendance mark carries that date, whatever its status |
| Records.MarkKeepsOneMarkPerDay | script.js:180-185 | appending a mark for a day without one keeps at most one mark per date, and leaves that day marked |
| Roster.FindIndex | script.js:57-59 | the lookup stops at the first student with the id, and finds none exactly when no student has it |
| Roster.Find | script.js:57-59 | obtenerAlumno returns a student exactly when one has the id; it is a roster member with that id, and the first one |
| Roster.FindIndexUnique | script.js:57-59 | with unique ids the first match is the only student with that id |
| Roster.RemoveId | script.js:131 | the filtered roster holds exactly the students whose id differs, and is no longer than before |
| Roster.RemoveIdAppend | script.js:131 | the filter distributes over concatenation, so it keeps the remaining students in their original order |
| Roster.RemoveAbsent | script.js:131 | removing an id nobody has leaves the roster unchanged |
| Roster.RemovePresent | script.js:131 | with unique ids, removing a present id deletes exactly that one student and keeps the rest in order |
| Roster.RemoveKeepsWellFormed | script.js:131 | removal keeps ids unique and one attendance mark per date |
| Roster.AppendKeepsWellFormed | script.js:112-123 | appending a student with a fresh id and no marks keeps the roster invariant |
| Roster.ReplaceKeepsWellFormed | script.js:185 | replacing a student by one with the same id and one mark per date keeps the roster invariant |
| Roster.TotalsAppend | script.js:323-324 | the attendance and progress totals add up over any split of the roster |
| Roster.TotalsBound | script.js:323-324 | no student has more attendance or progress marks than the matching total |
| Roster.TotalsZero | script.js:323-324 | the attendance (progress) total is zero exactly when no student has an attendance (progress) mark |
| Roster.TotalsSingle | script.js:323-324 | the totals of a one-student roster are that student's list lengths |
| Roster.SummaryAppend | script.js:321-324 | appending a student raises the student count by one and each total by that student's marks |
| Roster.SummaryReplace | script.js:321-324 | replacing one student leaves the student count and moves each total by the change in that student's marks |
| Roster.SummaryDelete | script.js:321-324 | deleting one student lowers the student count by one and each total by that student's marks |
| Tracker.RosterState.constructor | script.js:8-9 | the state starts with an empty roster, no open AI panel and no id issued |
| Tracker.RosterState.AddStudent | script.js:102-123 | an empty trimmed name or age is refused with no change; otherwise exactly one student is appended at the end, with the fresh id, trimmed name and age, today as registration date and empty lists; the new id joins the issued ids; the student count rises by one, the other totals do not move, and the invariant holds |
| Tracker.RosterState.RemoveStudent | script.js:130-131 | the roster becomes the filter by id; an absent id changes nothing; a present id deletes exactly that student, lowering the student count by one and the totals by its marks |
| Tracker.RosterState.OpenAIPanel | script.js:140-141 | the open panel refers to the student with that id, by id and name, or to none when the id is absent; the invariant holds |
| Tracker.RosterState.GenerateAI | script.js:149-167 | an empty trimmed topic is refused with no change, even when no panel is open; otherwise exactly one entry `{today, kind, topic, text}` with the templated text is appended to the open student's history and nobody else's; no count moves |
| Tracker.RosterState.MarkAttendance | script.js:176-185 | a second mark on a day already marked is refused with no change; otherwise exactly `{today, status}` is appended to that student only, the attendance total rises by one, one mark per date is kept, and the day is marked afterwards |
| Tracker.RosterState.MarkProgress | script.js:194-198 | an empty status is ignored with no change; otherwise `{today, status}` is appended to that student only, with no duplicate check, and the progress total rises by one |
| Chat.Reply | script.js:231-234 | the answer is an assistant message made of the fixed echo prefix followed by exactly the text sent |
| Chat.Exchange | script.js:226-234 | a send appends two messages: the user's text, then an assistant answer that echoes exactly that text |
| Chat.Echoed | script.js:231-234 | a message read as an echo answer is exactly the answer to the text it yields |
| Chat.EchoedReply | script.js:231-234 | the answer `"Simulación IA: Recibido tu mensaje -> " + text` gives back exactly the text |
| Chat.ExchangePaired | script.js:226-234 | one exchange for a trimmed, non-empty message is a user/answer pair |
| Chat.PairedAppend | script.js:226-234 | paired logs concatenated stay paired |
| Chat.SendKeepsPaired | script.js:223-234 | appending the exchange for a message that is not only white space keeps a paired log paired |
| Chat.PairedAt | script.js:226-234 | in a paired log, message 2k is a trimmed non-empty user message and message 2k+1 is the answer echoing it |
| Chat.ChatLog.constructor | script.js:10 | the chat log starts empty |
| Chat.ChatLog.Send | script.js:221-237 | white-space-only input leaves the log unchanged; otherwise the log grows by exactly the user message (trimmed) and then the echo answer to it, and a paired log stays paired |
| Chat.ChatLog.Clear | script.js:240-241 | the log becomes empty; only the chat object is in the frame, so the roster is untouched |
| Navigation.FirstIndexOf | script.js:92 | the button found is the first one whose target is the id |
| Navigation.Navigator.constructor | script.js:87-91 | the page starts from the sections, the menu buttons' targets, and the hidden and active sets its markup gives |
| Navigation.Navigator.Switch | script.js:86-93 | afterwards every section but the target is hidden, so the target is the only visible one when it exists and none is visible otherwise; exactly the first button pointing at the target is active, or none; the id must hold no `"`, `\`, CSS newline or NUL |

## Left out

- Persistence (script.js:27-43): `localStorage` reads and writes and the JSON encoding are browser storage and library serialisation. The model starts from the empty state the constructors build. So it does not cover a corrupt stored value, whose parse throws, or loaded data that breaks the roster invariant. For the same reason the store-then-reload round trip is not modelled.
- `generarID` and `fechaHoyISO` (script.js:49-55) call the browser's random generator and clock. Their results are parameters: an id never issued before, and a date compared only for equality.
- The lookup in `registrarAsistencia` and `registrarProgreso` dereferences its result unguarded (script.js:177, 197), so a missing id would throw. The model states a precondition that the student exists; for progress it applies only when the status is non-empty, as in the code.
- Tracker.RosterState.GenerateAI: requires an open panel only for a non-empty topic. The source refuses an empty topic before it reads `alumnoIAActual` (script.js:154-157). For a non-empty topic it reads `alumnoIAActual.nombre` unguarded (script.js:159), which throws when no panel was opened or the id was not found.
- Aliasing in `generarIAAlumno`: `alumnoIAActual` is the student object itself. If that student was removed after the panel opened, the source pushes onto a detached object that is no longer in the roster. The model keeps only the student's id and name and leaves the roster unchanged in that case. Ids are never issued twice, so no later student can share that id, and the roster is the same one the source shows.
- In-place pushes on a student's nested lists become a replacement of that student in the roster sequence, at the first index with its id.
- Rendering and UI effects: every `render*` function apart from the three counts, `innerHTML` templates, `alert` (modelled only as which refusal happened), the modal's show and hide (script.js:142, 146), form reset, clearing the chat input, the chat re-render between the two pushes, and event wiring (script.js:65-80, 207-219, 250-320, 326-330).
- `renderPlanificador` (script.js:333-339) is static content that does not depend on state.
- Navigation.Navigator.Switch: `getElementById` may find an element that is not a section; the model considers section elements only. It also assumes the menu buttons are the only elements with a `data-seccion` attribute. Rendering the chat when switching to `iaDocente` is a UI effect and is left out. The target id goes unescaped into a CSS attribute selector (script.js:92). So the model requires an id with no `"`, `\`, line feed, carriage return, form feed or NUL. For such ids `querySelector` throws a SyntaxError, or reads a different value, and the CSS selector parse is not modelled.
- JavaScript strings are UTF-16 code units while Dafny characters are Unicode scalar values. This makes no difference to the comparisons and concatenations modelled here.
