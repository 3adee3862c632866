# Hotel guest check-in / check-out: a Dafny model

This project models the core of a hotel front desk that recognises guests by
face. It covers the guest registry (`guests` table), the append-only event
log (`stats` table) and the operations that change them:

- enrolment of a new guest (`save_guest`);
- the list of guests currently checked in (`get_checked_in_guests`);
- the check-out update (`update_checkout`);
- the all-time totals per action (`get_stats`);
- the choice of the guest a captured face matched (`matches.index(True)`);
- the check-in and check-out pages of the web front end (`app.py` `main`);
- the console check-out loop (`check_out.py` `main`).

Face recognition is outside the model. A stored or captured encoding is an
opaque byte string (`Encoding`). The library's comparison is a parameter
`same(known, probe)`, so `compare_faces(known, probe)` is the list of its
answers in order (`GuestCheckOut.CompareFaces`). The current time
(`datetime.now()` formatted as text) is the parameter `now`.

Files and modules, one per source file:

- `Schema.dfy` (`database/create_db.py`): the row types `Guest` and `StatEvent`.
  The statuses "checked_in"/"checked_out" and the actions "check_in"/"check_out"
  are two-valued datatypes, since the code modelled here writes no other
  values (`update_guest`, which also writes `guests` rows, is not part of this model).
  `WellFormed` says what the AUTOINCREMENT key guarantees: ids are positive,
  strictly increasing in table order, and below the next id.
  `Database` is the storage handle holding both tables. Every operation takes
  it as a parameter and changes it in one step, as one commit does.
- `GuestCheckIn.dfy` (`src/check_in.py`): `SaveGuest`.
- `GuestCheckOut.dfy` (`src/check_out.py`): `CheckedInGuests`, `UpdateCheckout`,
  `FirstTrue`, the console loop `FindMatchingFace` / `CheckOutCli`. It also has
  a reference matcher, `FirstPresentMatch`, that scans the whole table directly.
  `FilteredMatchAgrees` proves that the code's route (filter, compare, first
  index) picks the same guest.
- `Stats.dfy` (`get_stats` in `src/app.py`): `Total`, `GetStats`, `Reported`
  (the `.get(action, 0)` of the statistics page).
- `App.dfy` (`main` in `src/app.py`): each page is a pure decision
  (`CheckInDecision`, `CheckOutDecision`) plus a method that performs the one
  write the decision leads to (`DispatchCheckIn`, `DispatchCheckOut`).

The `guests` table is a sequence in rowid order, not a map. The code reads
it with a `SELECT` without `ORDER BY` and then takes the first match in the
result. SQLite returns such a scan in rowid order, so the model fixes that
order.

What the code does not do:

- The check-in event carries no guest id (`src/check_in.py:58-61`). So the
  log cannot say, per guest, that check-in and check-out events alternate.
- `update_checkout` does not check the guest's current status. It also
  appends its event when the id is unknown. Only its callers restrict it to
  checked-in guests.
- No operation rejects a duplicate face or a malformed encoding.
- Totals are all-time. There are no daily, weekly, monthly or yearly windows.

The table schema has a mismatch that the model does not resolve. The `stats`
table created in `database/create_db.py:18-22` has no `guest_id` column.
`update_checkout` inserts into that column (`src/check_out.py:31-34`). On a
database created by that script, that insert would be refused. The model
follows the insert statements, so `StatEvent` has an optional guest id.

## Model

| member | source | states |
|---|---|---|
| `Schema.Database.constructor` | database/create_db.py:8-22 | Fresh tables are empty and the first id to be handed out is 1. |
| `GuestCheckIn.SaveGuest` | src/check_in.py:46-64 | Both writes happen in one step. Exactly one row is appended: the next AUTOINCREMENT id, the given name, phone and encoding, checkin_time = now, no checkout_time, status "checked_in". Earlier rows are unchanged. Its id differs from every earlier id. Exactly one event (no guest id, "check_in", 1, now) is appended. The table stays well formed. |
| `GuestCheckIn.EnrolKeepsWellFormed` | src/check_in.py:52-55 | Inserting a row with the next id keeps ids positive, strictly increasing and below the new counter, and that id is distinct from every existing id. |
| `GuestCheckOut.CheckedInGuests` | src/check_out.py:7-15 | The checked-in list is never longer than the table (order and contents are in the lemmas below). |
| `GuestCheckOut.CheckedInGuestsExact` | src/check_out.py:11 | An entry is in the list if and only if it is the (id, name, encoding) of some row whose status is "checked_in". |
| `GuestCheckOut.CheckedInGuestsEmpty` | src/app.py:95-96 | The list is empty if and only if no row is checked in. |
| `GuestCheckOut.CheckedInGuestsAppend` | src/check_out.py:11 | A row added at the end of the table appears at the end of the list if it is checked in, and the rest of the list is unchanged. |
| `GuestCheckOut.FirstTrue` | src/app.py:103-104 | No index if and only if no flag is true; otherwise the index of a true flag with no true flag before it. |
| `GuestCheckOut.FirstPresentMatch` | src/app.py:95-105 | Reference matcher: no result if and only if no checked-in row matches the probe; otherwise the first checked-in, matching row in table order. |
| `GuestCheckOut.FilteredMatchAgrees` | src/app.py:95-105 | Filtering checked-in rows, comparing each with the probe and taking the first true flag finds a guest exactly when the reference matcher does, and it is the same row's (id, name, encoding). |
| `GuestCheckOut.UpdateCheckout` | src/check_out.py:17-37 | Rows with that id get status "checked_out" and checkout_time = now. Their name, phone, encoding and checkin_time are unchanged, and so is every other row. One event (guest id, "check_out", 1, now) is appended. Status is not checked: an unknown id leaves the table unchanged but still appends the event. |
| `GuestCheckOut.CheckedInAfterCheckout` | src/check_out.py:24-28 | After checking out an id, the checked-in list holds exactly the old entries with a different id. |
| `GuestCheckOut.FindMatchingFace` | src/check_out.py:53-66 | Frames and faces are scanned in capture order. The result is the first face whose comparison list has a true flag, with the first true index. No result means that no face in any frame matched anyone. |
| `GuestCheckOut.FirstHitUnique` | src/check_out.py:60-66 | Two positions that are both "first matching face" are the same: the loop's choice is deterministic. |
| `GuestCheckOut.CheckOutCli` | src/check_out.py:39-79 | An empty checked-in list ends the loop at once with no change. Otherwise the guest checked out is the list entry picked by the first matching face, through update_checkout. If the frames run out with no match, nothing changes. The AUTOINCREMENT counter never moves. |
| `Stats.GetStats` | src/app.py:9-21 | Keys are exactly the actions that occur in the log. Each maps to the sum of the counts of its events. |
| `Stats.TotalAbsent` | src/app.py:13-17 | An action with no events has total 0. |
| `Stats.ReportedIsTotal` | src/app.py:119-125 | The figure shown for an action, with default 0, equals its total over the whole log, whether the action occurs or not. |
| `Stats.TotalAppend` | src/app.py:13-17 | Appending an event adds its count to its own action's total and leaves other totals unchanged. |
| `Stats.ReportedAfterAppend` | src/app.py:9-21 | The same holds for the figures read through get_stats and the default 0. |
| `Stats.TotalCountsEvents` | src/app.py:14 | When every count is 1, SUM(count) for an action is the number of its events. |
| `App.CheckInDecision` | src/app.py:47-78 | No face gives no action. A known face whose status is "checked_in" is refused, naming that guest. A known face that is not checked in waits for confirmation (naming that guest), and becomes an update_guest request only when confirmed, with the edited or kept name and phone and the new encoding. An unknown face waits for the form, and leads to enrolment with the form's name and phone only when the form is submitted. Each of the six outcomes holds if and only if its condition holds. |
| `App.DispatchCheckIn` | src/app.py:47-78 | An enrolment writes through save_guest, and the AUTOINCREMENT counter advances by one. A confirmed re-check-in is returned as an update_guest request and not applied. A refused guest who is already checked in, a missing face, or a pending form or confirmation write nothing, and the counter stays. |
| `App.CheckOutDecision` | src/app.py:94-115 | No face gives no action. If no row is checked in, the result is "none checked in". If rows are checked in but none matches, the result is "not found". Otherwise the guest checked out is the first checked-in, matching row in table order (its id and name). Each case holds if and only if its condition holds. |
| `App.DispatchCheckOut` | src/app.py:94-115 | Only a match writes, and it does so through update_checkout on the chosen guest. Every other outcome leaves both tables unchanged. The AUTOINCREMENT counter never moves. A check-out raises the check_out figure by 1 and leaves the check_in figure unchanged. |
| `App.CheckOutEventTotals` | src/check_out.py:31-34 | Appending a check-out event raises the reported check_out total by exactly 1 and leaves check_in unchanged. |
| `App.CheckInEventTotals` | src/check_in.py:57-61 | Appending the enrolment event raises the reported check_in total by exactly 1 and leaves check_out unchanged. |
| `App.NoSecondCheckOut` | src/app.py:95-108 | When a checked-in row matches the probe, the check-out page checks someone out, and that guest is a checked-in row. After that guest is checked out, no probe makes the page pick them again. |
| `App.EnrolThenCheckOut` | src/check_in.py:52-55 | Suppose a guest was just enrolled with encoding e and the comparator matches e with itself. Then a check-out probe e always finds someone. It picks the new guest if and only if no earlier checked-in guest matches e. |

## Left out

- The Streamlit pages, buttons and messages (`src/app.py:24-37,117-125`), the camera and window code (`capture_face`, `imshow`, `waitKey`). These are I/O and display. The operator's choices are inputs (`ProfileEdit`, `EnrolForm`), and a page's message is the returned outcome.
- Face detection and encoding (`get_face_encoding`, `face_locations`, `face_encodings`). These are foreign calls over floating point. The probe is an `Option<Encoding>` input, and `None` means no face was detected.
- `face_recognition.compare_faces` and its tolerance. These are floating-point distance calculations, replaced by the opaque comparator `same`. The `tobytes`/`frombuffer` round trip is taken as the identity.
- `check_existing_guest` and `update_guest`. They are imported by `src/app.py:5` but are not part of this model. The first one's answer is an input (`MatchedGuest`). A confirmed re-check-in is returned as `ResumeRequested` with the arguments `update_guest` would receive, and its effect on the tables is not modelled.
- The console enrolment `main` in `src/check_in.py:66-85`. It prompts, captures, and then calls `save_guest` with no registry lookup. Only `SaveGuest` is modelled.
- SQLite connections, commits and storage failures. Each operation is one atomic transition with no failure path. The `id` column of `stats` is not modelled: log order is sequence order.
- `CheckOutCli`: the camera loop `while True` becomes a finite sequence of frames. Reaching its end stands for the operator pressing `q`.
- Timestamps are kept as opaque text. Nothing in the code parses or compares them.
- `App.DispatchCheckIn`: a confirmed re-check-in calls `update_guest` (`src/app.py:63-65`). The model returns it as `ResumeRequested` and does not apply it, so the contract's "tables unchanged" for that outcome covers only the writes this model performs, not what `update_guest` does.
- `App.DispatchCheckOut`: the page reads the checked-in list (`src/app.py:95`) and writes (`src/app.py:108`) over two separate connections (`src/check_out.py:8,18`), and the console program uses the same database file. The model makes the read and the write one indivisible step on a database nothing else touches. It does not capture the stale read between them: if another process checks the same guest out in between, this page checks them out again, and `update_checkout`, which does not look at status, appends a second `check_out` event.
- `GuestCheckOut.CheckOutCli`: the console loop reads the checked-in list once (`src/check_out.py:41`) and writes only after an unbounded camera loop (`src/check_out.py:68`). The model runs the whole loop as one step on a database nothing else touches. It does not capture that the web page may check the same guest out meanwhile, so that the console checks them out a second time and appends a second `check_out` event.
