# Parking spaces and reservations — a Dafny model

This project models the core of a small parking service. The service keeps
an in-memory list of parking spaces and a list of active reservations. A
vehicle checks in with its license plate. The service then takes the first
space in the list whose state is `"free"`, marks it `"in-use"` and records a
reservation for it. Checking out removes the reservation and sets its space
back to `"free"`. Administrators can register, look up, update and delete
spaces; a space can be deleted only while it is `"free"`.

The Dafny modules follow the source files:

- `Db` (`db.dfy`) models `shared/db.js`. It holds the `Space` and
  `Reservation` records, the seed data, and the class `AppDb` with the two
  lists and the two id counters. It also has the lookup that models
  `Array.prototype.find` (`FindIndex`, with its two instances `SpaceIndex`
  and `ReservationIndex`, which return the first match), JavaScript's
  string `length` in UTF-16 code units (`Utf16Length`),
  the scan target `FirstFree`, and the consistency predicates.
- `Spaces` (`spaces.dfy`) models `routes/spaces.js`. Its handlers are
  methods that take the shared `AppDb` and change only `db.spaces`.
- `Reservations` (`reservations.dfy`) models `routes/reservations.js`.
  `CheckIn` is a `while` loop that mirrors the `forEach` scan with its
  `freespace`/`flag` variables. `CheckOut` removes the reservation and frees
  its space. `AddZero` and `FormatTime` build the `HH:MM:SS` stamp.

Behaviour of the code that the model keeps:

- The id counters are read but never written back. Every registered space
  gets id `spacesLength + 1`, which is 6 on the seed data, and the seeded
  `space6` already has that id. Every new reservation gets id 4.
  `Spaces.SeedRegisterCollides` and `Reservations.SeedCheckInScenario` show
  this. So the invariant lemmas take "space ids are distinct" as a
  hypothesis, and a single registration from the seed data already breaks
  that hypothesis. Check-in keeps the store consistent only while no
  registration has reused an id. After one registration, the register and
  check-in handlers alone break consistency: the seventh check-in takes the
  registered space, whose id 6 is also the id of the seeded space6 that the
  third check-in took, so two active reservations name space 6
  (`Reservations.SeedRegisterThenCheckIns`). No update is involved.
- A space's state is any string. `Update` accepts any non-empty string,
  because Joi's `string()` refuses `""`. The handlers only test `== "free"`.
- The check-in scan keeps the chosen space's id in `freespace`, with 0
  meaning "none found". A free space with id 0 would be set to `"in-use"`
  while the handler still answers "no space". The model keeps this. No
  reachable store has such a space: ids start at 1 and the counter only
  hands out 6.
- The scan goes in list order, not id order. `Db.FirstFreeIsLowestId`
  shows that list order gives the lowest free id only while the list is
  sorted by id. The seed list is sorted; a registration appends id 6 at the
  end.
- Six seeded spaces (8, 9, 10, 13, 14, 15) are `"in-use"` with no
  reservation. So only "every reservation holds an in-use space" is an
  invariant; "every in-use space has a reservation" is not.
- `Update` can set a reserved space back to `"free"`, which breaks that
  invariant (`Spaces.UpdateCanBreakConsistency`).

The code has no paginated listing of spaces. No handler has a separate
"mark occupied" or "mark free" operation, and none checks that a space is
not already in the state it is given. "A space is in use exactly when one
reservation holds it" is not maintained; the seed data already breaks it.

Two handlers throw a TypeError in the code. These are modelled twice.
`DeleteAsWritten` and `CheckOutAsWritten` keep the code's behaviour. The
methods the rest of the model uses answer `NotFound` and change nothing
(see Findings).

## Model

| member | source | states |
|---|---|---|
| `Db.AppDb.constructor` | shared/db.js:1-28 | the store starts with the 15 seeded spaces, the 3 seeded reservations and counters 5 and 3 |
| `Db.FindIndex` | routes/spaces.js:11 | `find` on a key: the first position whose element has the key, every earlier element has another key; None when no element has it |
| `Db.Utf16Length` | routes/spaces.js:63 | JavaScript's string length, which Joi's `min` compares: between the number of characters and twice it, and equal to it exactly when no character lies outside the Basic Multilingual Plane |
| `Db.SpaceIndex` | routes/spaces.js:11 | `find` by id: the result is the first position whose space has the id, or None when no space has it |
| `Db.ReservationIndex` | routes/reservations.js:43 | `find` by id: the first position whose reservation has the id, or None when none has it |
| `Db.FirstFree` | routes/reservations.js:20-26 | the first position in list order whose state is "free"; every earlier space is not free; None when no space is free |
| `Db.FirstFreeAt` | routes/reservations.js:20-26 | a free space with no free space before it in the list is the one the scan picks |
| `Db.SpaceIndexSameIds` | routes/spaces.js:11 | the id lookup depends only on the ids in the list, so state or name changes never move it |
| `Db.SpaceIndexAt` | routes/spaces.js:11 | the first position holding an id is the position the lookup returns |
| `Db.ReservationIndexAt` | routes/reservations.js:43 | the first position holding a reservation id is the position the lookup returns |
| `Db.SpaceIndexOfDistinct` | routes/spaces.js:11 | with distinct ids, the lookup of a space's id returns that space's position |
| `Db.CountFreeAfterSetState` | routes/reservations.js:23 | turning one free space into a non-free one lowers the count of free spaces by exactly one |
| `Db.FirstFreeIffCountFree` | routes/reservations.js:20-27 | the scan finds a free space exactly when the count of free spaces is positive |
| `Db.FirstFreeIsLowestId` | routes/reservations.js:20-26 | in a list sorted by id, the scan's choice has the lowest id among the free spaces |
| `Db.SeedSpaceIds` | shared/db.js:1-17 | the 15 seeded spaces have ids 1 to 15 in list order, so the ids are distinct and positive |
| `Db.SeedReservationsConsistent` | shared/db.js:19-25 | the seeded reservations have ids 1 to 3; the counter 3 equals the largest; they hold spaces 3, 4 and 5, which are distinct and "in-use" |
| `Db.SeedCounterCollides` | shared/db.js:1-26 | the first id handed out, counter 5 + 1 = 6, is already the id of the seeded space6 |
| `Db.SeedInUseWithoutReservation` | shared/db.js:9-23 | spaces 8, 9, 10, 13, 14 and 15 are seeded "in-use" and no reservation holds them |
| `Spaces.NameLengthIsUtf16` | routes/spaces.js:61-67 | a name of one letter and one emoji (3 UTF-16 code units) is valid, while "ab" is not |
| `Spaces.ValidSpaceName` | routes/spaces.js:61-67 | the name is present and at least 3 UTF-16 code units long; no contract of its own, `Spaces.NameLengthIsUtf16` states how the length is counted |
| `Spaces.ValidSpaceInfo` | routes/spaces.js:69-76 | a valid name and a present, non-empty state string of any value; no contract of its own, `Spaces.Update` states its use |
| `Spaces.List` | routes/spaces.js:6-8 | listing returns the whole space list in insertion order |
| `Spaces.Get` | routes/spaces.js:10-15 | NotFound exactly when no space has the id; otherwise the first space with the id; nothing changes |
| `Spaces.Register` | routes/spaces.js:17-30 | a missing or short (< 3 UTF-16 code units) name is a validation error with the list unchanged; otherwise exactly one space, built by the helper `NewSpace` as "free" with the name and id counter + 1, is appended, earlier spaces and the counter untouched |
| `Spaces.Update` | routes/spaces.js:32-45 | existence is checked before validation; unknown id gives NotFound and an invalid body gives a validation error, both without change; otherwise only the name and state of the first matching space change |
| `Spaces.DeleteSpace` | routes/spaces.js:47-59 | unknown id gives NotFound; a space that is not "free" gives InUse; both leave the list unchanged; a free space is removed and returned, the others keep their order |
| `Spaces.DeleteAsWritten` | routes/spaces.js:47-59 | the delete handler as written, with the throw on an unknown id; no contract of its own, `Spaces.DeleteAsWrittenThrowsOnUnknownId` states the throw |
| `Spaces.DeleteAsWrittenThrowsOnUnknownId` | routes/spaces.js:48-50 | as written, deleting an id no space has throws a TypeError, for example id 99 on the seed data |
| `Spaces.RegisterDistinctIff` | routes/spaces.js:22-28 | after a registration the ids are distinct exactly when they were before and the new id was not taken |
| `Spaces.SeedRegisterCollides` | routes/spaces.js:22-28 | from the seed, every registration gets id 6; the ids stop being distinct; looking up 6 still finds the seeded space6 |
| `Spaces.RegisterThenGet` | routes/spaces.js:10-30 | when the new id is not taken, looking it up after a registration finds the appended free space with the given name |
| `Spaces.SpaceIndexPrefix` | routes/spaces.js:11 | appending spaces never changes the lookup of an id already present |
| `Spaces.RegisterKeepsConsistent` | routes/spaces.js:17-30 | registration keeps every reservation on an "in-use" space and no space shared |
| `Spaces.DeleteKeepsConsistent` | routes/spaces.js:47-59 | with distinct ids, deleting a free space keeps the ids distinct and the reservations consistent |
| `Spaces.DeleteThenGet` | routes/spaces.js:52-53 | with distinct ids, after deleting a space no space with its id is left |
| `Spaces.UpdateCanBreakConsistency` | routes/spaces.js:41-42 | on the seed data, updating space 3 to "free" leaves reservation 1 on a space that is not "in-use" |
| `Reservations.Decimal` | routes/reservations.js:77 | the decimal text of a number is a non-empty string of digits, of length 1 exactly when the number is below 10 |
| `Reservations.DecimalRoundTrip` | routes/reservations.js:77 | reading the decimal text back gives the number |
| `Reservations.DecimalNoLeadingZero` | routes/reservations.js:65-70 | the text of a number of 10 or more does not start with "0" |
| `Reservations.AddZero` | routes/reservations.js:65-70 | `addZero` as the text the following concatenation gives; no contract of its own, `Reservations.AddZeroPads` states it |
| `Reservations.FormatTime` | routes/reservations.js:72-79 | the `HH:MM:SS` stamp from the three clock readings; no contract of its own, `Reservations.FormatTimeShape` states it |
| `Reservations.ValidLicense` | routes/reservations.js:57-63 | the license is present and at least 6 UTF-16 code units long; no contract of its own, `Reservations.CheckIn` states its use |
| `Reservations.AddZeroPads` | routes/reservations.js:65-70 | `addZero` puts a "0" in front exactly when the value is below 10; below 100 the text has 2 digits; it reads back as the value |
| `Reservations.FormatTimeShape` | routes/reservations.js:72-79 | for h < 24, m < 60, s < 60 the stamp is 8 characters HH:MM:SS and each field reads back as h, m and s |
| `Reservations.List` | routes/reservations.js:6-8 | listing returns all active reservations in insertion order |
| `Reservations.CheckIn` | routes/reservations.js:10-40 | a missing or short (< 6 UTF-16 code units) license is a validation error with no change; otherwise only the first free space in list order becomes "in-use" and one reservation with the license, the stamp, id counter + 1 and that space's id is appended; no free space gives NoSpace with no change; the free count drops by one; distinct ids are kept, and consistency is kept when space ids are distinct |
| `Reservations.CheckOut` | routes/reservations.js:42-54 | an unknown id, or a reservation whose space is gone, gives NotFound with no change; otherwise the first reservation with the id is removed, the others keep their order, and the first space with its spaceId is set to "free"; distinct ids and consistency are kept |
| `Reservations.CheckOutAsWritten` | routes/reservations.js:42-54 | the check-out handler as written, splicing before the space is touched; no contract of its own, `Reservations.CheckOutAsWrittenLosesReservation` states the lost reservation |
| `Reservations.CheckOutAsWrittenLosesReservation` | routes/reservations.js:47-51 | as written, checking out a reservation whose space is gone throws after the reservation was removed |
| `Reservations.SetStateKeepsIds` | routes/reservations.js:23 | overwriting a state keeps the ids distinct and every id lookup the same |
| `Reservations.MarkInUseKeepsHeld` | routes/reservations.js:20-26 | setting a space to "in-use" never takes a space away from a reservation |
| `Reservations.CheckInKeepsConsistent` | routes/reservations.js:20-34 | with distinct ids, check-in keeps every reservation on an "in-use" space and no space shared |
| `Reservations.CheckOutKeepsConsistent` | routes/reservations.js:47-51 | check-out keeps every remaining reservation on an "in-use" space and no space shared |
| `Reservations.CheckInThenCheckOut` | routes/reservations.js:10-54 | checking in and then checking out the new reservation gives back both lists, when its id was unused and space ids are distinct |
| `Reservations.SeedTwoCheckIns` | routes/reservations.js:10-40 | from the seed, two check-ins take spaces 1 and 2 in list order, both with reservation id 4 |
| `Reservations.SeedCheckInScenario` | routes/reservations.js:10-54 | from the seed, after two check-ins sharing reservation id 4, checking out 4 removes the first one and keeps the second |
| `Reservations.SeedCheckOutDeletedSpace` | routes/reservations.js:42-54 | from the seed, after freeing and deleting space 3, the code as written throws and drops reservation 1; the corrected check-out answers NotFound and keeps it |
| `Reservations.TakeFirstFree` | routes/reservations.js:20-26 | once the scan's choice is set to "in-use", the next free space of the list is the scan's next choice, and everything after it is unchanged |
| `Reservations.CheckInNext` | routes/reservations.js:10-40 | one check-in in a known run: it succeeds, its reservation holds the space the scan takes and is appended, and the scan moves on to the next free space |
| `Reservations.SeedRegister` | routes/spaces.js:17-30 | from the seed, one registration leaves the store consistent but gives two spaces id 6 |
| `Reservations.SeedRegisterThenThreeCheckIns` | routes/reservations.js:10-40 | after that registration, three check-ins take positions 0, 1 and 5; the third holds the seeded space6 |
| `Reservations.SeedRegisterThenCheckIns` | routes/reservations.js:10-40 | from that consistent start, seven check-ins give the third and the seventh reservation the same space id 6, and the store is no longer consistent |

## Left out

- `index.js` is not part of this model. It starts the HTTP server and holds copies of the space handlers and a stub reservation handler that does not allocate.
- HTTP plumbing is left out: the router, status codes, response bodies and `parseInt` of path ids. Ids are integers and handlers return an `Outcome`.
- Joi validation is modelled as presence plus a length check in UTF-16 code units, as JavaScript counts (at least 3 for a name, at least 6 for a license, non-empty for a state). Joi's rejection of unknown keys, its type coercion and its messages are left out.
- The wall clock (`new Date()`, `getHours`, `getMinutes`, `getSeconds`) is left out. Check-in takes the hours, minutes and seconds as inputs.
- `addZero` returns a number when the value is 10 or more. The model gives the decimal text that the following string concatenation produces.
- Module-global assignment in `shared/db.js` and the routers is left out. The counters are plain fields of `AppDb`.
- Object identity is left out. Spaces and reservations are values in sequences, and a change to a found object is a replacement at its position.
- Concurrency is left out. Handlers run one at a time.

## Findings

| source | as written | input that shows it | evidently intended | confidence | as-written member | corrected member |
|---|---|---|---|---|---|---|
| routes/spaces.js:48-50 | reads `space.state` before the check that the space exists, so an unknown id throws a TypeError | DELETE /spaces/99 on the seed data | answer NotFound (404) for an unknown id | high; not executed | `Spaces.DeleteAsWritten`, `Spaces.DeleteAsWrittenThrowsOnUnknownId` | `Spaces.DeleteSpace` |
| routes/reservations.js:47-51 | splices the reservation out, then sets `space.state` on a space that may have been deleted; the TypeError leaves the reservation lost and the request failed | on the seed data: PUT /spaces/3 with name "space3" and state "free", DELETE /spaces/3, DELETE /reservations/1 | fail with no partial change; the model answers NotFound and keeps the reservation | medium; not executed | `Reservations.CheckOutAsWritten`, `Reservations.CheckOutAsWrittenLosesReservation` | `Reservations.CheckOut` |
