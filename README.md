# Eighth-period signups and bus page state, in Dafny

This project models two parts of the Intranet application.

The first is the eighth-period signup engine in `intranet/apps/eighth/models.py`. It covers:

- blocks, their (date, letter) order and their uniqueness;
- the next, previous, surrounding, first-upcoming and current block queries;
- the capitalisation of a block's letter on save;
- an activity's capacity, taken from its rooms;
- how a scheduled activity resolves its sponsors, rooms and capacity, using the override first and the activity's default second;
- `is_full` and the presign window;
- `EighthScheduledActivity.add_user`: the ordered chain of checks, then repointing the user's existing signup in the block or creating a new one;
- `EighthSignup.validate_unique` and the uniqueness constraints.

The second is three small state machines in `intranet/apps/bus/models.py`:

- a route's arrival-status reset;
- the handler callbacks of the bus-table HTML parser;
- the single-row bus announcement.

Files:

- `wrappers.dfy`: `Option`, `Result` and `Outcome`.
- `blocks.dfy` (module `Blocks`): the block table as a sequence of rows.
  - The queries are functions.
  - `BlockTable` is a class whose `Save` capitalises the letter and writes the row.
- `activities.dfy` (module `Activities`): rooms, activities and scheduled activities.
  - `Capacity` is the summing loop, proved against `ActivityCapacity`.
- `signups.dfy` (module `Signups`):
  - the read-only tables (`Schedule`) and the signup table (`Store`);
  - the check chain `FirstFailure`;
  - `Admit`, the function that states what `add_user` does to the store;
  - `SignupStore`, the class whose `AddUser` runs the checks imperatively and changes its map in place.
- `bus.dfy` (module `Bus`): the `Route`, `BusTableParser`, `BusAnnouncement` and `AnnouncementTable` classes.
  - The handlers are proved against `Step`, a function on a two-field parser state.

Conventions:

- Time:
  - A date is a day number.
  - An instant `now` counts seconds from the midnight that starts day 0, in the naive local time the source uses.
  - The wall clock is replaced by the `now` parameter.
- The HTTP request is reduced to an optional `(requester, is_eighth_admin, "force" in GET)` triple.
- Exceptions are `Failure`/`Fail` values, named as the source names them.
  - The presign exception is `Presign`, as at `eighth/models.py:338`.

## Model

| member | source | states |
|---|---|---|
| Blocks.LetterLessTransitive | intranet/apps/eighth/models.py:179 | the letter order used by `order_by("date", "block_letter")` is transitive |
| Blocks.LetterLessTotal | intranet/apps/eighth/models.py:179 | any two distinct letters are ordered one way or the other |
| Blocks.PrecedesTransitive | intranet/apps/eighth/models.py:179-182 | the (date, letter) order is transitive |
| Blocks.PrecedesTotal | intranet/apps/eighth/models.py:179-182 | two blocks with different (date, letter) pairs are ordered |
| Blocks.Sort | intranet/apps/eighth/models.py:178-179 | the rows in ascending (date, letter) order; a permutation of the input that keeps (date, letter) unique |
| Blocks.Later | intranet/apps/eighth/models.py:180-182 | exactly the rows strictly after the block: a later date, or the same date and a greater letter |
| Blocks.Earlier | intranet/apps/eighth/models.py:190-192 | exactly the rows strictly before the block |
| Blocks.PartitionAround | intranet/apps/eighth/models.py:177-195 | earlier, same-key and later rows together are the whole table (as multisets) |
| Blocks.AlikeIsSelf | intranet/apps/eighth/models.py:211 | with (date, letter) unique, the only row sharing a row's key is that row itself |
| Blocks.NextBlocks | intranet/apps/eighth/models.py:177-185 | the query fails only for a quantity below -1, where the query layer refuses a negative slice |
| Blocks.PreviousBlocks | intranet/apps/eighth/models.py:187-195 | the query fails only for a quantity below -1 |
| Blocks.NextBlocksAreLaterAscending | intranet/apps/eighth/models.py:177-184 | unlimited `next_blocks` holds exactly the blocks strictly after `b`, strictly ascending |
| Blocks.PreviousBlocksAreEarlierAscending | intranet/apps/eighth/models.py:187-194 | unlimited `previous_blocks` holds exactly the blocks strictly before `b`, ascending after the reversal |
| Blocks.NextBlocksLimited | intranet/apps/eighth/models.py:185 | with quantity q at least 0: at most q+1 blocks, a prefix of the unlimited answer, and either q+1 blocks or all of them |
| Blocks.PreviousBlocksLimited | intranet/apps/eighth/models.py:187-195 | with quantity q at least 0: at most q+1 blocks, the suffix nearest `b` of the unlimited answer |
| Blocks.Surrounding | intranet/apps/eighth/models.py:197-205 | unlimited previous blocks, then the block, then unlimited next blocks; `SurroundingIsWholeTable` states the result |
| Blocks.SurroundingIsWholeTable | intranet/apps/eighth/models.py:197-205 | for a block of the table, previous ++ [b] ++ next is the whole table, strictly ascending, with `b` exactly once |
| Blocks.Cutoff | intranet/apps/eighth/models.py:125-127 | today's midnight before 17:00, otherwise `now` itself; `UpcomingDatesByHour` states which dates then qualify |
| Blocks.FromCutoff | intranet/apps/eighth/models.py:131 | exactly the rows whose date's midnight is not before the cutoff |
| Blocks.FirstUpcomingBlock | intranet/apps/eighth/models.py:114-134 | the first of the qualifying blocks in (date, letter) order, or None; `FirstUpcomingIsLeast` states the result |
| Blocks.FirstUpcomingIsLeast | intranet/apps/eighth/models.py:114-134 | None exactly when no block is at or after the cutoff; otherwise the (date, letter)-least block of the table at or after it |
| Blocks.UpcomingDatesByHour | intranet/apps/eighth/models.py:125-131 | before 17:00 on day D, blocks dated D or later qualify; from 17:00 on, only blocks dated after D |
| Blocks.CurrentBlocks | intranet/apps/eighth/models.py:136-146 | [] without a first upcoming block, else that block's surrounding blocks; `CurrentBlocksAreWholeTable` states the result |
| Blocks.CurrentBlocksAreWholeTable | intranet/apps/eighth/models.py:136-146 | [] exactly when no block is upcoming; otherwise the whole table in strictly ascending order |
| Blocks.Capitalize | intranet/apps/eighth/models.py:171-173 | same length and the same letters up to case; the first letter upper-case and the others lower-case |
| Blocks.CapitalizeIdempotent | intranet/apps/eighth/models.py:170-175 | saving a block again writes the same letter |
| Blocks.Upsert | intranet/apps/eighth/models.py:175 | writing a row replaces the row with its id or adds it; no other row changes and ids stay unique |
| Blocks.UpsertKeepsKeysUnique | intranet/apps/eighth/models.py:211 | a write that clashes with no other row keeps (date, letter) unique |
| Blocks.BlockTable.Save | intranet/apps/eighth/models.py:170-175 | a non-empty letter is capitalised; a (date, letter) clash with another row is an IntegrityError and leaves the table unchanged; otherwise the row is written; the uniqueness invariant holds afterwards |
| Activities.ActivityCapacity | intranet/apps/eighth/models.py:95-104 | -1 without rooms, otherwise the sum of the rooms' capacities; the loop `Activities.Capacity` is proved equal to it, and `RoomsTotalPermutation`, `DefaultRoomsCapacity` and `RoomsTotalNonNegative` state its properties |
| Activities.Capacity | intranet/apps/eighth/models.py:95-104 | the loop returns -1 without rooms and otherwise the sum of the rooms' capacities |
| Activities.RoomsTotalPermutation | intranet/apps/eighth/models.py:97-103 | the capacity does not depend on the order in which the rooms are returned |
| Activities.DefaultRoomsCapacity | intranet/apps/eighth/models.py:95-104 | rooms all left at the default -1 give minus the number of rooms, e.g. -2 for two rooms |
| Activities.RoomsTotalNonNegative | intranet/apps/eighth/models.py:101-103 | rooms of non-negative capacity give a non-negative capacity |
| Activities.TrueSponsors | intranet/apps/eighth/models.py:250-259 | the override sponsors when there are any, else the activity's; empty only when both are |
| Activities.TrueRooms | intranet/apps/eighth/models.py:261-270 | the override rooms when there are any, else the activity's; empty only when both are |
| Activities.TrueCapacity | intranet/apps/eighth/models.py:272-280 | the override capacity when set (even -1), else the activity's capacity; `TrueCapacityUnlimited` and `TrueCapacityIgnoresRoomOverride` state its properties |
| Activities.TrueCapacityUnlimited | intranet/apps/eighth/models.py:272-280 | the true capacity is -1 exactly when the override is -1, or when there is no override and the activity has no rooms or rooms summing to -1 |
| Activities.TrueCapacityIgnoresRoomOverride | intranet/apps/eighth/models.py:277-280 | overriding the rooms does not change the capacity |
| Activities.IsTooEarlyToSignup | intranet/apps/eighth/models.py:289-298 | `now` is before midnight of the block's date minus two days; its properties are stated by `Activities.PresignOpensByDay` and `Activities.PresignWindow` |
| Activities.PresignOpensByDay | intranet/apps/eighth/models.py:293-298 | at any time of calendar day D it is too early exactly when D is more than two days before the block's date |
| Activities.PresignWindow | intranet/apps/eighth/models.py:289-298 | once the presign window is open it stays open at every later instant |
| Signups.IsFull | intranet/apps/eighth/models.py:282-287 | the true capacity is not -1 and this scheduled activity already has at least that many signups; `FullnessOfSentinelCapacities` and `UnforcedAdmitRespectsCapacity` state its consequences |
| Signups.EffectiveForce | intranet/apps/eighth/models.py:308-310 | the `force` argument, or a request whose query string asks to force and whose requester is an eighth admin; `AdmitErrors` states what forcing skips |
| Signups.InASticky | intranet/apps/eighth/models.py:341-344 | some signup of this scheduled activity, held by the user, whose activity is sticky; characterised by `StickyOnlySeesThisScheduledActivity` |
| Signups.InActSameDay | intranet/apps/eighth/models.py:350-355 | some signup of this scheduled activity, held by the user, on this date, for this activity, outside this block; `OneADayNeverRaised` proves it always false |
| Signups.FirstFailure | intranet/apps/eighth/models.py:312-357 | the exception the unforced chain raises, or None; `FirstFailureIsEarliestViolation` states it is the lowest-ranked violated check |
| Signups.ValidateUnique | intranet/apps/eighth/models.py:401-408 | no signup other than the one with this primary key has the same user in the same block; `OnePerBlockIffValidated` ties it to the table invariant |
| Signups.FullnessOfSentinelCapacities | intranet/apps/eighth/models.py:282-287 | a capacity of -1 is never full; a capacity below -1 is always full |
| Signups.FirstFailureIsEarliestViolation | intranet/apps/eighth/models.py:312-357 | the chain raises the violated check of lowest rank, in the order SignupForbidden, BlockLocked, ScheduledActivityCancelled, ActivityDeleted, ActivityFull, Presign, Sticky, OneADay; it passes exactly when no check is violated |
| Signups.StickyOnlySeesThisScheduledActivity | intranet/apps/eighth/models.py:340-346 | Sticky fires exactly when the activity is sticky and the user already holds a signup for this very scheduled activity |
| Signups.OneADayNeverRaised | intranet/apps/eighth/models.py:348-357 | the OneADay query is always empty, so OneADay is never raised |
| Signups.OneADayScenarioAdmitted | intranet/apps/eighth/models.py:348-374 | a one-a-day activity in blocks A and B of one date admits to B a user already signed up in A |
| Signups.Admit | intranet/apps/eighth/models.py:300-374 | a successful add_user leaves every signup pointing at an existing scheduled activity, with ids below the next id |
| Signups.AdmitErrors | intranet/apps/eighth/models.py:308-368 | a forced call raises only the lookup's MultipleObjectsReturned; an unforced call raises the first failed check before touching the store |
| Signups.AdmitPlacesUser | intranet/apps/eighth/models.py:364-374 | afterwards the user has exactly one signup in the block and it points here; an existing one keeps its id and after_deadline; otherwise one is created with the next id; no other signup changes |
| Signups.AdmitKeepsOnePerBlock | intranet/apps/eighth/models.py:365-374 | one signup per (user, block) is preserved, and so is one per (user, scheduled activity) |
| Signups.OnePerBlockAvoidsMultipleObjects | intranet/apps/eighth/models.py:366-368 | with one signup per (user, block), the lookup never raises MultipleObjectsReturned |
| Signups.OnePerBlockIffValidated | intranet/apps/eighth/models.py:401-408 | the table has one signup per (user, block) exactly when every signup passes validate_unique |
| Signups.AdmitCounts | intranet/apps/eighth/models.py:365-374 | add_user adds at most one signup to this scheduled activity and none to any other |
| Signups.UnforcedAdmitRespectsCapacity | intranet/apps/eighth/models.py:332-374 | a successful unforced add_user leaves a limited scheduled activity within its capacity |
| Signups.UnforcedAdmitKeepsWithinCapacity | intranet/apps/eighth/models.py:332-374 | unforced calls keep every limited scheduled activity within capacity |
| Signups.ChecksAfterPassing | intranet/apps/eighth/models.py:316-357 | once the chain has passed, only the fullness, Sticky and OneADay checks can change their answer on another signup table |
| Signups.AdmitWhenPlaced | intranet/apps/eighth/models.py:365-370 | when the user's one signup in the block already points here, add_user changes nothing beyond running the checks |
| Signups.AdmitTwice | intranet/apps/eighth/models.py:312-374 | repeating a successful add_user: a forced repeat changes nothing; an unforced repeat raises ActivityFull if the activity is now full, else Sticky if it is sticky, else changes nothing |
| Signups.SignupStore.AddUser | intranet/apps/eighth/models.py:300-374 | the method's outcome and new table are exactly those of `Admit`; on failure nothing changes |
| Signups.SignupStore.constructor | intranet/apps/eighth/models.py:385-399 | an empty signup table |
| Bus.Route.constructor | intranet/apps/bus/models.py:9-12 | a new route is on time, with no space and no bus number |
| Bus.Route.ResetStatus | intranet/apps/bus/models.py:14-18 | status becomes "o" and space "", while route_name and bus_number are unchanged |
| Bus.Token | intranet/apps/bus/models.py:44 | the longest whitespace-free prefix of the text |
| Bus.TrimStart | intranet/apps/bus/models.py:44 | the text without its leading whitespace |
| Bus.Words | intranet/apps/bus/models.py:44 | the whitespace-separated words of `split()`; `FirstWordIsToken` and `WordsHaveNoSpace` state its properties |
| Bus.FirstWordIsToken | intranet/apps/bus/models.py:44 | for text not opening with whitespace, `split()[0]` is the longest whitespace-free prefix |
| Bus.WordsHaveNoSpace | intranet/apps/bus/models.py:44 | every word of `split()` is non-empty and holds no whitespace |
| Bus.TokenOfBusText | intranet/apps/bus/models.py:43-44 | text starting with "JT-" has a first word starting with "JT-" |
| Bus.BusName | intranet/apps/bus/models.py:43-44 | the entry kept for a cell's text is its longest whitespace-free prefix, so it starts with "JT-" and holds no whitespace |
| Bus.Step | intranet/apps/bus/models.py:34-44 | one handler call on the (capture, data) state; the handler methods are proved equal to it, and `StepData`, `RunAppendOnly`, `RunEntriesWellFormed`, `RunEntriesFromData` and `RunCapture` state its properties |
| Bus.StepData | intranet/apps/bus/models.py:34-44 | a handler either leaves the entries alone or appends one bus name for a captured text starting with "JT-" |
| Bus.OnlyCapturedBusNames | intranet/apps/bus/models.py:42-44 | a text event adds one entry exactly when capturing and the text starts with "JT-"; it never changes `capture` |
| Bus.RunAppend | intranet/apps/bus/models.py:28-44 | handling two streams one after the other is handling their concatenation |
| Bus.RunAppendOnly | intranet/apps/bus/models.py:31-44 | `data` is append-only: earlier entries are never removed or changed |
| Bus.RunEntriesWellFormed | intranet/apps/bus/models.py:43-44 | after any stream, every entry starts with "JT-" and holds no whitespace |
| Bus.RunEntriesFromData | intranet/apps/bus/models.py:42-44 | every new entry is the first word of some text event of the stream that starts with "JT-" |
| Bus.RunCapture | intranet/apps/bus/models.py:34-40 | after a stream, `capture` holds exactly when its last td tag was a start tag, or it has no td tag and `capture` held before |
| Bus.BusTableParser.constructor | intranet/apps/bus/models.py:29-32 | a fresh parser has no entries and is not capturing |
| Bus.BusTableParser.HandleStartTag | intranet/apps/bus/models.py:34-36 | `capture` becomes true exactly for "td" and is otherwise unchanged; `data` is unchanged |
| Bus.BusTableParser.HandleEndTag | intranet/apps/bus/models.py:38-40 | `capture` becomes false exactly for "td" and is otherwise unchanged; `data` is unchanged |
| Bus.BusTableParser.HandleData | intranet/apps/bus/models.py:42-44 | when capturing and the text starts with "JT-", its first word is appended; otherwise `data` is unchanged; `capture` never changes |
| Bus.SaveAnnouncement | intranet/apps/bus/models.py:57-59 | the message is stored under key 1; no other row changes |
| Bus.AtMostOneAnnouncement | intranet/apps/bus/models.py:48-59 | however many announcements are saved, at most one row exists, and after any save it is the last message under key 1 |
| Bus.AnnouncementTable.Save | intranet/apps/bus/models.py:57-59 | the announcement's id becomes 1 and the table is exactly one row, holding its message |

## Left out

- Django's ORM (managers, querysets, `prefetch_related`, `count()`, `save(update_fields=...)`, transactions). Tables are in-memory maps or sequences with the lookups the code uses. Persistence is only the table update itself.
- The wall clock (`datetime.datetime.now()`). It is the `now` parameter, in whole seconds; sub-second precision is dropped.
- Blocks.NotBefore: a block qualifies when its date's midnight is not before the cutoff instant. From 17:00 on, the cutoff is `now` itself, so that day's blocks drop out. Django's `DateField` lookup would first reduce a datetime cutoff to its date, and this model does not do that.
- Blocks.Capitalize: case mapping covers ASCII letters only. Python's `str.capitalize` also maps non-ASCII letters, and its first character uses title case.
- Blocks.LetterLess: letters compare by code point. A database collation may order them differently.
- Integer widths are left out. Room and override capacities are `SmallIntegerField`s, modelled as unbounded integers.
- The HTTP request is reduced to the requester's id, the admin flag and whether "force" is in the query string.
- Concurrency is not modelled. That includes the race between `is_full` and the create or repoint, and concurrent duplicate inserts.
- The commented-out restricted check is not modelled. The flags `restricted`, `both_blocks` and `special` are carried but never read, as in the code.
- `after_deadline` is never set by `add_user`. New signups get the default of false.
- `EighthSponsor` and its uniqueness constraint are not modelled, and neither are `EighthAbsence` or the other models later in the file. `add_user` does not read them. Sponsors appear only as ids.
- Display strings (`__unicode__`, `__str__`), the sponsor NameError fallbacks and logging are not modelled.
- The `EighthActivity` soft-delete manager is not modelled. `add_user` reads `activity.deleted` directly.
- HTML tokenisation by `html.parser` is not modelled. The parser is driven by an abstract stream of start-tag, end-tag and text events. The module-level shared `parser` instance is not modelled either.
- `BusAnnouncement.object()` is not modelled. It is an ORM lookup-or-create.
- `Route` field lengths and the `route_name` uniqueness are storage constraints and are not modelled.
- `intranet/routing.py` is not part of this model. It is websocket wiring with no logic of its own.

Where the code does less than its own comments and docstrings say, the model follows the code:

- Sticky: the comment at `eighth/models.py:340` speaks of a user "already stickied into an activity". The query at 341-344 starts from this scheduled activity's own signups, so it only sees signups for this very scheduled activity (`Signups.StickyOnlySeesThisScheduledActivity`).
- OneADay: the comment at `eighth/models.py:348` speaks of a "one-a-day constraint". The query at 350-355 keeps only signups of this scheduled activity and then drops those in this block, which is all of them, so it never fires (`Signups.OneADayNeverRaised`, `Signups.OneADayScenarioAdmitted`).
- First upcoming block: the docstring at `eighth/models.py:115-117` promises the most recent block when no block lies in the future. The code at 129-134 returns None, which the model follows (`Blocks.FirstUpcomingIsLeast`).
