# Verified models of congelado's cron engine, text generators and Lua bridge

Each module models one component of the repository and proves, for all inputs or all runs, what that component is for.

* `Calendar`, `CronText`, `CronSearch`, `CronHorizon`, `CronRegistry`, `CronRuns`: the local cron plugin. A time point is
  a count of nanoseconds; a minute is named by its number since 1970-01-01. The expression parser and the
  minute-by-minute search are loops proved against independent definitions. The registry is a class whose methods are the
  events of a state machine, and the theorems about firing range over whole runs of that machine.
* `JsonRows`, `SqlText`: the Postgres plugin's printers, each against a reader of the printed language.
* `LuaValues`, `LuaBridge`: `from_lua` and `to_lua` over an explicit Lua stack with an ensured capacity, the handle table
  and shared map objects. Pushing needs a free ensured slot, so the stack discipline is checked at every push.
* `SchemaTable`: the generator of the StableHLO operation table, against a reader of the emitted C++ statements.
* `Migrations`: the migrations directory under a sequence of `migrate` runs.
* `PathTemplate`: placeholders of a path and their substitution.
* `EventBuffer`: the bounded buffer of recent events.
* `Text`: optional values, splitting, joining and decimal numbers, shared by the rest.

Characters stand for bytes: a theorem about all strings covers all byte strings.

## Where the code does not do what is said of it

* The search window of 4 * 366 days is said to cover even a lone 29 February. It does not: `LoneLeapDayMissed` gives the
  case of 2096-03-01, and `LeapDayFoundIff` says exactly when the search fails. With fewer than four weekdays it can
  fail on ordinary dates as well (`NewYearMissed`); `NoneIffNoDateInReach` is the exact condition for every expression. By
  `StuckForever` a job given up once never fires again.
* A nested Lua table is said, and expected by a test, to survive the bridge, because `map_get` is said to answer with a
  fresh handle for a nested map. `map_get` answers with a raw pointer instead, so a nested table comes back as light
  userdata; and a boolean inside a table comes back as an integer, because `from_any` turns it into one. The model
  carries both readings of `map_get` in the constant `aliases` (false is what the handle table does).
  `Bridge.RoundTrip` and `TableRoundTrip` say exactly which tables survive under either reading,
  `Bridge.NestedRoundTrip` what becomes of the nested table of the test.
* `from_lua` makes one handle for each table it reads and frees none of them, not even those of nested tables that
  nothing can name afterwards: `Bridge.FromLua` and `Bridge.RoundTrip` count what is left behind.
* A job whose first tick comes only in the minute after its registration loses a fire if both minutes match
  (`LateFirstTick`). `ExactlyOnceIff` gives the exact condition for firing once for each matching minute, and
  `ExactlyOnce` the one for ticks that come every minute from the registration minute on.
* A value that holds a placeholder still to come is filled again (`ValueWithPlaceholder`). `InStepIff` gives the exact
  condition for the replacements to stay in step with one substitution at every turn. For the finished URL alone that
  condition is sufficient but not necessary, and the converse is not claimed, because it is false: `TurnsUndone` gives
  three values whose turns go wrong and cancel out. `LastTurnDecides` and
  `UpToTwoNames` have the converse where it does hold.
* Zero outputs are said to give one result of rank one, like a negative count. They give a scalar one
  (include/yoshi/omah_lay/stable_hlo/build.cc:97-99 against 150-157, `BlockMeaning`).
* The placeholder scan never ends on a path with an opening brace that no closing brace follows (`StopsIffClosed`).

## Model

| member | source | states |
|---|---|---|
| `Calendar.FromDaysToDays` | plugins/cron/local/bin/local_cron.cc:110-113 | splitting any day number gives a real calendar date whose day count is that number |
| `Calendar.ToDaysFromDays` | plugins/cron/local/bin/local_cron.cc:110-113 | every real date survives the trip through its day number |
| `Calendar.SplitFollowsCalendar` | plugins/cron/local/bin/local_cron.cc:110-113 | the split follows the calendar's next-day rule at every day, forwards and backwards |
| `Calendar.Epoch` | plugins/cron/local/bin/local_cron.cc:110-113 | day 0 is 1970-01-01, which with the next-day rule fixes the split |
| `Calendar.FromDaysAscends` | plugins/cron/local/bin/local_cron.cc:110-113 | later days have later dates |
| `Calendar.WeekdaysCycle` | plugins/cron/local/bin/local_cron.cc:113-123 | weekdays follow each other in sevens, Sunday being 0, from Thursday 1970-01-01; 2024-04-10 is a Wednesday |
| `CronSearch.MatchesCivilTime` | plugins/cron/local/bin/local_cron.cc:107-124 | a minute given as date, hour and minute matches if and only if all five fields list its parts; day of month and weekday are not alternatives |
| `CronSearch.EveryMinuteIsCivil` | plugins/cron/local/bin/local_cron.cc:107-113 | every minute number, before or after 1970, is such a date, hour and minute |
| `CronSearch.NextAfter` | plugins/cron/local/bin/local_cron.cc:84-98 | the loop over candidate minutes answers with the first match of the window, or nothing |
| `CronSearch.NextAfterMeaning` | plugins/cron/local/bin/local_cron.cc:74-98 | the answer is the least minute boundary strictly after the base on which all fields match, and it is missing exactly when no boundary of the 4 * 366 day window matches |
| `CronHorizon.YearlyAlwaysFound` | plugins/cron/local/bin/local_cron.cc:75-124 | with every weekday and some day that all years have allowed, the search succeeds from every base, less than 366 days after its first candidate |
| `CronHorizon.NoneIffNoDateInReach` | plugins/cron/local/bin/local_cron.cc:75-124 | for every expression, whatever its weekdays, the search fails if and only if no real date with a listed month, day and weekday has an allowed time inside the window |
| `CronHorizon.FourWeekdaysAlwaysFound` | plugins/cron/local/bin/local_cron.cc:75-124 | with some day that all years have and any four weekdays allowed, the search succeeds from every base, because four years running a date falls on four different weekdays |
| `CronHorizon.WeekAlwaysFound` | plugins/cron/local/bin/local_cron.cc:75-124 | with seven consecutive days up to the 28th allowed, the search succeeds from every base for every choice of weekdays, less than 372 days after its first candidate |
| `CronHorizon.NewYearMissed` | plugins/cron/local/bin/local_cron.cc:75-98 | three weekdays are not enough: `0 0 1 1` on Sundays, Mondays and Thursdays, or any of them, seen from 2018-01-02 is given up although 2023, 2024 and 2026 begin on these days |
| `CronHorizon.ImpossibleNeverFound` | plugins/cron/local/bin/local_cron.cc:75-124 | with no allowed day that any month has, the search finds nothing from any base, whatever the weekdays |
| `CronHorizon.LeapDayFoundIff` | plugins/cron/local/bin/local_cron.cc:75-124 | with only 29 February left, the search fails if and only if a skipped leap year lies ahead and the leap day after it starts outside the window |
| `CronHorizon.LoneLeapDayMissed` | plugins/cron/local/bin/local_cron.cc:75-98 | `0 0 29 2 *` seen from 2096-03-01 is given up although 2104-02-29 matches |
| `CronText.IntReadsBack` | plugins/cron/local/bin/local_cron.cc:196-200 | the decimal text of any integer, signed or not, is read as that integer, and refused exactly when an `int` cannot hold it |
| `CronText.ParseIntIff` | plugins/cron/local/bin/local_cron.cc:196-200 | what is read is exactly a numeral of a number an `int` holds, leading zeros and a minus sign allowed, and is read as that number |
| `CronText.ParseToken` | plugins/cron/local/bin/local_cron.cc:154-194 | a token is accepted if and only if it has one of the four forms, and then adds exactly the values that form allows inside the bounds; an addition overflows only under a step too large for the field |
| `CronText.FormIsRead` | plugins/cron/local/bin/local_cron.cc:154-194 | `*` stands for every value in bounds, `*/n` for those at a multiple of n from the minimum, `lo-hi` for those from lo to hi, `n` for itself; a step below one, a range upside down or from below zero, a number out of bounds and numbers no `int` holds are refused, and nothing else |
| `CronText.PushSteps` | plugins/cron/local/bin/local_cron.cc:166-175 | stepping from the minimum adds exactly the values whose distance from it is a multiple of the step, and tells whether every sum formed on the way is one an `int` can hold |
| `CronText.StepsFitIff` | plugins/cron/local/bin/local_cron.cc:166-175 | inside the bounds of any field the step loop overflows if and only if the minimum and the step together exceed `INT_MAX` |
| `CronText.PushRange` | plugins/cron/local/bin/local_cron.cc:160-187 | a range, cut down to the bounds, adds exactly its values; outside the bounds it adds none |
| `CronText.SortUnique` | plugins/cron/local/bin/local_cron.cc:149-150 | the result is strictly ascending and has the same members |
| `CronText.ParseField` | plugins/cron/local/bin/local_cron.cc:129-152 | the token loop, sort and removal of repeats give the ascending listing of what the comma-separated tokens allow between them, or nothing |
| `CronText.FieldMeaning` | plugins/cron/local/bin/local_cron.cc:126-152 | an accepted field holds a value if and only if one of its tokens allows it; a field is refused if and only if a token is malformed or nothing at all is allowed |
| `CronText.FormsAreRead` | plugins/cron/local/bin/local_cron.cc:126-152 | a field written as any comma-separated list of these forms has exactly the values some form names, and is refused exactly if a form is or nothing is named |
| `CronText.TokenOrderIsIrrelevant` | plugins/cron/local/bin/local_cron.cc:129-152 | fields with the same set of tokens, in any order and number, parse alike |
| `CronText.Parse` | plugins/cron/local/bin/local_cron.cc:35-72 | accepts exactly five space-separated runs whose fields all parse, each with its own bounds, into the matching lists |
| `CronText.FiveFields` | plugins/cron/local/bin/local_cron.cc:35-72 | any five fields with spaces between are read as minutes, hours, days, months and weekdays within 0-59, 0-23, 1-31, 1-12 and 0-6, and refused exactly if one of them is |
| `CronText.ParsedIsWellFormed` | plugins/cron/local/bin/local_cron.cc:57-72 | every accepted expression has five non-empty, strictly ascending lists inside their bounds |
| `CronText.ExtraSpacesAreIrrelevant` | plugins/cron/local/bin/local_cron.cc:39-52 | a doubled, leading or trailing space never changes the outcome |
| `CronText.PrintedReadsBack` | plugins/cron/local/bin/local_cron.cc:35-72 | printing any five ascending lists inside the bounds as comma-separated decimals and parsing the print gives the same lists |
| `CronText.AcceptedExpressions` | plugins/cron/local/bin/local_cron.cc:57-72 | so these and no others are the expressions that some text stands for |
| `CronRegistry.LocalCron.SetFireCallback` | plugins/cron/local/bin/local_cron.cc:234-238 | is one step of the registry's state machine and calls nothing |
| `CronRegistry.LocalCron.UpsertJob` | plugins/cron/local/bin/local_cron.cc:240-265 | is one step of the registry: an unparseable text changes nothing, a known job keeps its last fire time, a new one looks back one minute |
| `CronRegistry.LocalCron.RemoveJob` | plugins/cron/local/bin/local_cron.cc:267-271 | is one step of the registry and calls nothing |
| `CronRegistry.LocalCron.TickAt` | plugins/cron/local/bin/local_cron.cc:277-291 | in whatever order the jobs come, the callback is called exactly once for each due job and for no other, due jobs are stamped and the rest untouched; without a callback nothing happens |
| `CronRegistry.SecondTickSettles` | plugins/cron/local/bin/local_cron.cc:277-291 | a second tick at the same instant fires nothing and changes nothing |
| `CronRuns.StampRises` | plugins/cron/local/bin/local_cron.cc:240-291 | any event but removal keeps a job's last fire time, unless it fires the job; then the time rises strictly, to the clock |
| `CronRuns.FiresAreOrdered` | plugins/cron/local/bin/local_cron.cc:240-291 | over any run without removal, fire times, fire minutes and justifying minutes all strictly rise, and each fire is justified by a match of the expression then in force |
| `CronRuns.AtMostOnce` | plugins/cron/local/bin/local_cron.cc:240-291 | for every run of ticks and re-registrations, even with the clock going back, no two fires of a job share a calendar minute or a justifying minute |
| `CronRuns.RemovalFiresTwice` | plugins/cron/local/bin/local_cron.cc:258-271 | removing a job and registering it again does fire twice in one minute, for every matching expression |
| `CronRuns.RegisteredIsInForce` | plugins/cron/local/bin/local_cron.cc:240-265 | after a registration, of a new job or a known one, every fire of an undisturbed run is for the expression just registered and justified by a match of it |
| `CronRuns.KnownJobFiresNext` | plugins/cron/local/bin/local_cron.cc:250-291 | a re-registered job fires at the next tick if and only if the first match of the new expression after its last fire has come |
| `CronRuns.KnownJobExactlyOnce` | plugins/cron/local/bin/local_cron.cc:250-291 | over any run after that, its fires are one-to-one with the new expression's matching minutes since its last fire if and only if each is met by a tick of its own inside the window |
| `CronRuns.RefusedChangesNothing` | plugins/cron/local/bin/local_cron.cc:240-251 | a text the parser refuses changes no job's fires over any run |
| `CronRuns.NoCallbackNoFires` | plugins/cron/local/bin/local_cron.cc:234-283 | once the callback is taken away nothing fires until one is installed, whatever happens in between |
| `CronRuns.SilenceOnlyDelays` | plugins/cron/local/bin/local_cron.cc:234-283 | ticks without a callback leave no trace: with one installed again the run goes on as if they had not been |
| `CronRuns.ExactlyOnceIff` | plugins/cron/local/bin/local_cron.cc:258-291 | with the callback in place and the job left alone, its fires are one-to-one with the matching minutes up to the last tick if and only if each of those minutes is met by a tick of its own before the search runs out of window |
| `CronRuns.ExactlyOnce` | plugins/cron/local/bin/local_cron.cc:258-291 | a new job ticked in its registration minute and every minute after fires exactly the matching minutes from registration to the last tick, once each and in order, if and only if no gap between them is longer than the search window |
| `CronRuns.SixtySecondsIsEveryMinute` | plugins/cron/local/bin/local_cron.cc:277-291 | ticks at most sixty seconds apart reach every minute |
| `CronRuns.ExactlyOnceBySeconds` | plugins/cron/local/bin/local_cron.cc:258-291 | the same for a first tick in the registration minute and every later tick at most sixty seconds after the one before |
| `CronRuns.EveryMatchFires` | plugins/cron/local/bin/local_cron.cc:258-291 | with such ticks, a job whose expression lists a yearly day and four weekdays, or a week of days, fires for every matching minute, once each and in order, over every run |
| `CronRuns.StuckForever` | plugins/cron/local/bin/local_cron.cc:284-289 | a job whose search once found nothing never fires again while it is left alone |
| `CronRuns.LateFirstTick` | plugins/cron/local/bin/local_cron.cc:258-291 | a first tick in the minute after registration loses a fire whenever both minutes match |
| `JsonRows.EscapeJson` | plugins/database/postgres/bin/postgres_plugin.cc:479-509 | the escaping loop gives the text that `ReadEscaped` reads back |
| `JsonRows.RowsToJson` | plugins/database/postgres/bin/postgres_plugin.cc:520-555 | the nested loops give the text that `TableSurvives` reads back |
| `JsonRows.ReadEscaped` | plugins/database/postgres/bin/postgres_plugin.cc:479-509 | a JSON reader recovers any string from its escaped form and ends it at the printed closing quote and nowhere before, whatever follows |
| `JsonRows.ReadPrintedCell` | plugins/database/postgres/bin/postgres_plugin.cc:545-549 | NULL and text, also the text "null", read back as what they were |
| `JsonRows.TableSurvives` | plugins/database/postgres/bin/postgres_plugin.cc:520-555 | a JSON reader (sections 2 to 7 of RFC 8259) recovers every result set: rows in order, each with its column names and exact cells, also with no rows or no columns |
| `SqlText.EscapeSqlLiteral` | plugins/database/postgres/bin/postgres_plugin.cc:408-420 | the doubling loop gives the text that `ReadDoubled` reads back |
| `SqlText.ReadDoubled` | plugins/database/postgres/bin/postgres_plugin.cc:401-420 | a scanner of character string literals (section 5.3 of ISO/IEC 9075-2) recovers any value from its quoted form, as long as no quote follows |
| `SqlText.IndexSql` | plugins/database/postgres/bin/postgres_plugin.cc:244-261 | a reader of the statement finds an insertion into `search_documents` that gives collection, id and data the three arguments, data as `jsonb`, and updated_at the time, and on a conflict of collection and id sets data and updated_at to the new ones |
| `SqlText.StatementReadsBack` | plugins/database/postgres/bin/postgres_plugin.cc:251-259 | for any quote-free skeleton and any values, the scanner finds exactly the skeleton and exactly the values |
| `SqlText.InsertReadsBack` | plugins/database/postgres/bin/postgres_plugin.cc:251-259 | the reader recovers table, columns, values, conflict target and updates of every such insertion, whatever its quoted values |
| `SqlText.IndexReadsBack` | plugins/database/postgres/bin/postgres_plugin.cc:244-261 | for all arguments the upsert text scans to its fixed skeleton and three literals that decode to collection, id and document |
| `LuaBridge.Bridge.CheckStack` | plugins/bridge/lua_bridge/bin/lua_bridge_plugin.cc:270-274 | succeeds if and only if the asked-for slots fit under the stack limit, and then they are ensured; what was ensured before stays so |
| `LuaBridge.Bridge.Next` | plugins/bridge/lua_bridge/bin/lua_bridge_plugin.cc:281-288 | from nil or the key of one entry, replaces the key by the next entry's key and value, or pops it at the end |
| `LuaBridge.Bridge.Insert` | include/core/manager/value.cppm:618-625 | hands out a handle never live before and changes no other |
| `LuaBridge.Bridge.MapCreate` | include/core/manager/value.cppm:663-667 | a fresh handle to a fresh empty map; nothing else changes |
| `LuaBridge.Bridge.MapSet` | include/core/manager/value.cppm:679-696 | stores under the key the value, or the very map or array a handle names; fails exactly if the target or the value is a handle that names no such object |
| `LuaBridge.Bridge.MapGet` | include/core/manager/value.cppm:698-720 | throws exactly on a handle that names no map; a missing key is None; a nested map or array is a fresh handle or a raw pointer, depending on the reading; maps never change |
| `LuaBridge.Bridge.ListKeys` | include/core/manager/value.cppm:745-756 | lists every key of the map once, in any order |
| `LuaBridge.AdjustedIndex` | plugins/bridge/lua_bridge/bin/lua_bridge_plugin.cc:278-281 | after one push the adjusted index, positive or negative, names the same slot as before |
| `LuaBridge.Bridge.FromLua` | plugins/bridge/lua_bridge/bin/lua_bridge_plugin.cc:225-300 | reads slot n for a positive index n and slot n from the top for -n; returns normally if and only if the nesting fits the stack limit, three slots for the innermost table and two for each table around it; then, at every depth and width, the stack is as found, a table is a live handle of a fresh map holding exactly its string-keyed entries, recursively, and one handle per table read has been added; nothing that existed before changes |
| `LuaBridge.Bridge.ReadTable` | plugins/bridge/lua_bridge/bin/lua_bridge_plugin.cc:259-293 | the table case of that |
| `LuaBridge.Bridge.FillMap` | plugins/bridge/lua_bridge/bin/lua_bridge_plugin.cc:278-288 | the loop visits each entry of the intended table once, pops what it pushed, and leaves the map holding all of them; it ends early if and only if some string-keyed entry does not fit |
| `LuaBridge.Bridge.StoreEntry` | plugins/bridge/lua_bridge/bin/lua_bridge_plugin.cc:282-286 | one round takes the map one entry further, skipping keys that are not strings, if and only if the entry fits |
| `LuaBridge.Bridge.ToLua` | plugins/bridge/lua_bridge/bin/lua_bridge_plugin.cc:302-373 | given one free slot, returns normally if and only if the value is no map handle, or a live one whose map fits the stack limit; then exactly one value is pushed, a map handle becomes a table with the map's fields, and the maps and the live handles are as before |
| `LuaBridge.Bridge.CopyFields` | plugins/bridge/lua_bridge/bin/lua_bridge_plugin.cc:346-362 | the loop over the keys gives the table every field of the map, if and only if the map fits |
| `LuaBridge.Bridge.CopyField` | plugins/bridge/lua_bridge/bin/lua_bridge_plugin.cc:348-362 | one round adds one field and frees the handle it was given for it, if and only if that field fits |
| `LuaBridge.ScalarRoundTrip` | plugins/bridge/lua_bridge/bin/lua_bridge_plugin.cc:229-257 | outside tables, a value comes back unchanged if and only if it is no full userdata, function or thread and no string with a NUL |
| `LuaBridge.AnyRoundTrip` | plugins/bridge/lua_bridge/bin/lua_bridge_plugin.cc:302-373 | outside maps, a bridge value that is pushed and read back is the same if and only if it is no boolean but 0 and 1, no null or cut string and no raw map, array or array handle |
| `LuaBridge.PushedOtherwise` | plugins/bridge/lua_bridge/bin/lua_bridge_plugin.cc:309-371 | what is pushed for those: false exactly on a multiple of 2^32, the empty string for a null one, addresses for the rest |
| `LuaBridge.Bridge.RoundTrip` | plugins/bridge/lua_bridge/bin/lua_bridge_plugin.cc:570-595 | through the bridge and back returns if and only if the nesting of the value in the indexed slot fits the stack limit; then a table has come back equal, its non-string keys dropped recursively, if and only if all its string-keyed entries are portable, and in any case as `TableComesBack` says; one value is pushed, no live handle is lost, and one handle per table is left behind |
| `LuaBridge.Bridge.NestedRoundTrip` | plugins/bridge/lua_bridge/bin/lua_bridge_plugin.cc:597-640 | the nested table of the regression test returns if and only if its depth fits the limit, leaves one handle per level behind, and comes back equal if and only if `map_get` answers with fresh handles or nothing is nested |
| `LuaValues.TableRoundTrip` | plugins/bridge/lua_bridge/bin/lua_bridge_plugin.cc:225-373 | the same equivalence for whatever map object holds the table, under both readings of nested maps |
| `LuaValues.TableComesBack` | plugins/bridge/lua_bridge/bin/lua_bridge_plugin.cc:225-373 | what every table comes back as, portable or not: one field for each string key up to its NUL, the last of those that read alike; booleans as 1 or 0, strings up to their NUL, full userdata as light, functions and threads as null, nested tables as tables of that kind or as the address of a map |
| `LuaValues.ValueReturns` | include/core/manager/value.cppm:477-608 | the other way round, what a stored value is stored as once it has been pushed and read back |
| `LuaValues.EntryStored` | plugins/bridge/lua_bridge/bin/lua_bridge_plugin.cc:282-286 | storing an entry under its C string, over an earlier one that reads alike, keeps the map equal to the entries so far |
| `LuaValues.HeldTableFits` | plugins/bridge/lua_bridge/bin/lua_bridge_plugin.cc:262-373 | whatever `from_lua` had room for, `to_lua` has room for, under both readings |
| `LuaValues.DepthDecides` | plugins/bridge/lua_bridge/bin/lua_bridge_plugin.cc:259-293 | reading needs three slots for the deepest table reached through string keys and two for each table around it, and no more |
| `LuaValues.MapDepthDecides` | plugins/bridge/lua_bridge/bin/lua_bridge_plugin.cc:329-362 | pushing needs two slots for the deepest map pushed as a table and one for each map around it; with raw pointers that is the map itself |
| `LuaValues.NotPortable` | include/core/manager/value.cppm:477-507 | any table with a boolean under a string key, and with raw pointers any with a nested table, comes back as a table that is not equal |
| `LuaValues.NestedIs` | plugins/bridge/lua_bridge/bin/lua_bridge_plugin.cc:597-640 | the nested table of the regression test is portable at every depth with fresh handles and only unnested with raw pointers, and how many slots and handles it takes |
| `SchemaTable.EscapeCppString` | include/yoshi/omah_lay/stable_hlo/build.cc:59-79 | the escaping loop gives the text that `LiteralReadsBack` reads back |
| `SchemaTable.LiteralReadsBack` | include/yoshi/omah_lay/stable_hlo/build.cc:58-79 | no string can end its literal early or break its line, and the reader recovers it |
| `SchemaTable.RenderOpBlock` | include/yoshi/omah_lay/stable_hlo/build.cc:114-163 | the loops over inputs, attributes and results give a block whose reading describes the operation, and advance the counter by the output count, at least one |
| `SchemaTable.BlockReadsBack` | include/yoshi/omah_lay/stable_hlo/build.cc:92-163 | a block reads back as its operation: name, category, summary, inputs with variadic flag and index, attributes, and normalised results with their numbers |
| `SchemaTable.BlockMeaning` | include/yoshi/omah_lay/stable_hlo/build.cc:92-163 | a reader with its own spelling of the statements finds in the block the name, category, summary, each input with its flag and index, the attributes, and exactly as many results as outputs, at least one, numbered on, of rank one exactly for a negative count |
| `SchemaTable.PushBlock` | include/yoshi/omah_lay/stable_hlo/build.cc:175-187 | cuts a block at every newline and nowhere else |
| `SchemaTable.BlockIsWritten` | include/yoshi/omah_lay/stable_hlo/build.cc:175-187 | cutting a block into lines and writing each with a newline gives the block and one newline |
| `SchemaTable.RenderTableFile` | include/yoshi/omah_lay/stable_hlo/build.cc:171-235 | the written lines are exactly the file of blocks, each followed by a newline, and their reading describes the manifest |
| `SchemaTable.FileReadsBack` | include/yoshi/omah_lay/stable_hlo/build.cc:171-235 | for every manifest a reader of the file recovers the reserved size and every operation |
| `SchemaTable.FileMeaning` | include/yoshi/omah_lay/stable_hlo/build.cc:171-235 | for every manifest the reading of the file reserves room for all operations and describes each of them, results numbered after those of the operations before |
| `SchemaTable.IdsAreConsecutive` | include/yoshi/omah_lay/stable_hlo/build.cc:150-158 | the result numbers read from the file are 0, 1, 2, ... without gap or repeat, as many as the output counts, each taken as at least one, add up to |
| `Migrations.NamesAscend` | src/cli_main.cc:363-368 | from 1970 to 9999 file names sort as their times |
| `Migrations.NameReadsBack` | src/cli_main.cc:363-368 | the fourteen digits of a file name read back as the calendar date and time of day of the run |
| `Migrations.FindLastMigration` | src/cli_main.cc:53-69 | scanned in any order, the directory gives its lexically greatest regular `.sql` file, or none exactly if it has none |
| `Migrations.StraysDoNotCount` | src/cli_main.cc:60-64 | an entry that is no regular file or has no name before `.sql` never changes which migration is last |
| `Migrations.LastOfMore` | src/cli_main.cc:65-67 | with one more `.sql` file the last is the lexically greater of the two |
| `Migrations.MigrationsDirectory.Migrate` | src/cli_main.cc:346-375 | leaves the directory alone if the last migration has the dump's checksum or the new file cannot be opened, and else adds the dump under the current time; fails exactly when a changed dump cannot be written |
| `Migrations.ChecksumTellsChange` | src/cli_main.cc:350-361 | with a collision-free hash the checksum test answers whether the dump has changed |
| `Migrations.RunsHoldChanges` | src/cli_main.cc:346-375 | after every sequence of runs from an empty directory, at rising times and with any of them unable to write, the directory holds exactly the dumps of the others that differ from their predecessor, each under its own time |
| `Migrations.RunsKeepHistory` | src/cli_main.cc:346-375 | and its lexically last file holds the dump of the latest run that could write, file names sort as times, and no two neighbours are equal |
| `PathTemplate.StopsIffClosed` | scripts/gen_inso_collection.py:274-283 | the scan ends if and only if every opening brace is followed by a closing one |
| `PathTemplate.PathParams` | scripts/gen_inso_collection.py:274-283 | on such paths the loop collects the names from each opening brace to the next closing one |
| `PathTemplate.RoundsCollect` | scripts/gen_inso_collection.py:274-283 | on such paths the rounds of the scan end with exactly those names |
| `PathTemplate.ParamsAreTheHoles` | scripts/gen_inso_collection.py:274-283 | for pieces where text holds no opening brace and names no closing one, these are exactly the holes, in order |
| `PathTemplate.EveryClosedPath` | scripts/gen_inso_collection.py:274-283 | and every path on which the scan ends is made of such pieces |
| `PathTemplate.FillPath` | scripts/gen_inso_collection.py:221-225 | the URL is the path with its names replaced one after another, `:name` standing in for a missing value |
| `PathTemplate.ReplaceFills` | scripts/gen_inso_collection.py:225-225 | one textual replacement fills exactly the holes of that name |
| `PathTemplate.ReplaceFillsIff` | scripts/gen_inso_collection.py:225-225 | in any text with holes, one textual replacement fills exactly the holes of its name if and only if it finds its placeholder nowhere else, or puts the placeholder itself back |
| `PathTemplate.InStepIff` | scripts/gen_inso_collection.py:221-225 | replacing one after another keeps step with substituting at once, through every turn, if and only if each turn finds its placeholder only in its own holes or puts it back |
| `PathTemplate.SequentialIsSimultaneous` | scripts/gen_inso_collection.py:221-225 | whenever each turn is clean in that sense, replacing one after another equals substituting all at once, whatever braces the values hold |
| `PathTemplate.LastTurnDecides` | scripts/gen_inso_collection.py:221-225 | if all turns before the last are clean, the two agree if and only if the last is clean |
| `PathTemplate.UpToTwoNames` | scripts/gen_inso_collection.py:221-225 | with up to two names the finished URL is the simultaneous substitution if and only if each turn is clean |
| `PathTemplate.InertTurns` | scripts/gen_inso_collection.py:221-225 | turns are clean when no value holds or begins a placeholder whose turn is still to come |
| `PathTemplate.LastValueIsFree` | scripts/gen_inso_collection.py:221-225 | with brace-free values before it, the value filled in last may be any text, its own placeholder included |
| `PathTemplate.FilledTemplate` | scripts/gen_inso_collection.py:221-225 | so the URL of a template path is the template with every hole filled, whenever each turn is clean |
| `PathTemplate.NoValues` | scripts/gen_inso_collection.py:221-225 | without any values the URL of a template path has `:name` for every hole |
| `PathTemplate.ValueWithPlaceholder` | scripts/gen_inso_collection.py:221-225 | with a value that holds a placeholder still to come the two differ, and a turn is not clean |
| `PathTemplate.TurnsUndone` | scripts/gen_inso_collection.py:221-225 | two unclean turns can undo each other: a template and values for which the finished URLs agree although the replacements went out of step |
| `EventBuffer.MemoryEvents.Publish` | plugins/events/memory/bin/memory_events_plugin.cc:72-90 | after any number of publishes the buffer is exactly the end of the publish history of the length of the limit, or all of it, also for limit zero |
| `EventBuffer.LatestAppend` | plugins/events/memory/bin/memory_events_plugin.cc:77-80 | evicting early loses nothing that would have been kept |

## Left out

- CronText.ParseToken: says whether `value += step` overflows an `int`, as a step of 2147483647 in the day or month field makes it, but goes on with the exact sum, because an overflow has no defined outcome.
- SchemaTable.RenderTableFile: takes the fixed text before the table as an argument and holds for any such text.
- The lifetime of pointers and C strings in the bridge, and what a throw leaves on the stack and in the handle table.
- Lua numbers: integers are not cut to 64 bits and floats are exact reals; tables are finite trees without metatables.
- Years outside the range of `std::chrono::year` and of the nanosecond clock: calendar and time are unbounded here.
- Mutexes, sleeping and scheduling around the sweep: each call is one step with the clock reading as an argument.
- The checksum itself: a hash function is a parameter, collision-free in the theorems about runs.
- Surrogate pairs in the JSON reader: the printer never emits them.
- Delete and search statements of the Postgres plugin, `resolve_schema`, `validate`: they would only add easy members or depend on the SQL engine.
- Plugin loading, wiring and logging, the other bridges and the message-broker plugins: thin use of foreign libraries.
