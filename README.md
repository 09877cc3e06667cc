# Taxi booking core and algorithm exercises, in Dafny

This project models two parts of one repository and proves properties of each.

**The taxi booking system** (`taxi_booking_system/`):

- **Records.** The four records (`Customer`, `Driver`, `Administrator`, `Booking`) are written to one line each: the fields joined with `|`. Reading a line strips it, splits it on `|`, ignores surplus pieces and gives nothing when there are too few. A booking's date and time are read as a point in time (`get_datetime`), which never raises.
- **Record store (`DataManager`).** It keeps four text tables. It appends records, lists every record a table holds in file order, looks records up by username or id, filters bookings by customer and by driver, and rewrites the whole bookings table when one booking is updated. It also generates the next `C…`/`B…` id and checks a driver's availability.
- **Assignment engine.** A driver is busy at a time when one of its bookings that is not cancelled, and whose date and time parse, lies strictly less than two hours away. The engine picks the nearest available driver; a stable sort breaks ties by driver order. It also ranks all drivers, available ones first and then by distance, and keeps the first `top_n`.
- **Password migration.** It detects SHA-256 hex digests and rewrites each stored line so that its password field is hashed once.

**The small exercises** (`cpp_files/…`, `binary_search.py`, `valid_perenthesis.py`):

- six bracket validators: five stack-based, and one with a counter per bracket kind;
- two infix-to-postfix converters;
- an in-place bubble sort;
- two duplicate removals;
- two binary searches and a linear search;
- an insertion into an array by shifting;
- a bank account with a guarded withdrawal.

**How the modules are built.**

- Code that only computes values becomes datatypes, functions and lemmas.
- Code that updates variables in a loop becomes a method with loop invariants. Each such method is proved against a specification function, and the properties the program promises are proved about that function. For example:
  - every stack validator is proved equal to `Brackets.Valid`, which is shown to accept exactly the well-nested strings;
  - both converters are proved equal to `Postfix.Convert` in their dialect.
- The store is a class whose fields are the four tables, the account a class whose fields are its balance and its log.
- I/O, clocks and the distance formula become parameters, as stated below.

**Bookings and coordinates.** `models.py` writes and reads eight booking fields, without coordinates, and that is what `Models.Booking` models. The engine's requests (`Assignment.Request`) and drivers (`Assignment.Candidate`) carry the coordinates that `assignment_algorithm.py` reads.

## Model

| member | source | states |
|---|---|---|
| `Text.Strip` | taxi_booking_system/models.py:39 | the result is a slice of the input with only white space (as `str.isspace` defines it) cut from either end, and no white space left at either end |
| `Text.StripNewline` | taxi_booking_system/data_manager.py:62-64 | a line with no outer white space, read back with its newline, strips to itself |
| `Text.Split` | taxi_booking_system/models.py:39 | splitting on `|` gives at least one piece and no piece holds `|` |
| `Text.JoinSplit` | taxi_booking_system/migrate_passwords.py:44-50 | joining the pieces of a split with `|` gives the string back |
| `Text.SplitJoin` | taxi_booking_system/models.py:18-20 | splitting a join undoes it when no piece holds `|` |
| `Text.JoinNoOuterSpace` | taxi_booking_system/models.py:39 | a joined line has no outer white space exactly when its first piece has no leading and its last piece no trailing white space |
| `Text.NatToString` | taxi_booking_system/data_manager.py:93 | `str(n)` is a non-empty digit string whose value is `n`, without a leading zero unless `n` is 0 |
| `Text.ZFill` | taxi_booking_system/data_manager.py:93 | `zfill(width)` pads with zeros on the left to at least `width` characters and keeps the string as its tail |
| `Text.LeadingZeros` | taxi_booking_system/data_manager.py:92-93 | leading zeros do not change the value `int()` reads |
| `DateTime.DaysInMonth` | taxi_booking_system/models.py:109 | every month has 28 to 31 days, and February 29 exactly in Gregorian leap years |
| `DateTime.ParseStamp` | taxi_booking_system/models.py:109 | a successful parse of `"%Y-%m-%d %H:%M"` reads a 16-character string into a valid calendar date and time |
| `DateTime.ParseFields` | taxi_booking_system/models.py:106-111 | a date and time written digit by digit parse to the stamp those digits denote, or fail when it is not a valid date |
| `DateTime.ParseFormat` | taxi_booking_system/models.py:106-111 | parsing the canonical spelling of a valid stamp gives the stamp back |
| `DateTime.ParseParts` | taxi_booking_system/data_manager.py:225 | a date string and a time string parse to the minute count of the stamp their digits denote, or to nothing for an impossible date |
| `DateTime.NextDay` | taxi_booking_system/test_gui_system.py:198-204 | the calendar day after a valid date is a valid date |
| `DateTime.Dec25At1000` | taxi_booking_system/test_gui_system.py:226-228 | "2024-12-25" "10:00" reads as 10:00 on 25 December 2024 |
| `DateTime.ChristmasTimes` | taxi_booking_system/test_gui_system.py:175-180 | the test's booking times 10:00 and 15:00 on 2024-12-25 read five hours apart |
| `DateTime.StoreTestTimes` | taxi_booking_system/test_system.py:108-135 | the store test's 14:00 and 14:30 on 2024-12-20 read half an hour apart |
| `DateTime.SameDay` | taxi_booking_system/assignment_algorithm.py:62-63 | two times of one day are as many minutes apart as their clock readings say |
| `DateTime.NextDayMinutes` | taxi_booking_system/test_gui_system.py:198-204 | the same time one calendar day later is exactly 1440 minutes later, across month and year ends and leap days |
| `Models.Parts` | taxi_booking_system/models.py:39 | the pieces of a stripped and split line: at least one, none holding `|`, with clean outer edges |
| `Models.PartsOfJoin` | taxi_booking_system/models.py:18-42 | clean fields joined into a line, read back with or without the newline, give the same fields |
| `Models.Customer.ToString` | taxi_booking_system/models.py:32-34 | the line is the seven fields joined in declared order, so splitting it gives the fields back |
| `Models.Customer.FromString` | taxi_booking_system/models.py:36-42 | yields a customer exactly when a line has at least seven pieces, built from the first seven |
| `Models.Driver.ToString` | taxi_booking_system/models.py:53-55 | the line is the six fields joined in declared order |
| `Models.Driver.FromString` | taxi_booking_system/models.py:57-63 | yields a driver exactly when a line has at least six pieces, built from the first six |
| `Models.Administrator.ToString` | taxi_booking_system/models.py:18-20 | the line is the four user fields joined in order, as `User.to_string` writes them |
| `Models.Administrator.FromString` | taxi_booking_system/models.py:71-77 | yields an administrator exactly when a line has at least four pieces, built from the first four |
| `Models.Booking.ToString` | taxi_booking_system/models.py:94-96 | the line is the eight fields joined in declared order |
| `Models.Booking.FromString` | taxi_booking_system/models.py:98-104 | yields a booking exactly when a line has at least eight pieces, built from the first eight |
| `Models.Booking.GetDateTime` | taxi_booking_system/models.py:106-111 | total: a valid stamp read from "date time", or `None` where parsing fails |
| `Models.GetDateTimeOfFormat` | taxi_booking_system/models.py:106-111 | a booking dated in the canonical spelling of a valid stamp gets exactly that stamp |
| `Models.BookingMinutes` | taxi_booking_system/data_manager.py:225-228 | the store's parse of a booking's date and time is the minute count of `get_datetime`'s stamp, and fails exactly when it does |
| `Models.CustomerRoundTrip` | taxi_booking_system/test_system.py:27-34 | a customer with clean fields reads back from its line, with or without the newline |
| `Models.DriverRoundTrip` | taxi_booking_system/test_system.py:37-44 | the same for a driver |
| `Models.AdministratorRoundTrip` | taxi_booking_system/models.py:71-77 | the same for an administrator |
| `Models.BookingRoundTrip` | taxi_booking_system/test_system.py:47-54 | the same for a booking |
| `Models.BookingReread` | taxi_booking_system/data_manager.py:198-204 | a booking read from a stored line rereads as itself from the line rewritten for it exactly when its last field has no trailing white space |
| `Models.BookingDirtyTail` | taxi_booking_system/data_manager.py:201-204 | a last field with trailing white space is lost on rewrite: the rewritten line reads as a different booking |
| `Models.ReadPieces` | taxi_booking_system/models.py:101 | a line joined from delimiter-free fields reads back as no more pieces than were written |
| `Models.BookingFixture` | taxi_booking_system/test_system.py:46-54 | a new booking is "Pending" with no driver, and the booking of the model test reads back unchanged |
| `Sorting.SortBy` | taxi_booking_system/assignment_algorithm.py:108 | `list.sort(key=…)`: the result is ordered by the key and is a permutation of the input |
| `Sorting.SortHead` | taxi_booking_system/assignment_algorithm.py:108-109 | the first element after sorting is the earliest element with the least key: the sort is stable |
| `Sorting.SortStable` | taxi_booking_system/assignment_algorithm.py:161 | the sort is stable: the elements sharing a key come out in their input order |
| `Sorting.InsertWithKey` | taxi_booking_system/assignment_algorithm.py:161 | an inserted element goes in front of every element with the same key |
| `Sorting.WithKeyPrefix` | taxi_booking_system/assignment_algorithm.py:163 | cutting a list to its first `top_n` keeps a prefix of each key's elements |
| `Sorting.SortByHead` | taxi_booking_system/assignment_algorithm.py:108-109 | the sorted head is the first element unless the rest holds a strictly smaller key |
| `Store.Parsed` | taxi_booking_system/data_manager.py:57-69 | a reader returns no more records than the file has lines |
| `Store.ParsedConcat` | taxi_booking_system/data_manager.py:62-66 | reading keeps file order: two stretches of a file read as their two tables one after the other |
| `Store.ParsedSkips` | taxi_booking_system/data_manager.py:63-65 | a blank line or one `from_string` rejects contributes nothing |
| `Store.ParsedKeeps` | taxi_booking_system/data_manager.py:63-66 | a readable line contributes its record at its place |
| `Store.ParsedOrigin` | taxi_booking_system/data_manager.py:57-69 | every record a reader returns was parsed from one of the lines |
| `Store.ReadTable` | taxi_booking_system/data_manager.py:57-69 | the `for line in f` loop of every `get_all_*` returns exactly the parsed table |
| `Store.FirstWith` | taxi_booking_system/data_manager.py:71-77 | a lookup result has the key that was looked up |
| `Store.FirstWithMeans` | taxi_booking_system/data_manager.py:71-85 | a lookup fails exactly when no record has the key, and otherwise returns the first record with it |
| `Store.FindFirst` | taxi_booking_system/data_manager.py:74-77 | the scan with early return computes that lookup |
| `Store.ForCustomer` | taxi_booking_system/data_manager.py:174-177 | the customer filter returns no more bookings than the table holds |
| `Store.ForCustomerMeans` | taxi_booking_system/data_manager.py:177 | the customer filter keeps order and keeps a booking exactly when its customer id matches |
| `Store.ForDriver` | taxi_booking_system/data_manager.py:179-182 | the driver filter returns only bookings of that driver that are not cancelled |
| `Store.ForDriverMeans` | taxi_booking_system/data_manager.py:182 | the driver filter keeps order and keeps a booking exactly when its driver id matches and it is not cancelled |
| `Store.Replace` | taxi_booking_system/data_manager.py:199-204 | every booking with the new booking's id is replaced by it, every other one kept, in order |
| `Store.Lines` | taxi_booking_system/data_manager.py:198-204 | the lines written are each booking's `to_string()` plus a newline, in order |
| `Store.RewrittenLines` | taxi_booking_system/data_manager.py:198-204 | the lines the update loop builds are the written lines of the replaced table |
| `Store.ReadLines` | taxi_booking_system/data_manager.py:160-172 | bookings that reread, once written, read back as the same bookings |
| `Store.UpdateReread` | taxi_booking_system/data_manager.py:192-209 | after an update, reading the bookings table gives the replaced table |
| `Store.UpdateVisible` | taxi_booking_system/test_system.py:118-126 | after an update that found its id, looking the id up gives the new booking with its new status and driver |
| `Store.TableRereads` | taxi_booking_system/data_manager.py:195-204 | bookings read from a table reread from their rewritten lines when their last fields end cleanly |
| `Store.MaxSuffix` | taxi_booking_system/data_manager.py:92 | the largest numeric suffix: no id's suffix exceeds it and some id has it |
| `Store.NextIdFresh` | taxi_booking_system/data_manager.py:87-93 | the next id is the prefix and at least three digits whose value is 1 on an empty table and otherwise the largest suffix plus one; it differs from every existing id |
| `Store.ZFillValue` | taxi_booking_system/data_manager.py:93 | padding to three digits keeps the number |
| `Store.NextIdFixture` | taxi_booking_system/test_system.py:234-236 | the id after C001 is C002 |
| `Store.Rewrite` | taxi_booking_system/data_manager.py:196-206 | the update loop writes the replaced table's lines and reports true exactly when some booking had the id |
| `Store.BlocksByStamp` | taxi_booking_system/data_manager.py:227-232 | the conflict test read through `get_datetime`: not cancelled, parseable, and less than two hours away |
| `Store.NoConflict` | taxi_booking_system/data_manager.py:227-234 | the scan over the driver's bookings answers the availability rule |
| `Store.DataManager.constructor` | taxi_booking_system/data_manager.py:14-44 | an existing file is read as it is; a missing one starts empty, or with the three default drivers or the default administrator |
| `Store.DataManager.SaveCustomer` | taxi_booking_system/data_manager.py:47-55 | appends the customer's line to the customers file as append mode does, running on from a last line that has no break, and changes no other table |
| `Store.DataManager.GetAllCustomers` | taxi_booking_system/data_manager.py:57-69 | the customers the table's lines parse to, in file order |
| `Store.DataManager.GetCustomerByUsername` | taxi_booking_system/data_manager.py:71-77 | the first customer with the username, or `None` |
| `Store.DataManager.GetCustomerById` | taxi_booking_system/data_manager.py:79-85 | the first customer with the id, or `None` |
| `Store.DataManager.GetNextCustomerId` | taxi_booking_system/data_manager.py:87-93 | the next `C` id of the customers read |
| `Store.DataManager.GetAllDrivers` | taxi_booking_system/data_manager.py:96-108 | the drivers the table's lines parse to, in file order |
| `Store.DataManager.GetDriverByUsername` | taxi_booking_system/data_manager.py:110-116 | the first driver with the username, or `None` |
| `Store.DataManager.GetDriverById` | taxi_booking_system/data_manager.py:118-124 | the first driver with the id, or `None` |
| `Store.DataManager.GetAllAdmins` | taxi_booking_system/data_manager.py:127-139 | the administrators the table's lines parse to, in file order |
| `Store.DataManager.GetAdminByUsername` | taxi_booking_system/data_manager.py:141-147 | the first administrator with the username, or `None` |
| `Store.DataManager.SaveBooking` | taxi_booking_system/data_manager.py:150-158 | appends the booking's line to the bookings file as append mode does, running on from a last line that has no break, and changes no other table |
| `Store.DataManager.GetAllBookings` | taxi_booking_system/data_manager.py:160-172 | the bookings the table's lines parse to, in file order |
| `Store.DataManager.GetBookingsByCustomer` | taxi_booking_system/data_manager.py:174-177 | the customer's bookings, in order |
| `Store.DataManager.GetBookingsByDriver` | taxi_booking_system/data_manager.py:179-182 | the driver's bookings that are not cancelled, in order |
| `Store.DataManager.GetBookingById` | taxi_booking_system/data_manager.py:184-190 | the first booking with the id, or `None` |
| `Store.DataManager.UpdateBooking` | taxi_booking_system/data_manager.py:192-209 | true exactly when some stored booking has the id; the table becomes the lines of the parsed bookings with each such booking replaced, so unreadable lines are dropped |
| `Store.DataManager.GetNextBookingId` | taxi_booking_system/data_manager.py:211-217 | the next `B` id of the bookings read |
| `Store.DataManager.CheckDriverAvailability` | taxi_booking_system/data_manager.py:219-236 | true when the request's date or time does not parse; otherwise true exactly when none of the driver's bookings that are not cancelled is less than two hours away |
| `Store.AppendedContent` | taxi_booking_system/data_manager.py:50-51 | an append adds exactly the written text at the end of the file's text |
| `Store.AppendedRunsOn` | taxi_booking_system/data_manager.py:50-51 | after a last line without a break, the saved line is read together with it as one line, so no more records are read than the file had lines |
| `Store.SavedCustomerRead` | taxi_booking_system/data_manager.py:47-69 | when the file's last line ends with its break, a saved customer with clean fields is the last customer a reader then gets, after the ones before |
| `Store.SavedBookingRead` | taxi_booking_system/data_manager.py:150-172 | when the file's last line ends with its break, a saved booking with clean fields is the last booking a reader then gets |
| `Store.DriverFreeAgrees` | taxi_booking_system/data_manager.py:219-234 | once the request parses, the store's check is the engine's availability rule over the driver's bookings |
| `Store.CheckAvailabilityFixture` | taxi_booking_system/test_system.py:128-135 | with the test's booking at 14:00 on 2024-12-20, D001 is busy at 14:30 that day and D002, without bookings, is free at 14:00 |
| `Store.UnparseableContrast` | taxi_booking_system/data_manager.py:235-236 | on an unparseable request the store answers "free" while the engine finds no driver and recommends none |
| `Assignment.AvailableMeans` | taxi_booking_system/assignment_algorithm.py:52-69 | a driver is available exactly when none of its bookings blocks the time |
| `Assignment.IsDriverAvailable` | taxi_booking_system/assignment_algorithm.py:47-69 | the scan with early return answers exactly that availability |
| `Assignment.NeverBlocking` | taxi_booking_system/assignment_algorithm.py:53-67 | a cancelled booking, one whose date or time does not parse, and one exactly two hours away never block |
| `Assignment.BlocksAt` | taxi_booking_system/assignment_algorithm.py:57-65 | a parseable booking blocks exactly the times less than 120 minutes from it, unless cancelled |
| `Assignment.ChoicesEmpty` | taxi_booking_system/assignment_algorithm.py:91-104 | the list of available drivers is empty exactly when every driver is busy |
| `Assignment.ChoicesAt` | taxi_booking_system/assignment_algorithm.py:93-104 | every available driver is in that list, with its distance to the pickup |
| `Assignment.ChoicesOrigin` | taxi_booking_system/assignment_algorithm.py:93-104 | every entry of the list is an available driver with its distance |
| `Assignment.FindBestDriver` | taxi_booking_system/assignment_algorithm.py:72-111 | the loop, sort and head compute `BestDriver` |
| `Assignment.BestDriverNone` | taxi_booking_system/assignment_algorithm.py:83-111 | no driver is found exactly when the request's date or time does not parse or every driver is busy then |
| `Assignment.BestDriverChosen` | taxi_booking_system/assignment_algorithm.py:93-109 | a found driver is available, comes with its own distance, has no strictly closer available driver, and is the earliest of the nearest ones |
| `Assignment.AssignDriverToBooking` | taxi_booking_system/assignment_algorithm.py:114-125 | `None` exactly when no driver can be found, otherwise the id of a nearest available driver, the earliest of them |
| `Assignment.Assessments` | taxi_booking_system/assignment_algorithm.py:143-158 | one `(driver, distance, is_available)` entry per driver, in driver order |
| `Assignment.Take` | taxi_booking_system/assignment_algorithm.py:163 | Python's `s[:n]`, with a negative `n` counting from the end |
| `Assignment.GetDriverRecommendations` | taxi_booking_system/assignment_algorithm.py:128-163 | the loop, sort and slice compute `Recommendations` |
| `Assignment.RecommendationsUnparseable` | taxi_booking_system/assignment_algorithm.py:133-139 | an unparseable request gives no recommendations |
| `Assignment.RecommendationsEntries` | taxi_booking_system/assignment_algorithm.py:141-163 | `min(top_n, len(drivers))` entries for `top_n >= 0`, each an assessed driver, none more often than it was assessed |
| `Assignment.RecommendationsTies` | taxi_booking_system/assignment_algorithm.py:161-163 | recommended drivers with the same availability and distance keep the order of the driver list |
| `Assignment.RecommendationsOrder` | taxi_booking_system/assignment_algorithm.py:160-161 | available drivers come before unavailable ones, and distances do not decrease within each group |
| `Assignment.AvailabilityFixture` | taxi_booking_system/test_gui_system.py:175-204 | a driver booked at 10:00 and 15:00 on 2024-12-25 is free at 13:00, busy at 10:30 and free at 10:00 the next day |
| `Assignment.AssignmentFixture` | taxi_booking_system/test_gui_system.py:238-269 | for any readable request time (10:00 on 2024-12-25 is one, by `DateTime.Dec25At1000`): when D002 is nearer than D003 and D003 than D001, D002 is chosen; with D002 busy, D003 is; with all busy, none is |
| `Migration.IsPasswordHashed` | taxi_booking_system/migrate_passwords.py:21-23 | true exactly for 64 characters that are all hex digits, in either case |
| `Migration.LowerHex` | taxi_booking_system/migrate_passwords.py:23 | a character lower-cases to a digit of `0123456789abcdef` exactly when it is a hex digit |
| `Migration.Rehash` | taxi_booking_system/migrate_passwords.py:46-48 | only field `index` can change, and it becomes `hash(p)` exactly when `p` is not already a digest |
| `Migration.MigrateLine` | taxi_booking_system/migrate_passwords.py:43-52 | a blank line is dropped, a line with too few fields is kept verbatim, and a line counts only when its password needed hashing |
| `Migration.HashedMeans` | taxi_booking_system/migrate_passwords.py:45-49 | a line is counted exactly when it has the field and its password is not a digest |
| `Migration.HashedZero` | taxi_booking_system/migrate_passwords.py:38-59 | the count is zero exactly when no line needs hashing |
| `Migration.MigrateLines` | taxi_booking_system/migrate_passwords.py:38-52 | the loop writes the migrated lines and counts the passwords hashed |
| `Migration.MigrateFile` | taxi_booking_system/migrate_passwords.py:26-59 | a missing file is left alone and counts 0; otherwise it is rewritten with the migrated lines |
| `Migration.PasswordFields` | taxi_booking_system/migrate_passwords.py:88-100 | field 2 is the password of customers, drivers and administrators alike |
| `Migration.MigrateAll` | taxi_booking_system/migrate_passwords.py:85-100 | the three user files migrate field 2, and the total is the sum of their counts |
| `Migration.RewrittenFields` | taxi_booking_system/migrate_passwords.py:44-50 | the rewritten line reads back as the same fields, with the password hashed unless it was a digest |
| `Migration.Idempotent` | taxi_booking_system/migrate_passwords.py:16-23 | when the hash gives 64 hex characters, a second migration changes no line and hashes nothing |
| `Migration.HashedFixture` | taxi_booking_system/migrate_passwords.py:21-23 | a plain password is not a digest; 64 hex characters in mixed case are |
| `Brackets.MatchingOpen` | cpp_files/DSA/Array/Valid_parenthesis/withmatchingcase.cpp:9-17 | a closer's only partner opener; '{' for every character other than ')' and ']' |
| `Brackets.ScanOpeners` | cpp_files/DSA/Array/Valid_parenthesis/withmatchingcase.cpp:27-28 | only openers are ever on the stack |
| `Brackets.ScanBrackets` | cpp_files/DSA/Array/Valid_parenthesis/withmatchingcase.cpp:43 | characters that are not brackets do not change the scan |
| `Brackets.ValidIffNested` | cpp_files/DSA/Array/Valid_parenthesis/withmatchingcase.cpp:47 | a string is accepted exactly when its brackets are balanced and well nested |
| `Brackets.SampleUnclosed` | cpp_files/DSA/Array/Valid_parenthesis/withmatchingcase.cpp:55 | "[{()}" is rejected |
| `Brackets.SampleIgnored` | cpp_files/DSA/Array/Valid_parenthesis/withmatchingcase.cpp:56 | "[-]" is accepted |
| `Brackets.SampleCrossed` | cpp_files/DSA/Array/Valid_parenthesis/withmatchingcase.cpp:57 | "{[(]}" is rejected |
| `Brackets.SampleDigitInside` | cpp_files/DSA/Array/Valid_parenthesis/withmatchingcase.cpp:58 | "([9])" is accepted |
| `Brackets.SampleRoundThree` | valid_perenthesis.py:18 | "((()))" is balanced |
| `Brackets.SampleRoundTwo` | valid_perenthesis.py:18 | "(())" is balanced |
| `Brackets.SampleCurly` | valid_perenthesis.py:18 | "{(())}" is balanced |
| `WithMatchingCase.IsValid` | cpp_files/DSA/Array/Valid_parenthesis/withmatchingcase.cpp:19-48 | answers exactly `Brackets.Valid` |
| `Deepseeked.IsValid` | cpp_files/DSA/Array/Valid_parenthesis/deepseeked.cpp:8-39 | answers exactly `Brackets.Valid`, so it agrees with the other stack validators on every input |
| `SolveThatGoesOverhead.IsValid` | cpp_files/DSA/Array/Valid_parenthesis/solvetatgoesoverhead.cpp:20-44 | answers exactly `Brackets.Valid` |
| `SolveFound.IsValid` | cpp_files/DSA/Array/Valid_parenthesis/solve_founf.cpp:9-40 | answers exactly `Brackets.Valid` |
| `BalancedParentheses.PairsAgree` | valid_perenthesis.py:3 | the keys of `bracket_pairs` are the openers, each mapped to its own closer |
| `BalancedParentheses.Balanced` | valid_perenthesis.py:1-11 | answers exactly `Brackets.Valid` |
| `BracketCounters.IsValid` | cpp_files/DSA/Array/Valid_parenthesis/final.cpp:8-32 | the three-counter loop answers `CounterValid` |
| `BracketCounters.CountFromMeans` | cpp_files/DSA/Array/Valid_parenthesis/final.cpp:11-28 | the counters fail exactly when some prefix closes more of one kind than it opened; otherwise they hold each kind's opens minus closes |
| `BracketCounters.CounterValidMeans` | cpp_files/DSA/Array/Valid_parenthesis/final.cpp:31 | accepted exactly when no prefix closes more of a kind than it opened and every kind ends balanced |
| `BracketCounters.ValidCounts` | cpp_files/DSA/Array/Valid_parenthesis/final.cpp:8-32 | every string the stack validators accept is accepted by the counters |
| `BracketCounters.CrossedKinds` | cpp_files/DSA/Array/Valid_parenthesis/final.cpp:8-32 | "([)]" is accepted by the counters and rejected by the stack validators |
| `Postfix.Precedence` | cpp_files/DSA/Array/stack/same.cpp:8-15 | 1 for + and -, 2 for * and /, 0 for everything else |
| `Postfix.Poppable` | cpp_files/DSA/Array/stack/same.cpp:42-45 | the operator loop pops a run of stack entries that satisfy the pop test, and stops at the first that does not |
| `Postfix.AboveOpen` | cpp_files/DSA/Array/stack/same.cpp:34-37 | ')' pops the entries above the nearest '(' |
| `Postfix.ConvertOperands` | cpp_files/DSA/Array/stack/same.cpp:24-25 | the operands appear in the output in input order |
| `Postfix.ConvertKeeps` | cpp_files/DSA/Array/stack/same.cpp:18-57 | the output holds every input character except the matched parentheses |
| `Postfix.FailsIffUnopened` | cpp_files/DSA/Array/stack/infix_to_postfix.py:22-25 | the conversion fails exactly when some prefix of the input closes more parentheses than it opened |
| `Postfix.DialectsAgree` | cpp_files/DSA/Array/stack/infix_to_postfix.py:29-32 | on letters, digits, + - * / ( ) the two converters give the same result |
| `Postfix.DialectsDiffer` | cpp_files/DSA/Array/stack/infix_to_postfix.py:29-30 | outside that alphabet they can differ: on "( )" the C++ version fails and the Python version gives " " |
| `Postfix.ExampleCpp` | cpp_files/DSA/Array/stack/same.cpp:60-61 | "A*(B+C)/D" becomes "ABC+*D/" |
| `Postfix.ExamplePython` | cpp_files/DSA/Array/stack/infix_to_postfix.py:40-41 | "A*(B+C)/D" becomes "ABC+*D/" |
| `Postfix.ExampleLeftAssociative` | cpp_files/DSA/Array/stack/infix_to_postfix.py:29-32 | equal precedence associates to the left: "A-B-C" becomes "AB-C-" |
| `Postfix.ExampleTighter` | cpp_files/DSA/Array/stack/infix_to_postfix.py:29-32 | "A+B*C" becomes "ABC*+" |
| `Postfix.ExampleUnclosed` | cpp_files/DSA/Array/stack/infix_to_postfix.py:35-36 | an unmatched '(' is appended at the end: "(A+B" becomes "AB+(" |
| `Postfix.ExampleUnopened` | cpp_files/DSA/Array/stack/infix_to_postfix.py:22-25 | "A)" fails |
| `Postfix.PopToOpen` | cpp_files/DSA/Array/stack/same.cpp:34-37 | the loop moves the entries above the nearest '(' to the output |
| `Postfix.PopAll` | cpp_files/DSA/Array/stack/same.cpp:51-54 | the final loop appends what is left on the stack, top first |
| `SameCpp.InfixToPostfix` | cpp_files/DSA/Array/stack/same.cpp:18-57 | computes `Convert(Cpp, infix)` |
| `SameCpp.PopOperators` | cpp_files/DSA/Array/stack/same.cpp:42-45 | pops the entries of greater or equal precedence to the output |
| `InfixToPostfixPy.InfixToPostfix` | cpp_files/DSA/Array/stack/infix_to_postfix.py:8-37 | computes `Convert(Python, expression)` |
| `InfixToPostfixPy.PopOperators` | cpp_files/DSA/Array/stack/infix_to_postfix.py:29-31 | pops the entries other than '(' of greater or equal precedence to the output |
| `Bubble.BubbleSort` | cpp_files/DSA/Array/bubble_sort/bubble_sort.cpp:4-29 | `array[0..size)` ends sorted and a permutation of what it held, the rest of the array untouched, and nothing changes when size is at most 1 |
| `Bubble.Pass` | cpp_files/DSA/Array/bubble_sort/bubble_sort.cpp:9-22 | one pass moves the largest of the unsorted front to its final place; a pass without a swap leaves the front sorted |
| `Bubble.SwapKeeps` | cpp_files/DSA/Array/bubble_sort/bubble_sort.cpp:14-20 | an adjacent swap carries the largest value forward and keeps the multiset |
| `Bubble.SortedUnique` | cpp_files/DSA/Array/bubble_sort/bubble_sort.cpp:4-29 | two sorted permutations of the same values are equal |
| `Bubble.Example` | cpp_files/DSA/Array/bubble_sort/bubble_sort.cpp:41-49 | {64,34,25,12,22,11,90} becomes 11 12 22 25 34 64 90 |
| `Rmdlptc.Visited` | cpp_files/DSA/Array/remove_duplicates/rmdlptc.cpp:10 | the loop visits `size` elements, none when `size` is negative |
| `Rmdlptc.DedupeMembers` | cpp_files/DSA/Array/remove_duplicates/rmdlptc.cpp:18-20 | the output holds exactly the values of the input |
| `Rmdlptc.DedupeDistinct` | cpp_files/DSA/Array/remove_duplicates/rmdlptc.cpp:10-21 | no value appears twice in the output |
| `Rmdlptc.First` | cpp_files/DSA/Array/remove_duplicates/rmdlptc.cpp:10-20 | the index of a value's first occurrence |
| `Rmdlptc.DedupeOrder` | cpp_files/DSA/Array/remove_duplicates/rmdlptc.cpp:10-20 | the output lists values in the order of their first occurrences |
| `Rmdlptc.DeleteDuplicates` | cpp_files/DSA/Array/remove_duplicates/rmdlptc.cpp:6-24 | `unique[0..newSize)` is the first-occurrence dedupe of `head[0..size)`, `newSize <= size`, and the rest of the buffer is untouched |
| `Rmdlptc.Holds` | cpp_files/DSA/Array/remove_duplicates/rmdlptc.cpp:11-17 | the inner loop finds a duplicate exactly when the value is among the first `count` kept |
| `Rmdlptc.SampleResult` | cpp_files/DSA/Array/remove_duplicates/rmdlptc.cpp:29 | {4,2,2,1,3,4,5} dedupes to 4 2 1 3 5 |
| `Rmdlptc.Example` | cpp_files/DSA/Array/remove_duplicates/rmdlptc.cpp:27-42 | the call of `main` gives five values, 4 2 1 3 5 |
| `SortedDedupe.SortMeans` | cpp_files/DSA/Array/remove_duplicates/tempCodeRunnerFile.py:7 | `sorted` gives a sorted permutation of the list |
| `SortedDedupe.KeepLastMembers` | cpp_files/DSA/Array/remove_duplicates/tempCodeRunnerFile.py:8-10 | deleting elements that reappear later keeps every value |
| `SortedDedupe.KeepLastDistinct` | cpp_files/DSA/Array/remove_duplicates/tempCodeRunnerFile.py:8-10 | no value is left twice |
| `SortedDedupe.KeepLastSorted` | cpp_files/DSA/Array/remove_duplicates/tempCodeRunnerFile.py:7-10 | deletions keep a sorted list sorted |
| `SortedDedupe.DeleteDuplicates` | cpp_files/DSA/Array/remove_duplicates/tempCodeRunnerFile.py:2-11 | the reverse `del` loop over the sorted copy computes `KeepLast(Sort(input))`; the caller's list is a value and is not changed |
| `SortedDedupe.DeleteDuplicatesMeans` | cpp_files/DSA/Array/remove_duplicates/tempCodeRunnerFile.py:7-11 | the result is sorted, has no duplicates, and holds exactly the input's values |
| `SortedDedupe.IncreasingUnique` | cpp_files/DSA/Array/remove_duplicates/tempCodeRunnerFile.py:7-11 | two strictly increasing lists with the same values are equal, so the result is determined by the input's values |
| `SortedDedupe.AgreesWithFirstOccurrence` | cpp_files/DSA/Array/remove_duplicates/tempCodeRunnerFile.py:2-11 | on the sorted list, the reverse deletion and the first-occurrence dedupe of rmdlptc.cpp agree |
| `SortedDedupe.SampleResult` | cpp_files/DSA/Array/remove_duplicates/tempCodeRunnerFile.py:15 | [1,1,2,3,3,4,5,6,6] becomes [1,2,3,4,5,6] |
| `SortedDedupe.Example` | cpp_files/DSA/Array/remove_duplicates/tempCodeRunnerFile.py:15-20 | the script's call returns [1,2,3,4,5,6] |
| `BinarySearchCpp.ProbeRange` | cpp_files/DSA/Array/binary_search.cpp:10-20 | the code as written returns -1 or an index in range whose element is not zero |
| `BinarySearchCpp.ProbeZeros` | cpp_files/DSA/Array/binary_search.cpp:13-18 | on a range of zeros it moves right every time and returns -1 |
| `BinarySearchCpp.FirstMiddle` | cpp_files/DSA/Array/binary_search.cpp:7-14 | a non-zero first middle is returned, whatever the key |
| `BinarySearchCpp.BinarySearchKeyAsWritten` | cpp_files/DSA/Array/binary_search.cpp:5-21 | the loop with the assignment in its test computes `Probe` |
| `BinarySearchCpp.AsWrittenMissesKey` | cpp_files/DSA/Array/binary_search.cpp:13 | on {3,5,7,9,11} the code answers 2 for the key 11, which is at 4 |
| `BinarySearchCpp.BinarySearchKey` | cpp_files/DSA/Array/binary_search.cpp:5-21 | with the comparison: a result is in range and holds the key, and on a sorted array -1 means the key is absent |
| `BinarySearchCpp.Example` | cpp_files/DSA/Array/binary_search.cpp:26 | the key 11 of the source's array is found at 4 |
| `BinarySearchPy.Search` | binary_search.py:1-12 | an int result is an index of the target; otherwise the result is "not found", which on a sorted list happens exactly when the target is absent |
| `BinarySearchPy.AbsentIsNotMinusOne` | binary_search.py:12 | an absent target gives "not found" and never -1 |
| `BinarySearchPy.SearchIndex` | binary_search.py:14-21 | the search the asserts expect: an index of the target, or -1 exactly when it is absent from a sorted list |
| `BinarySearchPy.Examples` | binary_search.py:14-21 | the code gives 6, 7, "not found", "not found", 0 on the asserted calls |
| `BinarySearchPy.IntendedExamples` | binary_search.py:14-21 | with -1 for an absent target every assert holds |
| `LinearSearch.SearchKey` | cpp_files/DSA/Array/linear_search.cpp:5-12 | the first index of the key in `arr[0..n)`, and -1 exactly when it does not occur |
| `LinearSearch.Example` | cpp_files/DSA/Array/linear_search.cpp:6-9 | the first of two occurrences is the one found |
| `ArrayInsert.InsertedAt` | cpp_files/DSA/Array/array_op/arr02.cpp:13-18 | elements before `pos` stay, `x` is at `pos`, and each later element moves one slot right |
| `ArrayInsert.RemoveInserted` | cpp_files/DSA/Array/array_op/arr02.cpp:13-21 | removing the element at `pos` undoes the insertion |
| `ArrayInsert.InsertedValues` | cpp_files/DSA/Array/array_op/arr02.cpp:13-21 | the values after insertion are the old ones and `x` |
| `ArrayInsert.InsertAt` | cpp_files/DSA/Array/array_op/arr02.cpp:6-21 | with room for one more, the shift loop and the store insert `x` at `pos` and the size grows by one; slots past it are untouched |
| `ArrayInsert.Example` | cpp_files/DSA/Array/array_op/arr02.cpp:6-21 | 4 inserted at position 3 of {1,2,3,5,6} gives 1 2 3 4 5 6 |
| `Accounts.TruthfulAppend` | cpp_files/lib01.cpp:17-33 | a true report appended to a truthful log keeps it truthful and replays to the reported balance |
| `Accounts.NeverNegative` | cpp_files/lib01.cpp:25-26 | with a non-negative opening balance and no negative deposit, the balance never goes negative |
| `Accounts.Account.constructor` | cpp_files/lib01.cpp:14-15 | sets the name, number and balance, with an empty log |
| `Accounts.Account.Deposit` | cpp_files/lib01.cpp:17-22 | adds the amount with no sign check and logs the new balance |
| `Accounts.Account.Withdraw` | cpp_files/lib01.cpp:24-34 | subtracts exactly when the balance covers the amount and logs it; otherwise the balance stays and a failure is logged |
| `Accounts.Example` | cpp_files/lib01.cpp:45-49 | 1000, +500, -200, then -1500 refused, leaves 1300 and three log lines |

## Left out

- File I/O in the taxi store is not modelled. Each table is the sequence of its lines. Opening a missing file or creating a directory is the constructor's `None` case. Read and write exceptions, and their messages, are not modelled. The truncated file that `update_booking` leaves on a failed read is not modelled either.
- `calculate_distance` (haversine, floating-point trigonometry) is a parameter `distance` of every engine operation. Its numeric fixtures are not stated: `AssignmentFixture` assumes only the order of the three distances.
- `strptime` is modelled as a strict parser of zero-padded "YYYY-MM-DD HH:MM" with Gregorian calendar checks. Python accepts some unpadded fields, and these are treated as unparseable. Date-times are minute counts since 0001-01-01.
- `get_next_*_id` requires every id to be one character followed by at least one decimal digit, so Python's `int()` parsing of other suffixes is not modelled.
- Concurrency is not modelled: two processes that rewrite the same file, or draw the same id, have no counterpart here.
- `hash_password` (SHA-256) is a function parameter `hash`. The migration's backup copy, the file-not-found message, the confirmation prompt and all printing are left out.
- `str.lower`, `str.isalnum` and `isalnum` are modelled on ASCII letters and digits only. `str.strip` uses Python's white-space set, listed in `Text.IsSpace`.
- A field containing a line break is not modelled: a table is a sequence of lines.
- The presentation layer, the demo seeding scripts and the other exercise files of the repository are not part of this model.
- The test files construct 8-field drivers and 12-field bookings. Those do not exist in `models.py`, so those fixtures are stated over the records `models.py` defines.
- The debug printing inside `bubbleSort`, every `main` driver's console input and output, and the `displayAccountDetails` print are left out. Fixture methods take the source's literal arrays as parameters.
- In `lib01.cpp`, `double` money is an exact `real`, so rounding is not modelled. The lines written to transactions.log are kept as the account's `log` field rather than written to a file.
- C++ `int` overflow is not modelled, for example in `low + high` of the searches, the bracket counters and `size++`. Every integer is unbounded.
- Popping an empty stack in `same.cpp` is undefined behaviour, and in `infix_to_postfix.py` it raises `IndexError`. Both are modelled as a failed conversion (`None`).
- The converters' stacks are sequences with the top at the front. The validators' stacks have the top at the back. Each inner `while` loop is a helper method of its own:
  - `Bubble.Pass`;
  - `Rmdlptc.Holds`;
  - `Postfix.PopToOpen` and `Postfix.PopAll`;
  - `SameCpp.PopOperators` and `InfixToPostfixPy.PopOperators`.
- Both converters use the single `Postfix.Precedence`, because the two `precedence` functions compute the same thing. `Brackets.MatchingOpen` likewise serves both files that define `matchingOpen`.
- The shift-and-insert of `arr02.cpp` is written inside `main`. Here it is the method `ArrayInsert.InsertAt`.
- Rmdlptc.DeleteDuplicates: the `static unique[100]` buffer is passed in as an array of length 100. Values left in it by an earlier call are kept past `newSize`, but the model does not state that one call's buffer is the next call's buffer. The method requires at most 100 distinct values, because more would write past the buffer.
- SortedDedupe.DeleteDuplicates: Python's `sorted` (Timsort) is modelled as an insertion sort. On integers every sorted permutation is the same list (`Bubble.SortedUnique`), so the result does not depend on the algorithm.
- Postfix.Convert: the model does not prove that evaluating the postfix output gives the value of the infix input. It states operand order, precedence, associativity, what is kept, and when conversion fails.

## Findings

| source | as written | input that shows it | evidently intended | confidence | as-written member | corrected member |
|---|---|---|---|---|---|---|
| cpp_files/DSA/Array/binary_search.cpp:13 | `if(key = arr[middle])` assigns the middle element to `key` and returns `middle` whenever that element is not zero; the key is never compared | `{3, 5, 7, 9, 11}` with key 11 returns 2 | `key == arr[middle]`, a binary search that returns an index of the key or -1 | not executed | `BinarySearchCpp.AsWrittenMissesKey` | `BinarySearchCpp.BinarySearchKey` |
| binary_search.py:12 | an absent target returns the string "not found" | `search([3], 6)` returns "not found", so the assert at line 19 fails | return -1, as the asserts at lines 19-20 expect | not executed | `BinarySearchPy.AbsentIsNotMinusOne` | `BinarySearchPy.SearchIndex` |
