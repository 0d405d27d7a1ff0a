# Academia: verified concurrency, hashing and enrolment

This project models the parts of the Academia course registration system where correctness is
not visible in a single body, and proves properties of them with Dafny 4.11. Six parts are
covered; each has a module that states what one step does, modules that prove what all runs
have in common, and a class that does the same work in place, statement by statement.

* **Concurrent registration.** Any number of threads register and drop. Each goes through the
  double-checked map of course mutexes, its course mutex, and a transaction on the one
  connection that all threads share. Every interleaved run refines an atomic enrolment relation
  with capacities (`RegistrationMachine`, `RegistrationRefinement`); calls neither block each
  other forever nor run forever (`RegistrationProgress`); a race for one course hands out exactly
  the free seats (`RegistrationHandOut`); rows keep their ids (`RegistrationHistory`); whole-call
  runs with course and user administration keep all counts consistent (`Catalogue`), and what
  each of those calls answers and writes is exact (`CatalogueAnswers`);
  `SilentFailures` and `SilentFailureRuns` add statements that fail without throwing;
  `RegistrationClass` is the code on one database object.
* **SHA-256.** The imperative function computes the definition of FIPS 180-4; padding and output
  can be undone, the rounds are a bijection, and a collision of the hash is turned into a
  collision of the compression function. What the definition computes is stated again without it:
  bit by bit for the six functions on words, and on numbers for the rest (`Bits`, `Sha256Spec`,
  `Sha256Constants`, `Sha256Bits`, `Sha256Sums`, `Sha256`, `Sha256Rounds`, `Sha256Collision`,
  `AuthService`).
* **The master/worker pool.** A stack under one lock with broadcasts: no deadlock, termination,
  and exactly which orders of consumption are possible (`MasterWorker`, `MasterWorkerProgress`,
  `MasterWorkerPool`).
* **The thread pool.** No lost wakeup although `notify_one` comes after the lock, and a draining
  destructor: what was enqueued before the stop flag is what runs, once a call (`ThreadPool`,
  `ThreadPoolClass`).
* **The bounded buffer.** Progress with `notify_one` on two condition variables, and order
  (`BoundedBuffer`, `BoundedBufferProgress`, `BoundedBufferClass`).
* **The two-file enrolment store.** One relation stored twice, in whole calls and in interleaved
  critical sections, with the exact answers and effects of each call (`FileStore`,
  `FileStoreCalls`, `FileStoreAnswers`, `FileStoreClass`).

`Sums` and `Orders` hold shared facts on sums over thread tables and on the order of items.

Eight things proved here differ from what the code's comments or callers expect:

* Calls for different courses are said to proceed in parallel (RegistrationService.hpp:193-199),
  but they share one connection (backend/src/main.cpp:69-81). `DifferentCoursesCollide` builds the
  run in which one of them fails; `FailsExactlyWhen` gives the exact condition, and `NoCollision`
  shows that calls for one course are never affected.
* `drop_student` adds 1 to the remaining seats after the row is already dropped
  (RegistrationService.hpp:155-158), so it reports one seat more than is free (`BodyIsAtomic`).
* `update_course` reports success although no column is changed when the faculty it names does not
  exist, because the result of the UPDATE is ignored (`UpdateTookEffectExactly`). A course whose
  faculty has been deleted reads back faculty 0, so it cannot be renamed without naming another
  (`OrphanedCourseCannotBeChanged`).
* SELECTs, UPDATEs and DELETEs whose step fails do not throw. `CapacityHoldsExactly` and
  `AtomicityHoldsExactly` say exactly which of these failures an interleaved run survives; a failing
  count of a full course lets one more student in (`FailingCountOverbooks`), and a failing count in
  `update_course` lets the capacity go below the enrolment (`UpdateKeepsValidExactly`). A failing
  UPDATE, DELETE or session INSERT is reported as success.
* `delete_course` asks only faculty whether the course is theirs (CourseService.hpp:92-104), and its
  route asks for no role, so a requester with the student role can delete any course
  (`DeletesExactly`).
* When the last worker of a thread pool has been joined, an `enqueue` that pushed before the stop flag
  may still have its `notify_one` to call, on a pool that has ended; all tasks have run by then
  (`JoinedMeansAllRun`).
* Reducing the seats of a course in the file store below its enrolment leaves students who list a
  course that does not list them (`UpdateAgreesIffStudentsFit`).
* Other calls between the halves of `remove_course` or `unenroll_course` can leave the files
  disagreeing. It depends on one roster when the second half starts: agreement holds exactly when
  the removed course has nobody on it (`SplitRemovalAgreesExactly`), or when the course does not
  list the student again (`SplitUnenrollAgreesExactly`).

## How steps were chosen

* In the three condition-variable programs a step is one critical section, from taking the lock to
  releasing it or waiting. Nothing shared is touched outside the lock except the atomic counters,
  which have steps of their own.
* In the registration machine a step is an acquisition or release of a lock, a BEGIN, the reads of a
  transaction, its write, a COMMIT or a ROLLBACK. The reads and the write may stand for several
  statements each, because while a transaction is open no other thread touches the tables; BEGIN,
  COMMIT, the preparation of a statement and the INSERT may fail and throw. In `SilentFailureRuns`
  each call also carries the statements that will fail in its transaction without throwing.
* In the file store a step is what happens between `sem_wait` and `sem_post`.

## Model

| member | source | states |
|---|---|---|
| `RegistrationTables.CreateEffect` | backend/include/repositories/RegistrationRepository.hpp:95-128 | A created registration is the only row of its pair: the dropped row made active with its old id, or a new row with the next id; it throws exactly when there is no row and the student or the course is unknown; one seat of that course goes and no other. |
| `RegistrationTables.ActivateCounts` | backend/include/repositories/RegistrationRepository.hpp:130-137 | Dropping or reactivating the row of a pair moves exactly one seat of that course and no seat of any other. |
| `RegistrationTables.InsertCounts` | backend/include/repositories/RegistrationRepository.hpp:119-127 | An inserted row takes one seat of its course and none of another. |
| `RegistrationTables.BodyKeepsValid` | backend/include/services/RegistrationService.hpp:94-131 | After a complete body of register or drop no course is over capacity, pairs are unique, and every row refers to an existing student and course. |
| `RegistrationMachine.StepKeepsInv` | backend/include/services/RegistrationService.hpp:85-215 | Every step of every thread keeps the lock, mutex, connection and transaction invariants together, and never replaces an entry of the mutex map. |
| `RegistrationMachine.RunKeepsInv` | backend/include/services/RegistrationService.hpp:85-215 | The same over whole runs of any number of threads on any courses, with every statement that throws when it fails, and every commit and BEGIN, failing anywhere. |
| `RegistrationMachine.OneMutexPerCourse` | backend/include/services/RegistrationService.hpp:200-215 | In any run two calls, at whatever moments, hold the same mutex if and only if they are for the same course. |
| `RegistrationMachine.MutualExclusion` | backend/include/services/RegistrationService.hpp:85-90 | Two calls for one course never hold its mutex together, and a transaction belongs to one thread. |
| `RegistrationMachine.WriteKeepsTx` | backend/include/database/Database.hpp:115-131 | The write of a transaction leaves tables that are valid and are what the whole body, run on the saved tables, leaves. |
| `RegistrationRefinement.BodyIsAtomic` | backend/include/services/RegistrationService.hpp:94-169 | A body that returns is one step of an enrolment relation with capacities: success adds or removes exactly its pair, each error has exactly its cause, and the remaining seats are the free seats after a registration, one more than the free seats after a drop. |
| `RegistrationRefinement.TakenIsEnrolled` | backend/include/repositories/CourseRepository.hpp:143-150 | The SQL count of active rows is the number of enrolled pairs of the course. |
| `RegistrationRefinement.StepRefines` | backend/include/database/Database.hpp:115-131 | Only a commit changes the committed database and it does so by one step of the relation; every other step, rollbacks and failed BEGINs included, leaves it as it was. |
| `RegistrationRefinement.EveryRunIsAtomic` | backend/include/services/RegistrationService.hpp:85-169 | Every interleaved run is explained by replaying its committed calls one after the other in the order of their commits. |
| `RegistrationRefinement.NeverOverbooked` | backend/include/services/RegistrationService.hpp:109-120 | In every reachable state of such runs active enrolments are at most the capacity, inside an open transaction too. |
| `RegistrationRefinement.ReportsAreCommitted` | backend/include/services/RegistrationService.hpp:85-169 | A call, over any run from its start: it has committed nothing while it has not come back or when it reports an exception, and exactly once, with the result it reports, when it reports any other. |
| `SilentFailures.NoFailuresIsBody` | backend/include/services/RegistrationService.hpp:94-169 | Without failures the bodies below are those of the machine. |
| `SilentFailures.FailingCountOverbooks` | backend/include/repositories/CourseRepository.hpp:143-150 | An input: the count fails for a full course, and a known student without a row is the one too many. |
| `SilentFailures.CapacitySurvivesExactly` | backend/include/repositories/CourseRepository.hpp:143-150 | Whatever SELECTs and UPDATEs fail without throwing, a body that returns leaves a valid database if and only if it is not the case that the count fails for a full course and a seat is then taken. |
| `SilentFailures.RunStaysValidExactly` | backend/include/services/RegistrationService.hpp:94-169 | Over any sequence of calls and silent failures, the database is valid throughout if and only if no call overbooks in this way. |
| `SilentFailures.AtomicitySurvivesExactly` | backend/include/repositories/RegistrationRepository.hpp:85-137 | A body with silent failures is a step of the atomic relation that returns the id of its row, if and only if the failures are harmless, a condition on the tables and the failing statements before the call. |
| `SilentFailures.UnnoticedExactly` | backend/include/repositories/RegistrationRepository.hpp:85-137 | Harmless is exact in another way: tables and result are those of the body without failures if and only if the failures are harmless. |
| `SilentFailureRuns.NoFailuresIsTheMachine` | backend/include/services/RegistrationService.hpp:94-169 | A call that meets no failure moves as in the registration machine. |
| `SilentFailureRuns.StepKeepsFInv` | backend/include/services/RegistrationService.hpp:85-215 | With any silent failures in any transaction every step keeps the lock, mutex and connection invariants, and only a commit changes the committed database. |
| `SilentFailureRuns.CapacityHoldsExactly` | backend/include/services/RegistrationService.hpp:85-169 | Every interleaved run, with any silent failures in any transaction: the database is valid at every moment if and only if no transaction that commits had a failing count of a full course and then took a seat. |
| `SilentFailureRuns.AtomicityHoldsExactly` | backend/include/database/Database.hpp:115-131 | Every such run: all commits are steps of the atomic relation that name their rows, if and only if the failures of all of them were harmless. |
| `RegistrationProgress.WaitedForCanMove` | backend/include/services/RegistrationService.hpp:200-215 | Whoever holds a lock that another thread waits for can move and waits for nobody, so wait chains have length one and no cycle exists. |
| `RegistrationProgress.NeverStuck` | backend/include/services/RegistrationService.hpp:85-90 | While any call is under way some thread can move. |
| `RegistrationProgress.EveryScheduleEnds` | backend/include/services/RegistrationService.hpp:85-135 | Whatever the schedule and whatever fails, n calls take at most 11 n steps. |
| `RegistrationProgress.AtRestMeansReturned` | backend/include/services/RegistrationService.hpp:85-135 | A run that cannot go on has returned from every call. |
| `RegistrationProgress.RunKeepsOutcome` | backend/include/database/Database.hpp:115-131 | Once a call has begun its transaction nothing other threads do changes what it will report. |
| `RegistrationProgress.BodyThrowsExactly` | backend/include/repositories/RegistrationRepository.hpp:119-126 | A body throws if and only if an unknown student registers for an existing course with a free seat. |
| `RegistrationProgress.FailsExactlyWhen` | backend/include/database/Database.hpp:115-118 | A call holding its mutex, whose own statements do not fail, reports an exception if and only if the shared connection is in a transaction at its BEGIN, or it is such an unknown student. |
| `RegistrationProgress.GetsMutex` | backend/include/services/RegistrationService.hpp:200-215 | With the map lock and the mutex free, a thread reaches its mutex by its own moves, changing nothing else. |
| `RegistrationProgress.DifferentCoursesCollide` | backend/include/services/RegistrationService.hpp:193-199 | From every state where two calls for different courses can get at their mutexes, some run without any failing statement ends one of them with an exception, however many seats its course has: independence of courses does not hold on one connection. |
| `RegistrationHandOut.SequentialRace` | backend/include/services/RegistrationService.hpp:109-131 | A queue of distinct students for k free seats: the i-th succeeds with k-1-i seats remaining while i < k, and all later ones are told the course is full. |
| `RegistrationHandOut.NoCollision` | backend/include/services/RegistrationService.hpp:85-90 | Calls for one course never find the connection in a transaction. |
| `RegistrationHandOut.RunKeepsRace` | backend/include/services/RegistrationService.hpp:85-131 | In a race for one course nobody fails with an exception, and whoever is done is in the log exactly once with the result it returns. |
| `RegistrationHandOut.ExactHandOut` | backend/tests/test_concurrency.cpp:98-159 | Any number of distinct students racing for one course, in every complete schedule: exactly min(n, k) win, all calls return, the i-th to commit is told what the i-th in a queue would be, and the roster grows by exactly the winners. |
| `RegistrationHistory.BodyRows` | backend/include/repositories/RegistrationRepository.hpp:95-137 | Register and drop remove no row; a success returns the id of the row of its pair, and only a successful registration adds a row. |
| `RegistrationHistory.OneRowPerRegisteredPair` | backend/src/database/Database.cpp:108-115 | After any run the number of rows is the number of pairs that had a row or were ever registered. |
| `RegistrationHistory.SamePairSameId` | backend/include/repositories/RegistrationRepository.hpp:110-117 | Two successful registrations in any run return the same id if and only if they are of the same student and course, whatever was dropped in between. |
| `Catalogue.CallKeepsValid` | backend/include/services/CourseService.hpp:42-104 | A whole call, with any of its steps failing, keeps capacity, unique pairs and codes and references if and only if it neither overbooks nor undercuts. |
| `Catalogue.UpdateKeepsValidExactly` | backend/include/services/CourseService.hpp:80-87 | An update stores a capacity below the enrolment if and only if the count fails and all other checks and the UPDATE go through. |
| `Catalogue.RunKeepsValid` | backend/src/database/Database.cpp:84-115 | Any run of whole calls, whatever fails in them: valid throughout if and only if no call overbooks or undercuts. |
| `Catalogue.RunWithoutFaultsKeepsValid` | backend/src/database/Database.cpp:84-115 | Any run of whole calls in which nothing fails keeps capacity, unique keys and references throughout. |
| `Catalogue.CountsAddUp` | backend/include/controllers/AdminController.hpp:148-176 | Per-course enrolled counts add up to count_active, in any listing order. |
| `Catalogue.TotalsOfListing` | backend/include/controllers/AdminController.hpp:148-176 | In any listing order the capacities add up to the number of seats there are, and the enrolments to count_active, which is no more. |
| `Catalogue.RosterIsEnrolled` | backend/include/repositories/RegistrationRepository.hpp:50-66 | The joined roster query loses nobody: its length is get_enrolled_count. |
| `Catalogue.CountsAgreeAfterAnyRun` | backend/include/services/CourseService.hpp:106-121 | After any run of whole calls that neither overbook nor undercut, in particular any without failures, rosters, per-course counts and the total agree. |
| `Catalogue.UpdateTookEffectExactly` | backend/include/repositories/CourseRepository.hpp:114-125 | An update that reports success stored name, credits, faculty, capacity and schedule as asked if and only if its UPDATE did not fail and the faculty it names exists, or all five already had those values. |
| `Catalogue.CodesStayUniqueWithoutLookup` | backend/include/services/CourseService.hpp:53-65 | A lookup of the code that fails changes the message of a refusal and nothing else: the UNIQUE key decides. |
| `Catalogue.DeletesExactly` | backend/include/services/CourseService.hpp:92-104 | Who can delete an existing course: an admin, the faculty who owns it, and every requester with the student role; and it is gone if and only if the DELETE did not fail. |
| `Catalogue.OrphanedCourseCannotBeChanged` | backend/include/services/CourseService.hpp:87-89 | Once the faculty of a course is deleted, every update that leaves the faculty as it reads back reports success and changes nothing, whatever else it asks for. |
| `Catalogue.DeleteUndoesCreate` | backend/include/services/CourseService.hpp:42-104 | Deleting a course just created restores the database but for the used-up id. |
| `Catalogue.DeleteUserFreesSeats` | backend/include/repositories/UserRepository.hpp:101-105 | Deleting a user frees one seat in each course the user was enrolled in and no other seat. |
| `Catalogue.DeleteCourseLowersTotal` | backend/include/repositories/CourseRepository.hpp:127-131 | Deleting a course lowers the total by exactly its enrolments. |
| `Catalogue.DeleteCourseFreesSeats` | backend/include/repositories/CourseRepository.hpp:127-131 | Deleting a course empties it and leaves the count of every other course. |
| `CatalogueAnswers.CreateDecided` | backend/include/services/CourseService.hpp:43-65 | The answer to create_course is the error of the first failing check in source order, or success when all pass. |
| `CatalogueAnswers.CreatesExactly` | backend/include/repositories/CourseRepository.hpp:98-112 | A course is created if and only if an admin or faculty sends a code, a name, a capacity > 0, 1 to 6 credits, a free code and a known faculty, and the INSERT does not fail; it is new and empty and reads back as the form. Otherwise nothing changes. |
| `CatalogueAnswers.UpdateDecided` | backend/include/services/CourseService.hpp:68-90 | The answer to update_course is the error of the first failing check in source order, or success when all pass. |
| `CatalogueAnswers.UpdateReadsBack` | backend/include/repositories/CourseRepository.hpp:114-125 | After a reported success the course reads back as the form but for its code, or as before, according to whether the UPDATE was applied; no other course or table changes. |
| `CatalogueAnswers.DeleteDecided` | backend/include/services/CourseService.hpp:92-104 | The answer to delete_course, by the first failing check in source order. |
| `CatalogueAnswers.DeleteCourseKeepsOthers` | backend/include/repositories/CourseRepository.hpp:127-131 | Exactly the course and its registrations are gone; every other course and row is as it was. |
| `CatalogueAnswers.DeleteUserExactly` | backend/include/controllers/AdminController.hpp:123-137 | A user is gone if and only if another admin asked and the DELETE did not fail; then exactly the registrations of the user go, and exactly the courses of the user lose their faculty. |
| `CatalogueAnswers.AddUserExactly` | backend/include/repositories/UserRepository.hpp:66-81 | A new account has an id no account had, and nothing else moves. |
| `RegistrationClass.Database.BeginTransaction` | backend/src/database/Database.cpp:60-66 | Begins, saving the tables, exactly when no transaction is open; a failing BEGIN leaves the open one alone. |
| `RegistrationClass.Database.Rollback` | backend/src/database/Database.cpp:72-78 | Restores the tables saved at BEGIN. |
| `RegistrationClass.Database.SetActive` | backend/include/repositories/RegistrationRepository.hpp:100-106 | The UPDATE with its status filter, and whether it changed a row. |
| `RegistrationClass.Database.Create` | backend/include/repositories/RegistrationRepository.hpp:95-128 | Update, look up the id, or insert, in this order and with any of them failing silently, is the create of the model. |
| `RegistrationClass.Database.FindById` | backend/include/repositories/CourseRepository.hpp:17-30 | Reports capacity and the count of active rows, or nothing for an unknown course or a failing step. |
| `RegistrationClass.Database.Exists` | backend/include/repositories/RegistrationRepository.hpp:85-93 | True exactly for an active row of the pair, unless the step fails. |
| `RegistrationClass.Database.GetEnrolledCount` | backend/include/repositories/CourseRepository.hpp:143-150 | Counts the active rows of the course; a failing step reads 0. |
| `RegistrationClass.Database.FindByCourse` | backend/include/repositories/RegistrationRepository.hpp:50-66 | The loop over result rows lists the roster without repetition, as many as are enrolled. |
| `RegistrationClass.Database.Statistics` | backend/include/controllers/AdminController.hpp:148-176 | The loop over courses: the total capacity is the number of seats of all courses, and the total enrolled equals the total registrations and is no more than that. |
| `RegistrationClass.RegistrationService.GetCourseMutex` | backend/include/services/RegistrationService.hpp:200-215 | Returns the entry of the course, adding a fresh one only when there is none and replacing none. |
| `RegistrationClass.RegistrationService.RegisterStudent` | backend/include/services/RegistrationService.hpp:85-136 | The statements in order, with silent failures, and rollback on a throw or a failed commit, do what the body with those failures does, or nothing at all with an exception. |
| `RegistrationClass.RegistrationService.DropStudent` | backend/include/services/RegistrationService.hpp:142-169 | The same for drop. |
| `RegistrationClass.CourseService.CreateCourse` | backend/include/services/CourseService.hpp:42-66 | The checks in source order, then the insert, with any step failing, are the model call; a created course has a new id and reads back column by column as the form, and a refusal leaves the courses alone. |
| `RegistrationClass.CourseService.UpdateCourse` | backend/include/services/CourseService.hpp:68-90 | The checks in source order, then an UPDATE that may be refused or fail silently, are the model call. |
| `RegistrationClass.CourseService.DeleteCourse` | backend/include/services/CourseService.hpp:92-104 | The checks of non-admins, then the delete with its cascade, which may fail silently, are the model call. |
| `Sha256Spec.PaddingIsMinimal` | backend/include/services/AuthService.hpp:75 | The zero bytes fill up to 56 modulo 64 and no fewer do. |
| `Sha256Constants.FirstPrimes` | backend/include/services/AuthService.hpp:43 | The prime list behind the constants holds every prime up to 311 and nothing else, in increasing order. |
| `Sha256Constants.RoundConstant` | backend/include/services/AuthService.hpp:44-61 | Round constant t is the first 32 fractional bits of the cube root of prime t, for all 64. |
| `Sha256Constants.InitialValue` | backend/include/services/AuthService.hpp:68-69 | Word t of the initial value is the first 32 fractional bits of the square root of prime t, for all eight. |
| `Bits.BitwiseBit` | backend/include/services/AuthService.hpp:98 | Each bit of a bitwise operator on words is that operator on the two bits. |
| `Bits.RotateRightBit` | backend/include/services/AuthService.hpp:63-65 | The or of the two shifts takes bit i from n places up, counted around the word. |
| `Bits.ShiftLeftBit` | backend/include/services/AuthService.hpp:64 | A left shift in 32 bits moves bit i - n to bit i, fills with zeros and loses what leaves the word. |
| `Sha256Bits.BigSigma0IsParity` | backend/include/services/AuthService.hpp:100 | Bit i of S0(a) is set if and only if an odd number of bits i+2, i+13 and i+22 of a are, counted around the word. |
| `Sha256Bits.BigSigma1IsParity` | backend/include/services/AuthService.hpp:96 | The same for S1(e) with bits i+6, i+11 and i+25. |
| `Sha256Bits.Sigma0IsParity` | backend/include/services/AuthService.hpp:90 | The same for s0 with bits i+7 and i+18 around the word and bit i+3 if the word has one. |
| `Sha256Bits.Sigma1IsParity` | backend/include/services/AuthService.hpp:91 | The same for s1 with bits i+17 and i+19 around the word and bit i+10 if the word has one. |
| `Sha256Bits.ChChooses` | backend/include/services/AuthService.hpp:97 | Each bit of ch is the bit of f where e has a 1 and the bit of g where it has a 0. |
| `Sha256Bits.MajIsMajority` | backend/include/services/AuthService.hpp:101 | Each bit of maj is set if and only if at least two of the three arguments have it. |
| `Sha256Sums.PaddingLayout` | backend/include/services/AuthService.hpp:72-78 | A padded message is whole blocks and at most 72 bytes longer: the message, 0x80, zeros, and eight bytes whose value is the length in bits modulo 2^64. |
| `Sha256Sums.ScheduleIsSchedule` | backend/include/services/AuthService.hpp:82-93 | The first sixteen words have the big-endian values of the bytes of the block, and each later one is the sum of its four terms modulo 2^32. |
| `Sha256Sums.RoundIsRound` | backend/include/services/AuthService.hpp:95-108 | One round moves six words along and makes the other two, as sums of numbers modulo 2^32. |
| `Sha256Sums.CompressionStates` | backend/include/services/AuthService.hpp:82-111 | The compression of a block passes through 65 states, one round apart with the words of its schedule, and adds the last to the first word by word modulo 2^32. |
| `Sha256Sums.HashStates` | backend/include/services/AuthService.hpp:80-118 | The hash string of a message is eight digits for the value of each word of a state, reached from the initial value by one compression for each block of the padded message, in order. |
| `Sha256.PadMessage` | backend/include/services/AuthService.hpp:72-78 | The push_back loops produce the padding of section 5.1.1 for every input. |
| `Sha256.LoadBlock` | backend/include/services/AuthService.hpp:83-88 | The first sixteen schedule words are the big-endian words of the block. |
| `Sha256.ExpandSchedule` | backend/include/services/AuthService.hpp:82-93 | The in-place array becomes the message schedule of section 6.2.2. |
| `Sha256.SourceOrder` | backend/include/services/AuthService.hpp:92 | The order in which the source adds four terms gives the sum of the standard modulo 2^32. |
| `Sha256.ProcessBlock` | backend/include/services/AuthService.hpp:95-111 | The loop on the eight rotating variables computes the 64 rounds and the feed-forward. |
| `Sha256.ToHex` | backend/include/services/AuthService.hpp:114-118 | The stream output is the concatenation of eight-digit words. |
| `Sha256.PadIsWholeBlocks` | backend/include/services/AuthService.hpp:75-78 | A padded message is a whole number of 64-byte blocks. |
| `Sha256.HashBlocks` | backend/include/services/AuthService.hpp:80-112 | The loop over offsets folds the compression function over the blocks. |
| `Sha256.Sha256` | backend/include/services/AuthService.hpp:42-119 | The whole imperative function computes the recursive definition for every input; what that definition computes is stated by HashStates, CompressionStates and the rows on the six functions. |
| `Sha256Rounds.RoundInverse` | backend/include/services/AuthService.hpp:96-108 | One round is undone by an explicit inverse, on both sides, whatever the functions on words are. |
| `Sha256Rounds.UndoRounds` | backend/include/services/AuthService.hpp:96-108 | Undoing t rounds in reverse recovers the state they started from. |
| `Sha256Rounds.RoundsAreBijective` | backend/include/services/AuthService.hpp:96-108 | With any schedule the 64 rounds reach every state from exactly one state. |
| `Sha256Rounds.OldestWord` | backend/include/services/AuthService.hpp:89-93 | The schedule recurrence solved for its oldest word. |
| `Sha256Rounds.SixteenWordsDetermineSchedule` | backend/include/services/AuthService.hpp:83-93 | Any sixteen consecutive schedule words determine the block and all 64 words, forwards and backwards. |
| `Sha256Collision.UnpadInverts` | backend/include/services/AuthService.hpp:72-78 | The message is recovered from its padded form, for messages under 2^61 bytes. |
| `Sha256Collision.HexWordRoundTrip` | backend/include/services/AuthService.hpp:115-117 | A word is written as exactly eight digits from which it is read back. |
| `Sha256Collision.HexInjective` | backend/include/services/AuthService.hpp:114-118 | Different digests are written differently. |
| `Sha256Collision.WalkBack` | backend/include/services/AuthService.hpp:81-112 | Chains of equal length that end equal but read different blocks hold two different inputs of the compression with one output, found at the same position. |
| `Sha256Collision.FindCollision` | backend/include/services/AuthService.hpp:42-119 | Two different messages with the same hash string give a position on each of the two chains where different inputs of the compression have one output. |
| `AuthService.Service.HashPassword` | backend/include/services/AuthService.hpp:121-124 | The hash of the salted password. |
| `AuthService.Service.Login` | backend/include/services/AuthService.hpp:133-159 | Login succeeds exactly for a user who is found, active and whose stored hash is that of the password; the session is stored exactly if its INSERT does not fail, which the result does not show; unknown users and wrong passwords are answered alike. |
| `AuthService.PassingTheTest` | backend/include/services/AuthService.hpp:145-150 | Whoever passes the hash test for p0 typed p0, or the two chains hold a collision of the compression at given positions. |
| `AuthService.SaltSpells` | backend/include/services/AuthService.hpp:122-124 | The salt bytes are the characters of academia_salt_. |
| `MasterWorker.StepKeepsInv` | basic_requirements/master_worker_pool/master-worker.c:31-81 | Every critical section keeps: items conserved, the stack increasing, consumption stack-ordered, sleepers asleep only for a reason that still holds. |
| `MasterWorker.PopKeepsOvertaking` | basic_requirements/master_worker_pool/master-worker.c:73 | An item popped passes only items below it on the stack, so fewer than max_buf_size. |
| `MasterWorkerProgress.SectionLowersMeasure` | basic_requirements/master_worker_pool/master-worker.c:36-78 | Work left, live threads and runnable threads fall lexicographically in every critical section. |
| `MasterWorkerProgress.EveryScheduleEnds` | basic_requirements/master_worker_pool/master-worker.c:36-78 | Every schedule without spurious wakeups is no longer than an explicit bound. |
| `MasterWorkerProgress.NeverStuck` | basic_requirements/master_worker_pool/master-worker.c:36-78 | As long as a thread is left, some thread can take the lock. |
| `MasterWorkerProgress.MaximalRunConsumesAll` | basic_requirements/master_worker_pool/master-worker.c:137-148 | A run that cannot go on has returned from every thread, with each item consumed exactly once. |
| `MasterWorkerProgress.ConsumptionOrdersCharacterised` | basic_requirements/master_worker_pool/master-worker.c:47-73 | The orders of consumption that complete runs can produce are exactly the permutations that contain no a, b, c with b < c < a and where no item passes max_buf_size or more smaller ones. |
| `MasterWorkerProgress.NoItemMuchTooEarly` | basic_requirements/master_worker_pool/master-worker.c:47-73 | In every run no item is consumed more than max_buf_size - 1 positions early. |
| `MasterWorkerProgress.DecreasingRunsAreShort` | basic_requirements/master_worker_pool/master-worker.c:47-73 | A decreasing subsequence of the consumed items is at most max_buf_size long. |
| `MasterWorkerPool.Pool.GenerateRequest` | basic_requirements/master_worker_pool/master-worker.c:36-53 | The array code of the producer section does the model step. |
| `MasterWorkerPool.Pool.ConsumeRequest` | basic_requirements/master_worker_pool/master-worker.c:61-78 | The array code of the consumer section does the model step. |
| `MasterWorkerPool.Run` | basic_requirements/master_worker_pool/master-worker.c:86-155 | main terminates under any scheduler, and what was consumed is a permutation of the items in stack order. |
| `ThreadPool.StepKeepsWakeups` | backend/include/concurrency/ThreadPool.hpp:129-169 | While a worker sleeps un-notified, woken workers plus pushed-but-not-notified enqueues cover the queue, although notify_one comes after the lock and wakeups may be spurious. |
| `ThreadPool.StepKeepsTasks` | backend/include/concurrency/ThreadPool.hpp:158-184 | Each task is finished or in the hands of exactly one worker as often as it was taken. |
| `ThreadPool.RunKeepsInv` | backend/include/concurrency/ThreadPool.hpp:87-184 | All invariants over every run; after the stop flag nothing is accepted any more. |
| `ThreadPool.TakenInAcceptedOrder` | backend/include/concurrency/ThreadPool.hpp:173-179 | The tasks dequeued are always a prefix of the tasks accepted. |
| `ThreadPool.WorkIsBounded` | backend/include/concurrency/ThreadPool.hpp:87-184 | Every schedule: the steps the pool takes are paid for by the calls made on it. |
| `ThreadPool.PoolComesToRest` | backend/include/concurrency/ThreadPool.hpp:87-184 | The number of internal steps of any run has an explicit bound. |
| `ThreadPool.AtRestMeans` | backend/include/concurrency/ThreadPool.hpp:163-179 | A pool with no step of its own left has an empty queue and no notification outstanding. |
| `ThreadPool.RestMeansAllDone` | backend/include/concurrency/ThreadPool.hpp:119-184 | At rest every accepted task has run exactly once. |
| `ThreadPool.DestructorReturns` | backend/include/concurrency/ThreadPool.hpp:87-100 | Once stopped, rest means that every join has returned and every worker has left. |
| `ThreadPool.JoinedMeansAllRun` | backend/include/concurrency/ThreadPool.hpp:87-100 | In every run, whenever all workers have been joined, every accepted task has been taken in order and has run exactly once. |
| `ThreadPool.NobodySleepsAfterNotifyAll` | backend/include/concurrency/ThreadPool.hpp:92-93 | After notify_all in the destructor no worker sleeps again. |
| `ThreadPool.QueuedTasksMeanBusyWorkers` | backend/include/concurrency/ThreadPool.hpp:129-169 | Tasks that wait while no wakeup is under way wait only for workers that are all running tasks. |
| `ThreadPool.AcceptedExactly` | backend/include/concurrency/ThreadPool.hpp:129-135 | Over any run the accepted tasks are those of the enqueue calls made before the stop flag, in the order of the calls. |
| `ThreadPool.CallBeforeFlagIsAccepted` | backend/include/concurrency/ThreadPool.hpp:129-135 | Every enqueue made before the flag has its argument accepted, wherever in the run the call was. |
| `ThreadPool.BegunInCallOrder` | backend/include/concurrency/ThreadPool.hpp:163-179 | At every moment of every run the tasks begun are a prefix of the tasks enqueued. |
| `ThreadPool.EveryCallRunsOnce` | backend/include/concurrency/ThreadPool.hpp:87-100 | At rest, and when all workers are joined, what has run is exactly what was given to the enqueue calls made before the flag, once a call. |
| `ThreadPoolClass.Pool.EnqueueLocked` | backend/include/concurrency/ThreadPool.hpp:129-135 | On a running pool appends the task to the queue, owes one notification and succeeds; on a stopped pool refuses and changes nothing. |
| `ThreadPoolClass.Pool.WorkerSection` | backend/include/concurrency/ThreadPool.hpp:161-180 | The locked part of the worker loop does the model step. |
| `ThreadPoolClass.Pool.Destroy` | backend/include/concurrency/ThreadPool.hpp:87-100 | The destructor terminates under any scheduling of the workers, with every accepted task run once. |
| `BoundedBuffer.StepKeepsConsumerWakeups` | systems/producer_consumer/ProducerConsumer.cpp:33-63 | While a consumer sleeps un-notified, woken consumers are at least the buffered items, with notify_one. |
| `BoundedBuffer.StepKeepsProducerWakeups` | systems/producer_consumer/ProducerConsumer.cpp:33-63 | While a producer sleeps un-notified, woken producers are at least the free slots. |
| `BoundedBuffer.StepKeepsTickets` | systems/producer_consumer/ProducerConsumer.cpp:101-111 | Each ticket drawn is with one producer or was pushed once, each producer pushes its own in order, and an item passes only items held by other producers. |
| `BoundedBuffer.RunKeepsInv` | systems/producer_consumer/ProducerConsumer.cpp:33-132 | All invariants over every run, spurious wakeups included. |
| `BoundedBuffer.ConsumedInPushOrder` | systems/producer_consumer/ProducerConsumer.cpp:39-56 | What is consumed is always a prefix of what was pushed. |
| `BoundedBuffer.NoTicketMuchTooEarly` | systems/producer_consumer/ProducerConsumer.cpp:101-108 | With P producers no ticket is consumed more than P - 1 positions before its number. |
| `BoundedBuffer.ProducersItemsKeepOrder` | systems/producer_consumer/ProducerConsumer.cpp:101-108 | Two items of one producer are consumed in the order in which it drew them. |
| `BoundedBufferProgress.StepLowersMeasure` | systems/producer_consumer/ProducerConsumer.cpp:33-132 | Every step that is not a spurious wakeup lowers work, live threads and runnable threads lexicographically. |
| `BoundedBufferProgress.EveryScheduleEnds` | systems/producer_consumer/ProducerConsumer.cpp:101-132 | Every schedule without spurious wakeups is no longer than an explicit bound. |
| `BoundedBufferProgress.NeverStuck` | systems/producer_consumer/ProducerConsumer.cpp:33-69 | As long as the program has not ended some thread can take a step. |
| `BoundedBufferProgress.MaximalRunConsumesAll` | systems/producer_consumer/ProducerConsumer.cpp:125-132 | A run that cannot go on has consumed and counted every item exactly once. |
| `BoundedBufferClass.Buffer.Produce` | systems/producer_consumer/ProducerConsumer.cpp:33-45 | The code of produce does the model step, waking one sleeper of its choice. |
| `BoundedBufferClass.Buffer.Consume` | systems/producer_consumer/ProducerConsumer.cpp:47-63 | The code of consume does the model step. |
| `BoundedBufferClass.Run` | systems/producer_consumer/ProducerConsumer.cpp:80-138 | main terminates under any scheduler having consumed every item once. |
| `FileStore.UnlistRemovesOne` | academia/file_ops.c:492-499 | The shift removes exactly one entry and keeps the order of the rest. |
| `FileStore.SectionKeepsRecords` | academia/file_ops.c:346-546 | Every critical section keeps count <= seats, duplicate-free rosters and duplicate-free non-empty slots. |
| `FileStore.RunSections` | academia/file_ops.c:273-546 | The same in every interleaving of critical sections, with remove_course and unenroll_course split in their halves. |
| `FileStoreCalls.CallViews` | academia/file_ops.c:238-546 | How every call moves both views of every pair; only shrinking moves them differently. |
| `FileStoreCalls.CallKeepsAgreement` | academia/file_ops.c:346-546 | A whole call that does not shrink keeps the two files in agreement on the updated relation. |
| `FileStoreCalls.CallKeepsBacking` | academia/file_ops.c:238-344 | With shrinking allowed, rosters stay backed by students and no student lists a removed course. |
| `FileStoreCalls.UpdateAgreesIffStudentsFit` | academia/file_ops.c:238-271 | Changing the seats keeps agreement if and only if the course is unknown or its students still fit. |
| `FileStoreCalls.EnrollSucceedsExactly` | academia/file_ops.c:346-479 | On agreeing files: succeeds iff the student is active with an empty slot, the course has a free seat and the pair is not related; already-enrolled iff an active student lists the course (the roster check never decides); a refusal changes nothing. |
| `FileStoreCalls.EveryRunAgrees` | academia/file_ops.c:203-546 | Any run of whole calls from empty files keeps backing, and agreement when no call shrinks. |
| `FileStoreCalls.SplitRemovalAgreesExactly` | academia/file_ops.c:311-341 | Whatever non-shrinking whole calls run between the halves of remove_course, the files agree after the second if and only if the course, if offered again, has an empty roster when it starts. |
| `FileStoreCalls.SplitRemovalBreaksAgreement` | academia/file_ops.c:311-341 | An input that fails it: re-adding and joining the course in between leaves a roster entry that no student record backs. |
| `FileStoreCalls.SplitUnenrollAgreesExactly` | academia/file_ops.c:508-516 | Whatever non-shrinking whole calls run between the halves of unenroll_course, the files agree after the second if and only if the course does not list the student when it starts. |
| `FileStoreCalls.SplitUnenrollBreaksAgreement` | academia/file_ops.c:508-516 | An input that fails it: the same student unenrolls and enrolls again in between. |
| `FileStoreAnswers.UpdateStores` | academia/file_ops.c:248-262 | For an offered course: Ok, the new seats stored, the roster cut to its first min(count, seats) entries and the rest emptied, the id and every other record unchanged. |
| `FileStoreAnswers.UpdateAnswers` | academia/file_ops.c:247-270 | Ok if and only if the course is offered; otherwise NotFound and nothing changes. |
| `FileStoreAnswers.MoreSeatsMakeRoom` | academia/file_ops.c:250 | On agreeing files, an active student with an empty slot can join a course whose seats were raised above its count. |
| `FileStoreAnswers.SetActiveStores` | academia/file_ops.c:128-144 | Ok if and only if the student is known; the flag asked for is stored and nothing else changes. |
| `FileStoreAnswers.DeactivatedIsBlocked` | academia/file_ops.c:362-367 | After setting the flag of a known student, enrolling is answered Blocked if and only if the flag is off. |
| `FileStoreAnswers.AddStudentStores` | academia/file_ops.c:86-92 | One record is appended: the id, active, with every slot empty. |
| `FileStoreAnswers.AddCourseStores` | academia/file_ops.c:210-231 | Ok if and only if the id is free; the record appended has the seats asked for and an empty roster, and is found under its id. |
| `FileStoreAnswers.EnrollAnswers` | academia/file_ops.c:358-455 | On agreeing files, the exact state before the call for each of the answers NotFound, Blocked, AlreadyEnrolled, CourseNotFound and Full. |
| `FileStoreAnswers.EnrollWrites` | academia/file_ops.c:457-470 | A success puts the course in the first empty slot and the student at the end of the roster and changes nothing else; every other answer changes nothing. |
| `FileStoreAnswers.DropAnswers` | academia/file_ops.c:518-545 | The second half alone: NotFound, Ok and NotEnrolled by whether the record exists and lists the course. |
| `FileStoreAnswers.UnenrollAnswers` | academia/file_ops.c:481-546 | The whole call: NotFound iff the student is unknown, Ok iff the record listed the course before the call, NotEnrolled iff the student is known and it did not. |
| `FileStoreAnswers.UnenrollWrites` | academia/file_ops.c:481-546 | A success empties the slot of the course, the roster loses the student and keeps its order, and nothing else changes. |
| `FileStoreAnswers.RemoveWrites` | academia/file_ops.c:273-344 | Ok iff the course was offered; its record goes, the others keep their order, and every slot that held it is empty, also when it was not offered. |
| `FileStoreAnswers.SameCalls` | academia/file_ops.c:273-546 | The two calls stated here are those of the runs. |
| `FileStoreClass.Store.UpdateCourse` | academia/file_ops.c:238-271 | The loop with memset cuts the roster as the model says; the new number of seats is stored in the record of an offered course, and an unknown one is answered NotFound with nothing changed. |
| `FileStoreClass.Store.RemoveRecord` | academia/file_ops.c:273-313 | The copying loop keeps exactly the other records in order. |
| `FileStoreClass.Store.ClearStudents` | academia/file_ops.c:315-341 | The nested loops clear the course from every student. |
| `FileStoreClass.Store.ScanSlots` | academia/file_ops.c:369-377 | The slot scan finds whether the course is listed and the first empty slot. |
| `FileStoreClass.Store.Enroll` | academia/file_ops.c:346-479 | All branches in source order do the model section. |
| `FileStoreClass.Store.ShiftUp` | academia/file_ops.c:494-496 | The in-place shift loop: entries after i move up one, the last stays. |
| `FileStoreClass.Store.DropFromCourse` | academia/file_ops.c:482-510 | The search and shift do the first half of unenroll_course. |
| `FileStoreClass.Store.DropFromStudent` | academia/file_ops.c:512-545 | The scan does the second half of unenroll_course and decides its result: NotFound for an unknown student, Ok if the record lists the course, NotEnrolled otherwise. |
| `FileStoreClass.Store.UnenrollCourse` | academia/file_ops.c:481-546 | The two critical sections one after the other do the whole call. |
| `FileStoreClass.Store.RemoveCourse` | academia/file_ops.c:273-344 | The same for remove_course. |

## Left out

- HTTP routes, JSON, logging, signal handling, the React front end, the legacy menu protocol, the TCP framing demo, the demo mutex program and the skeleton C file: plumbing, or weaker copies of what is modelled.
- SQLite itself: that BEGIN IMMEDIATE fails on a connection that is already in a transaction without touching it, that ROLLBACK restores the tables and succeeds, that a statement that fails leaves the transaction it is in open (SQLite itself rolls back on some errors, such as a full disk or no memory, after which later statements would stand and the COMMIT would throw), and that UNIQUE, CHECK, REFERENCES and the cascades are enforced, are assumptions. Timestamps, sort orders and busy timeouts are not modelled.
- Statements of other services on the shared connection in the middle of a transaction, which would disturb `changes()` and `last_insert_id()`: excluded. `update_course` takes neither mutex nor transaction and appears only as a whole call.
- RegistrationMachine.RunKeepsInv: statements that fail without throwing are not steps of this machine; `SilentFailureRuns` has the runs with them.
- RegistrationRefinement.NeverOverbooked: the same; with silent failures the exact statement is `CapacityHoldsExactly`.
- RegistrationHandOut.ExactHandOut: the races are for one course without failing statements; with several courses `DifferentCoursesCollide` shows that no such statement holds.
- MasterWorkerProgress.EveryScheduleEnds: schedules with spurious wakeups are covered by the invariants but can be arbitrarily long. The same holds for BoundedBufferProgress; in the thread pool each spurious wakeup pays for itself. Capacities and numbers of threads are at least 1, as the programs need to make progress.
- BoundedBuffer.RunKeepsInv: the ticket counter is unbounded; an `int` that wraps around after 2^31 draws is not modelled.
- ThreadPool.RestMeansAllDone: tasks are opaque and terminate; futures, their values and exceptions are left out.
- Sha256.Sha256: words are numbers below 2^32, and the bitwise operators and shifts are defined on their bits (`Bits`); the four shifted bytes of a word are added instead of or-ed, which is the same because they do not overlap; the 64-bit length is taken modulo 2^64 as in the source, so the results on padding need messages under 2^61 bytes.
- AuthService.Service.Login: the random token is a parameter; session expiry, logout and logging are left out.
- FileStore.SectionKeepsRecords: seats are between 0 and 100, since more would write outside the record and negative ones before it; a file is opened inside its critical section, where the source opens some before `sem_wait` and a rename in between would leave it on the old file; `strncpy` truncation, `flock` and the text views are left out. Ids are non-empty where a lemma says so.
- Catalogue.CountsAgreeAfterAnyRun: new users get a fresh id, the check for a taken username and password changes are left out.
- RegistrationClass.Database.FindByCourse: the order of the rows is left open, and the reads of rosters and statistics do not fail.
