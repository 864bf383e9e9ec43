# A verified model of the concurro kernel

concurro is a C++ library in which objects have states, states belong to axes, and threads move
objects from state to state with compare-and-exchange. This project models four parts of it in
Dafny and proves what they are for:

- **the calendar** (`Civil.dfy`, `UtcTime.dfy`): `days_from_civil`, `civil_from_days`,
  `weekday_from_days` and `make_utc_tm`, proved to be the Gregorian calendar. The reference is a
  calendar defined by counting: year lengths, month lengths and "the next day";
- **state maps and atomic moves** (`StateMaps.dfy`, `Repository.dfy`, `AtomicMoves.dfy`,
  `Events.dfy`, `EventRaces.dfy`): how a map extends a parent, how transition ids are numbered across all maps, what
  `is_compatible` really accepts, what any number of threads can do to one state word, how events
  mirror it, alone and while several threads move, and where the splitter keeps them;
- **the existence protocol** (`Existence.dfy`, `ExistenceProgress.dfy`, `ExistenceCalls.dfy`,
  `ClassAxes.dfy`, `ClassRuns.dfy`): constructors and destructors that use the class state as a
  lock around `obj_count`, the singleton variant, the proof that no interleaving is a deadlock, and the
  proof that this protocol is a run of the kernel's atomic moves on the maps that its axis
  declarations build;
- **packet reassembly** (`Buffer.dfy`, `Window.dfy`): blocks with a reserved bottom part, and the
  window that puts packets together without moving the data that came last.

`AxisTables.dfy` shows that the transition tables written as predicates are those of the maps the
declarations build. `Findings.dfy` holds inputs at which the code surprises, as told below.

Code that updates objects in place is a class here, with methods that follow the C++ statement by
statement; tables filled by loops are filled by loops. Pure expressions are functions. Concurrent
code is a state machine whose step is one access to shared memory, and its results hold for every
sequence of steps.

C++ types that matter are explicit: truncating division, wrapping `unsigned`, the 32-bit instance
of the calendar as newtypes (Dafny checks that nothing overflows), the 16-bit transition counter,
and the bit layout of state words and event ids. Exceptions are result values.

## Where the code does not do what one would expect

- `is_compatible` also accepts states of unrelated maps. `IsCompatibleExactly` says what it
  computes, for all inputs; `UnrelatedStatesAccepted` says exactly when a state of a map that is
  neither an ancestor nor a descendant passes; `UnrelatedStateIsAccepted` reaches such a state
  with two axis initializations.
- The map form of `compare_and_move` looks its argument up by index but then asserts that whole
  words are equal. `MapFormAssertion` shows for every run that this fails exactly when the object
  is in a state of the table, but the call that wrote its word went through another axis of the
  chain; `MapFormFails` is a run of two threads in which it does.
- A splitter leaves the arrival of some moves that the split axis does not know to its delegate:
  those of maps between the two. `OwnMovesAreHeard` says exactly which, `ArrivalIsNotHeard` is one.
- `make_utc_tm` computes `days_from_civil(year, 1, 1)`, which leaves the 32-bit range although the
  day itself is in the documented one. `YearStartFits` shows that this happens exactly for the
  first 192 days of the range, those before -5877640-01-01.
- Two threads that have moved an object update its events in any order, so at rest an event may
  tell of the earlier move. `RestMirrorsExactly` says exactly when the events mirror the state,
  `MovesInTurnMirror` that they do if each move waits for the updates of the moves before it;
  `ArrivalIsLost` is a run in which the arrival at the state of the object is not signalled.
- `start_charging` sets the size to zero before it looks at the state, and `reserve` and
  `cancel_charging` keep a block whose size may not match the limits. `ChargedHoldsData` shows for
  every sequence of operations that a charged buffer holds its data as long as no `reserve` meets a
  kept block that is too small, `RoomyExactly` that this condition is exact; `OutgrowBlock` is a
  charged buffer whose data are not inside its block.
- `RSingleBuffer::move` forgets a block that the destination still holds. `MoveForgets` says that
  it loses exactly that block, exactly then; `MovesConserve` says which blocks a sequence of moves
  loses; `ForgetBlock` is a destination that holds one, because its charging was cancelled.
- `forward_top` on a window that still holds a buffer, as `RWindow::move` leaves one, advances by up
  to the size of the whole buffer (C++/RWindow.hpp:94). `ForwardTop` says exactly when it then
  shows the next bytes of the packet, and when it stays inside the block; `AskTwice` is a filled
  window that shows more than the packet has.

## Model

| member | source | states |
|---|---|---|
| `CivilCalendar.DateRoundTrip` | C++/types/time.h:67-106 | for every valid Gregorian date, negative years included, `civil_from_days` of `days_from_civil` is that date |
| `CivilCalendar.DayRoundTrip` | C++/types/time.h:67-106 | for every day number, `civil_from_days` gives a valid date, and `days_from_civil` of it is the number again |
| `CivilCalendar.DaysFromCivilIsDayNumber` | C++/types/time.h:67-79 | the era formula counts days as the reference calendar does, which adds up lengths of years and months |
| `CivilCalendar.CivilSuccessor` | C++/types/time.h:90-106 | one day number later is the next calendar day: month ends, leap Februaries and year ends included |
| `CivilCalendar.WeekdayCycle` | C++/types/time.h:116-119 | the weekday is the mathematical remainder of z + 4 by 7 and goes round by one each day, also before 1970 |
| `CivilCalendar.YearOfEraFound` | C++/types/time.h:99-101 | the formula with the three corrections finds the year of the era for every day of the era |
| `CivilCalendar.EraRoundsDown` | C++/types/time.h:97 | the adjusted truncating division is division rounded down, for an era of any length |
| `UtcTime.CivilFromDays32` | C++/types/time.h:90-106 | with 32-bit `Int` and `unsigned` no intermediate value overflows over the documented range, and the result is the unbounded one |
| `UtcTime.DaysFromCivil32` | C++/types/time.h:67-79 | the same for the inverse, for all dates of the documented range |
| `UtcTime.WeekdayFromDays32` | C++/types/time.h:116-119 | the same for the weekday, up to the documented maximum - 4 |
| `UtcTime.RoundDownIsFloor` | C++/types/time.h:125-131 | truncation followed by the correction is the floor, for every instant and unit |
| `UtcTime.MakeUtcTm` | C++/types/time.h:142-177 | time is conserved: the fields are in range, and day number times 86400 plus the time of day is the floor of the instant in seconds, before and after 1970 |
| `UtcTime.CalendarPart` | C++/types/time.h:161-169 | date, weekday and day of the year are those of the day |
| `UtcTime.YearStartFits` | C++/types/time.h:169 | exactly when the day number of the first of January fits into 32 bits |
| `StateMaps.BitsAreFaithful` | C++/StateMap.h:105-113 | the mask-and-shift macros recover map id and index; words are equal exactly when both are |
| `StateMaps.BuildStateMap` | C++/StateMap.cpp:180-280 | the constructor's loops compute the specified map and counter, or fail and leave the counter alone |
| `StateMaps.FillNames` | C++/StateMap.cpp:226-233 | repetitions are found exactly; otherwise `name2idx` is the inverse of `idx2name` |
| `StateMaps.FillTransitions` | C++/StateMap.cpp:252-278 | the loop over the declared transitions computes the specified matrix, ids and arrivals |
| `StateMaps.AddTransitionsIntroduces` | C++/StateMap.cpp:252-279 | inherited cells stay; new ids are consecutive, each at one new pair; the arrivals are those of the new ids |
| `StateMaps.ExtendMeansDeclared` | C++/StateMap.cpp:215-279 | the map has the parent's names followed by its own, and exactly the parent's transitions and the declared ones between known names |
| `StateMaps.ExtendIsWellBuilt` | C++/StateMap.cpp:180-280 | the constructor establishes the invariant that all results on maps start from |
| `StateMaps.BuiltMap` | C++/StateMap.cpp:180-280 | a map whose fields are those the constructor would fill in is the one it builds, and is well built |
| `StateMaps.DescendantInherits` | C++/StateMap.cpp:215-279 | along any chain of maps: states keep index and name, transitions keep their id, and new transitions have ids above the ancestor's maximum |
| `StateMaps.AncestorsAreAChain` | C++/StateMap.cpp:353-359 | two ancestors of one map are related, the one with the smaller id being the ancestor |
| `StateMaps.InitAxisKeepsValid` | C++/RState.hpp:55-72 | creating an axis keeps the repository invariant, on success and on failure |
| `StateMaps.InitAxisMeans` | C++/RState.hpp:55-72 | in every case: an axis that has a map keeps it and nothing changes; otherwise it is registered, and an unknown parent or a repeated name makes the call fail with its exception and adds no map |
| `StateMaps.NewAxisIsDeclared` | C++/StateMap.cpp:180-280 | a new axis ends up with a map of the declared parent, which has the parent's states followed by the declared ones and exactly the parent's transitions and the declared ones between known names; all other maps stay |
| `StateMaps.InitOnce` | C++/RState.hpp:55-72 | in every run, initializing an axis again gives the same id and map and changes nothing |
| `StateMaps.TransitionByName` | C++/StateMap.cpp:307-312 | by name: an axis has a transition exactly when it declares one or its parent has one, then under the parent's id; an unknown name is an error |
| `StateMaps.RunIsValid` | C++/RState.hpp:55-72 | every repository reached by any sequence of axis initializations is valid |
| `StateMaps.MapsNeverChange` | C++/RState.hpp:55-72 | a map once created stays the same for the rest of the run |
| `StateMaps.IdHasIntroducer` | C++/StateMap.cpp:263-268 | every transition id in a map was introduced, at the same pair, by that map or an ancestor |
| `StateMaps.TransitionIdsAreGlobal` | C++/StateMap.cpp:263-279 | a transition id stands at the pair it was introduced for, in that map and its descendants, and nowhere else in the repository |
| `StateMaps.IdsAreDense` | C++/StateMap.cpp:263-279 | at every moment of every run the ids in use are exactly 1 to the counter, each introduced by exactly one map |
| `StateMaps.WalkFindsAncestors` | C++/StateMap.cpp:353-359 | the walk that compares numbers finds exactly the map itself and its ancestors |
| `StateMaps.IsCompatibleExactly` | C++/StateMap.cpp:361-378 | with the nearest ancestor-or-self whose id does not exceed that of the state's map: true if it is that map, otherwise whether that map descends from it and the index is in range |
| `StateMaps.NearestExists` | C++/StateMap.cpp:361-378 | that nearest ancestor exists for every map and state, so the characterization is complete |
| `StateMaps.RelatedStatesAreCompatible` | C++/StateMap.cpp:361-378 | states of the same map, of an ancestor, and in-range states of a descendant are always accepted |
| `StateMaps.UnrelatedStatesAccepted` | C++/StateMap.cpp:361-378 | exactly which states of unrelated maps are accepted as well |
| `Findings.UnrelatedStateIsAccepted` | C++/StateMap.cpp:361-378 | two initializations of top-level axes after which the second map accepts the state of the first and gives it a wrong name |
| `StateMaps.StateRoundTrip` | C++/StateMap.cpp:282-293 | a state leads to its name and the name back to the state |
| `StateMaps.NameRoundTrip` | C++/StateMap.cpp:386-393 | a name leads to its state and back |
| `StateMaps.RelatedStateName` | C++/StateMap.cpp:386-393 | of a state of an ancestor or a descendant a map tells the name the state has there, or that the index is out of its range |
| `StateMaps.KnownNames` | C++/StateMap.cpp:282-293 | `create_state` accepts exactly the names of the map and returns the state that has the name |
| `StateMaps.RebindKeepsName` | C++/RState.hpp:512-531 | a state converted to a derived axis keeps its name |
| `StateMaps.RebindKeepsTransitions` | C++/RState.hpp:512-531 | a state converted to a derived axis keeps its transitions to the states of the old axis, under the same ids |
| `MapRepository.StateMapRepository.constructor` | C++/StateMapRepository.h:99-102 | the new repository is empty and valid |
| `MapRepository.StateMapRepository.GetMapId` | C++/StateMap.cpp:460-475 | a known axis keeps its id and nothing changes, a new one gets the next id and is registered under it, the abstract axis has id 0; the repository stays valid |
| `MapRepository.StateMapRepository.InitAxis` | C++/RState.hpp:55-72 | the axis's map is found, or created as declared: the parent by its id, its names followed by the declared ones, its transitions and the declared ones; the repository stays valid |
| `MapRepository.StateMapRepository.CreateObject` | C++/Repository.hpp:72-106 | in a valid repository: exactly the map of the declaration is added, under the given id; the map is built first, so an unknown parent or a repeated name changes nothing |
| `AtomicMoves.RunKeepsInv` | C++/RState.hpp:100-367 | in every interleaving of all forms of move on one chain of axes, the history of the word is a path of the deepest map; each change belongs to one call that had loaded an equal word, and carries the map id of that call's axis |
| `AtomicMoves.ExchangeIsEdge` | C++/RState.hpp:114-120 | what a call checked in its own axis's map is a transition of the deepest map too |
| `AtomicMoves.HistoryGrows` | C++/RState.hpp:100-367 | the history is only added to |
| `AtomicMoves.OnlyMovedCallsWrite` | C++/RState.hpp:100-367 | in every run a call that has moved wrote the word in exactly one step; one that returned false or threw, or is not done, wrote it in none |
| `AtomicMoves.RivalsExclude` | C++/RState.hpp:155-204 | in every run, of two calls that loaded the same occurrence of a word at most one moves it, unless the first went round a self-loop or the word left that value and came back |
| `AtomicMoves.DecidesExactly` | C++/RState.hpp:114-120 | for every form of move and every state it is to leave: the exchange is tried exactly when the deepest map has the transition under an id that the call's own axis already had; otherwise the exception tells an unknown state from a missing transition |
| `AtomicMoves.RetryMeansProgress` | C++/RState.hpp:179-180 | in every run an exchange fails only when another call has replaced the word since it was loaded: the moves are lock-free; what becomes of the call then is told by `ExchangeMeans` |
| `AtomicMoves.ExchangeMeans` | C++/RState.hpp:179-180 | in every run an exchange writes exactly when the word is the one loaded, and ends the call as moved; otherwise the one-state form returns false, and every other form loads again |
| `AtomicMoves.MoveToLoads` | C++/RState.hpp:114-120 | in every run a load of `move_to` goes on to the exchange exactly if its axis has the transition from the word, and throws otherwise |
| `AtomicMoves.CompareLoads` | C++/RState.hpp:155-180 | the same for the one-state form, which returns false in every state but the one to leave |
| `AtomicMoves.CompareSetLoads` | C++/RState.hpp:209-232 | the same for the form with a set, which returns false outside the set |
| `AtomicMoves.CompareMapLoads` | C++/RState.hpp:260-291 | the same for the form with a map: outside the keys false, from a key to its own value |
| `AtomicMoves.NegCompareLoads` | C++/RState.hpp:319-343 | the same for the negated form, which returns false in the one state it is not to leave and nowhere else |
| `AtomicMoves.FalseHasAReason` | C++/RState.hpp:155-367 | in every run a call that returned false had loaded a state it is not to leave, or was of the one-state form and lost its exchange |
| `AtomicMoves.MoveToMovesOrThrows` | C++/RState.hpp:100-120 | in every run a `move_to` that has ended moved the object or threw |
| `AtomicMoves.UndisturbedCallEnds` | C++/RState.hpp:100-367 | in every run a call whose exchange follows its load directly ends with it and has moved the object |
| `AtomicMoves.CallEndsAlone` | C++/RState.hpp:100-367 | no call is stuck: from wherever a run has left a call, of any form, three more steps of its own at most end it |
| `AtomicMoves.MapFormAssertion` | C++/RState.hpp:279-284 | in every run a load of the map form ends in a failed assertion exactly when the object is in a state of the table and the axis through which the word was last written is not the call's |
| `Findings.MapFormFails` | C++/RState.hpp:279-284 | a run of two threads on a chain of two well-built axes in which that assertion fails, although the transition exists |
| `Events.LocalIdIsLowerHalf` | C++/StateMap.h:118-172 | the key of an event is the lower half of its bits, and bit 15 tells arrivals from transitions |
| `Events.KeysNeverCollide` | C++/StateMap.h:118-172 | two events share a key exactly when they are the same transition or arrivals at the same index |
| `Events.RObjectWithEvents.CreateEvent` | C++/RObjectWithStates.hpp:123-153 | an event is registered once; a new arrival event is signalled exactly when its state is the current one, a new transition event is not |
| `Events.RObjectWithEvents.UpdateEvents` | C++/RObjectWithStates.hpp:158-186 | afterwards exactly the events of the transition and of the new state are signalled |
| `Events.RObjectWithEvents.MoveTo` | C++/RState.hpp:103-150 | if the axis has the transition the object moves, and that transition and the arrival are told to the events stored; otherwise the exception tells an unknown state from a missing transition, and nothing changes |
| `Events.RObjectWithEvents.CompareAndMove` | C++/RState.hpp:155-204 | the same from the one state; false, and nothing changes, in any other |
| `Events.RObjectWithEvents.CompareAndMoveSet` | C++/RState.hpp:209-255 | the same from the states of the set; false in any other |
| `Events.RObjectWithEvents.CompareAndMoveMap` | C++/RState.hpp:260-314 | the same from each key to its own value; false in any other state; a word written through another axis fails the assertion and changes nothing |
| `Events.RObjectWithEvents.NegCompareAndMove` | C++/RState.hpp:319-367 | the same from every state but the one not to leave; false in that one |
| `Events.RunSequence` | C++/RObjectWithStates.hpp:123-186 | after any sequence of `create_event` calls and moves of all five forms the object is where the operations lead, and each stored event is signalled exactly if the trace of the operations says so: an arrival event if its state is the current one, a transition event if it was the last transition taken and the event was there in time |
| `Events.LastMoveCounts` | C++/RObjectWithStates.hpp:158-186 | the state and the last transition of that trace are those of the last operation that moves the object, and the events in time are those stored before it |
| `Events.NoMoveNoChange` | C++/RObjectWithStates.hpp:158-186 | without a move the trace only gains stored events |
| `Events.StoredAreCreated` | C++/RObjectWithStates.hpp:139-151 | the stored events are those there were and those created |
| `Events.TransitionSignalled` | C++/RObjectWithStates.hpp:123-186 | for an object that began without events: a transition event is signalled exactly when the last move took that transition and the event had been created before it |
| `EventRaces.WholeProgram` | C++/RObjectWithStates.hpp:170-185 | a whole update leaves exactly the events of its own transition and arrival signalled |
| `EventRaces.RaceKeepsInv` | C++/RState.hpp:114-146 | in every interleaving of moves and of the single steps of their updates, each event is as the thread that touched it last has left it, and each mover updates for its own move |
| `EventRaces.LastIsLatest` | C++/RObjectWithStates.hpp:170-185 | the thread recorded for an event is that of the latest step on it |
| `EventRaces.RestMirrorsExactly` | C++/RState.hpp:114-146 | when all calls and updates are done, the events mirror the state if and only if, for each of them, the mover that touched it last and the mover that moved last would leave it the same |
| `EventRaces.MovesInTurnMirror` | C++/RState.hpp:114-146 | they do whenever each move waits for the updates of the moves before it |
| `Findings.ArrivalIsLost` | C++/RState.hpp:114-146 | a run of two movers that ends with the arrival at the state of the object not signalled |
| `Events.RoutingIsExact` | C++/RObjectWithStates.hpp:246-257 | `is_this_event_store` holds exactly when the split map lacks the state or the transition, although only numbers are compared |
| `Events.ArrivalStores` | C++/RObjectWithStates.hpp:207-229 | in which stores an arrival event is kept, in terms of names and introduced transitions |
| `Events.TransitionStores` | C++/RObjectWithStates.hpp:207-229 | for any chain between the two axes: a transition event is kept by the delegate alone if the split map has the transition, and by the splitter alone otherwise |
| `Events.OwnMovesAreHeard` | C++/RObjectWithStates.hpp:207-229 | for any chain between the two axes: the splitter's own store hears the transition of every move the split axis does not know, and its arrival exactly if the state is new or the derived map itself introduces a transition to it |
| `Findings.ArrivalIsNotHeard` | C++/RObjectWithStates.hpp:207-229 | a chain of three maps and a move whose arrival only the delegate hears of |
| `Existence.EveryRunKeepsInv` | C++/Existent.hpp:132-204 | the inductive invariant, for every interleaving of any number of constructors and destructors, with and without the hook; that they also get through is `ExistenceProgress` |
| `Existence.MutualExclusion` | C++/Existent.hpp:132-204 | at most one task is between its winning exchange and its final move, exactly while the class is in a pre-state |
| `Existence.StableStatesCount` | C++/Existent.hpp:132-204 | outside the pre-states the class state says whether `obj_count` is 0, 1 or more |
| `Existence.NothingFails` | C++/Existent.hpp:152-203 | the final move is always a transition, the assertions on `obj_count` hold, and the hook's program-error branch is never taken |
| `Existence.EveryAssertionHolds` | C++/Existent.hpp:152-203 | at each place of the code that asserts or checks something, in every interleaving, what it asserts holds: the counter against `a` and `b`, the transitions of the final moves and of the hook, the count of one in SSingleton |
| `Existence.OwnerIsUndisturbed` | C++/Existent.hpp:132-204 | while a task owns the class state no other task's step changes the word or the counter |
| `Existence.OwnerLeavesInTime` | C++/Existent.hpp:152-203 | the owner leaves after at most four steps of its own, whatever the others do |
| `Existence.EveryChangeIsAnEdge` | C++/Existent.cpp:38-70 | every change of the class state in every run is a transition of its axis |
| `Existence.QuiescentCount` | C++/Existent.hpp:152-194 | when no constructor or destructor is running, `obj_count` is the number of live objects |
| `Existence.NeverSeveral` | C++/SSingleton.hpp:68-102 | with the hook, no interleaving reaches two objects or a state that stands for several |
| `Existence.InstanceIsTheObject` | C++/SSingleton.hpp:132-153 | `_instance` points to a task's object exactly while that object is completely constructed and not destroyed |
| `Existence.LoserPutsBack` | C++/SSingleton.hpp:87-98 | a constructor that comes too late throws, leaves the count alone and puts the class back to exist_one, whatever ran in between |
| `ExistenceProgress.ConstructorFinishes` | C++/Existent.hpp:132-172 | from wherever any interleaving has left a constructor, lost exchanges and stale words included: if no other task has the class state, at most ten steps of its own make the object live and counted, or let it throw exactly if the hook is installed and there is an object already; nobody else is changed |
| `ExistenceProgress.DestructorFinishes` | C++/Existent.hpp:175-204 | the same for a live object: at most ten steps of its own and it is destroyed and not counted any more |
| `ExistenceProgress.NewObject` | C++/Existent.hpp:132-172 | whenever nobody has the class state, a new constructor gets through in at most ten steps, or throws if it would be the second with the hook |
| `ExistenceProgress.ClassCanBeEmptied` | C++/Existent.hpp:132-204 | no interleaving leads to a deadlock: from every reachable state all tasks there are can finish, and then the counter is 0 and the class in not_exist |
| `ClassAxes.AxesHaveTables` | C++/Existent.cpp:38-70 | the tables of the protocol are exactly the transitions of the maps that the declarations of ExistenceAxis and SingletonAxis build |
| `ClassAxes.AxesAreBuilt` | C++/SSingleton.cpp:38-42 | such maps exist, wherever the counters of the repository stand |
| `ClassRuns.EveryRunIsAtomicMoves` | C++/Existent.hpp:132-204 | every run of the protocol, in both variants, is a run of the atomic moves on those two maps: each call of a task is one call of the kernel, retries included, and the kernel's history is the sequence of values the class state has had |
| `ClassRuns.TrailIsPath` | C++/Existent.hpp:132-204 | so that sequence is a path of the singleton map, by the kernel's own theorem |
| `ClassRuns.LoadStep` | C++/RState.hpp:155-255 | where a constructor or destructor loads the word, it decides as the kernel's call does |
| `ClassRuns.ExchangeStep` | C++/RState.hpp:179-180 | where it exchanges the word, it writes exactly when the word is the one it saw, and a call that retries is the same call again |
| `ExistenceCalls.ExistentClass.IncExistence` | C++/Existent.hpp:132-172 | the loop as written, for one thread: counts the object or throws; it ends where a run of the machine with this one task ends |
| `ExistenceCalls.ExistentClass.DecExistence` | C++/Existent.hpp:175-204 | the same for the destructor's half |
| `ExistenceCalls.SoloInc` | C++/Existent.hpp:132-172 | an undisturbed call ends in finitely many steps of the machine, in the state that the sequential contract names |
| `ExistenceCalls.SoloDec` | C++/Existent.hpp:175-204 | the same for `dec_existence` |
| `Buffer.RSingleBuffer.Unreserved` | C++/RBuffer.cpp:108-114 | the buffer without limits |
| `Buffer.RSingleBuffer.Reserved` | C++/RBuffer.cpp:116-121 | the buffer with limits but no block |
| `Buffer.RSingleBuffer.FromLiteral` | C++/RBuffer.h:168-178 | the buffer that shows a literal |
| `Buffer.RSingleBuffer.Move` | C++/RBuffer.cpp:140-171 | either both buffers are as before, or the destination is charged with the source's bytes, block and limits and the source is discharged without a block |
| `Buffer.RunMoves` | C++/RBuffer.cpp:140-171 | over any sequence of moves, failing ones and moves to itself included, all fields end as specified, no block is held by two buffers, and the blocks held are those held before but for the forgotten ones |
| `Buffer.MoveForgets` | C++/RBuffer.cpp:152-159 | a move forgets a block exactly when it succeeds and the destination held one, and then that one and no other |
| `Buffer.MovesConserve` | C++/RBuffer.cpp:140-171 | which blocks any sequence of moves forgets; all others stay in one buffer each |
| `Buffer.ForgetBlock` | C++/RBuffer.cpp:233-239 | after start_charging and cancel_charging a buffer holds a block that a move into it loses |
| `AxisTables.BufferTable` | C++/RBuffer.cpp:38-79 | the table of buffer states is the map that the declaration builds |
| `AxisTables.BufferMapIsBuilt` | C++/RBuffer.cpp:38-79 | such a map exists, wherever the counters of the repository stand |
| `Buffer.RSingleBuffer.Reserve` | C++/RBuffer.cpp:173-180 | the limits change but the block stays: exactly when it still matches them |
| `Buffer.RSingleBuffer.StartCharging` | C++/RBuffer.cpp:216-231 | the size is zero and there is a block, also when the call fails |
| `Buffer.RSingleBuffer.CancelCharging` | C++/RBuffer.cpp:233-239 | the block is kept |
| `Buffer.RSingleBuffer.Resize` | C++/RBuffer.cpp:194-214 | exactly which error each bad call gets, that it changes nothing, and what a good one does |
| `Buffer.MemCpy` | C++/RBuffer.cpp:247 | the target range gets the source's bytes, the rest stays |
| `Buffer.RSingleBuffer.ExtendBottom` | C++/RBuffer.cpp:241-250 | which calls throw, exactly when the copy leaves a block, and otherwise: the copied bytes and the data stand together, data and everything below the copy are untouched |
| `Buffer.ChargedHoldsData` | C++/RBuffer.cpp:140-250 | over every sequence of reserve, start_charging, cancel_charging, resize, extend_bottom and move: as long as no reserve meets a kept block smaller than the new limits, every charged buffer holds its data |
| `Buffer.RoomyExactly` | C++/RBuffer.cpp:194-231 | a discharged buffer holds whatever its limits let it be charged with if and only if its block is not smaller than the limits |
| `Buffer.RunOps` | C++/RBuffer.cpp:140-250 | the buffers themselves go through any such sequence as specified, so their charged ones hold their data |
| `Buffer.OutgrowBlock` | C++/RBuffer.cpp:173-239 | a charged buffer that does not hold its data, after a cancelled charging and a larger reserve |
| `Window.RConnectedWindow.constructor` | C++/RWindow.cpp:74-78 | the new window is ready and has no buffer |
| `Window.RConnectedWindow.Detach` | C++/RWindow.cpp:143-154 | a filled window gives up its buffer, any other is left alone |
| `Window.RConnectedWindow.Move` | C++/RWindow.cpp:201-214 | the window takes over what the other shows; that one becomes ready and keeps its buffer and its place in it; which calls throw |
| `Window.RConnectedWindow.ForwardTop` | C++/RWindow.hpp:71-83 | a window with no buffer waits for one; a window that holds one shows the next bytes of the packet if and only if what it advances by is not more than is left of it, and stays inside the block exactly when there is room |
| `Window.RConnectedWindow.MoveForward` | C++/RWindow.hpp:86-117 | `top` and the choice between filled and wait_for_buffer |
| `Window.RConnectedWindow.NewBuffer` | C++/RWindow.hpp:120-144 | which calls throw or copy outside a block; otherwise where the window stands and when it is in bounds; with data inside the block, the view is the old view followed by the packet, cut to the size asked for, the rest of the packet follows it, and it is filled exactly when there is enough |
| `Window.RConnectedWindow.ExtendBelow` | C++/RWindow.hpp:132-136 | what the window shows, if anything, stands below the new data |
| `Window.RConnectedWindow.CopyBelow` | C++/RWindow.hpp:132-136 | what the window shows is put directly below the new data, inside the block |
| `Window.RConnectedWindow.Attach` | C++/RWindow.hpp:138-143 | with the negative offset the window shows the first of the bytes that stand together, and the rest follows |
| `Window.ShowFirst` | C++/RWindow.hpp:71-144 | a new window shows the first bytes of its first packet and keeps the rest |
| `Window.GiveAndAsk` | C++/RWindow.cpp:201-214 | after giving away what it showed, a window asked for more shows the next bytes exactly if the packet has them |
| `Window.AskTwice` | C++/RWindow.hpp:93-100 | two requests for more than a packet has: the window is filled, but not with the next bytes of the packet |
| `Window.Reassemble` | C++/RWindow.hpp:71-144 | for any packets with room below their data, the window ends up showing the first n bytes of their concatenation, or all of it, filled exactly when there were enough |
| `AxisTables.WindowTable` | C++/RWindow.cpp:38-62 | the table of window states is the map of ConnectedWindowAxis, which extends that of WindowAxis |
| `AxisTables.WindowMapIsBuilt` | C++/RWindow.cpp:38-53 | the map of WindowAxis exists, wherever the counters stand |
| `AxisTables.ConnectedMapIsBuilt` | C++/RWindow.cpp:55-62 | and below it that of ConnectedWindowAxis |
| `Window.ConcatPrefix` | C++/RWindow.hpp:86-117 | what the packets taken so far make up is a prefix of the whole |
| `Window.Enough` | C++/RWindow.hpp:97-100 | once the window is filled, packets not taken make no difference to what it shows |

## Left out

- ForwardTop: its wait for the ready state is not modelled; the call is modelled from there on. So is the wait of `Move` for the other window to be filled.
- Reassemble: each packet is a charged buffer of its own that holds its data, as `RunOps` guarantees; a packet without enough room below it is `NewBuffer`'s error case.
- NewBuffer: a window and a new buffer do not share a block, which `unique_ptr` and the allocation of blocks see to. What happens after a copy outside a block is undefined in C++ and not modelled: the outcome is `OutsideBlock`.
- ExtendBottom: the same outcome, with the exact condition for it; and a copy within one block is not modelled.
- MakeUtcTm: requires a day from -5877640-01-01 on; `YearStartFits` proves that this is exactly where the code stays in range. Counts of ticks are unbounded integers, so an overflow of the duration's own type is not modelled, nor are floating-point durations. The instant's day is cut to `int` by the C++ type of `days`; the precondition keeps it in range.
- InitAxis: the counters stay below 0x8000 (`Admissible`); the constructor has a TODO instead of a check. The parent's map comes first, which `init_impl` ensures.
- GetMapId: fewer than 0x7fff axes, for the same reason.
- MoveTo: in `Events`, one thread at a time; `EventRaces` is about several. There the set of stored events is fixed, and each reset or signal of one event is a step. Subscribers told by `state_changed` are not part of this model.
- GetTransitionId: an index of 0, for which the C++ matrix has no row, is the failed assertion of the array library.
- ConstructorFinishes: the task's steps follow each other directly, and so in `DestructorFinishes`; fairness of the scheduler is not modelled.
- IncExistence: one thread. The interleaved results are those of `Existence`.
- Existence: the states moving_when_one and moving_when_several belong to move constructors that are disabled in the source; `StableStatesCount` shows they never occur.
- `SSingleton::instance` and its wait on `is_complete`, which is never reset, and `SAutoSingleton`.
- Windows that share or shift the view of others (C++/RWindow.cpp:80-122, 156-199), and the move constructor and assignment.
- Destructors of buffers and windows, which wait for states; memory that cannot be allocated.
- The wrap-around of `size_t`.
- `RState::operator!=` (C++/RState.h:94-95), which compares for equality; nothing modelled calls it.
- Axes as C++ types, their dispatch and casts: an axis is its map.
- Sockets, connections, threads, logging, the text of exceptions, and code under `#if 0`.
- `C++/types/safe.h` and `C++/Path.cpp`.
