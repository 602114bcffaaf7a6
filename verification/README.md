# Verified models of the strus bindings

This project models the stateful core of the strus bindings and of its web request handler, and proves what it
promises. Every operation that changes state is modelled twice: as a function on values, and as a method that works in
place with the loops of the program and is proved equal to that function. What the operation promises is then proved
about the function, over all inputs and over whole runs.

The parts:

- **Transaction pool** (`TransactionClock`, `TransactionPool`, `TransactionRoom`, `TransactionId`,
  `TransactionIdTexts`). A reference table indexed by transaction id and a circular slot array whose positions encode
  expiry times. Base positions are taken modulo N-1, probes modulo N; the clock hand is unrolled so that both meet.
  Proved: no placed transaction expires early and every one expires in time, over every run; the exact placement
  condition, and exactly how much room a pool needs for it; refinement to a map from ids to transactions; exclusive
  use of fetched transactions; masks as remainders, and lock striping.
- **Token codec** (`Serialization`, `SerializationCursor`, `BracketSkipping`, `RangeForms`, `Expression*`,
  `SerializedForms`, `FeatureForms`, `StructureNameMap`). A serialization is a list of open, close, name and value
  tokens, read with a cursor; past the end the tag reads as a close. Proved: what every expression and query feature
  is read as, in all forms in which it can be written; the round trip of term expressions, and the form in which they
  are serialized; the stack discipline of the recursive reader for all token lists, exactly when it does not come
  back, and what the query and posting builders receive.
- **Metadata restrictions** (`MetaData*`). Groups of conditions as postfix code, collected and printed as conjunctive
  normal form. Proved: exactly which forms and which operator words are accepted and as what, which restrictions
  survive, that they are read back with the same groups, which code is an error and which one, and exactly when the
  groups mean what the code means.
- **Documents and results** (`Document*`, `NamedMembers`, `MalformedMembers`, `QueryResults`, `NamedResults`,
  `UnknownResultNames`, `QueryResultReader`). Proved: the exact conditions of both round trips, and what is read of
  members, elements and sections with names in any order.
- **Configuration store** (`ConfigurationNames`, `ConfigurationStore`, `ConfigurationContexts`,
  `ConfigurationHandler`). A store directory and a directory of unfinished files as maps from names to contents, and
  the known context names. Proved: crash-safe recovery over every run, the exact conditions on file names, clock and
  counter that it needs, what dots in names do, invisible purging, exact deletion, exactly which names are known as
  those of stored configurations over every run, and exactly when a temporary name is found.
- **Event loop and delegate rounds** (`EventLoop`, `DelegateRounds`, `DelegateDelivery`, `ConfigurationLoad`). Proved:
  conservation of requests over all interleavings of senders and loop, exactly which answers they get and why, when
  the tickers are called, the exact set of delegate requests and what each of them asks for, the counter as barrier on
  top of the loop that answers them, and both together over whole loads whose answers change the context of later
  rounds.
- **Type patterns** (`TypePattern`, `TypePatternWords`). Proved: what a pattern is read as, which texts it matches and
  what a template prints; matching a pattern and printing it undo each other up to white space, exactly if no variable
  is repeated.

`dafny verify dfyconfig.toml` checks the whole project.

## What the proofs found

Where the code does not keep what it seems to promise, the model keeps the code, a lemma names an input, and the exact
condition is proved:

- The draw loop of the transaction pool tests its counter for zero although it ends at -1 when nothing was claimed: a
  claim with the last draw is reported as failure and leaks its cell, and without any claim the creation goes on with
  the cell of a live transaction (`BadDraws`, `CreateKeepsInvariant`). All other transactions survive a leak
  (`NoEarlyExpiry`).
- A fetch of an identifier whose cell is not claimed takes the mutex with index -1 (`FetchMutexInRange`).
- A pool as small as its configuration allows can clear a transaction before its idle time is over
  (`EarlyExpiryExample`); `PlacementIsExact` gives the condition on the slot, `RoomIsExact` the one on the
  configuration. With N-1 transactions per time unit in a pool of N slots, the hand stands still and nothing ever
  expires (`StandingHand`).
- The expression reader does not come back from a join whose option structure holds another member than "variable"
  (`LoopExample`, `LoopsExactly`, `StuckExactly`).
- An operator in its place without keyword and arguments is read as a term (`JoinWithoutArguments`). An argument that
  begins with the structure of its variable, and a list whose first expression begins with the name "variable", are
  refused (`ExpressionIsRead`).
- Attaching a variable makes the serialization of an expression fail (`SerializeSucceeds`), and an operator without
  operands is written but not read (`RoundTrip`).
- A single condition in front of a group with several conditions cannot be serialized (`CollectsExactly`). Code with
  an OR over an earlier result would be serialized with another meaning (`MeaningIsExact`, `ShapeIsExact`); no caller
  writes such code (`CodeMeaning`).
- A named structure in brackets and a union with a named condition list are refused as whole restrictions, because
  nothing reads their last bracket (`BracketedNameIsRejected`, `NamedUnionIsRejected`), and so is a list with such a
  union among its items (`UnionItemIsRejected`); a union with a plain list of conditions is read as a conjunction
  (`PlainUnionIsConjunction`), and a union of one condition with names is refused. `ListsAccepted` and `NamedAccepted`
  give the forms that are accepted.
- Query results without ranks or with an unsummarized rank, and documents with a term at position zero, are written
  but not read back (`ResultRoundTrip`, `DocumentRoundTrip`). A query result with a summary by name is marked outside
  of an array (`NamedResultRead`). Structures with named members are compared with the greatest position, structures
  given as tuples are not (`NamedStructureRead`).
- The time stamp that the file counter belongs to is never recorded, so that the counter is never reset. Where its
  printed form gets longer within a second, first at 1000, a store is lost (`CounterOverflow`), as it is after a
  restart within a second (`RestartedTooSoon`); `NextStampIsGreater`, `StoredAgain` and `StepIsExact` give the
  conditions. A crash within a deletion can bring an older version back (`DeletedComesBack`, `CutDeletionStep`).
- Unfinished files are written outside of the directory that is cleared (`ClearingDoesNothing`), and a replacement
  keeps the method of its predecessor (`ReplacementKeepsMethod`).
- A configuration with a dot in its name is loaded under what is in front of the dot (`LoadedName`), so that one of
  two such configurations is lost and purged (`TwoConfigurations`), and its files are removed when a configuration is
  deleted whose ending they have (`DottedNameIsHit`, `DeletionHits`).
- A commit that fails frees the name of a configuration even if a file of it is stored, so that it can be given away
  (`FailedCommitFreesName`). After a restart, loaded configurations do not count as stored before they are committed
  again (`RestartForgetsMarks`).
- A name with a number is cut to 63 characters. The search for a temporary name goes beyond the range of an int when
  all numbers that fit behind the prefix are used (`SearchEndsExactly`, `NoNumberLeft`). The only caller in the
  program passes the empty prefix (src/webrequest/webRequestContext.cpp:345), with which this takes as many names as
  there are positive ints (`EmptyPrefixHasNumber`).
- Requests that wait when the event loop ends are not answered before it ends (`EndOfLoop`); a loop that is started
  again takes them up (`RestartTakesUp`).
- An empty address list ends the delegate rounds (`IssuedExactly`). A delegate that fails ends the load while requests
  of its round may be outstanding, whose answers count down a counter that nobody waits for any more
  (`FailureLeavesOpen`, `OutstandingAtEnd`).
- A type pattern with a repeated variable prints another text than it matched (`DuplicateVariable`,
  `RoundTripIsExact`).

## Assumptions

- Pool: times and drawn numbers are not negative, and the operations do not interleave (what the mutexes and the tick
  flag are for). The random numbers are parameters. A request gives up its transaction when it returns it.
- Codec: conversions of values are parameters; round trips assume that they keep strings, 32 bit integers and, where
  stated, numbers. Documents and restrictions in forms hold strings and integers that fit, apart from
  `MalformedMembers`; the forms of expressions hold any values. Weights are exact reals. Names are looked up as in the
  name tables.
- Configuration store: `readDirFiles` gives the names with an ending in any order; except where the effect of dots is
  stated, the fields of a name hold no dots; times are the 15 characters of the format used. A rename to the directory
  itself fails. Each store or replacement is committed or cut before the next operation begins. The counter fits into
  an int.
- Event loop: receivers and allocations do not throw; every job has a handle of its own. The connection library is
  given by the handles it takes and the messages it brings.
- Delegate rounds: the context is what contents, addresses and schemas are evaluated in; what an answer or a delegate
  that is served here makes of it is a parameter of the step, as is whether the delegate fails.


## Model

| member | source | states |
|---|---|---|
| `TransactionId.RoundTrip` | src/webrequest/transaction.cpp:21-37 | every index 0 <= t < 2^63 is printed as 16 hexadecimal digits that parse back to it |
| `TransactionId.PrintIsInjective` | src/webrequest/transaction.cpp:21-27 | two different indices never share an identifier |
| `TransactionIdTexts.NumberRead` | src/webrequest/transaction.cpp:29-37 | a hexadecimal number of at most eight characters, with white space, a sign and a prefix in front of its digits, is read as its value, with a minus sign as the complement to 32 bits, and what follows is left |
| `TransactionIdTexts.NumberFound` | src/webrequest/transaction.cpp:29-37 | whatever is read as a number is such a text |
| `TransactionIdTexts.TextIsParsed` | src/webrequest/transaction.cpp:29-37 | two such numbers are the halves of the index that an identifier stands for, a signed number of 64 bits |
| `TransactionIdTexts.ParsedIsText` | src/webrequest/transaction.cpp:29-37 | an identifier is accepted only if it begins with two such numbers |
| `TransactionClock.ModIsRemainder` | src/webrequest/transaction.cpp:81-116 | the remainder that the model computes by subtraction is the mathematical one, for every index and modulus |
| `TransactionClock.PlacedIsNotSwept` | src/webrequest/transaction.cpp:81-116 | a slot less than one revolution ahead of the hand is passed by no tick between its placement and the end of its idle time, across all wraps of base modulo N-1 and slot modulo N |
| `TransactionClock.UnplacedIsSwept` | src/webrequest/transaction.cpp:81-116 | in every pool, any other slot is passed by a tick of one time unit before its idle time is over |
| `TransactionClock.PlacementIsExact` | src/webrequest/transaction.cpp:81-116 | in every pool, a slot is safe from all ticks of its idle time if and only if it meets the placement condition |
| `TransactionClock.PlacedByOffset` | src/webrequest/transaction.cpp:113-116 | idle time times the pace of the hand plus probe offset below N-1 implies the placement condition, whatever the time of placement |
| `TransactionClock.EarlyExpiryExample` | src/webrequest/transaction.cpp:44-68 | the pool of 64 slots with one transaction per time unit loses a transaction with idle time 64 at time 2 |
| `TransactionClock.StandingHand` | src/webrequest/transaction.cpp:81-111 | the clock hand stands still, and nothing ever expires, if and only if there are exactly N-1 transactions per time unit |
| `TransactionClock.MaskIsMod` | src/webrequest/transaction.cpp:148-149 | for a table whose size is a power of two, the mask with which the program computes a cell gives the mathematical remainder, also for the two marks of the reference table |
| `TransactionClock.StripingIsSound` | src/webrequest/transaction.cpp:148-149 | two probe positions whose masks reach the same slot take the same one of the 64 mutexes |
| `TransactionClock.MutexOfSlot` | src/webrequest/transaction.cpp:182-183 | the mutex of a position is the mutex of its masked slot |
| `TransactionPool.Configure` | src/webrequest/transaction.cpp:44-68 | accepted sizes give a power of two of at least 64 that covers idle time times k and is less than twice as much; zero stands for the defaults, sizes out of range are refused, and a product beyond an int is undefined |
| `TransactionPool.ProbesAreExhaustive` | src/webrequest/transaction.cpp:142-165 | the slot search passes occupied slots only and fails exactly if all its probes are occupied |
| `TransactionPool.CreateStores` | src/webrequest/transaction.cpp:118-169 | a harmless creation stores one transaction under an index that no live one shares, or leaves all transactions as they are, and the whole pool if a draw before the last succeeds |
| `TransactionPool.CreatedIdleTime` | src/webrequest/transaction.cpp:118-169 | a successful creation stores one transaction with the context it was given, and with the idle time asked for if that is positive and within the limit, else with the limit |
| `TransactionPool.CreateKeepsInvariant` | src/webrequest/transaction.cpp:126-141 | the invariant survives a creation if and only if one of the draws before the last hits a free cell; all transactions survive it if and only if any draw hits one or the cell of the last has no owner |
| `TransactionPool.LateClaimLeaksCell` | src/webrequest/transaction.cpp:126-141 | a claim with the last draw fails and leaves a claimed cell that nobody owns, but all slots as they were |
| `TransactionPool.NoClaimTakesForeignCell` | src/webrequest/transaction.cpp:126-141 | if no draw claims a cell, the creation goes on with the cell of the last one: if a live transaction owns it, as always while nothing has leaked, its lookup breaks |
| `TransactionPool.BadDraws` | src/webrequest/transaction.cpp:126-141 | both happen in a new pool of the default sizes after one creation, with draws that meet its cell again |
| `TransactionPool.FetchIsLookup` | src/webrequest/transaction.cpp:177-190 | a fetch returns a transaction if and only if it is stored under that index |
| `TransactionPool.FetchFinds` | src/webrequest/transaction.cpp:177-190 | a fetched transaction leaves the pool for its holder, all others stay; without result nothing changes |
| `TransactionPool.ReturnStores` | src/webrequest/transaction.cpp:192-210 | a returned transaction is stored again beside all others, or stays with its holder in an unchanged pool |
| `TransactionPool.DropFrees` | src/webrequest/transaction.hpp:32-35 | destroying a held transaction frees its reference cell and changes no slot |
| `TransactionPool.TickExpires` | src/webrequest/transaction.cpp:81-111 | a tick empties exactly the swept slots and keeps the invariant |
| `TransactionPool.SweepClears` | src/webrequest/transaction.cpp:92-110 | sweeping a range of the circle frees exactly the reference cells of the transactions in it |
| `TransactionPool.NoEarlyExpiry` | src/webrequest/transaction.cpp:81-111 | over every run of harmless creations, which may leak cells, fetches, returns, drops and ticks up to touched time plus idle time, a placed transaction that is not fetched stays in its slot and is found |
| `TransactionPool.RunKeepsInvariant` | src/webrequest/transaction.cpp:118-169 | nothing leaks in a run whose creations claim a cell before their last draw |
| `TransactionPool.SlotIsPlaced` | src/webrequest/transaction.cpp:142-165 | with room for nine more units of time, or a standing hand, the slot search always meets the placement condition |
| `TransactionPool.CreatedSurvives` | src/webrequest/transaction.cpp:118-169 | then a created transaction is found after every run within its idle time, which is the one asked for if that is positive and within the limit, else the limit, with the context it was created with |
| `TransactionPool.ReturnedSurvives` | src/webrequest/transaction.cpp:192-210 | the same for a returned transaction |
| `TransactionPool.GuaranteedExpiry` | src/webrequest/transaction.cpp:81-111 | if no tick skips a revolution, the slot has been cleared by the first tick later than the idle time by more than its distance from the base, in units of the pace |
| `TransactionPool.UnplacedExpiresEarly` | src/webrequest/transaction.cpp:81-111 | in every pool, a slot outside of the placement condition is emptied by ticking every unit of the idle time |
| `TransactionRoom.FoundExactly` | src/webrequest/transaction.cpp:81-111 | a stored transaction touched now is found after every run within its idle time if and only if its slot meets the placement condition |
| `TransactionRoom.RoomIsExact` | src/webrequest/transaction.cpp:118-169 | with a granted idle time m, all transactions created in all reachable pools are found after every run within that time if and only if nine more units of time fit into the pool, or the clock hand stands still |
| `TransactionRoom.NextSlot` | src/webrequest/transaction.cpp:142-165 | in a pool filled by creations at one time, the next one probes over all slots of those before it |
| `TransactionPool.HeldIsNotFetched` | src/webrequest/transaction.cpp:177-190 | in every run, a fetched transaction cannot be fetched again before it is returned |
| `TransactionPool.LiveIndicesDiffer` | src/webrequest/transaction.cpp:118-141 | in every reachable state, live transactions have different residues |
| `TransactionPool.FetchMutexInRange` | src/webrequest/transaction.cpp:177-190 | the mutex index of a fetch is in range exactly if the cell of the index is claimed |
| `TransactionPool.Pool.constructor` | src/webrequest/transaction.cpp:44-68 | a new pool holds no transaction and satisfies the invariant |
| `TransactionPool.Pool.MaskIndex` | src/webrequest/transaction.cpp:148-149 | the masked index is the remainder |
| `TransactionPool.Pool.ClaimCell` | src/webrequest/transaction.cpp:122-141 | the draw loop marks the first free cell, counting down as the program does |
| `TransactionPool.Pool.ProbeSlot` | src/webrequest/transaction.cpp:142-165 | the probing loop finds the slot of the specification |
| `TransactionPool.Pool.NewTransaction` | src/webrequest/transaction.cpp:118-169 | creation in place is the specified step, including both exits of the draw loop; it keeps the object invariant exactly if a draw before the last hits a free cell, and all transactions exactly if it is harmless |
| `TransactionPool.Pool.FetchTransaction` | src/webrequest/transaction.cpp:177-190 | fetching in place is the specified step and keeps the object invariant; an ill-formed identifier is an error that changes nothing |
| `TransactionPool.Pool.ReturnTransaction` | src/webrequest/transaction.cpp:192-210 | returning a held transaction in place is the specified step and keeps the object invariant |
| `TransactionPool.Pool.Destroy` | src/webrequest/transaction.hpp:32-35 | the destructor of a held transaction is the specified step |
| `TransactionPool.Pool.CollectGarbage` | src/webrequest/transaction.cpp:81-111 | the clearing loop is the specified step and keeps the object invariant |
| `StructureNameMap.IndexOfName` | src/bindings/structNameMap.cpp:16-36 | a name that occurs in no earlier entry of the joined table is found under its own number |
| `StructureNameMap.IndexIsExact` | src/bindings/structNameMap.cpp:16-36 | a name of the table is found under its own number if and only if it occurs in no earlier entry |
| `StructureNameMap.AllNamesFound` | src/bindings/structNameMap.cpp:16-36 | in a table in which no name occurs in an earlier one, every name is found under its own number |
| `StructureNameMap.IndexIsSuffix` | src/bindings/structNameMap.cpp:32-36 | whatever else is found is the end of the entry with its number; all other texts are undefined |
| `StructureNameMap.IndexSkips` | src/bindings/structNameMap.cpp:32-36 | an entry that does not contain the name moves the lookup on by one |
| `StructureNameMap.IndexStops` | src/bindings/structNameMap.cpp:32-36 | an entry that contains the name decides the lookup: found if its first occurrence ends the entry, else undefined |
| `StructureNameMap.NameMap.Fill` | src/bindings/structNameMap.cpp:16-30 | the construction loop fills the end table and the names for every table of at most 127 entries and refuses longer ones |
| `StructureNameMap.NameMap.Lookup` | src/bindings/structNameMap.cpp:32-36 | the lookup by end table is the specified one, with all accesses in bounds |
| `Serialization.ReachedPrefix` | src/bindings/deserializer.cpp:2067-2099 | a rest that a reader leaves with its brackets closed is what follows a balanced beginning of the tokens |
| `BracketSkipping.SkipIsExact` | src/bindings/deserializer.cpp:2067-2099 | skipping passes a single value, or an opened structure up to the close with which the nesting returns to zero for the first time, and fails if there is none |
| `RangeForms.NamedRangeRead` | src/bindings/deserializer.cpp:610-662 | a range with named members, in any order, is read if and only if no name occurs twice; start and end are the ones given, and what is missing is zero |
| `MalformedMembers.BadRange` | src/bindings/deserializer.cpp:610-662 | a range with an unknown name, or with a value that is no integer, is refused, whatever members are in front of it |
| `SerializationCursor.Cursor.PassStructure` | src/bindings/deserializer.cpp:2067-2099 | the skipping loop passes exactly one value or one bracketed structure, or reports that there is none |
| `SerializationCursor.Cursor.TakeClose` | src/bindings/deserializer.cpp:477-491 | a close is taken only from a close token, not from the end of the tokens |
| `SerializationCursor.Cursor.GetRange` | src/bindings/deserializer.cpp:610-662 | a range is read from a structure with two integers or with named members, of which a missing one is zero |
| `ExpressionDiscipline.ExpressionDisciplined` | src/bindings/deserializer.cpp:2195-2394 | for every list of tokens, an expression that is read without error takes a balanced beginning, never underflows the builder and grows its stack by exactly one |
| `ExpressionDiscipline.ListDiscipline` | src/bindings/deserializer.cpp:2349-2361 | a list of n bracketed expressions grows the stack by n |
| `ExpressionDiscipline.ArgumentsDiscipline` | src/bindings/deserializer.cpp:2298-2311 | the arguments of a positional join grow the stack by the number the operator is called with |
| `ExpressionDiscipline.FeaturesTakeAll` | src/bindings/deserializer.cpp:2530-2652 | a counted expression list grows the stack by its count, and as many features take all of it again |
| `ExpressionDiscipline.CursorStays` | src/bindings/deserializer.cpp:1457-1480 | at a member with another name than the one asked for, the cursor has not moved after any number of iterations of the option loop |
| `ExpressionDiscipline.LoopsExactly` | src/bindings/deserializer.cpp:2266-2276 | the loop over the options goes on after every number of iterations if and only if behind some variables with convertible values comes a member with another name |
| `ExpressionDiscipline.StuckExactly` | src/bindings/deserializer.cpp:2195-2394 | for every list of tokens, the reader does not come back if and only if, behind a beginning that it reads without error, it begins a join structure with such options |
| `ExpressionDiscipline.StuckReads` | src/bindings/deserializer.cpp:2195-2394 | where the reader does not come back it has begun such a structure |
| `ExpressionDiscipline.ReadsStuck` | src/bindings/deserializer.cpp:2195-2394 | where the reader begins such a structure, however deep, it does not come back |
| `ExpressionDiscipline.LoopIsStuck` | src/bindings/deserializer.cpp:2266-2276 | such a structure at the front does stop the reader from coming back |
| `ExpressionDiscipline.LoopExample` | src/bindings/deserializer.cpp:2266-2276 | the shortest such input |
| `ExpressionReader.BuildExpression` | src/bindings/deserializer.cpp:2365-2394 | the reader as it runs, with cursor, loops and builder calls, does what the specification says for every list of tokens |
| `ExpressionReader.BuildJoin` | src/bindings/deserializer.cpp:2195-2327 | reading a join, named or positional, ends with the call that pushes it |
| `ExpressionReader.BuildMembers` | src/bindings/deserializer.cpp:2208-2263 | the loop over named members reads each at most once and counts the arguments |
| `ExpressionReader.BuildList` | src/bindings/deserializer.cpp:2349-2361 | the list loop reads and counts bracketed expressions |
| `ExpressionReader.BuildArguments` | src/bindings/deserializer.cpp:2298-2311 | the argument loop ends at a close and refuses anything that is no structure |
| `ExpressionReader.GetOptionalDefinition` | src/bindings/deserializer.cpp:1457-1480 | the value of a member with the name asked for is read; at any other member the cursor stays |
| `ExpressionReader.BuildJoinVariable` | src/bindings/deserializer.cpp:2266-2276 | the option loop is the specified one; it stops with Loops exactly where the loop of the program never ends |
| `ExpressionReader.ReadExpressionType` | src/bindings/deserializer.cpp:2110-2171 | looking ahead tells the kind of an expression without moving the cursor |
| `ExpressionReader.ReadTermDef` | src/bindings/structDefs.cpp:75-147 | a term is read from names or values with the errors of the program |
| `ExpressionReader.BuildContent` | src/bindings/deserializer.cpp:2396-2418 | a whole serialization must be used up by one expression |
| `ExpressionFormsRead.ExpressionIsRead` | src/bindings/deserializer.cpp:2110-2394 | for every expression in every form, with a keyword or without, in places or with names in any order, known or not, with options, range, cardinality and lists nested to any depth, and with any values: it is read as exactly the calls that it stands for if it is accepted, and refused otherwise |
| `ExpressionFormsRead.JoinWithoutArguments` | src/bindings/deserializer.cpp:2110-2171 | an operator in its place without keyword and arguments is written as a term is and read as one, with its range as value and its cardinality as length |
| `FeatureForms.FeatureIsRead` | src/bindings/deserializer.cpp:2554-2624 | a query feature in both of its forms is read if and only if it is accepted, and is defined as often as it has expressions, each time with its set and its weight |
| `ExpressionDiscipline.FeatureTakesAll` | src/bindings/deserializer.cpp:2556-2625 | a query feature, with named members in any order or as set, expressions and weight, takes exactly the elements of its expressions from the stack again |
| `ExpressionReader.BuildFeatures` | src/bindings/deserializer.cpp:2627-2652 | expressions become features of a set and weight, as many as were counted |
| `ExpressionReader.BuildQueryFeature` | src/bindings/deserializer.cpp:2556-2625 | a query feature is read in both of its forms as specified |
| `ExpressionReader.BuildFeatureMembers` | src/bindings/deserializer.cpp:2569-2599 | the loop over the named members of a feature reads each at most once, and passes two of them without asking whether there is something to pass |
| `ExpressionSerializer.SerializeSucceeds` | src/bindings/serializer.cpp:180-306 | a program is serialized if and only if it attaches no variable, finds its operands, and leaves one element where a single result is asked for |
| `ExpressionSerializer.SerializeOperation` | src/bindings/serializer.cpp:222-256 | one operator is written with its optional members and its operands in order |
| `ExpressionSerializer.SerializeProgram` | src/bindings/serializer.cpp:180-306 | the stack machine of the serializer is the specified one |
| `ExpressionTrees.BuildInOrder` | src/bindings/serializer.cpp:180-306 | the operand stack describes trees that hold all instructions in their order |
| `ExpressionTrees.BuildIsExecute` | src/bindings/serializer.cpp:180-306 | the serializer stack is the encoding of the stack of trees at the end of every program |
| `ExpressionTrees.FlatNode` | src/bindings/serializer.cpp:206-256 | flattening the nested serialization of an operator gives its members and, between brackets, the token form of its operands |
| `ExpressionTrees.FlatCons` | src/bindings/serializer.cpp:261-304 | flattening a list of serializations puts brackets around each of them |
| `ExpressionRoundTrip.TreeRead` | src/bindings/deserializer.cpp:2365-2394 | the token form of a tree in front of anything that closes it is read as its instructions, or refused if an operator has no operands |
| `ExpressionRoundTrip.ListRead` | src/bindings/deserializer.cpp:2349-2361 | the same for lists of trees |
| `ExpressionRoundTrip.RoundTrip` | src/bindings/serializer.cpp:180-306 | for every program that is serialized, plain or typed, as single result or as list: reading gives the calls of its instructions in order if every operator has operands, and is an error otherwise |
| `SerializedForms.TreeIsWritten` | src/bindings/serializer.cpp:200-256 | the tokens of a tree are its form: a term in places, an operator with named members of which defaults are left out, and with a schema the keyword in front of both |
| `SerializedForms.ProgramIsWritten` | src/bindings/serializer.cpp:180-306 | whatever is serialized is the form of the tree whose instructions in post order are the program, or the list of them |
| `ExpressionRoundTrip.EventsAreKept` | src/bindings/expressionBuilder.cpp:210-240 | the query receives the terms and joins of the program if and only if no term has length zero |
| `ExpressionBuilders.QueryCounts` | src/bindings/expressionBuilder.cpp:210-240 | the stack size of the query builder changes as the calls do, and the query gets one event for each term and join |
| `ExpressionBuilders.QueryTakes` | src/bindings/expressionBuilder.cpp:210-250 | the query builder takes all calls if and only if they push terms with a value, joins with a known operator, or attach variables |
| `ExpressionBuilders.PostingTakes` | src/bindings/expressionBuilder.cpp:292-348 | the posting builder takes terms with a value and joins with a known operator only |
| `ExpressionBuilders.QueryGrowsByOne` | src/bindings/expressionBuilder.hpp:113-123 | reading one expression into a query adds exactly one to its stack size |
| `ExpressionBuilders.PopSucceeds` | src/bindings/expressionBuilder.cpp:350-357 | after one expression the posting builder has exactly one iterator to give |
| `ExpressionBuilders.TreePosting` | src/bindings/expressionBuilder.cpp:292-333 | the posting builder evaluates the instructions of a tree to the iterator the tree describes if and only if its operators are known and all of its iterators are created |
| `ExpressionBuilders.SerializedMeaning` | src/bindings/expressionBuilder.cpp:292-357 | the iterator built from the serialization of a tree is the iterator the tree describes, exactly if all of its iterators can be created |
| `ExpressionBuilders.QueryExpressionBuilder.Receive` | src/bindings/expressionBuilder.cpp:210-250 | a call of the query builder is the specified step, with its exceptions |
| `ExpressionBuilders.PostingsExpressionBuilder.Receive` | src/bindings/expressionBuilder.cpp:292-348 | a call of the posting builder is the specified step; on an exception the stack stays |
| `ExpressionBuilders.PostingsExpressionBuilder.TakeResult` | src/bindings/expressionBuilder.cpp:350-357 | taking the result pops one iterator and fails unless it was the only one |
| `MetaDataRestriction.NamedUnionIsRejected` | src/bindings/deserializer.cpp:3524-3542 | a union written as structure with a named condition list is never accepted, because its closing bracket is not consumed |
| `MetaDataForms.UnionItemIsRejected` | src/bindings/deserializer.cpp:3571-3599 | neither is a balanced list of items with such a union anywhere among them |
| `MetaDataRestriction.BracketedNameIsRejected` | src/bindings/deserializer.cpp:3571-3579 | neither is any named structure in brackets as whole restriction |
| `MetaDataRestriction.JoinFlags` | src/bindings/deserializer.cpp:3466-3478 | only a grouping reader widens a group, and only behind its first condition |
| `MetaDataRestriction.PlainUnionIsConjunction` | src/bindings/deserializer.cpp:3541-3544 | a union whose conditions are a plain list is read with every condition as a group of its own |
| `MetaDataForms.ListsAccepted` | src/bindings/deserializer.cpp:3563-3605 | a list of items, single, grouped, or behind the names condition and union, with conditions in places or with names in any order, is accepted if and only if it does not begin with a name, all conditions are complete, none is a union with a named list, and none a union of one condition with names; it is read as the conditions that are given, and grouped items become groups |
| `MetaDataForms.NamedAccepted` | src/bindings/deserializer.cpp:3505-3561 | without brackets, a single or named item is accepted if and only if its conditions are complete and it is no union of these kinds, and is read as what it says |
| `MetaDataRestriction.JoinStructBalanced` | src/bindings/deserializer.cpp:3480-3502 | a condition structure takes a balanced beginning of the tokens |
| `MetaDataReader.BuildContent` | src/bindings/deserializer.cpp:3562-3636 | the restriction reader as it runs does what the specification says and comes back for every serialization |
| `MetaDataReader.BuildNamed` | src/bindings/deserializer.cpp:3504-3560 | named unions, conditions and comparisons are read branch by branch |
| `MetaDataReader.BuildJoin` | src/bindings/deserializer.cpp:3466-3478 | the condition loop groups its conditions on demand |
| `MetaDataReader.GetCompare` | src/bindings/structDefs.cpp:628-665 | a comparison is read from values or from three named members |
| `MetaDataReader.GetCompareOp` | src/bindings/deserializer.cpp:291-303 | a compare operator is read from a value or a name |
| `MetaDataConditions.WordsAreExact` | src/bindings/deserializer.cpp:203-289 | for every text without zero characters: it is read as an operator if and only if it is one of the words of this operator |
| `MetaDataConditions.CondRead` | src/bindings/structDefs.cpp:628-665 | a condition, in places or with names in any order, is read if and only if it is complete, as its operator, name and value |
| `MalformedMembers.BadConditionRefused` | src/bindings/structDefs.cpp:628-665 | a condition with an unknown name, or with a value of the wrong kind, is refused, whatever members are in front of it |
| `MetaDataExpression.OpRoundTrip` | src/bindings/impl/value/metadataExpression.hpp:58-70 | every compare operator is read back from the text it is printed as |
| `MetaDataExpression.WriterWritesCode` | src/bindings/deserializer.cpp:3425-3464 | for every list of groups, the emitted postfix code is group after group with an OR over all conditions of each larger group |
| `MetaDataExpression.RestrictionWriter.AddCondition` | src/bindings/deserializer.cpp:3431-3451 | adding a condition is the specified step |
| `MetaDataExpression.RestrictionWriter.Done` | src/bindings/deserializer.cpp:3452-3459 | finishing is the specified step |
| `MetaDataExpression.CollectsExactly` | src/bindings/serializer.cpp:389-453 | the code of a restriction is serialized if and only if every group with several conditions precedes every single one, and then gives back its groups |
| `MetaDataErrors.ErrorsAreExact` | src/bindings/serializer.cpp:384-453 | any code is collected if and only if every term has its comparison behind it and each OR takes all conditions in front of it; a broken pair is a type error unless an OR before it takes too few, which is the other error |
| `MetaDataExpression.CollectComparisons` | src/bindings/serializer.cpp:384-453 | the loop over the instructions is the specified collection, with its two errors |
| `MetaDataExpression.JoinLast` | src/bindings/serializer.cpp:418-441 | clearing the group flags of the last conditions leaves all others |
| `MetaDataExpression.Serialize` | src/bindings/serializer.cpp:522-545 | the output loop prints group after group |
| `MetaDataExpression.PrintedIsRead` | src/bindings/deserializer.cpp:3563-3605 | printed conditions are read back with the same operators, names and group flags, and with the same values, those that are numbers as numbers |
| `MetaDataExpression.SerializedIsRead` | src/bindings/serializer.cpp:384-545 | whatever code is serialized at all is read back as the groups that were collected from it |
| `MetaDataExpression.RestrictionRoundTrip` | src/bindings/deserializer.cpp:3425-3464 | for every list of groups: written, collected, printed and read it is the same restriction if the larger groups come first, and the serialization is an error otherwise |
| `MetaDataMeaning.RestrictionMeaning` | src/bindings/serializer.cpp:384-453 | if every OR of several operands takes exactly the conditions in front of it, the collected groups hold under the same valuations as the postfix code, for any serialized code |
| `MetaDataMeaning.MeaningIsExact` | src/bindings/serializer.cpp:384-453 | for code with operands everywhere and no condition twice: the collected groups hold under the same valuations as the code if and only if every OR takes exactly the conditions in front of it |
| `MetaDataShapes.ShapeIsExact` | src/bindings/serializer.cpp:384-453 | whether conditions are repeated or not: every OR takes exactly the conditions in front of it if and only if the collected groups of all code of this shape hold under the same valuations as the code |
| `MetaDataShapes.ConstantOperand` | src/bindings/serializer.cpp:384-453 | an operator without operands is a constant, which an OR can take in without changing the meaning |
| `MetaDataMeaning.CodeMeaning` | src/bindings/deserializer.cpp:3425-3464 | for every list of groups and every valuation: the code that is written for it evaluates, and code and collected groups hold if and only if every group has a condition that holds |
| `ConfigurationNames.FileNameParts` | src/webrequest/configurationHandler.cpp:35-46 | method, type and name are found again in a file name of dot-free parts |
| `ConfigurationNames.FieldsAreReadExactly` | src/webrequest/configurationHandler.cpp:35-46 | behind a dot-free stamp, method, type and name are read back if and only if none of them holds a dot |
| `ConfigurationNames.NameIsCut` | src/webrequest/configurationHandler.cpp:35-46 | a name is read back up to its first dot |
| `ConfigurationNames.FilenamePart` | src/webrequest/configurationHandler.cpp:35-46 | the scanning loop is the specified part of a name |
| `ConfigurationNames.EndingIsExact` | src/webrequest/configurationHandler.cpp:146-166 | the ending with type and name matches a file if and only if the file belongs to that configuration |
| `ConfigurationNames.EndingOfFields` | src/webrequest/configurationHandler.cpp:146-152 | for all fields, dotted or not: a file has the ending of a configuration if and only if its fields end with its type and name |
| `ConfigurationNames.EndingHits` | src/webrequest/configurationHandler.cpp:146-152 | with dots in names only: exactly which configurations are found by the ending of another one |
| `ConfigurationNames.PaddedOrder` | src/webrequest/configurationHandler.cpp:89 | printed counters of any size are ordered as numbers of which the longer is cut to the length of the shorter |
| `ConfigurationNames.StampOrder` | src/webrequest/configurationHandler.cpp:71-91 | a stamp is smaller than another if and only if its time is earlier, or it is the same and the printed counter is smaller |
| `ConfigurationNames.NextCounter` | src/webrequest/configurationHandler.cpp:89 | counting on keeps the order of names in a second if and only if the printed counter does not get longer, which it does from three digits on at the powers of ten; a counter that starts again never keeps it |
| `ConfigurationNames.NameOrder` | src/webrequest/configurationHandler.cpp:90 | file names with different stamps are ordered by them, also where one stamp is longer |
| `ConfigurationStore.RecoveryIsExact` | src/webrequest/configurationHandler.cpp:236-276 | after every run of stores, replacements, deletions, purges and restarts, each possibly cut by a crash, in which new names are not smaller than the recorded ones and no cut deletion takes the newest file first: the loaded configurations are the committed and not deleted ones, each once, with the last committed content, in ascending order of their files |
| `ConfigurationStore.StepIsExact` | src/webrequest/configurationHandler.cpp:93-186 | every operation keeps the newest file of each configuration equal to what was committed last if and only if its name or cut fits |
| `ConfigurationStore.StaleIsLoaded` | src/webrequest/configurationHandler.cpp:236-276 | a store is loaded if and only if its name is not smaller than the recorded one; else the old content still is |
| `ConfigurationStore.ClockKeepsOrder` | src/webrequest/configurationHandler.cpp:71-91 | in every run whose times do not go back, whose processes start in a later second and whose printed counter does not get longer within a second, all names fit |
| `ConfigurationStore.NextStampIsGreater` | src/webrequest/configurationHandler.cpp:71-91 | the next stamp is greater than the last one if and only if the time is allowed in this sense |
| `ConfigurationStore.StoredAgain` | src/webrequest/configurationHandler.cpp:71-91 | storing a configuration again, perhaps after a restart, under another stamp can be recovered from if and only if the time is allowed |
| `ConfigurationStore.CounterOverflow` | src/webrequest/configurationHandler.cpp:84-89 | the thousand and first store of a configuration within a second is lost, because the counter is never reset |
| `ConfigurationStore.RestartedTooSoon` | src/webrequest/configurationHandler.cpp:84-89 | so is the first store of a process that starts in the second of the last one |
| `ConfigurationStore.NextNameIsGreater` | src/webrequest/configurationHandler.cpp:71-91 | at an allowed time a new name is greater than every stored one, whatever the counter |
| `ConfigurationStore.StoredFileIsRecorded` | src/webrequest/configurationHandler.cpp:188-202 | the newest file found for a configuration is the one of its last store |
| `ConfigurationStore.PurgeIsInvisible` | src/webrequest/configurationHandler.cpp:236-286 | purging leaves exactly one file of each configuration in any directory and does not change what is loaded |
| `ConfigurationStore.CutPurgeIsInvisible` | src/webrequest/configurationHandler.cpp:252-268 | a purge does not change what is loaded wherever it is cut |
| `ConfigurationStore.DeletionIsExact` | src/webrequest/configurationHandler.cpp:146-166 | deleting a configuration removes all its versions and no other file |
| `ConfigurationStore.CutDeletionStep` | src/webrequest/configurationHandler.cpp:153-163 | a deletion that is cut can be recovered from if and only if it has not removed the newest file or has removed all |
| `ConfigurationStore.DeletedComesBack` | src/webrequest/configurationHandler.cpp:153-163 | otherwise a version older than the committed one is loaded |
| `ConfigurationStore.DottedNameIsHit` | src/webrequest/configurationHandler.cpp:146-166 | for example: a configuration whose name holds a dot is lost when another one is deleted |
| `ConfigurationStore.DeletionHits` | src/webrequest/configurationHandler.cpp:146-166 | exactly which configurations lose their files when another one is deleted |
| `ConfigurationStore.LoadedName` | src/webrequest/configurationHandler.cpp:219-234 | a configuration is loaded under what is in front of the first dot of its name, under its own name if and only if it has no dot |
| `ConfigurationStore.TwoConfigurations` | src/webrequest/configurationHandler.cpp:236-276 | of two different configurations stored one after the other, both are loaded and survive a purge if and only if their types or their names up to the first dot differ; else the first one is lost |
| `ConfigurationStore.ReplacementKeepsMethod` | src/webrequest/configurationHandler.cpp:121-128 | a replacement is loaded with the method of the store before it |
| `ConfigurationStore.ClearingDoesNothing` | src/webrequest/configurationHandler.cpp:93-119 | unfinished files are written to another directory than the one that is cleared: clearing changes nothing |
| `ConfigurationStore.CommitMoves` | src/webrequest/configurationHandler.cpp:130-144 | a commit succeeds if and only if the unfinished file is there and the final name is not empty; it moves the content to this name and changes no other file, and cannot be repeated |
| `ConfigurationStore.BegunIsCommitted` | src/webrequest/configurationHandler.cpp:93-119 | beginning a store writes one unfinished file and nothing else, and its commit then succeeds |
| `ConfigurationStore.ReplacementIsExact` | src/webrequest/configurationHandler.cpp:121-128 | a replacement of a stored configuration is written over its newest file by the commit; of one that is not stored the commit fails, or there is no transaction |
| `ConfigurationStore.ClearingIsExact` | src/webrequest/configurationHandler.cpp:168-186 | clearing removes the unfinished files of the directory that it reads, and no other |
| `ConfigurationContexts.EventDecides` | src/webrequest/configurationHandler.cpp:130-166 | exactly which names are known behind a store, commit, deletion, allocation, release, declaration or restart, and which of them as stored |
| `ConfigurationContexts.StoredExactly` | src/webrequest/configurationHandler.cpp:130-166 | over every run of these operations, a name is marked as that of a stored configuration if and only if it was committed and has since then not been deleted, nor has a commit of it failed, nor has the process started again |
| `ConfigurationContexts.CommittedIsNotGivenAway` | src/webrequest/configurationHandler.cpp:410-445 | until then no allocation gives the name of a committed configuration away, and releasing it does not free it |
| `ConfigurationContexts.AllocatedIsNew` | src/webrequest/configurationHandler.cpp:410-434 | an allocated name was not known before |
| `ConfigurationContexts.AllocatedOnce` | src/webrequest/configurationHandler.cpp:410-445 | two allocations give different names, unless the first one has been released or forgotten |
| `ConfigurationContexts.RestartForgetsMarks` | src/webrequest/configurationHandler.cpp:478-483 | the configurations that a new process declares are known, but not as stored before they are committed again |
| `ConfigurationContexts.FailedCommitFreesName` | src/webrequest/configurationHandler.cpp:130-144 | for example: a commit that fails frees the name of a configuration although a file of it is stored |
| `ConfigurationHandler.Handler.NewConfigStorageFilename` | src/webrequest/configurationHandler.cpp:71-91 | a name is made from time and counter; the recorded time stamp is never changed |
| `ConfigurationHandler.Handler.StoreConfiguration` | src/webrequest/configurationHandler.cpp:108-119 | storing writes the unfinished file and hands out the transaction |
| `ConfigurationHandler.Handler.StoreConfigurationReplace` | src/webrequest/configurationHandler.cpp:121-128 | a replacement is written for the newest file; without one its final name is empty, and there is no transaction unless that name can be joined to the directory |
| `ConfigurationHandler.Handler.CommitStoreConfiguration` | src/webrequest/configurationHandler.cpp:130-144 | committing renames the file and marks the name as that of a stored configuration, or forgets it on failure |
| `ConfigurationHandler.Handler.DeleteStoredConfiguration` | src/webrequest/configurationHandler.cpp:146-166 | the removing loop is the specified deletion |
| `ConfigurationHandler.Handler.ClearUnfinishedTransactions` | src/webrequest/configurationHandler.cpp:168-186 | the clearing loop is the specified step |
| `ConfigurationHandler.Handler.GetStoredConfigurationFile` | src/webrequest/configurationHandler.cpp:188-202 | the first name in descending order is the greatest, or there is none |
| `ConfigurationHandler.Handler.GetStoredConfigurations` | src/webrequest/configurationHandler.cpp:236-276 | scanning downwards with a set of keys and reversing gives exactly the newest file of each configuration in ascending order; on demand exactly the others are removed |
| `ConfigurationHandler.FirstIsNewest` | src/webrequest/configurationHandler.cpp:252-268 | in descending order a name is the newest of its configuration if and only if none of that configuration came before |
| `ConfigurationHandler.Handler.AllocTemporaryContextName` | src/webrequest/configurationHandler.cpp:410-434 | the name is the prefix with the smallest positive number that is not used, whole if there is room for it, and all other entries stay; without such a number the search leaves the range of an int and no name is given |
| `ConfigurationHandler.SearchEndsExactly` | src/webrequest/configurationHandler.cpp:410-434 | the search finds a number if and only if one of those that fit whole behind the prefix into 63 characters is not used, or, behind a prefix of 63 characters and more, the only name is not used |
| `ConfigurationHandler.FewNamesLeaveANumber` | src/webrequest/configurationHandler.cpp:410-434 | as long as there are fewer names of the type than numbers that fit, it finds one within one more step than there are names |
| `ConfigurationHandler.EmptyPrefixHasNumber` | src/webrequest/configurationHandler.cpp:410-434 | for the empty prefix, the only one that the program passes, it does so as long as there are fewer names of the type than positive ints |
| `ConfigurationHandler.NoNumberLeft` | src/webrequest/configurationHandler.cpp:410-434 | it fails for a prefix of 62 characters with nine names and for one of 63 with one name |
| `ConfigurationHandler.Handler.ReleaseTemporaryContextName` | src/webrequest/configurationHandler.cpp:436-445 | releasing removes a temporary name and keeps a stored one |
| `ConfigurationHandler.Handler.DeclareSubConfiguration` | src/webrequest/configurationHandler.cpp:478-483 | declaring a name records it as temporary, and keeps the mark of a known one |
| `TypePattern.PatternRoundTrip` | src/parser/interfaceParser.cpp:788-809 | for every pattern with distinct variables and every text it matches, printing the pattern as template with the bindings gives the consumed text up to white space |
| `TypePattern.MatchedText` | src/parser/interfaceParser.cpp:717-775 | the tokens with the bindings of a match print the text that was consumed |
| `TypePattern.TokensPrinted` | src/parser/interfaceParser.cpp:560-637 | the template of a pattern prints the same as its tokens |
| `TypePattern.MatchBinds` | src/parser/interfaceParser.cpp:754-767 | a match binds every variable of its pattern |
| `TypePattern.PatternNeverRaises` | src/parser/interfaceParser.cpp:768-769 | the error of a misplaced suffix is never raised |
| `TypePattern.RoundTripIsExact` | src/parser/interfaceParser.cpp:788-809 | matching and printing undo each other for every text if and only if no variable occurs twice in the pattern |
| `TypePattern.RepeatedIsLost` | src/parser/interfaceParser.cpp:754-767 | for every pattern with a repeated variable, a text that it matches and prints differently |
| `TypePattern.DuplicateVariable` | src/parser/interfaceParser.cpp:754-767 | for example: the last binding wins and the printed text is another one |
| `TypePatternWords.CharacterClasses` | src/parser/interfaceParser.cpp:29-60 | exactly which characters are white space and parts of identifiers, and which are operators (interfaceParser.cpp, line 403) |
| `TypePatternWords.PatternMatches` | src/parser/interfaceParser.cpp:717-775 | a pattern matches a text if and only if its steps fit the words of the text one by one: the same operator or identifier, or an identifier with the suffix of the variable |
| `TypePatternWords.SpelledBack` | src/parser/interfaceParser.cpp:672-712 | the tokens of a pattern spell the pattern back up to white space |
| `TypePatternWords.WrittenIsRead` | src/parser/interfaceParser.cpp:672-712 | tokens that are written with spaces between them are read back, for every list of well-formed tokens |
| `TypePatternWords.Juxtaposed` | src/parser/interfaceParser.cpp:672-712 | two patterns that do not grow together are read one after the other, and refused if one of them is |
| `TypePatternWords.ExpandGiven` | src/parser/interfaceParser.cpp:788-809 | an explicit name or value that is not empty acts as a binding of the variables name and value that goes before all others |
| `TypePatternWords.PrintsExactly` | src/parser/interfaceParser.cpp:598-637 | a template is printed if and only if every variable in it is bound or given |
| `TypePatternWords.TemplateMeaning` | src/parser/interfaceParser.cpp:560-637 | a template of strings and variables prints the strings and the texts bound to the variables, in order |
| `TypePattern.ParsePattern` | src/parser/interfaceParser.cpp:672-712 | the tokenizing loop is the specified one, with its errors |
| `TypePattern.ParseTemplate` | src/parser/interfaceParser.cpp:560-595 | the template loop is the specified one, with its errors |
| `TypePattern.PrintChunks` | src/parser/interfaceParser.cpp:598-637 | the printing loop is the specified one; an undefined variable is an error |
| `TypePattern.VariableType.Parse` | src/parser/interfaceParser.cpp:717-775 | the matching loop is the specified one |
| `TypePattern.VariableType.ExpandEvent` | src/parser/interfaceParser.cpp:788-809 | an event prints its template, and nothing if it is not defined |
| `TypePattern.Define` | src/parser/interfaceParser.cpp:672-714 | a new type uses its own pattern as template of its two type events |
| `EventLoop.RequestsAreConserved` | src/webrequest/curlEventLoop.cpp:223-239 | in every reachable state each accepted request is waiting, activated or answered, exactly one of these, and none is answered twice |
| `EventLoop.EventDecides` | src/webrequest/curlEventLoop.cpp:303-445 | exactly which answers an event gives and which requests are activated and waiting behind it |
| `EventLoop.AnswersAreCaused` | src/webrequest/curlEventLoop.cpp:303-445 | over every run, the answers are exactly those that its events give rise to: a finished message about a handle answers the activated request of this handle with its result, an activation refuses the requests whose handle is not taken, and the shutdown answers the activated ones |
| `EventLoop.FinishedIsEnded` | src/webrequest/curlEventLoop.cpp:392-445 | a request that is answered by a finished message is never activated or waiting again and gets no other answer |
| `EventLoop.SentIsAccepted` | src/webrequest/curlEventLoop.cpp:223-250 | a request is accepted in a run if and only if it is sent in it |
| `EventLoop.RoundsAreRun` | src/webrequest/curlEventLoop.cpp:482-522 | all rounds of the loop together are a run of the events in them |
| `EventLoop.MessagesAreHandled` | src/webrequest/curlEventLoop.cpp:392-445 | all messages that the library brings are handled, each once and in order, except those that are left in the queue at the end, and no request that is sent is lost |
| `EventLoop.EndOfLoop` | src/webrequest/curlEventLoop.cpp:482-522 | when the loop has ended nothing is activated, and all accepted requests have been answered if and only if none was left waiting |
| `EventLoop.RestartTakesUp` | src/webrequest/curlEventLoop.cpp:303-326 | what waits then is taken up when the loop is started again: after its first activation all accepted requests are activated or answered |
| `EventLoop.ActivateConserves` | src/webrequest/curlEventLoop.cpp:303-326 | passing the waiting list conserves the requests |
| `EventLoop.HandleConserves` | src/webrequest/curlEventLoop.cpp:392-445 | handling a message conserves the requests |
| `EventLoop.ShutdownConserves` | src/webrequest/curlEventLoop.cpp:337-345 | answering what is left conserves the requests |
| `EventLoop.RoundIsRun` | src/webrequest/curlEventLoop.cpp:482-522 | a round of the loop is a run of the events in it |
| `EventLoop.TickersAreCalled` | src/webrequest/curlEventLoop.cpp:283-301 | however busy the loop is, the tickers are called at least once in the configured number of waits that end by an event or a timeout |
| `EventLoop.NoTicksWithoutPeriod` | src/webrequest/curlEventLoop.cpp:294-301 | with a period of zero seconds events alone never call them |
| `EventLoop.EventsTick` | src/webrequest/curlEventLoop.cpp:283-301 | without timeouts, the tickers are called at every limit-th wait that ends by an event: their number and the counter are quotient and remainder |
| `EventLoop.TimeoutTicks` | src/webrequest/curlEventLoop.cpp:447-480 | a timeout calls them and starts the counting again, unless one of them throws |
| `EventLoop.CurlEventLoop.SendRequest` | src/webrequest/curlEventLoop.cpp:223-250 | a request is accepted into the waiting list once the loop is started; before, it is answered with an error at once |
| `EventLoop.CurlEventLoop.ActivateIdleJobs` | src/webrequest/curlEventLoop.cpp:303-326 | the activation loop is the specified step |
| `EventLoop.CurlEventLoop.FetchJob` | src/webrequest/curlEventLoop.cpp:328-335 | a job is taken from the map with its handle |
| `EventLoop.CurlEventLoop.ProcessEvents` | src/webrequest/curlEventLoop.cpp:392-445 | the message loops handle what the first pass brings and leave what the second one brings for the next round |
| `EventLoop.CurlEventLoop.TerminatePendingRequests` | src/webrequest/curlEventLoop.cpp:337-345 | every activated job is answered once |
| `EventLoop.CurlEventLoop.CheckTick` | src/webrequest/curlEventLoop.cpp:283-301 | an event is counted, and the tickers are called at the limit |
| `EventLoop.CurlEventLoop.Listen` | src/webrequest/curlEventLoop.cpp:447-480 | an event is counted, a timeout calls the tickers, and an exception leaves the round without either; a ticker that throws keeps the counter |
| `EventLoop.CurlEventLoop.Run` | src/webrequest/curlEventLoop.cpp:482-522 | the loop performs its rounds, also those that end by an exception, calls the tickers as often as specified and then answers what is left |
| `DelegateRounds.RoundsBounded` | src/webrequest/webRequestHandler.cpp:688-765 | a load makes at most as many rounds as it has results |
| `DelegateRounds.RoundsInOrder` | src/webrequest/webRequestContext_result.cpp:157-234 | each round holds the delegates of one result with a schema, with contents and addresses of the context of its time, and later rounds those of later results |
| `DelegateRounds.RoundsAskFor` | src/webrequest/webRequestContext_result.cpp:175-223 | every round holds exactly the requests that its result asks for in the context of its time: its content goes to each service of its address in order, or to the process itself, under its schema |
| `DelegateRounds.BlocksExactly` | src/webrequest/webRequestContext_result.cpp:175-223 | a result makes no round if and only if it has no content, its address is undefined or no address, or holds none |
| `DelegateRounds.IssuedExactly` | src/webrequest/webRequestContext_result.cpp:157-234 | a result is requested if and only if it has a schema, no result with a schema up to it cannot be made or has an empty address list in the context of its time, and no earlier round has failed |
| `DelegateRounds.RequestContext.GetDelegateRequests` | src/webrequest/webRequestContext_result.cpp:157-234 | the cursor loop is the specified one |
| `DelegateRounds.RequestContext.MakeDelegates` | src/webrequest/webRequestContext_result.cpp:175-223 | the delegates of a result are made for each address in order, with the errors of the program |
| `DelegateRounds.RequestContext.RunRounds` | src/webrequest/webRequestHandler.cpp:696-761 | the loop over the rounds ends with an error, an empty round or a failed one |
| `DelegateRounds.CounterIsBarrier` | src/webrequest/configurationUpdateRequest.cpp:34-84 | however the answers interleave with the requests of a round, the next round starts exactly when no delegate has failed and every one has counted down, each once; a failure ends the wait at once |
| `DelegateRounds.FailureLeavesOpen` | src/webrequest/webRequestHandler.cpp:700-760 | a failure resets the counter while answers may be outstanding, which count it down below zero |
| `DelegateDelivery.AnswersAreBarrier` | src/webrequest/webRequestHandler.cpp:688-765 | the event loop gives these answers: however loop, other requests and round interleave, the next round starts exactly when no delegate has failed, all are issued and each that was sent away has been answered by the loop, which counts it down once |
| `DelegateDelivery.DeliveryKeeps` | src/webrequest/configurationUpdateRequest.cpp:34-84 | because the loop answers no request twice, an answer always finds its delegate open |
| `ConfigurationLoad.LoadIsOrdered` | src/webrequest/webRequestHandler.cpp:688-765 | over every run of a whole load with its event loop: each round is fetched in the context that the answers before it have made and only when all requests of earlier rounds have been answered; at the end exactly the rounds of its course have been made, and without failure all requests are answered |
| `ConfigurationLoad.FetchedRounds` | src/webrequest/webRequestHandler.cpp:688-765 | rounds fetched one after the other in changing contexts are those of the specification |
| `ConfigurationLoad.OutstandingAtEnd` | src/webrequest/webRequestHandler.cpp:700-765 | a load that fails ends with all answers if and only if none is outstanding at that moment |
| `QueryResults.ResultRoundTrip` | src/bindings/deserializer.cpp:1328-1399 | a query result survives its serialization if and only if it has ranks and all of them have summaries; a missing summary index comes back as minus one |
| `QueryResults.SummaryValueRead` | src/bindings/deserializer.cpp:1198-1210 | a list of summary elements is read back unless it is empty |
| `QueryResults.RanksRead` | src/bindings/deserializer.cpp:1287-1312 | ranks are read back exactly if all of them have summaries |
| `QueryResults.SummaryRead` | src/bindings/serializer.cpp:142-150 | the optional weight and index of a summary element are told apart again |
| `NamedResults.NamedSummaryRead` | src/bindings/deserializer.cpp:1108-1169 | a summary element with named members, in any order, is read if and only if no name occurs twice and name and value are there; each value is the one given, what is missing gets its default |
| `NamedResults.NamedRankedRead` | src/bindings/deserializer.cpp:1224-1285 | a ranked document with named members, in any order, is read if and only if no name occurs twice, number and weight are there and a summary is not empty |
| `NamedResults.NamedResultRead` | src/bindings/deserializer.cpp:1328-1399 | a query result with named members, in any order, is read if and only if no name occurs twice, the counts are there, ranks are complete and no summary is given; the behaviour is undefined if and only if a summary follows readable members |
| `UnknownResultNames.UnknownSummaryName` | src/bindings/deserializer.cpp:1108-1169 | an unknown name in a summary element leads outside of the array of marks, behind any members that can be read |
| `UnknownResultNames.UnknownRankedName` | src/bindings/deserializer.cpp:1224-1285 | so does one in a ranked document |
| `UnknownResultNames.UnknownResultName` | src/bindings/deserializer.cpp:1328-1399 | and in a result |
| `QueryResults.Serialize` | src/bindings/serializer.cpp:648-669 | the serializer of a result is the specified one |
| `QueryResultReader.GetQueryResult` | src/bindings/deserializer.cpp:1328-1399 | the reader as it runs does what the specification says, in both forms, also where the program marks a name outside of its array |
| `QueryResultReader.GetResultDocument` | src/bindings/deserializer.cpp:1224-1285 | a ranked document is read with named members or as list of values, as specified |
| `QueryResultReader.GetSummaryElement` | src/bindings/deserializer.cpp:1108-1169 | a summary element is read with named members or as list of values, as specified |
| `QueryResultReader.GetResultMembers` | src/bindings/deserializer.cpp:1339-1364 | the loop over named members reads each at most once; a summary has no mark |
| `DocumentInsertion.DocumentRoundTrip` | src/bindings/deserializer.cpp:3137-3206 | for every document: inserting its serialization tells the storage exactly what is in it, in order, without the terms beyond the greatest position, if and only if every term has a position of at least one |
| `DocumentForms.PairRead` | src/bindings/deserializer.cpp:2684-2815 | an attribute or metadata element behind its name, as tuple, or with names in any order is read if and only if name and value are given once, and the storage is told them |
| `DocumentForms.TermFormRead` | src/bindings/deserializer.cpp:2869-2937 | a term as tuple or with names in any order is read if and only if type, value and position are given once; lengths are ignored, and a position beyond the greatest one is dropped |
| `DocumentForms.StructureFormRead` | src/bindings/deserializer.cpp:2940-3006 | a structure as tuple or with names in any order is read if and only if name, source and sink are given once; with names, it is dropped if it ends beyond the greatest position |
| `DocumentForms.ContentFormRead` | src/bindings/deserializer.cpp:3016-3136 | a section of elements in these forms is read if and only if all of them are complete; that of the access rights may be a single user or no value |
| `DocumentForms.NamedDocumentRead` | src/bindings/deserializer.cpp:3137-3206 | a document with named sections in any order, also repeated, is inserted if and only if all that is given by name is complete, and the storage is told what the sections say in their order |
| `DocumentForms.ListedDocumentRead` | src/bindings/deserializer.cpp:3137-3206 | a document given as list of its type and sections is inserted if and only if, besides, there are not more sections than kinds |
| `MalformedMembers.BadPairRefused` | src/bindings/deserializer.cpp:2684-2815 | an attribute or metadata element with an unknown name, or with a value that cannot be converted, is refused, whatever members are in front of it |
| `MalformedMembers.BadTermRefused` | src/bindings/deserializer.cpp:2869-2937 | so is a term |
| `MalformedMembers.BadStructureRefused` | src/bindings/deserializer.cpp:2940-3006 | so is a structure |
| `MalformedMembers.BadSectionRefused` | src/bindings/deserializer.cpp:3137-3206 | so is a document with an unknown section name, or without a structure or value behind a known one |
| `DocumentInsertion.TermRead` | src/bindings/serializer.cpp:47-54 | a term without position is not read back, any other is |
| `DocumentInsertion.TermsRead` | src/bindings/deserializer.cpp:2868-2937 | an index section is read back exactly if all its terms have positions |
| `DocumentInsertion.StructuresRead` | src/bindings/deserializer.cpp:2984-3003 | all structures given as tuples are inserted, whatever their positions |
| `DocumentInsertion.NamedStructureRead` | src/bindings/deserializer.cpp:2939-3011 | a structure with named members is inserted if and only if it ends within the greatest position, so that both forms insert the same exactly then |
| `DocumentInsertion.AttributesRead` | src/bindings/deserializer.cpp:2749-2815 | attributes are read back in order |
| `DocumentInsertion.MetaDatasRead` | src/bindings/deserializer.cpp:2683-2747 | metadata are read back in order |
| `DocumentInsertion.Serialize` | src/bindings/serializer.cpp:151-165 | the serializer of a document is the specified one |
| `DocumentReader.BuildStorageDocument` | src/bindings/deserializer.cpp:3137-3206 | the reader as it runs does what the specification says, for documents as lists of sections and with named sections |
| `DocumentReader.BuildNamedSections` | src/bindings/deserializer.cpp:3152-3182 | named sections are read in any order |
| `DocumentReader.IndexAccess.AddTerm` | src/bindings/deserializer.cpp:2817-2866 | a term beyond the greatest position is dropped and the greatest such position remembered |
| `DocumentReader.BuildTerm` | src/bindings/deserializer.cpp:2868-2937 | a term is read as tuple, of which a fourth value is passed over, or with named members |
| `DocumentReader.GetTermMembers` | src/bindings/deserializer.cpp:2877-2913 | the loop over the named members of a term reads each at most once and passes its length |
| `DocumentReader.BuildStructure` | src/bindings/deserializer.cpp:2939-3011 | a structure is read as tuple or with named members |
| `DocumentReader.BuildAttribute` | src/bindings/deserializer.cpp:2749-2815 | an attribute is read as name and value, as tuple, or with named members |
| `DocumentReader.BuildMetaData` | src/bindings/deserializer.cpp:2683-2747 | so are metadata, with numbers as values |

## Left out

- libcurl, pipes, threads, mutexes, real files, logging, translation of messages and memory allocation: only the bookkeeping around them is modelled.
- papuga and the strus core libraries (JSON and XML mapping, automata, symbol tables, posting iterators, `fileio`) are not part of this model; conversions are parameters.
- The generator of random numbers, whose numbers are parameters of a creation.
- Schema tables, the printing code generator and the formatting of error messages: declarative data and string output.
- The schema output of metadata expressions (src/bindings/serializer.cpp:455-521), which reads past the end of its list.
- Pattern and analyzer expression builders: the same reader with other receivers.
- Sub configurations (src/webrequest/configurationHandler.cpp:289-408) beside the declaration of their names, and the listing of context types and names.
- Selection of the answer format, request dispatch, paths and error code tables: branch tables.
- TransactionPool.NoEarlyExpiry: speaks of operations one after the other; concurrent ticks and probes are only covered by the lock striping lemmas.
- MetaDataExpression.WriterWritesCode: the query analyzer between writing and serializing is taken to keep terms and groups as they are.
- MetaDataMeaning.MeaningIsExact: demands that no condition occurs twice and every operator has operands; with repeated conditions the groups of one piece of code can mean the same by chance, so that `ShapeIsExact` speaks of all code of a shape, and operators without operands are constants, which can be taken in without effect (`ConstantOperand`).
- MetaDataShapes.ShapeIsExact: demands that every operator has operands, for the same reason; nothing writes others.
- ExpressionFormsRead.ExpressionIsRead: structures in the places of values are not among its forms; that all token lists keep the discipline is stated by `ExpressionDisciplined` and `StuckExactly`.
- EventLoop.CurlEventLoop.Run: exceptions of allocations and receivers inside a round are not modelled; one between the activation of two jobs would activate the first of them again.
- DelegateRounds.RequestContext.RunRounds: what an answer makes of the context is a parameter; the automaton of its schema is not part of this model.
