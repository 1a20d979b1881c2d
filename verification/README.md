# A model of the component collection

The repository is a collection of small C++ components.  This project models the ones whose behaviour is hardest to see
from the code, and proves what each of them is for.  One module stands for one component:

| module | component |
|---|---|
| `RWLock`, `RWLockSystem`, `RWLockOutcomes` | the reader/writer lock, any number of threads that share it, and who gets in |
| `Paths`, `Store`, `FileSystem`, `FileSystemRuns` | the file system over a key-value store: paths, records, calls, runs of calls |
| `Base64`, `BlockIO`, `BlockRuns` | block input and output of that file system, and runs of writes |
| `Hex` | the winner search of the Hex board |
| `CircularList` | cycle detection and repair in a linked list |
| `Decimals` | numbers in decimal, as block names and queries hold them |
| `Words`, `Tokens`, `CityQuery`, `CityDB` | the city query engine: splitting, shunting-yard, stack evaluator, interval indexes |
| `Picks`, `SubsetSum`, `SumTable`, `Knapsack` | subset sum by backtracking and by table, and the 0/1 knapsack |
| `Coins` | giving change with two different tables |
| `Bits`, `KarpRabin` | bitwise operators, the rolling hash, the string matcher |
| `Sha1`, `Sha1Rfc`, `Sha1Abc` | streaming SHA-1, its definition bit by bit, and one digest worked out |
| `Chunking` | content-defined chunking with two thresholds and two divisors |
| `Ordered` | iteration over ordered containers in ascending order |

Code that changes state is modelled by classes and methods with loops; each such method is proved against a specification
that is defined without it (a tree of paths, the graph of a board, a recurrence over picks, the definition of RFC 3174).
`dafny verify dfyconfig.toml` checks everything.

The main results:

- Lock: in every interleaving two threads hold the lock together only as readers, a waiting writer keeps new readers out,
  no wake-up is lost, every run ends, and the counter that the program prints is exact.
- File system: every sequence of calls answers like a plain tree of paths with a descriptor table; a record lives exactly
  as long as a path or a descriptor refers to it.
- Blocks: after any writes of any files, a read returns the bytes written last, up to the first that was never written.
- Hex: the depth-first search decides connection of the two edges, and the winner follows the rules over every game.
- List: the two pointers meet exactly on a cycle, and the repair cuts exactly the tail's link.
- Cities: splitting, shunting-yard, evaluation and interval windows return exactly the cities that satisfy the formula as
  the code reads it, and it is known exactly when that is what the text says.
- Algorithms: backtracking lists every subset once; both coin tables are optimal and agree; the knapsack is optimal and its
  objects are found again; the matcher reports exactly the occurrences; streaming does not change a SHA-1 digest; chunks
  partition the data and resynchronise.

Where the code does not do what its names or comments promise, the model does what the code does, and a lemma or a
method's contract says exactly when the promise is kept:

- `CityQuery.PromiseKeptExactly`: the window of `>` is that of "at least", and the window of `>=` that of "more than"
  (`CityQuery.OperatorsAreSwapped` is a city that shows it); and with the value first the sides are not exchanged, so that
  `5 < T` is answered as `T < 5` (`CityQuery.ValueFirstIsNotMirrored`).
- `Hex.SearchAgreesWithRules`: on a board with one row the single cell is never tested against the far edge
  (`Hex.SingleCellIsMissed`).
- `Hex.GameOverMeansFullUpTo255`: the 16-bit count of moves wraps on boards of 256 rows and more, where a game that nobody
  has won is reported over although the board is not full (`Hex.CounterWraps`); on 256 rows before the first move
  (`Hex.EmptyBoardIsOver`).
- `SubsetSum.ReadsOfCompute`: the search reads past the last number when a single number exceeds the sum, or when there are
  no numbers and the sum is zero (`SubsetSum.SingleNumberReadsPastTheEnd`).
- `SumTable.TableRightExactly`: the 32-bit subtraction of a large element wraps around into the table
  (`SumTable.LargeElementIsWrong`).
- `Knapsack.TableIsOptimal`: column 0 is never filled, so an object without weight but with value is lost.
- `Coins.ChainStartsInside`: the chain of predecessors leaves the table when the amount cannot be made
  (`Coins.OneFromTwos`).
- `RWLockSystem.MainAssertHolds`: the assert at the end of the lock's program compares with a product that is positive when
  both counts are negative (`RWLockSystem.MainAssertCanFail`).
- `FileSystem.RmdirOfEmptyRoot`: removing the empty root reads a directory entry that was never filled
  (`FileSystem.RmdirOfSlash`).
- `BlockIO.BlockFile.Write`, `BlockIO.BlockFile.Read`: after the block 2^32 - 1 the block counter is zero again, and an assert
  stops every such write, and the reads that then find block 0.
- `CircularList.BuildLinkRepair`: the program's assert that the linked list is circular fails for a negative count.
- `Sha1.Context.Input`: at 2^64 bits the context is corrupted, yet that call reports success.
- `CityDB.CityDB.AddCity`: after an insertion the function ends without a value.

## Model

| member | source | states |
|---|---|---|
| `RWLock.Lock.BeginReadLock` | Threads/RWLock.cpp:64-86 | the section up to the first wait takes the lock, refuses or waits as the reader protocol says, and no assert in it fails |
| `RWLock.Lock.ResumeReadLock` | Threads/RWLock.cpp:71-85 | a woken reader waits again, still counted, while a writer holds or is pending; otherwise it holds |
| `RWLock.Lock.BeginWriteLock` | Threads/RWLock.cpp:88-109 | a writer gets a free lock at once, is refused without blocking, or is counted as pending |
| `RWLock.Lock.ResumeWriteLock` | Threads/RWLock.cpp:99-108 | a woken writer takes only an unlocked lock and is then no longer pending |
| `RWLock.Lock.Unlock` | Threads/RWLock.cpp:33-61 | the holder that leaves last frees the lock and notifies one writer if any is pending, otherwise all readers |
| `RWLockSystem.Exclusion` | Threads/RWLock.cpp:33-109 | in a state of the invariant a writer's holding leaves no other holder, and the mode says so |
| `RWLockOutcomes.ReaderEnters` | Threads/RWLock.cpp:64-86 | a reader that asks gets in exactly when no thread writes, and not while readers hold the lock and a writer waits; otherwise a try is refused and a request waits |
| `RWLockOutcomes.WritersComeFirst` | Threads/RWLock.cpp:71-75 | writer preference: while some thread holds the lock and some writer waits, no reader that asks gets in |
| `RWLockOutcomes.ReaderResumes` | Threads/RWLock.cpp:71-85 | a woken reader gets in exactly when no thread writes and no writer waits |
| `RWLockOutcomes.WriterEnters` | Threads/RWLock.cpp:88-109 | a writer that asks gets in exactly when no thread holds the lock; otherwise a try is refused and a request waits |
| `RWLockOutcomes.WriterResumes` | Threads/RWLock.cpp:99-108 | a woken writer gets in exactly when no thread holds the lock |
| `RWLockOutcomes.ReleaseWakes` | Threads/RWLock.cpp:33-61 | the last holder to leave wakes one waiting writer, or all waiting readers when no writer waits, and touches no other thread |
| `RWLockSystem.LockAssertsHold` | Threads/RWLock.cpp:37-46 | none of the lock's asserts can fail for a thread that takes a step it is ready for |
| `RWLockSystem.StepKeepsInv` | Threads/RWLock.cpp:33-109 | every step of every thread keeps the counters exact, loses no wake-up and loses no update |
| `RWLockSystem.NoDeadlock` | Threads/RWLock.cpp:52-60 | as long as some thread is unfinished, some thread can take a real step |
| `RWLockSystem.ProgressDecreases` | Threads/RWLock.cpp:71-102 | without spurious wake-ups every step lowers a measure of remaining work and signalled threads |
| `RWLockSystem.EveryRunIsSafe` | Threads/RWLock.cpp:33-109 | any programs, any interleaving: the invariant holds and the state is finished or can go on |
| `RWLockSystem.EveryRunTerminates` | Threads/RWLock.cpp:71-102 | no run without spurious wake-ups is longer than a bound known at the start |
| `RWLockSystem.EveryRunEndsWell` | Threads/RWLock.cpp:140-154 | a run that cannot go on has finished every thread, left the lock free and counted every write once |
| `RWLockSystem.MainWriteRequests` | Threads/RWLock.cpp:148-173 | how many write sections the started threads ask for, negative counts included |
| `RWLockSystem.MainAssertHolds` | Threads/RWLock.cpp:156-184 | the final assert holds exactly when the product is zero or both counts are positive |
| `RWLockSystem.MainAssertCanFail` | Threads/RWLock.cpp:156-184 | it fails for -1 writers and -1 iterations |
| `Paths.UniqueSlashes` | rocksfs/utils.cc:12-25 | collapsing keeps the components of the path and leaves no double slash |
| `Paths.PathConvert` | rocksfs/utils.cc:20-42 | the result is the canonical path of "root" followed by the non-empty components of the input |
| `Paths.ComponentsOfName` | rocksfs/utils.cc:12-42 | a string without a slash is one component, or none when it is empty |
| `Paths.ComponentsConcat` | rocksfs/utils.cc:12-42 | the components of two strings with a slash between them are those of the first and then those of the second |
| `Paths.ReadComponent` | rocksfs/rocksfs.cc:345-348 | reading a canonical path up to a slash gives its first component and the rest |
| `Paths.ReadNext` | rocksfs/rocksfs.cc:345-348 | continuing gives the next component, and the end of the stream exactly at the last one |
| `Paths.CutLast` | rocksfs/rocksfs.cc:399-412 | cutting at the last slash separates the parent's path from the last component |
| `Store.NamesAreNotKeywords` | rocksfs/rocksfs.cc:105-125 | no path component is a keyword of a record |
| `Store.FreshStore` | rocksfs/rocksfs.cc:290-306 | the store that mkfs makes represents the tree with only the root |
| `Store.AddKeeps` | rocksfs/rocksfs.cc:444-454 | adding an entry and a record adds exactly one inode to the represented tree |
| `Store.DeleteKeeps` | rocksfs/rocksfs.cc:498-507 | removing an entry and its record removes exactly one inode |
| `Store.UnlinkKeeps` | rocksfs/rocksfs.cc:623-656 | removing only the entry removes the inode and keeps its record as an orphan |
| `Store.ReapKeeps` | rocksfs/rocksfs.cc:582-597 | deleting an orphan's record leaves the tree alone |
| `Store.StoreDeterminesTree` | rocksfs/rocksfs.cc:332-397 | one store represents only one tree |
| `FileSystem.RocksFS.constructor` | rocksfs/rocksfs.cc:249-280 | opening a store gives the tree it holds, or a new root beside records that no path names, with nothing open |
| `FileSystem.RocksFS.Namei` | rocksfs/rocksfs.cc:332-397 | a path walk gives the inode of the plain tree, or the error of the first component that is missing or a file |
| `FileSystem.RocksFS.LookupParent` | rocksfs/rocksfs.cc:399-414 | the parent directory and the last name, or the error of the way there |
| `FileSystem.RocksFS.Mkdir` | rocksfs/rocksfs.cc:416-459 | adds one directory to the tree exactly when the path is new and not empty and its parent is a directory, and otherwise changes nothing |
| `FileSystem.RocksFS.Create` | rocksfs/rocksfs.cc:542-580 | the same for a file |
| `FileSystem.MakeOutcomes` | rocksfs/rocksfs.cc:416-459 | on every tree and path, exactly when mkdir and create succeed and exactly when they answer EEXIST, ENOTDIR and ENOENT |
| `FileSystem.RocksFS.IsDirEmpty` | rocksfs/rocksfs.cc:127-141 | a directory record without names means a tree node without children |
| `FileSystem.RocksFS.Rmdir` | rocksfs/rocksfs.cc:462-512 | removes one empty directory or reports why not, and then changes nothing |
| `FileSystem.RmdirOutcomes` | rocksfs/rocksfs.cc:462-512 | on every tree and string, exactly when rmdir succeeds and exactly when it gives each of its errors |
| `FileSystem.RmdirOfEmptyRoot` | rocksfs/rocksfs.cc:466-499 | the uninitialised read happens exactly for a non-empty path that names the root while it is empty |
| `FileSystem.RmdirOfSlash` | rocksfs/rocksfs.cc:466-499 | the path / on a new file system is such an input |
| `FileSystem.RocksFS.Unlink` | rocksfs/rocksfs.cc:599-661 | removes one file from the tree; an open file only becomes marked |
| `FileSystem.RocksFS.UnlinkOpenInode` | rocksfs/rocksfs.cc:622-654 | an open file's entry goes, its record stays and is marked deleted |
| `FileSystem.RocksFS.LazyUnlink` | rocksfs/rocksfs.cc:582-597 | the assert on the deletion mark holds, and the record goes |
| `FileSystem.RocksFS.FdAllocate` | rocksfs/rocksfs.cc:180-192 | the smallest number that is no descriptor |
| `FileSystem.RocksFS.Open` | rocksfs/rocksfs.cc:663-703 | binds the smallest unused descriptor to the file the path names, and only that |
| `FileSystem.FileOutcomes` | rocksfs/rocksfs.cc:599-703 | on every tree and path, exactly when open and unlink find their file and exactly when they answer EISDIR, ENOTDIR and ENOENT |
| `FileSystem.RocksFS.Close` | rocksfs/rocksfs.cc:705-727 | unbinds the descriptor; the last one closes the file, and deletes its record exactly when it was unlinked |
| `FileSystem.RocksFileImpl.Close` | rocksfs/rocksfile.cc:71-79 | the count falls by one, and deletion is due exactly at zero of an unlinked file |
| `FileSystem.OpenTableIsExact` | rocksfs/rocksfs.cc:216-247 | open table, reference counts and deletion marks say exactly which descriptors and paths there are |
| `FileSystemRuns.RecordsLive` | rocksfs/rocksfs.cc:599-727 | a record exists exactly while a path names it, a descriptor is bound to it, or an earlier process left it |
| `FileSystemRuns.Perform` | rocksfs/rocksfs.cc:416-727 | one call answers and acts like the plain file system |
| `FileSystemRuns.RunCalls` | rocksfs/rocksfs.cc:416-727 | every sequence of calls with fresh keys does |
| `FileSystemRuns.FromEmpty` | rocksfs/rocksfs.cc:249-306 | so does every sequence from an empty store, starting at the bare root |
| `Base64.Encode` | rocksfs/base64.cc:41-80 | the loop over three-octet buffers computes the encoding of RFC 4648, section 4 |
| `Base64.Decode` | rocksfs/base64.cc:82-122 | on every string the loop decodes the alphabet characters before the first other one; garbage in a last group is not emitted |
| `Base64.EncodingLength` | rocksfs/base64.cc:49-77 | four characters for every three octets begun |
| `Base64.RoundTrip` | rocksfs/base64.cc:41-122 | decoding undoes encoding for every sequence of octets |
| `Base64.AlphabetInOrder` | rocksfs/base64.cc:30-33 | the digits are the characters of the alphabet string in its order |
| `Base64.Examples` | rocksfs/base64.cc:41-80 | the encodings of "foo", "foob", "fooba" and "foobar" of RFC 4648, section 10 |
| `Base64.DecodingStops` | rocksfs/base64.cc:91 | a character outside of the alphabet and all after it change nothing |
| `Base64.DecodingLength` | rocksfs/base64.cc:82-122 | three octets of every four digits, and one or two of two or three more |
| `BlockIO.BlockKeysDiffer` | rocksfs/rocksfile.cc:144 | two blocks of any files share a name only when they are the same block |
| `BlockIO.BlockFile.constructor` | rocksfs/rocksfile.cc:49-64 | the shift found from the mask belongs to the block size, which is a power of two |
| `BlockIO.BlockFile.IoBlocks` | rocksfs/rocksfile.cc:42-47 | the first and the last block of any range, in 64-bit arithmetic cut to 32 bits |
| `BlockIO.BlockFile.Decode` | rocksfs/rocksfile.cc:92-106 | the asserts on the record hold, and the bytes fill the block |
| `BlockIO.WholeRange` | rocksfs/rocksfile.cc:42-47 | for whole blocks with numbers of 32 bits nothing is cut, and the blocks cover the range exactly |
| `BlockIO.LimitsInBytes` | rocksfs/rocksfile.cc:42-47 | the range that Write and Read are stated for and its last case, in bytes: up to and exactly at 2^32 times the block size |
| `BlockIO.BlockFile.Write` | rocksfs/rocksfile.cc:126-184 | exactly the covered blocks of this file hold the buffer afterwards and every file stays readable; an assert stops exactly the writes that end with block 2^32 - 1, before anything is stored |
| `BlockIO.BlockFile.Read` | rocksfs/rocksfile.cc:186-240 | the longest run of written blocks from the offset, and its length; an assert stops exactly the reads that find everything up to block 2^32 - 1 and then block 0 |
| `BlockIO.WriteSetsBytes` | rocksfs/rocksfile.cc:126-184 | as a map of bytes: a write sets its range of one file and nothing else |
| `BlockIO.ReadGivesBytes` | rocksfs/rocksfile.cc:186-240 | as a map of bytes: a read gives the bytes from its offset, and when short the next was never written |
| `BlockIO.ReadBack` | rocksfs/rocksfile.cc:126-240 | reading what was just written gives it back |
| `BlockRuns.WriteContained` | rocksfs/rocksfile.cc:126-184 | a write keeps every byte of every file the one written last, in records that can be read |
| `BlockRuns.WriteAll` | rocksfs/rocksfile.cc:126-184 | after any writes of any files from the empty store, each byte of each file is the one written last, or none |
| `BlockRuns.LatestIs` | rocksfs/rocksfile.cc:126-184 | the byte written last is that of the write that covers the position while no later one does, and none exactly when no write does |
| `BlockRuns.WriteAllAndRead` | rocksfs/rocksfile.cc:126-240 | a read after any writes returns the bytes written last from its offset up to the first never written, and it is known exactly when an assert stops it |
| `Hex.NoPathFrom` | Hex/src/Hex.cpp:190-239 | a visited set closed under own neighbours without a far-edge cell rules out every chain from its start |
| `Hex.SearchAgreesWithRules` | Hex/src/Hex.cpp:249-304 | what the search looks for is a connecting chain, on every board but the one with a single row |
| `Hex.SingleCellIsMissed` | Hex/src/Hex.cpp:213-229 | the single cell of a one-row board connects and is not found |
| `Hex.NeighboursAreOneApart` | Hex/src/Hex.cpp:12-19 | the six directions lead exactly to the other cells whose coordinates and whose coordinate sum differ by at most one |
| `Hex.RulesInCoordinates` | Hex/src/Hex.cpp:190-239 | connecting, for each player, is a trail of own cells one step apart from row 0 to the last row, or from column 0 to the last column |
| `Hex.MoveKeepsOther` | Hex/src/Hex.cpp:155-166 | a move neither makes nor breaks a chain of the other player |
| `Hex.HexBoard.constructor` | Hex/src/Hex.cpp:106-112 | a square of free cells without a winner |
| `Hex.HexBoard.IsPlayerWinner` | Hex/src/Hex.cpp:190-239 | the recursion ends, and either leaves a winning chain on the path or has exhausted all that can be reached |
| `Hex.HexBoard.VisitNeighbor` | Hex/src/include/Hex.h:38-45 | one neighbour: the iteration stops exactly when the player has won |
| `Hex.HexBoard.SearchFrom` | Hex/src/Hex.cpp:277-293 | one start cell; a failed search restores the empty path |
| `Hex.HexBoard.IsGameOver` | Hex/src/Hex.cpp:249-304 | sets the winner exactly when a chain from edge to edge exists, and the recorded path is one, without repeats; all asserts hold |
| `Hex.HexBoard.PlayerPlayed` | Hex/src/Hex.cpp:155-166 | an occupied or foreign cell changes nothing; a free one is taken, counted, and the winner is up to date |
| `Hex.WinnerFollowsRules` | Hex/src/Hex.cpp:155-189 | in every reachable game nobody is the winner exactly while neither player connects, and a winner does |
| `Hex.Play` | Hex/src/Hex.cpp:106-189 | every game, played to any point, has for winner the player who first connected two edges, and none before |
| `Hex.GameOverMeansFullUpTo255` | Hex/src/Hex.cpp:249-304 | in games that nobody has won, the answer of IsGameOver means a full board for all games exactly up to 255 rows |
| `Hex.CounterWraps` | Hex/src/Hex.cpp:155-170 | for every larger size a game, move by move, that nobody has won and whose counter calls the board full while it is not |
| `Hex.EmptyBoardIsOver` | Hex/src/Hex.cpp:168-170 | with 256 rows the empty board is one |
| `Hex.CounterIsExact` | Hex/src/Hex.cpp:168-170 | up to 255 rows the counters tell a full board on every board |
| `CircularList.Meeting` | BasicDS/List/check_circle.cpp:141-156 | pointers that are at one node are inside the cycle, after whole laps |
| `CircularList.List.MeetingExactly` | BasicDS/List/check_circle.cpp:141-156 | the pointers are at one node exactly after whole laps past the entry of a cycle |
| `CircularList.MeetingHappens` | BasicDS/List/check_circle.cpp:141-156 | after whole laps past the entry they are at one node |
| `CircularList.List.StepsBound` | BasicDS/List/check_circle.cpp:141-156 | a number of steps by which they meet on every list with a cycle |
| `CircularList.StepsToEntry` | BasicDS/List/check_circle.cpp:188-197 | walking from head and meeting point together, the two are first at one node at the entry |
| `CircularList.List.PushBack` | BasicDS/List/check_circle.cpp:108-116 | one new node at the end of a straight list |
| `CircularList.List.MeetingPoint` | BasicDS/List/check_circle.cpp:136-158 | ends on every list, with the end exactly when no link leads back |
| `CircularList.List.IsCircular` | BasicDS/List/check_circle.cpp:160-162 | decides whether the tail is linked back |
| `CircularList.List.MakeListCircular` | BasicDS/List/check_circle.cpp:164-180 | links the tail to the first node with the number, or changes nothing |
| `CircularList.List.NodeBehind` | BasicDS/List/check_circle.cpp:192-197 | the last node passed before the two pointers meet is the tail |
| `CircularList.List.FixList` | BasicDS/List/check_circle.cpp:182-201 | clears the tail's link and leaves the same nodes in the same order |
| `CircularList.BuildLinkRepair` | BasicDS/List/check_circle.cpp:203-237 | the program ends with the list it built; its assert after linking holds exactly for positive counts |
| `Tokens.Tokanize` | interval-tree/city/Token.cpp:91-113 | each string's token, keywords told from other identifiers |
| `Tokens.OperatorTexts` | interval-tree/city/Token.cpp:37-89 | each operator has exactly one text, and every other readable string is an identifier |
| `Tokens.RecursiveDecent` | interval-tree/city/parser.cpp:33-73 | the loops compute the shunting-yard order |
| `Tokens.PopHigher` | interval-tree/city/parser.cpp:46-65 | exactly the operators that bind at least as tightly leave the stack, in stack order |
| `Tokens.PopsExactly` | interval-tree/city/Token.cpp:11-23 | which operator on the stack leaves for which arriving one, pair by pair |
| `Words.Split` | interval-tree/city/parser.cpp:14-31 | the words between blanks, and an empty string more after a blank at the end or for an empty line |
| `Words.SplitJoined` | interval-tree/city/parser.cpp:14-31 | splitting gives back words that were joined by blanks |
| `Words.SplitPair` | interval-tree/city/parser.cpp:14-31 | two strings without a space and a space between them are split into the two |
| `CityQuery.PromiseKeptExactly` | interval-tree/city/CityDB.h:193-257 | for every city and comparison, keyword first or value first: the answer is the one that the text promises exactly under a condition on range, value, operator and order |
| `CityQuery.NumberOfDecimal` | interval-tree/city/CityDB.h:208 | a decimal text stands for its number, with or without a sign and whatever follows the digits |
| `CityQuery.DecimalAtom` | interval-tree/city/CityDB.h:208 | of all decimal values and all operators, exactly which are covered |
| `CityQuery.AtomInNumbers` | interval-tree/city/CityDB.h:193-240 | the answer to a comparison in the four numbers of the city, operator by operator |
| `CityQuery.PromiseInNumbers` | interval-tree/city/CityDB.h:242-257 | what the text promises, in the same numbers, operator by operator and for both orders |
| `CityQuery.OperatorsAreSwapped` | interval-tree/city/CityDB.h:227-232 | a city for which `T > 5` says yes and `T >= 5` says no, against the text |
| `CityQuery.ValueFirstIsNotMirrored` | interval-tree/city/CityDB.h:242-257 | a city never above 3 for which `5 < T` says yes |
| `CityQuery.FormulasAgreeExactly` | interval-tree/city/CityDB.h:193-290 | for a city and a set of comparisons, all formulas of these are answered as written exactly when each comparison is |
| `CityQuery.FormulaInAtoms` | interval-tree/city/CityDB.h:272-290 | a formula is answered yes exactly when all comparisons of one of its groups are |
| `CityQuery.PromiseInAtoms` | interval-tree/city/CityDB.h:272-290 | and its text promises yes exactly when that of all comparisons of one group does |
| `CityQuery.FormulaHasText` | interval-tree/city/parser.cpp:14-31 | every formula whose values hold no blank has a text that splits into its strings |
| `CityQuery.AtomTexts` | interval-tree/city/Token.cpp:11-23 | the three strings of each comparison, in both orders |
| `CityQuery.AtomComesLast` | interval-tree/city/parser.cpp:33-73 | one comparison more in a group adds && and its strings to the text |
| `CityQuery.GroupComesLast` | interval-tree/city/parser.cpp:33-73 | one group more adds \|\| and the strings of the group |
| `CityQuery.FormulaShunts` | interval-tree/city/parser.cpp:33-73 | every formula of atoms, && and \|\| is turned into its postfix form, && binding tighter |
| `CityQuery.FormulaEvaluates` | interval-tree/city/CityDB.h:318-346 | evaluating the postfix form leaves one result, the satisfying cities, and no token |
| `CityQuery.QueryMeansFormula` | interval-tree/city/CityDB.h:318-346 | strings, tokens, shunting-yard and evaluation together give the meaning of the formula, each comparison as the code makes it |
| `CityDB.Index.AddCity` | interval-tree/city/CityDB.h:52-56 | the key is added at exactly the points of the right-open range |
| `CityDB.Index.Query` | interval-tree/city/CityDB.h:58-66 | exactly the keys whose range meets the window |
| `CityDB.CityDB.IndexCreate` | interval-tree/city/CityDB.h:171-191 | both indexes and the enclosing bounds follow the new city |
| `CityDB.CityDB.AddCity` | interval-tree/city/CityDB.h:303-316 | a new name is stored under the next key, and no value is returned; a known name changes nothing |
| `CityDB.CityDB.WindowMeans` | interval-tree/city/CityDB.h:210-237 | overlap of a city's range with the chosen window is the comparison that the code makes |
| `CityDB.CityDB.QueryAtom` | interval-tree/city/CityDB.h:193-240 | one comparison through the index gives the cities that satisfy it |
| `CityDB.CityDB.QueryOperator` | interval-tree/city/CityDB.h:242-270 | two tokens become one result, whichever comes first; the asserts hold |
| `CityDB.CityDB.ResultJoin` | interval-tree/city/CityDB.h:272-290 | two results become their intersection or union |
| `CityDB.CityDB.Query` | interval-tree/city/CityDB.h:318-355 | from a text to the stored cities that satisfy its formula, in the order of their keys, and both stacks empty again; where the cities agree with the comparisons, they are those that the text asks for |
| `SubsetSum.SolutionsSound` | BasicDS/Backtracking/SubsetSum.cpp:38-58 | what exhaustive search lists has the sum |
| `SubsetSum.SolutionsComplete` | BasicDS/Backtracking/SubsetSum.cpp:38-58 | and every choice with the sum is listed |
| `SubsetSum.SolutionsDistinct` | BasicDS/Backtracking/SubsetSum.cpp:38-58 | once |
| `Picks.WeightIsTotal` | BasicDS/Backtracking/SubsetSum.cpp:24-36 | the weight of a choice is the sum of the numbers that it selects |
| `Picks.SelectedInOrder` | BasicDS/Backtracking/SubsetSum.cpp:24-36 | a number that is chosen comes right after those chosen before it |
| `SubsetSum.NoneLeft` | BasicDS/Backtracking/SubsetSum.cpp:50-54 | where the bounding function prunes, nothing would be found |
| `SubsetSum.Search.InsertResult` | BasicDS/Backtracking/SubsetSum.cpp:24-36 | appends the numbers marked in the bitmap up to the index; both asserts hold |
| `SubsetSum.Search.ComputeFrom` | BasicDS/Backtracking/SubsetSum.cpp:38-58 | appends exactly the completions of the current prefix, in order, and leaves the prefix of the bitmap alone |
| `SubsetSum.Search.Compute` | BasicDS/Backtracking/SubsetSum.cpp:60-70 | finds every non-empty subset with the sum once, and nothing on a second call |
| `SubsetSum.ReadsOfCompute` | BasicDS/Backtracking/SubsetSum.cpp:38-57 | the search stays inside the numbers exactly for two numbers or more, one not above the sum, or none and a sum above zero |
| `SubsetSum.SingleNumberReadsPastTheEnd` | BasicDS/Backtracking/SubsetSum.cpp:46 | the number 5 and the sum 3 are such a case |
| `SubsetSum.FindSubsets` | BasicDS/Backtracking/SubsetSum.cpp:18-74 | the results are the non-empty subsets with the sum, and there are some exactly when the sum can be made |
| `SubsetSum.FoundIffMade` | BasicDS/Backtracking/SubsetSum.cpp:60-70 | the search finds something exactly when the sum can be made and is not zero |
| `SumTable.NextRowRight` | BasicDS/DynamicProgramming/SumOfSubset.cpp:67-76 | below a right row the next one is right exactly when its element does no harm by wrapping around |
| `SumTable.TableRightExactly` | BasicDS/DynamicProgramming/SumOfSubset.cpp:67-76 | all entries are right exactly when no element does harm |
| `SumTable.LargeElementIsWrong` | BasicDS/DynamicProgramming/SumOfSubset.cpp:71-73 | elements 3 and 2^32 - 1 with the sum 3 give a wrong entry |
| `SumTable.DPTable.Fill` | BasicDS/DynamicProgramming/SumOfSubset.cpp:67-76 | the loops fill in the recurrence, with the 32-bit subtraction |
| `SumTable.DecideSums` | BasicDS/DynamicProgramming/SumOfSubset.cpp:56-78 | every printed entry says whether the first elements have that sum, exactly when no element does harm |
| `SumTable.FoundIffTableSays` | BasicDS/DynamicProgramming/SumOfSubset.cpp:67-76 | on the same numbers the search finds something exactly when the table's last entry says yes and the sum is not zero |
| `Knapsack.EntryIsBest` | BasicDS/DynamicProgramming/Knapsack-01.cpp:81-89 | without free objects an entry is the best worth within its capacity |
| `Knapsack.TableIsOptimal` | BasicDS/DynamicProgramming/Knapsack-01.cpp:78-92 | every entry of every prefix is optimal exactly when no object is free |
| `Knapsack.BuildTable` | BasicDS/DynamicProgramming/Knapsack-01.cpp:78-92 | the loops fill in the recurrence, with column 0 left at zero |
| `Knapsack.TakenFits` | BasicDS/DynamicProgramming/Knapsack-01.cpp:104-113 | an entry that differs from the one above comes from an object that fits |
| `Knapsack.GetObjects` | BasicDS/DynamicProgramming/Knapsack-01.cpp:94-114 | ends with objects, each used at most once, within the limit and worth the table's last entry |
| `Knapsack.Solve` | BasicDS/DynamicProgramming/Knapsack-01.cpp:153-154 | table and reconstruction together give an optimal choice when no object is free |
| `Coins.FewestUsed` | BasicDS/DynamicProgramming/Coin.cpp:44-46 | one denomination more: the fewest coins leave it alone or use one coin of it |
| `Coins.FewestDecides` | BasicDS/DynamicProgramming/Coin.cpp:60-62 | the largest entry value marks exactly the amounts that cannot be made |
| `Coins.BuildCoinTable` | BasicDS/DynamicProgramming/Coin.cpp:23-54 | every entry is the fewest coins for its prefix of the denominations and its amount |
| `Coins.GetCoins` | BasicDS/DynamicProgramming/Coin.cpp:56-80 | ends with coins that make the value, no others make it with fewer; none when it cannot be made |
| `Coins.BestIsFewest` | BasicDS/DynamicProgramming/DPCoin.cpp:26-36 | choosing the last coin best gives the fewest coins |
| `Coins.DPCoin` | BasicDS/DynamicProgramming/DPCoin.cpp:17-44 | fewest coins for every amount, and predecessors one denomination and one coin lower |
| `Coins.TablesAgree` | BasicDS/DynamicProgramming/DPCoin.cpp:17-44 | the last row of one table is the other table |
| `Coins.ChainStartsInside` | BasicDS/DynamicProgramming/DPCoin.cpp:85-89 | following predecessors stays inside the table exactly when the value can be made |
| `Coins.OneFromTwos` | BasicDS/DynamicProgramming/DPCoin.cpp:85-89 | coins of 2 and the value 1 lead outside |
| `Coins.FollowChain` | BasicDS/DynamicProgramming/DPCoin.cpp:85-90 | the printed chain goes down to zero by denominations, in the fewest steps |
| `KarpRabin.MaskIsAllOnes` | BasicDS/String/RollingHash.h:8-14 | the computed mask has all the bits below the word size |
| `Bits.MaskKeepsLowBits` | BasicDS/String/RollingHash.h:77-85 | masking is the remainder by a power of two |
| `KarpRabin.ModTwice` | BasicDS/String/RollingHash.h:77-85 | the 32-bit wrap-around before the mask changes nothing |
| `KarpRabin.PolySlides` | BasicDS/String/RollingHash.h:81-86 | the polynomial of the next window from that of this one |
| `KarpRabin.KarpRabinHash.constructor` | BasicDS/String/RollingHash.h:63-71 | the power that removes the oldest character, reduced |
| `KarpRabin.KarpRabinHash.Eat` | BasicDS/String/RollingHash.h:77-79 | the state is the hash of the longer window |
| `KarpRabin.KarpRabinHash.Update` | BasicDS/String/RollingHash.h:81-86 | the state is the hash of the window moved by one |
| `KarpRabin.GetStringHash` | BasicDS/String/RobinKarpStringMatch.cpp:6-12 | the reduced polynomial hash of the string |
| `KarpRabin.FindMatches` | BasicDS/String/RobinKarpStringMatch.cpp:14-49 | exactly the positions where the pattern occurs, in order, for any character table |
| `Sha1.CircularShiftRotates` | rocksfs/sha1.c:37-38 | the shift macro rotates |
| `Sha1.PadInPlace` | rocksfs/sha1.c:366-388 | up to 55 octets in the last block, the padded message ends in that block |
| `Sha1.PadInNewBlock` | rocksfs/sha1.c:351-365 | with more, it ends in one block more |
| `Sha1.LengthWords` | rocksfs/sha1.c:379-386 | the two length words are the 64-bit length of section 4 of RFC 3174 |
| `Sha1.OctetCompletes` | rocksfs/sha1.c:184-206 | the octet that fills the block advances the digest by one block |
| `Sha1.OctetsGiveState` | rocksfs/sha1.c:130-134 | the digest octets determine the five hash words |
| `Sha1.Context.Reset` | rocksfs/sha1.c:59-80 | a context that has absorbed nothing |
| `Sha1.Context.MessageSchedule` | rocksfs/sha1.c:248-259 | the 80 words of section 6.1 of RFC 3174 |
| `Sha1.Context.EightyRounds` | rocksfs/sha1.c:261-308 | the four loops are the 80 rounds |
| `Sha1.Context.ProcessMessageBlock` | rocksfs/sha1.c:232-317 | one block is compressed into the hash |
| `Sha1.Context.InputOctet` | rocksfs/sha1.c:186-205 | the context has absorbed one octet more, and is corrupted exactly at 2^64 bits |
| `Sha1.Context.Input` | rocksfs/sha1.c:159-209 | absorbs the piece, or reports the state that forbids it |
| `Sha1.Context.PadMessage` | rocksfs/sha1.c:343-389 | the hash becomes the digest of the whole message |
| `Sha1.Context.Result` | rocksfs/sha1.c:101-137 | the octets of the digest, again on every later call, or the error |
| `Sha1.HashInPieces` | rocksfs/sha1.c:59-209 | however a message below 2^64 bits is cut into pieces, the digest is that of RFC 3174 for the whole |
| `Sha1Rfc.BitsAreChosen` | rocksfs/sha1.c:267-276 | rounds 0 to 19: each bit of the first word chooses between those of the others |
| `Sha1Rfc.BitsAreAdded` | rocksfs/sha1.c:278-308 | rounds 20 to 39 and 60 to 79: each bit is the sum of three modulo 2 |
| `Sha1Rfc.BitsAreVoted` | rocksfs/sha1.c:288-298 | rounds 40 to 59: a bit in which two words agree is theirs |
| `Sha1Rfc.ConstantsAreRoots` | rocksfs/sha1.c:234-239 | the four constants are the square roots of 2, 3, 5 and 10, times 2^30 and rounded down |
| `Sha1Rfc.ScheduleInWords` | rocksfs/sha1.c:256-259 | each later word of the schedule from the words 3, 8, 14 and 16 places before, rotated by one |
| `Sha1Rfc.BlockInWords` | rocksfs/sha1.c:248-254 | the first 16 words hold the octets of the block, the first octet the most significant |
| `Sha1Rfc.RoundInWords` | rocksfs/sha1.c:267-276 | one round on the five words |
| `Sha1Rfc.BlocksInWords` | rocksfs/sha1.c:310-314 | a block adds to each word what the 80 rounds make of it, from the five initial words on |
| `Sha1Rfc.PaddingInOctets` | rocksfs/sha1.c:343-389 | octet by octet: the message, 0x80, zeros, and the length in bits as two words, in the fewest blocks |
| `Sha1Abc.RunIsRounds` | rocksfs/sha1.c:256-308 | a window of sixteen words is enough for all the rounds |
| `Sha1Abc.DigestOfAbc` | rocksfs/sha1.c:59-209 | the digest of "abc" is the one that section 7.3 of RFC 3174 gives |
| `Chunking.CutIsUnique` | BasicDS/CDC/tttd.h:42-69 | the description of a cut leaves no choice |
| `Chunking.CutSize` | BasicDS/CDC/tttd.h:47-68 | chunks are never empty, short only at the end, and never too long |
| `Chunking.TTTD.SetRecommendedChunkSize` | BasicDS/CDC/tttd.h:35-39 | the divisors are usable exactly for sizes from 1015 on |
| `Chunking.TTTD.Chunkify` | BasicDS/CDC/tttd.h:42-69 | the first main hit, else the end of short data, else the last backup hit, else the longest chunk |
| `Chunking.PiecesAreTheData` | BasicDS/CDC/main.cpp:344-351 | the chunks of a buffer put together are the buffer |
| `Chunking.ChunkingIsUnique` | BasicDS/CDC/main.cpp:344-351 | a buffer can be cut in one way only |
| `Chunking.CommonEndSameChunks` | BasicDS/CDC/tttd.h:43 | two buffers with a common end have the same chunks after a boundary where it begins |
| `Chunking.ChunkBuffer` | BasicDS/CDC/main.cpp:344-351 | the loop ends and cuts the buffer up chunk by chunk |

## Left out

- AsyncIO, pcap, extern-c, serialize and the build files are foreign calls and glue.
- RocksDB, JSON text, gcrypt, Boost and console output: the store is a map to records, a batch is applied at once and never fails.
- FileSystem.RocksFS.Mkdir: the key comes as a parameter that is not in the store; the source hashes the path and the clock.
- FileSystem.RocksFS.Create: likewise; the record's own key and parent are swapped as in the source, so nothing is stated about them.
- FileSystem.RocksFS.Open: the branch for a missing record is left out, because the record of a named file is always there.
- FileSystem.RocksFS.Close: reference counts and descriptors are unbounded integers, so a wrap of the 32-bit count is not modelled.
- Listing a directory only prints it; reading and writing through a descriptor is modelled per file in BlockIO, whose store is apart from the directory records.
- BlockIO.BlockFile.Write: ranges that are not aligned or not whole blocks, on which the source asserts, and block numbers from 2^32 on, which it cuts to 32 bits (`BlockIO.BlockFile.IoBlocks` says how), are left out; so is the failing store write.
- BlockIO.BlockFile.Read: the same ranges; and files written with another block size, which no run of writes produces.
- Hex: displaying the board and sorting the winning path are left out; that a full board has a winner is a topological theorem and no step of this code.
- CircularList: iterators are node references; the destructor and `PushFront` are left out; the clock is a parameter.
- CityDB.CityDB.Query: a text that ends in a blank gives an empty last string, and the evaluator's asserts stop at it; formulas use the comparisons other than `!=`, which the source does not implement, and values below the largest 64-bit number.
- The interval map is a map from points to sets of keys; saving and loading are left out.
- SubsetSum: the numbers come sorted, positive, and with a total that fits an int.
- SumTable.DecideSums: the sum is below the largest int, where the loop counter of the source would overflow.
- Knapsack.GetObjects: the final sort by weight is left out; the result is stated as a multiset.
- Knapsack: weights and values are not negative and the values' total fits an int.
- Coins: denominations are positive; with a zero the source's loops would not end.
- KarpRabin: the random character table is any function; patterns longer than the text and its final zero read past the end in the source.
- Sha1: null pointers are not modelled; sha1.h is not part of this model, and its codes have the values of RFC 3174.
- Chunking: the hash is any function of the bytes since the reset; the sliding window of the repository's rolling hash never slides, and which chunks are recorded is left out.
- RWLockSystem: the threads' programs are lists of lock requests; time, fairness and the mutex itself are left out, and each section under the mutex is one step.
- BinaryTree.h does not compile; the date and prime programs have wrong ranges; the sorting variants, string utilities, stacks and the calculator would only add easy members.
