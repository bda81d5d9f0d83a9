# Verification of a Dofus server's core algorithms and file formats

Dafny models of the parts of the repository that compute something intricate, with proofs about every input or every run.
`dafny verify dfyconfig.toml` checks all of them.

* **Map grid and search** (`Grid`, `Walk`, `Search`, `SearchResults`, `Pathfinding`, `PathfindingResults`, `WrappedMap`,
  `Moves`). The staggered diamond grid, A* with its budget and its wall rule as a transition system, the array and heap
  code that runs it, and the meaning of its answers. Neighbours are found by an id range test alone, so a cell at a row
  end has "wrapped" neighbours on the other side. Soundness and completeness hold on every map. So does this: the answer
  is no longer than any walk whose every step lowers the distance estimate by at most one. On a map without wrapped moves
  these are all walks; `WrappedMap` is a map on which a shorter walk, through one wrapped move, is missed. `Moves` says in
  coordinates and cell flags alone which moves a map allows.
* **Line of sight** (`LineOfSight`). The error-term walk equals the rounded segment between the two cells.
* **Bytes** (`Binary`, `VarInt`, `ByteIO`, `Framing`). Big-endian and variable-length integers, message headers, and the
  decoder over a growing buffer. A buffer cut inside a length field is an error rather than a request for more bytes.
* **Data files** (`D2o*`, `D2p*`, `D2i*`, `Sorting`). Writers and readers of the object, archive and text formats, each
  once as functions on byte strings and once as the cursor-driven loops that compute them, with the exact conditions
  under which nothing is lost.
* **Protocol generator** (`Schema`, `FlagByte`, `Generated`, `WireFormat`, `GeneratedRoundTrip`, `LateFlags`,
  `Inheritance`, `Hierarchies`). The emitted serialize and deserialize bodies as small programs with interpreters. All
  flag bytes are read before the struct literal, so a class round-trips exactly when every run of packed booleans has at
  most eight and only fields that write nothing stand in front of it. Inheritance and type hierarchies are built on
  arbitrary, also cyclic, parent maps.
* **SWF patching** (`Swf`, `SwfContents`, `SwfIO`). The tag patcher against the code extractor, and what each finds in
  a file built from any list of tags; tags are laid out as in chapter 2, "SWF Structure Summary", of Adobe's SWF File
  Format Specification, version 19.
* **Criterion language** (`Criterion`, `CriterionText`). Parser and evaluator against a minimally parenthesising printer,
  and the meaning of the texts without any tree.
* **Trap networks** (`Marks`, `MarkManager`) and **the shared world** (`WorldSteps`, `World`). What a player sees after
  changing maps is right exactly when no message still queued from before contradicts the new map.

How the models read the code:

* Strings are byte sequences, or ASCII text in criteria. In the archive readers UTF-8 is a parameter: which byte strings
  are valid, and what an invalid one becomes when it is decoded lossily; a valid one decodes to itself.
  Floating point numbers are bit patterns.
* Arithmetic whose overflow aborts a checked build, a negative capacity and a read behind the end are errors (`Err`).
  Casts wrap as written in the source.
* The iteration order of a hash map is a parameter or a free choice, and so is the choice among heap entries of equal f.
* A method over a cursor, an array or a class field is tied to a function of its input; the theorems are about that function.
* The documentation of the D2I reader says that a sort entry is a pair of id and sort index, and that of the D2P reader
  that two bytes before the end point at a table. The code reads ids alone and a footer of 24 bytes; the models follow the code.

## Model

| member | source | states |
|---|---|---|
| `Grid.BuildCellCoords` | crates/dofus-common/src/pathfinding.rs:40-72 | the table filled row by row holds, for every cell c, the closed-form coordinate of sub-row c / 14 and position c % 14 |
| `Grid.CellCoordInDiamond` | crates/dofus-common/src/pathfinding.rs:40-72 | every coordinate satisfies 0 <= x - y <= 39 and 0 <= x + y <= 27, and both sums determine the cell |
| `Grid.CoordRoundTrip` | crates/dofus-common/src/pathfinding.rs:76-90 | converting the coordinate of a cell to an id gives that cell |
| `Grid.DiamondPointIsCell` | crates/dofus-common/src/pathfinding.rs:76-90 | inside the diamond no id is aliased: every point converts to a cell, and that cell has this coordinate |
| `Grid.CellCoordInjective` | crates/dofus-common/src/pathfinding.rs:40-72 | different cells have different coordinates |
| `Grid.CellNeighbours` | crates/dofus-common/src/pathfinding.rs:92-107 | the loop returns, in direction order, one entry for each direction whose computed id exists and is another cell |
| `Grid.NeighboursExact` | crates/dofus-common/src/pathfinding.rs:92-107 | (n, d) is in the neighbour list exactly when direction d leads from the cell to n |
| `Walk.HeuristicStep` | crates/dofus-common/src/pathfinding.rs:110-116 | one step along a direction offset lowers the Chebyshev distance to any cell by at most one |
| `Walk.NoWrapIsConsistent` | crates/dofus-common/src/pathfinding.rs:76-116 | if no usable move jumps through an aliased id, the heuristic is consistent for every destination |
| `Walk.HeuristicAlong` | crates/dofus-common/src/pathfinding.rs:110-116 | along a walk no step of which lowers the estimate by more than one (a straight walk) the estimate falls by at most the number of moves |
| `Walk.ConsistentIffStraight` | crates/dofus-common/src/pathfinding.rs:110-116 | the heuristic is consistent on a map exactly when every usable walk is straight |
| `Search.RelaxAllKeepsInv` | crates/dofus-common/src/pathfinding.rs:221-262 | expanding a cell keeps the came_from/g_score/heap invariant and offers every passable neighbour |
| `Search.CloseKeepsInv` | crates/dofus-common/src/pathfinding.rs:207-210 | closing the popped cell keeps the invariant |
| `Search.DropKeepsInv` | crates/dofus-common/src/pathfinding.rs:207-209 | dropping a heap entry of a closed cell keeps the invariant |
| `Search.PopKeepsInv` | crates/dofus-common/src/pathfinding.rs:193-263 | one turn of the main loop keeps the invariant, for every choice among entries of minimal f |
| `Search.RunKeepsInv` | crates/dofus-common/src/pathfinding.rs:167-266 | every state reachable by the search satisfies the invariant and the frontier property |
| `Search.RunImproves` | crates/dofus-common/src/pathfinding.rs:248-261 | along every run scores only fall, and the predecessor of a cell is replaced only by one with a lower score |
| `SearchResults.ScoreIsPosition` | crates/dofus-common/src/pathfinding.rs:195-204 | tracing came_from back, the i-th cell of the path has g_score i, and each step is a usable move made within the budget |
| `SearchResults.Sound` | crates/dofus-common/src/pathfinding.rs:167-266 | on every map, wrapped moves included, a returned path is a repeat-free usable walk from start to end within the budget |
| `SearchResults.Complete` | crates/dofus-common/src/pathfinding.rs:167-266 | without a budget the answer None means that no walk to the destination exists |
| `SearchResults.CrossesHeap` | crates/dofus-common/src/pathfinding.rs:167-266 | a straight walk within the budget that ends outside the closed set meets a heap entry whose score is at most the moves walked so far |
| `SearchResults.MinimumIsFinal` | crates/dofus-common/src/pathfinding.rs:110-116 | on every map an unclosed heap minimum already has at most the length of every straight walk to its cell |
| `SearchResults.RunKeepsFinal` | crates/dofus-common/src/pathfinding.rs:167-266 | on every map and in every reachable state no straight walk to a closed cell is shorter than its g_score |
| `SearchResults.Optimal` | crates/dofus-common/src/pathfinding.rs:167-266 | on every map no straight walk, of any length, is shorter than a returned path |
| `SearchResults.BudgetComplete` | crates/dofus-common/src/pathfinding.rs:167-266 | on every map the answer None means that no straight walk within the budget exists |
| `Pathfinding.PopMin` | crates/dofus-common/src/pathfinding.rs:143-159 | the heap gives up an entry of minimal f, ties left open |
| `Pathfinding.Reconstruct` | crates/dofus-common/src/pathfinding.rs:195-204 | following came_from ends and yields the path from start to end |
| `Pathfinding.Offer` | crates/dofus-common/src/pathfinding.rs:222-261 | the array and heap updates for one neighbour are the relaxation of the search |
| `Pathfinding.Expand` | crates/dofus-common/src/pathfinding.rs:221-262 | the neighbour loop is the relaxation of all directions, diagonal wall rule included |
| `Pathfinding.Process` | crates/dofus-common/src/pathfinding.rs:207-262 | what happens to a popped entry that is not the destination is one step of the search |
| `Pathfinding.FindPath` | crates/dofus-common/src/pathfinding.rs:167-266 | the method terminates with the answer of some run of the search, or takes one of the two early exits |
| `PathfindingResults.IsNeighbour` | crates/dofus-common/src/pathfinding.rs:340-343 | the neighbour test of validate_path holds exactly when some direction leads there |
| `PathfindingResults.ValidatePath` | crates/dofus-common/src/pathfinding.rs:326-347 | true exactly when every cell after the first is in range, walkable and in the neighbour list of the one before |
| `PathfindingResults.EarlyExits` | crates/dofus-common/src/pathfinding.rs:173-179 | equal start and end give that cell, an end off the map or that cannot be walked on gives None |
| `PathfindingResults.FindPathSound` | crates/dofus-common/src/pathfinding.rs:167-347 | every path find_path returns is a repeat-free usable walk within the budget, and validate_path accepts it |
| `PathfindingResults.FindPathComplete` | crates/dofus-common/src/pathfinding.rs:167-266 | without a budget find_path returns Some exactly when the destination can be reached, on every map |
| `PathfindingResults.FindPathAmongStraight` | crates/dofus-common/src/pathfinding.rs:167-266 | on every map the answer of find_path is no longer than any straight walk, and is Some as soon as one of them fits the budget |
| `PathfindingResults.FindPathShortest` | crates/dofus-common/src/pathfinding.rs:167-266 | where one shortest walk is straight, find_path returns Some exactly when a walk fits the budget, and then a shortest walk |
| `PathfindingResults.FindPathConsistent` | crates/dofus-common/src/pathfinding.rs:167-266 | on a consistent map find_path returns Some exactly when a walk fits the budget, and no walk is shorter than the answer |
| `PathfindingResults.FindPathWithoutWraps` | crates/dofus-common/src/pathfinding.rs:167-266 | the same on a map without wrapped moves, for every pair of cells |
| `Moves.StraightMove` | crates/dofus-common/src/pathfinding.rs:221-250 | a step by one unit on both axes is usable exactly when the target can be walked on |
| `Moves.DiagonalMove` | crates/dofus-common/src/pathfinding.rs:221-250 | a step by one unit on one axis is usable exactly when the target can be walked on and so can one of the two cells beside it |
| `Moves.EdgeInCoordinates` | crates/dofus-common/src/pathfinding.rs:92-250 | in coordinates and cell flags alone, which moves are usable between any two cells, wrapped ones included |
| `Moves.AliasedCell` | crates/dofus-common/src/pathfinding.rs:76-84 | which cell the id of a point outside the diamond belongs to |
| `Moves.OneStraightMove` | crates/dofus-common/src/pathfinding.rs:167-266 | with a budget of one move find_path takes a step on both axes exactly when the target can be walked on |
| `Moves.OneDiagonalMove` | crates/dofus-common/src/pathfinding.rs:167-266 | with a budget of one move find_path takes a step on one axis exactly when the target and one of the two cells beside it can be walked on |
| `WrappedMap.ShortcutIsWalk` | crates/dofus-common/src/pathfinding.rs:76-107 | on the row map a six-move walk uses the wrapped move from cell 13 East to cell 14 |
| `WrappedMap.ShortcutBends` | crates/dofus-common/src/pathfinding.rs:76-116 | that move is the only step of the walk that lowers the estimate by more than one |
| `WrappedMap.RunMarches` | crates/dofus-common/src/pathfinding.rs:167-266 | on the row map every run of the search walks West along the row, whatever the tie-breaking |
| `WrappedMap.FindPathNotShortest` | crates/dofus-common/src/pathfinding.rs:167-266 | on the row map find_path always answers with eight moves although six suffice: a wrapped move defeats optimality |
| `LineOfSight.RoundingUnique` | crates/dofus-common/src/pathfinding.rs:283-322 | a number of steps off the true segment by less than half a step above and at most half below is the rounded one |
| `LineOfSight.AxisError` | crates/dofus-common/src/pathfinding.rs:283-322 | after k of n moves each coordinate is within half a cell of the true segment, the longer axis exactly on it |
| `LineOfSight.LineInDiamond` | crates/dofus-common/src/pathfinding.rs:283-322 | the line between two points of the diamond never leaves the diamond |
| `LineOfSight.LineOnCells` | crates/dofus-common/src/pathfinding.rs:283-322 | every visited point converts to the cell with that coordinate: the out-of-bounds branch is dead and no id is aliased |
| `LineOfSight.Advance` | crates/dofus-common/src/pathfinding.rs:312-320 | one turn of the error-term loop makes exactly one move of the rounded line |
| `LineOfSight.WalkingMoves` | crates/dofus-common/src/pathfinding.rs:297-321 | the loop variables x, y and err after k turns are those of the line after k moves |
| `LineOfSight.LineMeetsEnds` | crates/dofus-common/src/pathfinding.rs:283-322 | the line is at its target exactly after max(dx, dy) moves and at its start only before the first |
| `LineOfSight.HasLineOfSight` | crates/dofus-common/src/pathfinding.rs:283-322 | the loop ends, and the result is true exactly when every cell strictly between the ends lets sight through |
| `Binary.BigEndianRoundTrip` | crates/dofus-io/src/writer.rs:120-142 | writing the low bytes of a value and reading them back gives the value modulo 256^width |
| `Binary.ReadSignedBack` | crates/dofus-io/src/reader.rs:148-178 | a signed value in range, followed by anything, is read back and exactly its bytes are consumed |
| `Binary.ReadUtfBack` | crates/dofus-io/src/reader.rs:188-191 | a string of at most 65535 bytes behind its length is read back and exactly its bytes are consumed |
| `ByteIO.BigEndianWriter.WriteVarInt` | crates/dofus-io/src/writer.rs:22-40 | the loop emits the unsigned LEB128 bytes (section 7.6 of DWARF version 5) of the 32-bit pattern |
| `ByteIO.BigEndianWriter.WriteVarShort` | crates/dofus-io/src/writer.rs:46-64 | the loop emits the unsigned LEB128 bytes of the 16-bit pattern |
| `ByteIO.BigEndianWriter.WriteVarLong` | crates/dofus-io/src/writer.rs:70-102 | the code over two 32-bit halves emits exactly the unsigned LEB128 bytes of the 64-bit pattern, for every i64 |
| `ByteIO.BigEndianReader.ReadVarInt` | crates/dofus-io/src/reader.rs:24-46 | the loop computes the 32-bit reader function on the remaining bytes and moves the cursor behind what it consumed |
| `ByteIO.BigEndianReader.ReadVarShort` | crates/dofus-io/src/reader.rs:52-77 | the loop computes the 16-bit reader function, including the i16 correction |
| `ByteIO.BigEndianReader.ReadVarLong` | crates/dofus-io/src/reader.rs:83-130 | the loops over the low and high half compute the 64-bit reader function |
| `ByteIO.BigEndianReader.ReadUIntN` | crates/dofus-io/src/reader.rs:164-170 | bytes shifted in one at a time give the big-endian number of that many bytes |
| `ByteIO.BigEndianReader.ReadUtf` | crates/dofus-io/src/reader.rs:188-191 | a 16-bit length and that many bytes, or an error when either is missing |
| `VarInt.VarIntRoundTrip` | crates/dofus-io/src/reader.rs:24-46 | read_var_int on the LEB128 bytes of any i32 and any suffix returns it and leaves the suffix |
| `VarInt.VarUIntRoundTrip` | crates/dofus-io/src/reader.rs:48-50 | the same for every u32 |
| `VarInt.VarShortRoundTrip` | crates/dofus-io/src/reader.rs:52-77 | the same for every i16 |
| `VarInt.VarUShortRoundTrip` | crates/dofus-io/src/reader.rs:79-81 | the same for every u16 |
| `VarInt.VarLongRoundTrip` | crates/dofus-io/src/reader.rs:83-130 | read_var_long on the LEB128 bytes of any i64 and any suffix returns it and leaves the suffix |
| `VarInt.VarULongRoundTrip` | crates/dofus-io/src/reader.rs:132-134 | the same for every u64 |
| `Framing.ReadHeaderFrom` | crates/dofus-io/src/network.rs:18-33 | reads identifier, instance id and length field, an error when any is cut short |
| `Framing.WriteHeader` | crates/dofus-io/src/network.rs:62-83 | appends tag, instance id and the length field whose width the tag announces |
| `Framing.WriteServerHeader` | crates/dofus-io/src/network.rs:40-59 | appends tag and length field, without an instance id |
| `Framing.HeaderBack` | crates/dofus-io/src/network.rs:18-83 | a header of an id below 2^14 and a length below 2^24, followed by anything, is read back exactly |
| `Framing.DecodeFrom` | crates/dofus-network/src/codec.rs:33-65 | one decoder call on the buffer: a message and the rest, None with the buffer unchanged, or an error |
| `Framing.EncodeTo` | crates/dofus-network/src/codec.rs:71-78 | appends exactly the server frame of the message |
| `Framing.FrameDecodes` | crates/dofus-network/src/codec.rs:33-65 | a frame at the front of the buffer is decoded and exactly its bytes are taken |
| `Framing.ServerFrameBytes` | crates/dofus-network/src/codec.rs:71-78 | the bytes the server sends for any message: the low 14 bits of the id above the number of length bytes, the length, the payload |
| `Framing.ServerFrameDecodes` | crates/dofus-network/src/codec.rs:33-78 | a server frame with an instance id put behind its tag is decoded as the message with that id, whatever follows |
| `Framing.PartialFrame` | crates/dofus-network/src/codec.rs:33-65 | a proper prefix of a frame gives None, except exactly when the cut falls into the length field: then an error |
| `Framing.StreamDecodes` | crates/dofus-network/src/codec.rs:33-65 | draining a concatenation of frames yields exactly the messages and an empty buffer |
| `Framing.DrainEarly` | crates/dofus-network/src/codec.rs:33-65 | on any bytes, draining before more data arrives does not change what is decoded |
| `Framing.ReceiveFails` | crates/dofus-network/src/codec.rs:33-65 | on any bytes, however cut into chunks, a receiver fails exactly when decoding one of the prefixes received so far as a whole fails |
| `Framing.ChunksDoNotMatter` | crates/dofus-network/src/codec.rs:33-65 | a receiver that has not failed has the messages and the rest of decoding all its bytes at once |
| `Framing.CutStream` | crates/dofus-network/src/codec.rs:33-65 | a stream cut once fails exactly when the cut falls into the length field of some frame |
| `Framing.ChunkedStream` | crates/dofus-network/src/codec.rs:33-65 | a stream of frames cut into any chunks fails exactly when some cut falls into the length field of a frame; otherwise all messages arrive and nothing is left |
| `D2oIO.WriteFieldValue` | tools/data-reader/src/d2o_writer.rs:83-143 | the recursive writer appends exactly the encoding of the value, or fails when the encoding does |
| `D2oIO.WriteObject` | tools/data-reader/src/d2o_writer.rs:127-138 | the class named by the value is found and its id and fields are appended, or the write fails |
| `D2oIO.WriteObjectFields` | tools/data-reader/src/d2o_writer.rs:70-81 | the fields of the class in declaration order, absent ones as null |
| `D2oIO.WriteFieldType` | tools/data-reader/src/d2o_writer.rs:145-161 | the type code, with name and inner type for vectors |
| `D2oIO.WriteD2o` | tools/data-reader/src/d2o_writer.rs:11-68 | the whole file for any class iteration order, with the index pointer patched in last |
| `D2oIO.ReadFieldValue` | tools/data-reader/src/d2o.rs:202-243 | the recursive reader computes the decoding of the remaining bytes; every recursive call has fewer bytes left |
| `D2oIO.ReadObjectFields` | tools/data-reader/src/d2o.rs:185-200 | the fields of the class in the order of the class table, plus the class name |
| `D2oIO.ReadFieldType` | tools/data-reader/src/d2o.rs:246-264 | the type a type code stands for, or an error |
| `D2oIO.ReadD2o` | tools/data-reader/src/d2o.rs:68-148 | the reader over a file, behind an optional signature, or an error |
| `D2oIO.ReadOneObject` | tools/data-reader/src/d2o.rs:161-174 | the object at the offset of the first index entry with its id |
| `D2o.DecodeValue` | tools/data-reader/src/d2o.rs:202-243 | on any bytes and any class table reading terminates, and a successful read consumes at least one byte |
| `D2oValues.ValueBack` | tools/data-reader/src/d2o.rs:202-243 | reading after writing gives the stored form of the value, whatever follows, and stops exactly behind it |
| `D2oValues.KeptIffFits` | tools/data-reader/src/d2o_writer.rs:83-143 | the stored form of a value equals it exactly when nothing is converted, defaulted, dropped or added |
| `D2oValues.ValueRoundTrip` | tools/data-reader/src/d2o_writer.rs:83-143 | a written value is read back unchanged exactly when it has the shape of its field type |
| `D2oValues.FittingValueIsWritten` | tools/data-reader/src/d2o_writer.rs:83-171 | writing a fitting value fails only on a string of more than 65535 bytes |
| `D2oScalars.NumberRead` | tools/data-reader/src/d2o.rs:223 | a float field is read as its number, and as null exactly when all its exponent bits are set |
| `D2oScalars.NumberStored` | tools/data-reader/src/d2o_writer.rs:104-106 | a number written to a float field comes back, and null when it is an infinity or a NaN |
| `D2oScalars.IntStored` | tools/data-reader/src/d2o_writer.rs:90-109 | an integer field holds the low 32 bits of a 64-bit integer, signed, and 0 for all other values |
| `D2oScalars.UIntStored` | tools/data-reader/src/d2o_writer.rs:110-112 | an unsigned field holds the low 32 bits of an unsigned 64-bit integer, and 0 for all other values |
| `D2oScalars.BoolStored` | tools/data-reader/src/d2o_writer.rs:93-95 | only true is stored as 1, and any byte but 0 is read as true |
| `D2oScalars.StringStored` | tools/data-reader/src/d2o_writer.rs:96-103 | null is stored as the text "null" and that text is read as null; what is no text becomes the empty one |
| `D2oScalars.NullObjectStored` | tools/data-reader/src/d2o_writer.rs:123-125 | a null object is four bytes 0xAA, and read back as null |
| `D2oScalars.ClassEntry` | tools/data-reader/src/d2o_writer.rs:127-135 | an object without a class name, or with one that no class has, cannot be written |
| `D2oScalars.ClassTaken` | tools/data-reader/src/d2o_writer.rs:127-138 | of the classes with the name an object gives the first in iteration order is taken: its id, then its fields |
| `D2oScalars.TypeCodes` | tools/data-reader/src/d2o.rs:246-264 | which type each code stands for; zero and the unused negative codes are errors |
| `D2oRoundTrip.TypeBack` | tools/data-reader/src/d2o.rs:246-264 | a written field type, followed by anything, is read back |
| `D2oRoundTrip.ClassesBack` | tools/data-reader/src/d2o.rs:111-140 | the class table is read back for every iteration order of the class map |
| `D2oRoundTrip.IndexBack` | tools/data-reader/src/d2o.rs:101-109 | the index of ids and offsets is read back |
| `D2oRoundTrip.ObjectPlaced` | tools/data-reader/src/d2o_writer.rs:22-39 | entry k of the index points at the bytes of object k |
| `D2oRoundTrip.FileIsRead` | tools/data-reader/src/d2o.rs:68-148 | the reader accepts every written file below 2^31 bytes and recovers class table and index |
| `D2oRoundTrip.ObjectRoundTrip` | tools/data-reader/src/d2o.rs:161-174 | the first object with an id is read back in its stored form |
| `D2oRoundTrip.UnknownObject` | tools/data-reader/src/d2o.rs:161-174 | an id that no object of the file has gives an error |
| `D2oRoundTrip.FileRoundTrip` | tools/data-reader/src/d2o.rs:68-243 | with unique object ids an object is returned unchanged exactly when it fits its class, and unknown ids give an error |
| `D2oRoundTrip.FileIsWritten` | tools/data-reader/src/d2o_writer.rs:11-68 | fitting objects and short names are always written |
| `D2oRoundTrip.SignedFileReadsTheSame` | tools/data-reader/src/d2o.rs:72-90 | a signature in front of a file changes no object that is read from it |
| `D2oScalars.BadMagicRefused` | tools/data-reader/src/d2o.rs:70-94 | a file that begins neither with D2O nor with AKS is refused |
| `D2oScalars.SignedContentChecked` | tools/data-reader/src/d2o.rs:75-88 | behind a signature the content must begin with D2O |
| `D2oScalars.NegativeFieldCountRefused` | tools/data-reader/src/d2o.rs:119-122 | a class with a negative number of fields is refused |
| `D2oScalars.SignatureSkipped` | tools/data-reader/src/d2o.rs:76-80 | the content of a signed file begins behind the signature, whose length is given; one that leads in front of the file is an error |
| `D2oScalars.IndexPlace` | tools/data-reader/src/d2o.rs:96-99 | index and class table are read at the stored position, counted from the start of the content, and a negative one is refused |
| `D2oScalars.OddIndexLength` | tools/data-reader/src/d2o.rs:102-109 | the index length counts whole entries of eight bytes; from -7 to -1 it stands for none, below that it is refused |
| `D2oScalars.NegativeOffsetRefused` | tools/data-reader/src/d2o.rs:161-172 | an object whose first index entry has a negative offset is an error |
| `Sorting.SortedKeys` | tools/data-reader/src/d2p_writer.rs:27-28 | the sorted key list holds every key of the map once, in order |
| `D2pIO.WriteD2p` | tools/data-reader/src/d2p_writer.rs:12-69 | from the two maps the writer produces the archive of their sorted key lists |
| `D2pIO.WriteArchive` | tools/data-reader/src/d2p_writer.rs:16-68 | version bytes, payloads, properties, index with relative offsets and footer, for the given key lists |
| `D2pIO.ReadD2p` | tools/data-reader/src/d2p.rs:35-91 | the tool reader: footer, properties, index with shifted offsets; an error on a missing byte or a string that is not valid UTF-8 |
| `D2pIO.ReadMapArchive` | crates/dofus-world/src/map_cache.rs:155-193 | the world server reader: footer and index, properties skipped, names decoded lossily |
| `D2p.ReadersAgree` | tools/data-reader/src/d2p.rs:35-163 | on any bytes the tool opens an archive exactly when the world server does, the properties can be read and all names and property strings are valid UTF-8; then both hold the same entries |
| `D2p.SmallestArchive` | tools/data-reader/src/d2p.rs:35-52 | both readers refuse fewer than 26 bytes, and accept 26 that announce no entries and no properties |
| `D2pRoundTrip.InvalidNameSplitsReaders` | crates/dofus-world/src/map_cache.rs:155-207 | an archive whose only name is one invalid byte is opened by the world server and refused by the tool |
| `D2pRoundTrip.InsertedPoints` | tools/data-reader/src/d2p_writer.rs:30-35 | every index entry points at the bytes of its file |
| `D2pRoundTrip.ArchiveParts` | tools/data-reader/src/d2p_writer.rs:19-69 | footer, payloads, properties and index of a written archive lie where the footer says |
| `D2pRoundTrip.WrittenNames` | tools/data-reader/src/d2p_writer.rs:52-56 | the names read from the index of a written archive are the names written exactly when each has at most 65535 bytes |
| `D2pRoundTrip.MapsRoundTrip` | crates/dofus-world/src/map_cache.rs:155-207 | on archives below 2^32 bytes the world server lists the same names and returns the original bytes when every name has at most 65535 bytes, and only then if no name contains a replacement character |
| `D2pRoundTrip.ArchiveRoundTrip` | tools/data-reader/src/d2p.rs:35-135 | on archives below 2^32 bytes the tool recovers all files and properties exactly when every name and property string has at most 65535 bytes |
| `D2pIO.WrittenIsRead` | tools/data-reader/src/d2p_writer.rs:12-69 | in terms of the two maps alone, exactly when each reader gets back what the writer wrote |
| `D2iIO.WriteStrings` | tools/data-reader/src/d2i_writer.rs:33-56 | the strings are appended in key order and the map receives the offset of each |
| `D2iIO.WriteVariants` | tools/data-reader/src/d2i_writer.rs:39-46 | only ids that also have a text get their variant written |
| `D2iIO.WriteD2i` | tools/data-reader/src/d2i_writer.rs:13-103 | the whole file of the three maps, with the index pointer patched in last |
| `D2iIO.ReadD2i` | tools/data-reader/src/d2i.rs:39-98 | the three index sections behind the pointer, each up to its length, or an error |
| `D2iIO.LookupText` | tools/data-reader/src/d2i.rs:101-107 | the string at the offset stored for the id, or an error for an unknown id |
| `D2iRoundTrip.OffsetPoints` | tools/data-reader/src/d2i_writer.rs:33-56 | at the offset of a key its string is found, cut to its length modulo 2^16 |
| `D2iRoundTrip.PositionsAreRanks` | tools/data-reader/src/d2i.rs:79-89 | the sort position of an id is its rank among the ids |
| `D2iRoundTrip.LookupsReturn` | tools/data-reader/src/d2i.rs:101-125 | what the lookups return for every file below 2^31 bytes with short names: strings cut modulo 2^16, variants only of known ids |
| `D2iRoundTrip.ReaderLimits` | tools/data-reader/src/d2i.rs:39-98 | of any bytes, a reader holds only names below 2^16 bytes and variants only of ids that have a text |
| `D2iRoundTrip.MarkedEntry` | tools/data-reader/src/d2i.rs:53-65 | any mark but zero in a text entry announces the offset of a variant |
| `D2iRoundTrip.SortsRounded` | tools/data-reader/src/d2i.rs:80-89 | the length of the sort section is rounded up to whole ids |
| `D2iRoundTrip.NegativeLengthRefused` | tools/data-reader/src/d2i.rs:49-50 | a negative section length is an error |
| `D2iRoundTrip.TextsRoundTrip` | tools/data-reader/src/d2i.rs:39-125 | a file gives back exactly the three maps and the ranks if and only if all strings and names fit their prefix and every variant belongs to a text |
| `FlagByte.SetThenGet` | crates/dofus-io/src/boolean_byte_wrapper.rs:3-21 | setting one bit of a flag byte is read back and disturbs no other bit |
| `Schema.CollectBooleanGroups` | tools/protocol-gen/src/codegen.rs:227-245 | the map holds exactly the maximal runs of packed fields, keyed by their first field |
| `Schema.GroupsByMethod` | tools/protocol-gen/src/codegen.rs:227-245 | in terms of the write methods alone: where groups begin, what they hold and where they end |
| `Schema.WriteSerializeBody` | tools/protocol-gen/src/codegen.rs:249-345 | the loop emits the serialize statements field by field, one flag byte for each run |
| `Schema.WriteDeserializeBody` | tools/protocol-gen/src/codegen.rs:349-469 | the loops emit one flag read for each run, in front of a literal with one entry for each field |
| `Schema.RunsCounted` | tools/protocol-gen/src/codegen.rs:354-360 | the flag bytes read in front of the literal are as many as the runs |
| `Schema.EntriesInOrder` | tools/protocol-gen/src/codegen.rs:364-468 | the literal names every field once, in declaration order |
| `Generated.TakeShrinks` | tools/protocol-gen/src/codegen.rs:723-743 | every successful read of a primitive consumes at least one byte |
| `Generated.Deserialize` | tools/protocol-gen/src/codegen.rs:349-469 | running the emitted deserialize program terminates on every byte string, recursive types included |
| `WireFormat.NumberBytes` | tools/protocol-gen/src/codegen.rs:277-344 | the bytes written for each number of fixed size |
| `WireFormat.VarNumberBytes` | tools/protocol-gen/src/codegen.rs:277-344 | the bytes written for each number of variable size |
| `WireFormat.OtherBytes` | tools/protocol-gen/src/codegen.rs:277-303 | the bytes written for booleans that are not packed, texts and byte arrays |
| `WireFormat.VariantBytes` | tools/protocol-gen/src/codegen.rs:333-341 | a polymorphic field is its two-byte type id, then the bytes of the variant |
| `WireFormat.CountBytes` | tools/protocol-gen/src/codegen.rs:683-690 | the bytes of the count in front of a vector for each length type |
| `WireFormat.ItemBytes` | tools/protocol-gen/src/codegen.rs:306-332 | items of a vector are written as fields of their type are |
| `WireFormat.UnresolvedBytes` | tools/protocol-gen/src/codegen.rs:332-335 | a polymorphic field of unknown base is written as raw bytes and read as the default without any |
| `WireFormat.UnresolvedItems` | tools/protocol-gen/src/codegen.rs:305-307 | items of a vector of unknown base are not written |
| `WireFormat.UnresolvedItemsRead` | tools/protocol-gen/src/codegen.rs:434-436 | and read as defaults without any bytes |
| `GeneratedRoundTrip.WireBack` | tools/protocol-gen/src/codegen.rs:701-743 | the read method chosen for a primitive type undoes the write method chosen for it |
| `GeneratedRoundTrip.CountBack` | tools/protocol-gen/src/codegen.rs:683-699 | the length read chosen for a vector undoes the length write, up to what the prefix can announce |
| `GeneratedRoundTrip.PackBits` | tools/protocol-gen/src/codegen.rs:260-269 | packing a run of at most eight booleans stores boolean k in bit k |
| `GeneratedRoundTrip.VariantRoundTrip` | tools/protocol-gen/src/codegen.rs:545-565 | writing the type id and the variant and dispatching on the id gives the variant back |
| `GeneratedRoundTrip.FieldBack` | tools/protocol-gen/src/codegen.rs:277-466 | a field that is not packed is read back by its entry and exactly its bytes are consumed |
| `GeneratedRoundTrip.FlagsThenBody` | tools/protocol-gen/src/codegen.rs:249-345 | a well laid out struct is written as its flag bytes, wherever its runs stand, followed by the bytes of its unpacked fields |
| `GeneratedRoundTrip.StructBack` | tools/protocol-gen/src/codegen.rs:249-469 | where every class has runs of at most eight packed booleans and only fields that write nothing in front of them, deserialize undoes serialize for every class and value, whatever follows |
| `GeneratedRoundTrip.LeadingIsGood` | tools/protocol-gen/src/codegen.rs:249-469 | one leading run of at most eight is such a layout, and the only one of a class whose unpacked fields all write something |
| `LateFlags.ProgramSplits` | tools/protocol-gen/src/codegen.rs:249-345 | the emitted serialize program splits at the start of a run |
| `LateFlags.RunReadsEarlyByte` | tools/protocol-gen/src/codegen.rs:354-383 | the first boolean of a run is decoded from the byte at the number of the run, wherever the run was written |
| `LateFlags.LateFlagLost` | tools/protocol-gen/src/codegen.rs:354-383 | when more bytes than flag bytes precede a run, two values that differ in its first boolean cannot both be read back |
| `LateFlags.SerializeNotEmpty` | tools/protocol-gen/src/codegen.rs:249-345 | a struct writes at least one byte unless all its fields are structs that write nothing |
| `LateFlags.LayoutDecidesRoundTrip` | tools/protocol-gen/src/codegen.rs:227-469 | among well laid out classes it refers to, every value of a class survives exactly when its runs have at most eight booleans and only fields that write nothing stand in front of them |
| `LateFlags.LayoutsDecideRoundTrips` | tools/protocol-gen/src/codegen.rs:227-469 | all values of all classes of a closed set survive exactly when every class in it has such a layout |
| `Inheritance.ParentFields` | tools/protocol-gen/src/as3_parser.rs:573-590 | the climb along parent names ends on every parent map, cycles included, with the fields topmost first |
| `Inheritance.ResolveInheritance` | tools/protocol-gen/src/as3_parser.rs:561-597 | every class gets the fields of its climb in front of its own, all other parts unchanged |
| `Inheritance.ClimbIsAncestors` | tools/protocol-gen/src/as3_parser.rs:573-590 | on every parent map the climb visits exactly the ancestors, each once |
| `Inheritance.RootsEndClimb` | tools/protocol-gen/src/as3_parser.rs:573-578 | the climb ends at NetworkMessage and NetworkType and passes through every other name |
| `Inheritance.AcyclicInheritance` | tools/protocol-gen/src/as3_parser.rs:561-597 | without cycles and with unique names every class ends with the fields of its ancestors, root first, then its own |
| `Hierarchies.BuildMaps` | tools/protocol-gen/src/as3_parser.rs:671-684 | the child and id maps of the types, roots left out as parents |
| `Hierarchies.ChildrenDeclared` | tools/protocol-gen/src/as3_parser.rs:671-684 | the child map relates exactly the declared parents and children |
| `Hierarchies.CollectDescendants` | tools/protocol-gen/src/as3_parser.rs:715-735 | one depth-first collection ends, visits only descendants, leaves nothing below a new name unvisited and lists each new name with an id once |
| `Hierarchies.BuildTypeHierarchies` | tools/protocol-gen/src/as3_parser.rs:670-713 | each hierarchy lists exactly the base and its transitive descendants that have ids, each once, cycles included; a base has one exactly when at least two are listed |
| `Hierarchies.ListsDeclared` | tools/protocol-gen/src/as3_parser.rs:670-713 | under unique names, in terms of the declarations alone: a hierarchy lists exactly the types declared at or below its base, with their declared ids |
| `SwfIO.ContainsPattern` | tools/generator-rsa/src/swf_patch.rs:186-188 | true exactly when the pattern occurs at some position |
| `SwfIO.ReadTagHeader` | tools/generator-rsa/src/swf_patch.rs:116-131 | kind, header size and length of the tag at a position, or that its header is cut |
| `SwfIO.PatchTagsFrom` | tools/generator-rsa/src/swf_patch.rs:87-167 | the position-driven loop computes the patched body and both counts, or an error for a short body |
| `SwfIO.ExtractAbcTags` | tools/protocol-gen/src/swf/mod.rs:87-175 | the position-driven loop computes the list of code blocks, or an error for a short file |
| `SwfContents.TagsExtracted` | tools/protocol-gen/src/swf/mod.rs:104-172 | from any list of tags in short or long form, ended in any way, extraction lists exactly their code blocks in order |
| `SwfContents.FileExtracted` | tools/protocol-gen/src/swf/mod.rs:87-175 | the same behind any eight header bytes, a rectangle of any width and the frame rate and count |
| `Swf.ReplacementIsTag` | tools/generator-rsa/src/swf_patch.rs:169-184 | the replacement is one long-form tag of the same kind with the character id kept, whatever follows |
| `Swf.ReplacementBytes` | tools/generator-rsa/src/swf_patch.rs:169-184 | the replacement byte by byte |
| `Swf.HoldsMeans` | tools/generator-rsa/src/swf_patch.rs:140-153 | a tag holds a marker exactly when it is of kind 87 and the marker lies behind its six leading bytes |
| `Swf.MarkersAreText` | tools/generator-rsa/src/swf_patch.rs:144-153 | the two markers as text |
| `Swf.PatchKeepsCode` | tools/generator-rsa/src/swf_patch.rs:87-188 | extraction finds the same code blocks before and after patching, truncated last tags included |
| `Swf.PatchedFileKeepsCode` | tools/generator-rsa/src/swf_patch.rs:16-167 | the same for whole files with any eight header bytes before and after |
| `Swf.PatchIsIdempotent` | tools/generator-rsa/src/swf_patch.rs:87-167 | patching again changes nothing when the new contents hold their markers and the key does not hold the other one |
| `Swf.IdempotentIff` | tools/generator-rsa/src/swf_patch.rs:87-188 | patching is idempotent on all bodies exactly under that condition on the new contents |
| `Swf.SplitsIntoTags` | tools/generator-rsa/src/swf_patch.rs:113-136 | every body is the concatenation of its complete tags and a leftover |
| `Swf.PatchedTagList` | tools/generator-rsa/src/swf_patch.rs:113-164 | on every body exactly the first holder of each marker is replaced, keeping its character id, every other tag and a truncated last tag are copied, and an incomplete tag header at the end is dropped; the flags say which markers were found |
| `Swf.NothingToPatch` | tools/generator-rsa/src/swf_patch.rs:113-164 | without either marker patching is the identity exactly when no incomplete tag header ends the body |
| `SwfContents.FilePatched` | tools/generator-rsa/src/swf_patch.rs:95-111 | patching keeps rectangle, frame rate and count, patches what lies behind them, be it nothing, and refuses a file that ends inside them |
| `Swf.StrayByteIsLost` | tools/generator-rsa/src/swf_patch.rs:113-125 | a file of five header bytes and one stray byte comes back without the stray byte |
| `Criterion.ParseTermText` | crates/dofus-common/src/criterion.rs:83-98 | the loop over "&" computes the term parser |
| `Criterion.ParseGroupText` | crates/dofus-common/src/criterion.rs:66-81 | the loop over the or operator computes the group parser |
| `Criterion.AtomBack` | crates/dofus-common/src/criterion.rs:111-160 | a printed atom is parsed back and what follows is left |
| `Criterion.PrintThenParse` | crates/dofus-common/src/criterion.rs:66-160 | parsing the minimally parenthesised print of a tree gives exactly that tree with nothing left: and binds tighter than or, both nest left |
| `Criterion.EvaluatePrinted` | crates/dofus-common/src/criterion.rs:27-36 | evaluating the text of a tree is evaluating the tree |
| `CriterionText.EvaluateAnd` | crates/dofus-common/src/criterion.rs:27-168 | the text of two criteria joined by "&" holds exactly when the texts of both hold |
| `CriterionText.EvaluateOr` | crates/dofus-common/src/criterion.rs:27-169 | the text of two criteria joined by the or operator holds exactly when the text of one of them holds |
| `CriterionText.EvaluateLevel` | crates/dofus-common/src/criterion.rs:172-212 | "PL", each of the six operators and a number: the level is compared with the number; a number beyond 32 bits passes |
| `CriterionText.EvaluateBreed` | crates/dofus-common/src/criterion.rs:172-212 | "Ps" compares the breed in the same way |
| `CriterionText.EvaluateSex` | crates/dofus-common/src/criterion.rs:172-212 | "PS" compares the sex in the same way |
| `CriterionText.EvaluateQuest` | crates/dofus-common/src/criterion.rs:172-194 | "Qf" and "Qa" ask whether the quest is in the finished or the active list, and with != whether it is not |
| `CriterionText.EvaluateOther` | crates/dofus-common/src/criterion.rs:195-197 | every other kind passes, whatever the operator and the number |
| `CriterionText.BlanksAround` | crates/dofus-common/src/criterion.rs:27-31 | blanks in front of a criterion or behind it change nothing |
| `CriterionText.SpacedAnd` | crates/dofus-common/src/criterion.rs:83-98 | blanks around "&" change nothing in the tree |
| `CriterionText.SpacedOr` | crates/dofus-common/src/criterion.rs:66-81 | blanks around the or operator change nothing in the tree |
| `CriterionText.SpacedParentheses` | crates/dofus-common/src/criterion.rs:100-109 | parentheses around a criterion, with blanks inside them, change nothing in the tree |
| `CriterionText.UnfinishedFails` | crates/dofus-common/src/criterion.rs:66-109 | an open parenthesis that is never closed and an operator with nothing behind it leave no tree |
| `CriterionText.NoComparisonFails` | crates/dofus-common/src/criterion.rs:111-137 | two characters without one of the six operators behind them leave no tree |
| `CriterionText.NoNumberFails` | crates/dofus-common/src/criterion.rs:139-150 | an operator without a number behind it leaves no tree |
| `CriterionText.LenientPasses` | crates/dofus-common/src/criterion.rs:27-36 | blank criteria, and those that leave no tree, hold |
| `Criterion.GroupPrintable` | crates/dofus-common/src/criterion.rs:66-160 | every tree the parser returns is printable |
| `Criterion.CanonicalText` | crates/dofus-common/src/criterion.rs:27-160 | every text that parses has the same tree and value as the canonical print of its tree |
| `MarkManager.MarkManager.PlaceMark` | crates/dofus-world/src/fight/marks.rs:47-75 | a mark with a new id is appended with the flags and colour of its kind |
| `MarkManager.MarkManager.TrapsOnCell` | crates/dofus-world/src/fight/marks.rs:78-84 | the ids of the traps whose zone covers the cell, in order |
| `Marks.LinkMeans` | crates/dofus-world/src/fight/marks.rs:106-126 | in coordinates: a trap is linked exactly to the other traps of its caster with a cell equal to one of its zone or one unit beside it on one axis |
| `Marks.LinkReverses` | crates/dofus-world/src/fight/marks.rs:97-132 | between traps the link of connected_traps is symmetric |
| `Marks.NetworksPartition` | crates/dofus-world/src/fight/marks.rs:97-132 | two networks of traps that share a trap are the same network |
| `MarkManager.MarkManager.ConnectedTraps` | crates/dofus-world/src/fight/marks.rs:97-132 | the stack search returns, without repeats, exactly the marks reachable from the start along links |
| `MarkManager.MarkManager.RemoveMark` | crates/dofus-world/src/fight/marks.rs:135-137 | exactly the mark with that id is gone, the order of the others kept |
| `MarkManager.MarkManager.Tick` | crates/dofus-world/src/fight/marks.rs:140-154 | marks on their last turn are removed and reported, all others count down by one |
| `MarkManager.AgedKeepsUnique` | crates/dofus-world/src/fight/marks.rs:140-154 | counting down keeps the ids unique |
| `MarkManager.CollectNetworks` | crates/dofus-world/src/fight/marks.rs:170-180 | the ids of all networks of the given traps, each once |
| `MarkManager.CellIsCleared` | crates/dofus-world/src/fight/marks.rs:216-219 | removing the traps that cover a cell leaves none on it |
| `MarkManager.TriggerTrapsOnCell` | crates/dofus-world/src/fight/marks.rs:159-221 | each trap of the touched networks fires once, exactly those are removed, and no trap is left on the cell |
| `World.World.SendToEach` | crates/dofus-world/src/world/state.rs:53-55 | the loop puts one copy of the message into the queue of every player, in any order |
| `World.World.JoinMap` | crates/dofus-world/src/world/state.rs:47-58 | the state becomes that of the join step, and no empty map entry appears |
| `World.World.LeaveMap` | crates/dofus-world/src/world/state.rs:61-76 | the state becomes that of the leave step, and no empty map entry survives |
| `World.World.UpdatePlayerCell` | crates/dofus-world/src/world/state.rs:131-138 | only the cell of that player on that map changes |
| `World.World.BroadcastToMap` | crates/dofus-world/src/world/state.rs:97-104 | every player of the map gets the message, the map table is unchanged |
| `World.World.GetPlayersOnMap` | crates/dofus-world/src/world/state.rs:79-84 | every player of the map once, none for an unknown map |
| `WorldSteps.StepKeepsNoEmptyMaps` | crates/dofus-world/src/world/state.rs:47-76 | no step leaves an empty map entry |
| `WorldSteps.StepPlayers` | crates/dofus-world/src/world/state.rs:47-138 | what each step does to every player of every map |
| `WorldSteps.StepQueues` | crates/dofus-world/src/world/state.rs:47-104 | each step adds to every queue one copy of its message for each player with that channel who hears it, and nothing else |
| `WorldSteps.RunKeepsNoEmptyMaps` | crates/dofus-world/src/world/state.rs:47-76 | no run leaves an empty map entry |
| `WorldSteps.ForeignQueue` | crates/dofus-world/src/world/state.rs:47-104 | a step by somebody else adds to the queue of a player exactly the message for its map |
| `WorldSteps.ForeignView` | crates/dofus-world/src/world/state.rs:47-104 | that message turns the old membership of the map into the new one |
| `WorldSteps.ReplayBacklog` | crates/dofus-world/src/world/state.rs:47-84 | replaying old messages in front of the news leads to the new view exactly when, for every character, the old ones are silent, overruled by the news, or agree with the view |
| `WorldSteps.RunView` | crates/dofus-world/src/world/state.rs:47-104 | over any run the queue grows by messages that turn the old membership into the new one |
| `WorldSteps.RunConverges` | crates/dofus-world/src/movement/transition.rs:58-90 | a player joins with messages still queued, snapshots the map later and replays its queue: given the news of the run, the view is the map exactly when that backlog is harmless |
| `WorldSteps.ViewConverges` | crates/dofus-world/src/movement/transition.rs:58-90 | the view ends as the map, whatever the others do, exactly when no message queued at the join contradicts the map joined |
| `WorldSteps.EmptyQueueConverges` | crates/dofus-world/src/movement/transition.rs:79-90 | with an empty queue at the join the view always ends as the map |
| `WorldSteps.TransitionConverges` | crates/dofus-world/src/movement/transition.rs:58-90 | leaving one map and joining the next with the same channel converges exactly when nothing left in the queue contradicts the next map |
| `WorldSteps.BacklogMisleads` | crates/dofus-world/src/movement/transition.rs:58-90 | a player that changes maps with an unread arrival in its queue sees that actor on the map it does not stand on |

## Left out

- FindPathShortest: needs one shortest walk that is straight; where every shortest walk has a step that lowers the estimate by more than one (only wrapped moves do), the answer may be longer, as `FindPathNotShortest` shows, or None within a budget, and which maps mislead the search is not characterised. `FindPathAmongStraight` needs no condition on the map.
- FindPath: requires start in range when the search begins and a map of exactly 560 cells, where the source would otherwise panic.
- ValidatePath: requires the first cell in range when the second one is walkable, where the source would otherwise panic on the table.
- PopMin: ties among entries of equal f are left open, so the results hold for every order of the heap.
- ChunksDoNotMatter: speaks of receivers that meet no decoding error; `ReceiveFails` and `ChunkedStream` say exactly which do.
- StructBack: covers resolved types, vectors of primitives, types or type managers, distinct variant ids and lengths that fit their prefix; fields of unresolved types, which the generator fills with a default, do not round-trip.
- LayoutDecidesRoundTrip: assumes that the class has at least one value and that the other classes it can reach are well laid out; `LayoutsDecideRoundTrips` judges them together.
- MapsRoundTrip: the "only then" direction is not stated for names that contain the replacement character U+FFFD, which an invalid name may decode to.
- ArchiveRoundTrip: archives of 2^32 bytes or more, whose 32-bit offsets wrap, are not covered.
- TextsRoundTrip: files of 2^31 bytes or more, whose index pointer turns negative, are not covered.
- FileRoundTrip: files of 2^31 bytes or more are not covered; the conversion of an integer to a float is a parameter.
- ViewConverges: positions of the shown actors (movement messages), the client's handling of other messages and messages to all maps at once are not modelled.
- TriggerTrapsOnCell: damage, poison and displacement of the fired traps are not modelled; the order in which traps fire is left open.
- PlaceMark: the id is a parameter standing for the global counter, which does not repeat within 2^32 marks.
- EvaluateText: criteria with characters beyond ASCII, on which slicing by byte may panic, are not modelled.
- UTF-8: validity is modelled for D2P archives. Elsewhere an invalid string is a read error, or in D2O values the text `<invalid utf8: N bytes>` (`tools/data-reader/src/d2o.rs:217-221`); SWF code block names are decoded lossily (`tools/protocol-gen/src/swf/mod.rs:150-151`). The models keep the bytes.
- Directions: direction_between, glyph lookup, map borders and mirrored cells are finite or single filters.
- Bytecode: ABC constant pools, opcode scanning, the worklist search for bytecode descendants, AS3 line scraping and the generated files themselves.
- SWF container: compression, the eight byte file header and the file size field.
- Sessions: sockets, tasks, login, IPC, chat, quests, NPCs, the editor and the command lines.
- Storage: the SQL repository and its migrations.
- Cryptography: RSA, AES, SHA and MD5, which are foreign libraries.
- Fights: turns, spells and damage formulas.
