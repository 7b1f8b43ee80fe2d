# profit, modelled and verified in Dafny

profit is a C library that loads, traverses, rewrites and saves OpenFlight models.  This project models
six parts of it and proves what they are for.  Objects that the C code updates in place are classes here
(streams, pools, traversal state, nodes and child arrays, k-d tree nodes, vertex palettes and their
pools); loops are loops, with invariants; and what each of them does is stated by a function or a
relation about which the larger properties are then proved.

* **Byte streams** (`Bytes`, `BFile`).  A reader that holds one block of 4096 bytes shows the bytes of
  the file at its cursor, whatever mix of reads, gets, rewinds and peeks it is used for; a writer loses
  no byte.  `fread` and `fwrite` may transfer fewer bytes than they are asked for.  Puts and gets of
  integers are inverse.  A peek fails at the last byte of a block; when that matters is stated exactly.
* **Pool allocator** (`MemPool`).  Whatever the order of calls, the ranges handed out by live pools are
  aligned, inside their blocks, as large as asked, and disjoint; live handles are distinct and not zero.
* **Traversal state** (`Matrix`, `Inversion`, `State`).  The in-place inversion with row pivoting and
  the column swaps at the end gives the inverse of exactly the matrices that have one, by an
  invariant that says which equations the half-done matrix stands for.  Over any run of pushes,
  pops, multiplications and inversions, a cache whose dirty flag is down holds the inverse of the
  matrix on top.
* **Hierarchy** (`Hierarchy`, `Listing`, `InOrder`, `Context`, `Pruning`, `Ending`,
  `DepthFirst`, `BreadthFirst`, `Release`, `Destroyer`).  Linked
  nodes stand for mathematical trees.  The three iterative traversals make exactly the callbacks that
  recursive definitions prescribe: in-order for every callback (as long as a request to skip to a pop
  node finds one), depth-first for every tree whose lists end in a childless node, breadth-first for
  every tree.  From that follow what the current matrix is at each callback, that depth-first is a
  post-order in which each node is called back once and after all of its descendants, and that
  breadth-first shows the same nodes with the same matrices as in-order.  Whatever the callback answers,
  just those nodes are left out that are below one at which it did not go on, or that a pop request passes
  over; and the first EXIT ends the traversal at once.  Destroying a loaded model frees no node and no array of
  children twice, and none before everything below it is gone; and the traversal that is going on meanwhile
  looks at nothing that has been freed.
* **Loading, saving, cloning** (`Codecs`, `Records`, `Grammar`, `Numbering`, `Linking`, `Loader`, `Saver`,
  `RoundTrip`, `Cloner`, `ModelCloner`).  `Codecs` says of each kind that has load and save functions which records they
  refuse, how many bytes they consume (a vertex palette takes the vertex records that follow it, a list of
  vertices leaves bytes that are no whole word) and when they write what they read.  The loader's stack of
  arrays builds, from a flat stream with push, pop and ancillary records, one properly linked hierarchy of
  distinct nodes whose listing is the stream; loading and saving gives the file back byte for byte up to
  trailing garbage; saving and loading gives the undeleted part of any hierarchy back, and the meaning of every
  offset into its vertex palette; a clone is made of new nodes, has the same shape, and its vertex
  lists find in its palette what those of the original found in palette and pools.  The proof
  numbers the nodes in order of arrival (`Numbering`) and keeps a ledger of which node and array each
  number has (`Linking`).
* **Vertex palette** (`Vertices`, `VertexCodec`, `Palette`, `Compaction`, `PaletteFile`, `VertexFile`).  Offsets run
  through the palette and then through its overflow pools.  Adding a vertex gives an offset at which it
  is found and moves no other; compaction keeps what every reference means, keeps exactly the
  records referred to, and is idempotent; saving and loading, and cloning, merge the pools into the
  palette and leave the meaning of every offset alone.  For loading that is false of the code when a
  vertex record of any of the six kinds starts at the last byte of a block; `PaletteFile.LoadedRight`
  gives the exact condition and `PaletteFile.Mistaken` an input that violates it.
* **k-d tree** (`Spread`, `Bsp`).  Additions find equal points, splits separate, and both kinds of
  search agree with a linear scan, over any sequence of additions and removals.

The functions by which the loops are specified are tied to plain numbers by lemmas of their own: what a distance
is (`Spread.DistanceReplaced`), where the records of a file are and how long (`Records.ParseInNumbers`), how deep an
opcode puts a node (`Grammar.LevelInNumbers`), what the bytes of a vertex mean (`VertexFile.LoadedMeaning`), and that all
words of a vertex list are references (`Compaction.AllWordsAreRefs`).

Floats are exact reals, and distances in the k-d tree are squared, which replaces `sqrt`.  Callbacks are
functions from the history of visits to an answer.  Payloads of nodes are byte sequences; a `Decoder`
says which matrix the payload of a matrix node holds.  Assertions of the C code are preconditions.  What
the host does to byte order is that of a little-endian machine.

Where code and documentation disagree the code is followed.  MANUAL:192 says that `PRF_TRAV_UP` goes
back to the parent; the in-order loop has no case for it and treats it like `PRF_TRAV_SIBLING`, and so
does the model.  MANUAL:36 promises bitwise copies of any model; `RoundTrip.LoadThenSave` says that the
copy stops where the loader takes an opcode outside of all pushes for garbage, and is bitwise exactly if
that does not happen, and `RoundTrip.PaddingDropped` is a file of which the copy is shorter
(`RoundTrip.CopyPadded` makes it).  `RoundTrip.LoadThenSaveModel` says that a model with a vertex palette
comes out bitwise exactly if besides no record of the palette is mistaken.  Both are about files of which
every record is long enough for its save function.

`dafny verify dfyconfig.toml` checks everything.

## Model

| member | source | states |
|---|---|---|
| `Bytes.DecodeEncode` | src/util/bfile.c:444-543 | reading an integer of any signedness, width and byte order gives back each representable value that was written in that format |
| `Bytes.EncodeDecode` | src/util/bfile.c:848-935 | conversely, writing what was read reproduces the bytes |
| `BFile.DecodeWindow` | src/util/bfile.c:444-543 | the shifts and joins of signed and unsigned bytes in the accessors compute the positional, two's complement value |
| `BFile.EncodeShifts` | src/util/bfile.c:848-935 | the shifted and masked bytes the put functions emit are the digits of the value, negative values included |
| `BFile.Reader.constructor` | src/util/bfile.c:163-184 | a fresh reader is at the start of its file |
| `BFile.Reader.ReadBuffer` | src/util/bfile.c:243-269 | loads the next block, or what the file still has of it, although each `fread` may be short |
| `BFile.Reader.Read` | src/util/bfile.c:304-331 | delivers exactly the bytes of the file at the cursor, across any number of blocks, as many as are left, and touches no others of the target |
| `BFile.Reader.Rewind` | src/util/bfile.c:367-389 | moves the cursor back, also into earlier blocks and from a block boundary or the end, but not before the start, and says how far |
| `BFile.Reader.GetUint8` | src/util/bfile.c:418-439 | the next byte, or zero at the end of the file |
| `BFile.Reader.GetInt8` | src/util/bfile.c:394-413 | the next byte as a signed number |
| `BFile.Reader.GetWord16` | src/util/bfile.c:444-487 | the four 16-bit accessors read the two bytes at the cursor |
| `BFile.Reader.GetWord32` | src/util/bfile.c:492-543 | the four 32-bit accessors read the four bytes at the cursor |
| `BFile.Reader.GetWord` | src/util/bfile.c:394-543 | every integer accessor returns the value that the bytes at the cursor denote and moves past them |
| `BFile.Reader.PeekUint16Be` | src/util/bfile.c:716-741 | a peek moves nothing and sees the next two bytes, except that it answers zero at the last byte of a block |
| `BFile.PeekAgrees` | src/util/bfile.c:716-741 | a peek equals the get that follows it if and only if it is not at the last byte of a block, or both bytes are zero; so always at even offsets |
| `BFile.Writer.constructor` | src/util/bfile.c:189-207 | a fresh writer holds nothing |
| `BFile.Writer.WriteBuffer` | src/util/bfile.c:275-299 | the pending bytes are on disk behind the earlier ones, although each `fwrite` may be short |
| `BFile.Writer.Write` | src/util/bfile.c:336-362 | disk and pending bytes together grow by exactly the bytes written |
| `BFile.Writer.PutUint8` | src/util/bfile.c:825-843 | one byte more, and no unflushed byte is overwritten |
| `BFile.Writer.PutWord` | src/util/bfile.c:804-935 | the integer's bytes more, in the given byte order |
| `BFile.Writer.Destroy` | src/util/bfile.c:212-225 | closing flushes: the file is everything that was put |
| `BFile.WriteThenRead` | src/util/bfile.c:394-935 | any run of puts, closed and read with the matching gets, over any number of blocks, gives back every value |
| `MemPool.PoolSystem.constructor` | src/util/mempool.c:88-94 | no pool is live and nothing is handed out at the start |
| `MemPool.PoolSystem.Create` | src/util/mempool.c:116-131 | a new handle that was not live, the lowest free one and never zero; no other pool and no range is affected |
| `MemPool.PoolSystem.Destroy` | src/util/mempool.c:136-156 | exactly the ranges of that pool cease; all others keep their pools |
| `MemPool.PoolSystem.Malloc` | src/util/mempool.c:175-209 | the first block with room gives its next bytes, or, if none has any, a new block does, of the size of the pool's blocks or larger for a larger request; the range is 8-aligned, large enough, inside its block and, by `Valid`, disjoint from every range of every live pool |
| `Matrix.ExchangeEquivalent` | src/state.c:464-475 | one elimination step exchanges two variables: the new coefficients have the same solutions |
| `Matrix.SingularHasNoInverse` | src/state.c:454-455 | a matrix that sends a nonzero vector to zero has no inverse |
| `Inversion.TableauSwap` | src/state.c:456-463 | swapping the pivot row up keeps the solutions, with the order of the left sides permuted |
| `Inversion.TableauExchange` | src/state.c:464-475 | eliminating with the pivot keeps the solutions and moves one variable across |
| `Inversion.TableauSingular` | src/state.c:442-455 | if a column has no pivot left the original matrix sends some nonzero vector to zero |
| `Inversion.TableauUnswap` | src/state.c:477-486 | undoing a row swap, last one first, on the columns keeps the solutions |
| `Inversion.FindPivot` | src/state.c:442-455 | finds a row with a nonzero entry in the column, or there is none |
| `Inversion.Eliminate` | src/state.c:441-476 | one pass of the loop keeps the tableau, or shows the matrix singular |
| `Inversion.SwapBack` | src/state.c:477-486 | the reversed column swaps leave the inverse |
| `Inversion.InvertInPlace` | src/state.c:433-488 | the array ends up with the two-sided inverse of what it held; failure if and only if there is none |
| `State.Multiply` | src/state.c:377-400 | the loops overwrite the matrix with its product from the right, although they read a copy cell by cell |
| `State.TraversalState.constructor` | src/state.c:70-130 | one level with the identity, and nothing cached |
| `State.TraversalState.Push` | src/state.c:330-349 | duplicates the matrix on top; the cache stays right |
| `State.TraversalState.Pop` | src/state.c:354-372 | drops the matrix on top; the cache survives only when it is still right for the matrix below |
| `State.TraversalState.MultRight` | src/state.c:377-400 | replaces the matrix on top by its product and drops the cache |
| `State.TraversalState.GetInverse` | src/state.c:428-491 | the inverse of the current matrix, cached or computed; failure if and only if it is singular |
| `State.TraversalState.Clone` | src/state.c:189-251 | a separate state with the same matrices and a cache that is right for them |
| `State.TraversalState.CopyFrom` | src/state.c:256-325 | overwrites a state, whatever its own depth and cache were, with another's stack; the cache is right afterwards |
| `InOrder.CallNode` | src/model.c:800-823 | a matrix node multiplies the current matrix before the callback sees it |
| `InOrder.Advance` | src/model.c:825-865 | each answer of the callback leads where the recursive walk goes next |
| `InOrder.SkipToPop` | src/model.c:844-851 | a pop request goes on to the next pop node among the siblings |
| `InOrder.NextChild` | src/model.c:853-865 | leaves every level whose last child is done, restoring matrix stack and depth |
| `InOrder.TraverseIo` | src/model.c:769-876 | the loop makes the callbacks of the recursive preorder walk that skips deleted subtrees, in the same order with the same matrices and depths, and returns EXIT if and only if the walk exits; otherwise push level and physical level are restored |
| `Context.WalkShowsContext` | src/model.c:812-865 | without pop requests, each callback sees the initial matrix times all undeleted matrix nodes that precede the node among its own and its ancestors' siblings, itself included; nothing leaks out of a finished subtree |
| `Listing.WalkAll` | src/model.c:798-866 | a walk with a callback that always continues visits the whole listing |
| `Listing.LinesInjective` | src/model.c:798-866 | records in order with their depths determine the hierarchy |
| `Pruning.WalkShows` | src/model.c:798-866 | an in-order walk that is not ended, of a callback that deletes nothing, shows in order, once each, just the nodes that are not deleted, nor between one that was answered with POP and the next pop node among its siblings, nor below such a node, nor below one that was answered with anything but CONTINUE |
| `Ending.WalkExits` | src/model.c:825-827 | the first EXIT ends an in-order walk at once; up to there it is the walk that goes on, and without one it is that walk |
| `Pruning.PrunedShows` | src/model.c:798-866 | visits in any order that are those of a listing without what the answers leave out are of just the positions that no answer above or beside keeps from being shown |
| `DepthFirst.Descend` | src/model.c:957-974 | from a node down to its first childless descendant, entering every node once |
| `DepthFirst.VisitParent` | src/model.c:999-1017 | the single step up after a finished list arrives at a node that has a sibling left, so it never runs past an array |
| `DepthFirst.TraverseDf` | src/model.c:925-1026 | on trees whose lists end in a childless node, and without pop requests, the loop makes the callbacks of the recursive post-order walk; callbacks that free what they are for free everything shown, and no node or array is looked at after that |
| `DepthFirst.PostWalkAll` | src/model.c:956-1018 | with a callback that never exits the walk makes the callbacks of the whole post-order |
| `DepthFirst.PostWalkShows` | src/model.c:956-1018 | a walk that no callback ends is the whole post-order |
| `DepthFirst.PostWalkExits` | src/model.c:977-1014 | the first EXIT ends the walk at once; up to there it is the post-order |
| `DepthFirst.PostAgrees` | src/model.c:956-1018 | post-order shows each node with the matrix and at the depth that a listing in order has for it |
| `DepthFirst.Future` | src/model.c:956-1018 | the nodes that the loop still has on its stack come later in the walk |
| `DepthFirst.StaysAlive` | src/model.c:957-1010 | so neither the node the loop turns to, nor the array it is looked up in, nor the array of its children has been freed |
| `Release.NotFreed` | src/model.c:139-161 | if no node is shown twice, what is shown later is not freed yet |
| `DepthFirst.PostIndexShows` | src/model.c:956-1018 | the callback at the computed time is for the node at the given position, at its depth |
| `DepthFirst.PostIndexOnto` | src/model.c:956-1018 | every callback is for some position |
| `DepthFirst.PostIndexOnce` | src/model.c:956-1018 | no two positions share a callback |
| `DepthFirst.PostIndexAfter` | src/model.c:139-161 | every node is called back after all of its descendants, so none is destroyed early |
| `Listing.ListApart` | src/model.c:798-866 | where no node is at two positions none is listed twice |
| `Destroyer.ArraysApart` | src/model.c:151-152 | where no node is at two positions, no two positions have the same array of children |
| `Destroyer.Destroy` | src/model.c:139-182 | every node of the hierarchy and every array of children is freed exactly once, during the traversal, a node after all nodes below it; `free` asks that its argument was not freed before, and the traversal that what it reads was not |
| `Destroyer.LoadThenDestroy` | src/model.c:139-419 | the same for whatever the loader has built |
| `BreadthFirst.ScanArray` | src/cruft.c:131-158 | one child array, with a copied state that does not disturb the saved ones |
| `BreadthFirst.ScanArrays` | src/cruft.c:128-161 | one level: its arrays in order, each with the state saved for it, collecting those of the next |
| `BreadthFirst.TraverseBf` | src/cruft.c:91-194 | the rotating arrays and saved states make the callbacks of a scan level by level |
| `BreadthFirst.BfsLevelOrder` | src/cruft.c:124-180 | no node is shown after a deeper one, whatever the callback answers |
| `BreadthFirst.BfsShows` | src/cruft.c:124-180 | whatever the callback answers, as long as it does not exit: each node with no node above it that was answered with SIBLING is shown, once, with its matrix and depth, and nothing below one that was |
| `BreadthFirst.BfsExits` | src/cruft.c:140-161 | the first EXIT ends the scan at once; up to there it is the scan that goes on |
| `BreadthFirst.BfsCompares` | src/cruft.c:124-180 | the callbacks are those of listings in order, without what is below the nodes that were answered with SIBLING |
| `BreadthFirst.BfsAgrees` | src/cruft.c:124-180 | whatever groups of siblings are scanned, with a callback that continues the callbacks are those that walking each of them in order would make, deleted nodes included |
| `BreadthFirst.WalksAgree` | src/cruft.c:91-194 | without deleted nodes and with a callback that continues, breadth-first shows every node of a hierarchy as often, at the same depth and with the same matrix as in-order |
| `Codecs.LengthsInNumbers` | src/nodes/material_palette.c:105-228 | in plain numbers, of all kinds: from which length on the fields are there that are read and written whatever the length, and the lengths at which a material is cut short in its name |
| `Records.ParseBytes` | src/model.c:237-322 | the records a file is split into have the bytes of the file up to where loading stops, and all of its bytes if and only if it stops at the end |
| `Records.ParseInNumbers` | src/model.c:237-322 | in plain numbers: each record is where the sizes before it add up to, with the opcode and length that stand there, and has the size its length states (but for lists of vertices, the two shortest external references and the palette); none is too short for its load function; and splitting ends for the reason it gives |
| `Records.GarbageInNumbers` | src/model.c:259-283 | which two bytes end loading outside of all pushes |
| `Records.OpcodeSeen` | src/model.c:259-261 | the peek sees the opcode of every record that does not start at the last byte of a block |
| `Records.EvenUnbroken` | src/model.c:259-261 | where all records have even lengths none starts at the last byte of a block |
| `Records.ExtentOfPrefix` | src/nodes/vertex_palette.c:119-133 | how much a load function consumes depends on nothing behind the record |
| `Records.ParseAllBytes` | src/model.c:436-464 | the bytes of any records, none of which is refused or taken for garbage, split into these records again |
| `Grammar.FollowsStep` | src/model.c:329-371 | each record keeps the numbering a preorder with the stream's depths and every finished child list of the form (ancillary, or push plain* pop)*, and unfinished lists only on the open path |
| `Grammar.LevelInNumbers` | src/nodeinfo.c:92-330 | how deep a node is, by counting opcodes that push and pop before it, and one more for a push or ancillary opcode |
| `Numbering.BuildLists` | src/model.c:329-371 | the preorder listing of the subtree of a number is the run of numbers from it to its end |
| `Numbering.BuiltApart` | src/model.c:329-371 | the hierarchy built from different nodes has none at two positions |
| `Linking.TreeLinked` | src/model.c:338-366 | when every number is sealed the nodes are linked, downwards and to their parents, as the numbering says |
| `Linking.Append` | src/model.c:338-355 | putting a node into an array disturbs nothing recorded of the other nodes |
| `Linking.LinkUp` | src/model.c:344-366 | linking an array to its node sets the parents of exactly the nodes in it |
| `Loader.MakeRoom` | src/model.c:328-341 | afterwards the array one level up is that of the last node's children, old or new |
| `Loader.StackedNext` | src/model.c:328-371 | the stack invariant: each level has the array its path goes through, and one above the array of the last node whenever it has children |
| `Loader.Insert` | src/model.c:328-371 | one record finds its place: the loader's invariant is kept, with the record as the next number |
| `Loader.ReadNode` | src/model.c:237-322 | reads one record with all that its load function consumes, the vertex records of a palette included, or nothing if that function refuses it or the file ends before it does; outside of all pushes a bogus opcode, or one that the peek cannot see, ends loading with the cursor unmoved |
| `Loader.Load` | src/model.c:211-419 | success if and only if the file does not end within a record, no load function refuses one, and one record starts a root; with all pushes closed the model is one hierarchy of distinct nodes, linked both ways, made by the grammar, whose listing is the stream; the stream is the file in plain numbers |
| `Saver.SaveNode` | src/model.c:436-464 | the node's record follows what was written; that of a vertex palette has the records of the model's palette and its pools |
| `Saver.Save` | src/model.c:467-482 | the file is the records of the undeleted nodes in order, with the records of the model's palette and its pools for the palette node |
| `RoundTrip.GrammaticalEndsInLeaf` | src/model.c:329-371 | in every hierarchy the loader can build each child list ends in a childless node, as depth-first traversal needs it |
| `RoundTrip.StorableLoads` | src/model.c:329-371 | the stream of every hierarchy made by the grammar is accepted by the loader with one root |
| `RoundTrip.LoadThenSave` | src/model.c:211-482 | a file that loads, and has no mistaken palette record, is saved as the part of it before trailing garbage, which is a bitwise copy if and only if there is none |
| `RoundTrip.PaddingDropped` | src/model.c:267-283 | a file of a header and four bytes of padding: it meets all that loading asks for, and loads as the header and garbage |
| `RoundTrip.CopyPadded` | src/model.c:211-482 | loading and saving that file makes a copy of its first four bytes |
| `RoundTrip.NoGarbage` | src/model.c:267-283 | nothing in the file of a stream that the loader accepts is taken for garbage, refused or cut short |
| `RoundTrip.SavedRecords` | src/model.c:436-482 | listing what is saved of a hierarchy, without its deleted subtrees, gives the records that are written |
| `RoundTrip.SavedShapes` | src/model.c:798-823 | what is saved has the shape of the undeleted part |
| `RoundTrip.SaveThenLoad` | src/model.c:211-482 | a saved hierarchy, with deleted subtrees or without, loads with the shape, opcodes, lengths and payloads of its undeleted part (and the palette the pools were merged into), right parents, and no node at two positions |
| `RoundTrip.PaletteAt` | src/nodes/vertex_palette.c:90-177 | the vertex palette record of a file, read at its offset, gives a palette with its records, each as the loader takes it |
| `RoundTrip.LoadThenSaveModel` | src/model.c:211-482 | a model with a vertex palette is saved with its palette as it was loaded; the copy is bitwise if and only if there is no trailing garbage and no record of the palette is mistaken, and has the length of the file if and only if there is no garbage |
| `RoundTrip.SaveThenLoadModel` | src/model.c:211-482 | saving and loading a whole model, pools included, gives back the hierarchy with its vertex lists, and each offset gives the record and the vertex it gave before |
| `Cloner.CloneNode` | src/node.c:121-164 | a fresh node with the same opcode, length and payload |
| `Cloner.CloneVisit` | src/model.c:1037-1073 | with the stack cut back to the node's depth the copy is hung below the copy of its parent |
| `Cloner.Clone` | src/model.c:1076-1106 | the clone is a fresh hierarchy, right parents included, no node at two positions, with the shape of the original without its deleted subtrees |
| `ModelCloner.CloneModel` | src/model.c:1076-1106 | the clone of a model with a palette has a palette without pools, and each reference of its vertex lists is that of the original and finds in it the record that it finds in the original's palette or pools |
| `Vertices.FillOfStruct` | src/nodes/vertex_with_normal_and_texture.c:76-132 | for all four kinds that are stored, reading a record's struct gives the vertex that was stored, with absent normals and texture coordinates zero |
| `Vertices.DoubleExact` | src/nodes/obsolete_vertex_with_color.c:79-94 | the unsigned coordinates of the two old kinds become doubles of exactly that value |
| `VertexFile.LoadedMeaning` | src/nodes/vertex_with_normal_and_texture.c:76-263 | for all four kinds and every length from the coordinates on: a record is loaded so that a lookup gives the big-endian numbers that stand in the file, cut-off ones as zero |
| `VertexFile.OldMeaning` | src/nodes/obsolete_vertex_with_color.c:79-158 | the three integers of an old record are x, y and z of its vertex |
| `VertexFile.VertexLoaded` | src/nodes/vertex_with_normal_and_texture.c:138-263 | written out for a file, number by number, a vertex is loaded as its struct and saved as that again |
| `VertexFile.LoadThenLookUp` | src/model.c:1296-1369 | in a palette loaded from a file, each vertex is found at its offset with exactly its numbers |
| `VertexCodec.ToFromFile` | src/nodes/vertex_with_normal_and_texture.c:138-263 | loading a payload that has at least the fixed fields, of any of the six kinds, and saving it gives the same bytes, cut-off fields and tail included |
| `VertexCodec.FromToFile` | src/nodes/vertex_with_normal_and_texture.c:138-263 | saving such a payload and loading it gives the same memory |
| `VertexCodec.LoadFields` | src/nodes/vertex_with_normal.c:172-181 | the fields every record has, big-endian in the file, go where the struct has them |
| `VertexCodec.LoadWords` | src/nodes/vertex_with_normal_and_texture.c:186-200 | the four-byte fields that the length has room for, and no more |
| `VertexCodec.LoadVertex` | src/nodes/vertex_with_normal.c:132-208 | consumes exactly the length of the record and fills exactly its payload; refuses other opcodes, and lengths below 32 except that opcode 69 then takes the header for payload |
| `VertexCodec.SaveFields` | src/nodes/vertex_with_texture.c:200-244 | writes the payload in the order and byte order of the file |
| `VertexCodec.SaveVertex` | src/nodes/vertex_with_color.c:187-223 | emits exactly the record, and nothing for another opcode |
| `VertexCodec.LoadOldVertex` | src/nodes/obsolete_vertex_with_color.c:108-158 | of a record of any length, the coordinates that it has room for are turned around and the rest is taken as it is; consumes exactly the record; another opcode is put back |
| `VertexCodec.SaveOldVertex` | src/nodes/obsolete_vertex_with_color.c:164-195 | emits exactly the record, and nothing for another opcode |
| `Palette.FlatAt` | src/nodes/vertex_palette.c:210-232 | each record is found at its offset in a run of records |
| `Palette.StartUnique` | src/nodes/vertex_palette.c:210-232 | no two records have the same offset |
| `Palette.NewRecord` | src/model.c:1197-1220 | a record added at the end is found there, and every older offset means what it did |
| `Palette.VertexInRecord` | src/model.c:1222-1368 | the vertex put into a record is the one a lookup fills in |
| `Palette.Store.constructor` | src/nodes/vertex_palette.c:90-177 | a palette without pools |
| `Palette.Store.AddVertex` | src/model.c:1159-1291 | the records of palette and pools are the old ones and then the vertex's, in a pool with room for it, and the offset returned is where they ended |
| `Palette.Store.MakeRoom` | src/model.c:1175-1213 | the last pool has room, and no record moved |
| `Palette.Store.Lookup` | src/model.c:1296-1369 | the vertex of the record at any record offset, of any of the six kinds, in the palette or in whichever pool it is, cleared where the record ends before its first field, and nothing for a record of another kind; nothing past the end |
| `Palette.Store.AddThenLookup` | src/model.c:1159-1369 | the offset of an added vertex looks up to that vertex, and an older one to what it did |
| `Compaction.TagNode` | src/model.c:561-588 | counts each reference of an undeleted vertex list |
| `Compaction.CompactOne` | src/model.c:672-684 | a record in use moves to the end of what is kept and the table gets its new offset; one not in use is dropped |
| `Compaction.Compact` | src/model.c:667-709 | after both loops the buffer holds the used records packed in order, and the table says where each went |
| `Compaction.FixNode` | src/model.c:592-619 | each reference of a vertex list becomes what the table says, and nothing else of any node changes |
| `Compaction.AllWordsAreRefs` | src/model.c:573-580 | the references of a vertex list are all its words, as many as it has room for |
| `Compaction.KeptFound` | src/model.c:671-684 | a record in use is found unchanged at its new offset |
| `Compaction.KeptOnlyUsed` | src/model.c:671-684 | every record that is kept is in use, in the original order |
| `Compaction.TranslationKeepsMeaning` | src/model.c:743-748 | rewritten references resolve to byte-identical records |
| `Compaction.NothingLeft` | src/model.c:622-751 | after compaction every record is referred to and every reference would stay where it is |
| `Compaction.Optimize` | src/model.c:622-751 | exactly the referenced records remain, packed in order with an exact length, there are no pools, each reference keeps its meaning, and every four bytes of a vertex list find the record they found |
| `Compaction.OptimizeTwice` | src/model.c:622-751 | two runs leave what one leaves |
| `Compaction.OptimizeModel` | src/model.c:648-748 | the same, byte for byte of each vertex list and with all other payloads unchanged, for the vertex lists of a hierarchy without a node at two positions, as loaded, which is traversed twice, once to count and once to rewrite |
| `PaletteFile.SavePalette` | src/nodes/vertex_palette.c:183-269 | writes one palette with the node's length, the records of palette and pools in order, vertices of all six kinds by their save functions, and their total length |
| `PaletteFile.LengthSigned` | src/nodes/vertex_palette.c:107 | the length, which is read as a signed number, ends up in the node as the unsigned one that the file has |
| `PaletteFile.LoadRecord` | src/nodes/vertex_palette.c:135-174 | one record fills its place in the buffer, with numbers turned around if it is of a vertex and the peek sees that |
| `PaletteFile.LoadPalette` | src/nodes/vertex_palette.c:90-177 | a palette without pools holding the records of the file, each as the loader takes it; another opcode is refused with the cursor put back |
| `PaletteFile.LoadedRight` | src/nodes/vertex_palette.c:135-174 | the records are loaded as they were saved if and only if no vertex record, of any of the six kinds, starts at the last byte of a block (or reads the same in both byte orders) |
| `PaletteFile.SavedRight` | src/nodes/vertex_palette.c:135-252 | saving what was loaded writes the bytes of the file if and only if no record is mistaken: no two mistakes cancel out |
| `PaletteFile.EvenUnmistaken` | src/nodes/vertex_palette.c:135-174 | in particular if all records have even lengths |
| `PaletteFile.Mistaken` | src/nodes/vertex_palette.c:135-174 | two records, the first of a kind without functions, of which behind a header record the second comes back changed |
| `PaletteFile.SaveThenLoad` | src/nodes/vertex_palette.c:90-269 | saved and loaded, palette and pools are one palette in which every offset has the record it had, and lookups agree, if no record is mistaken |
| `PaletteFile.ClonePalette` | src/nodes/vertex_palette.c:403-466 | a fresh palette with the contents of palette and pools, in which every offset has the record it had |
| `Spread.MeanSeparates` | examples/flt2vrml/bsptree.c:468-505 | values that are not all equal lie on both sides of their mean |
| `Spread.BeyondSplit` | examples/flt2vrml/bsptree.c:714-751 | what is on the other side of a split is at least as far away as the split |
| `Spread.DistanceReplaced` | examples/flt2vrml/bsptree.c:728-734 | with `DistanceSelf`, which is zero, what the squared distance is: changing a coordinate changes it by the difference of the squares in that coordinate |
| `Spread.DistanceSelf` | examples/flt2vrml/bsptree.c:728-734 | a point is at no distance from itself |
| `Spread.DeviationsReplaced` | examples/flt2vrml/bsptree.c:477-480 | with `SumsOfEqual`, what the variance is |
| `Spread.ScoreMeans` | examples/flt2vrml/bsptree.c:493-503 | mean and score in plain arithmetic |
| `Bsp.SplitSeparates` | examples/flt2vrml/bsptree.c:422-447 | splitting a leaf of at least two different points leaves neither half empty, so an addition splits at most once |
| `Bsp.RouteFinds` | examples/flt2vrml/bsptree.c:673-697 | every stored point is in the leaf it is routed to |
| `Bsp.LiveDistinct` | examples/flt2vrml/bsptree.c:397-406 | no two stored indices are of equal points |
| `Bsp.RouteNotEmpty` | examples/flt2vrml/bsptree.c:754-798 | while no leaf was emptied nearest search starts at a point |
| `Bsp.RadiusSquared` | examples/flt2vrml/bsptree.c:716-743 | a distance is within the radius if and only if its square is within the square, so the test of a split and that of a point agree |
| `Bsp.CoversSquared` | examples/flt2vrml/bsptree.c:714-832 | the same whether the radius is given or is the distance of a point found before |
| `Bsp.SplitsFullLeaf` | examples/flt2vrml/bsptree.c:397-420 | an addition splits just a full leaf that does not have the point |
| `Bsp.BspTree.constructor` | examples/flt2vrml/bsptree.c:116-145 | an empty tree |
| `Bsp.BspTree.FindSplit` | examples/flt2vrml/bsptree.c:453-507 | the mean of the first dimension with the greatest deviation in proportion to its range |
| `Bsp.BspTree.SplitLeaf` | examples/flt2vrml/bsptree.c:422-446 | the same points in two leaves, on the right sides |
| `Bsp.BspTree.AddTo` | examples/flt2vrml/bsptree.c:372-450 | the same as `AddPoint` for a subtree, with at most one split |
| `Bsp.BspTree.AddPoint` | examples/flt2vrml/bsptree.c:357-368 | the index of an equal stored point if there is one, otherwise the next index, newly stored; routing and leaf limits hold afterwards |
| `Bsp.BspTree.FindPoint` | examples/flt2vrml/bsptree.c:662-697 | the index of the equal stored point, or -1 if and only if there is none |
| `Bsp.BspTree.RemovePoint` | examples/flt2vrml/bsptree.c:600-640 | exactly the equal point is no longer stored; -1 if there was none |
| `Bsp.BspTree.FindPoints` | examples/flt2vrml/bsptree.c:700-751 | appends to the given list exactly the stored indices within the radius, each once |
| `Bsp.BspTree.FindClosest` | examples/flt2vrml/bsptree.c:754-832 | a stored point such that none is nearer |
| `Bsp.BspTree.FindClosestPoints` | examples/flt2vrml/bsptree.c:835-867 | adds all stored points within the radius to a list, and returns the nearest of the list |

## Left out

- `BFile.Reader.PeekUint16Be`: says nothing about peeks where a file has fewer than two bytes, for which the C guard wraps around.
- `Loader.Load`: takes for granted that the records before any trailing garbage have known opcodes, that inside of pushes none is bogus or at the last byte of a block (where the peek fails), that the byte-swapped opcode 0x0b00 does not occur, that the first record is not push, pop or ancillary, and that pops have pushes; the C code answers most of these with failed assertions.  Also that instance records and vertices with normals are not shorter than their fields, that the names of a colour palette fit into it, that the payload of a vertex palette is a run of records, and that no record of a kind with a load function is cut short by the end of the file: there the C code reads from memory that the record does not have, or goes on with zeros.
- `Loader.ReadNode`: payloads are those of the file.  Except for vertices and vertex palettes, what load functions make of them in memory (`Codecs` says which records they refuse and how much they consume) is not modelled; `Compaction` and `ModelCloner` are about vertex lists in memory, whose words are in the byte order of the host.
- `Saver.SaveNode`: the save functions other than those of vertices and vertex palettes are taken to write back what their load functions read, which they do for records that are long enough and for materials without a last one cut in its name (`Codecs.Preserved`); for other records C writes memory that was never filled, and nothing is said.
- `Saver.Save`: the same.
- `RoundTrip.LoadThenSave`: the same, and every palette free of mistaken records; for those see `RoundTrip.LoadThenSaveModel`.
- `RoundTrip.LoadThenSaveModel`: models with one vertex palette.  As the hierarchy keeps payloads as the file has them, the palette is read from the file a second time to be decoded.
- `RoundTrip.SaveThenLoadModel`: for palettes without mistaken records, and models with one vertex palette.
- `InOrder.TraverseIo`: nothing is said about a pop request where no pop node follows, which the C loop does not survive, nor about the state after EXIT, when the C clean-up frees arrays that are still in use.
- `DepthFirst.TraverseDf`: not for pop requests, nor for trees whose lists end in a node with children, on which the C loop is wrong; loaded trees have none (`RoundTrip.GrammaticalEndsInLeaf`).
- `Cloner.Clone`: only with a header node at the root and nowhere else, as otherwise the C callback replaces the header it is building.  Payloads are copied with the length of the record, so records that a load function has read too little or too much of are left out; the vertex palette's clone function is `PaletteFile.ClonePalette`, and `ModelCloner.CloneModel` clones both.
- `Compaction.Optimize`: the table is one counter for each offset, where C has overlapping 32-bit words; they do not overlap at record offsets.  Reading it from model-wide traversals needs that no vertex list node is deleted by the callbacks, which do not delete.
- `Palette.Store.Lookup`: offsets in the middle of records, and vertex records for which the C code reads beyond the record: old ones with less than three coordinates, which are filled in whatever the length, and others with 2 to 27 bytes of payload, of which the length is compared in the order of the file but the colour name and the flags are looked for behind the coordinates.
- `PaletteFile.SavePalette`: vertex records shorter than what the save functions write whatever the length, and records of other kinds that have save functions, which C would call.
- `PaletteFile.LoadPalette`: the same, and palettes whose file was cut short.
- `Destroyer.Destroy`: a model without a memory pool; with one, `MemPool.PoolSystem.Destroy` frees the nodes.  Payloads are values here, so freeing them is not modelled.
- `Bsp.BspTree.AddPoint`: the depth limit of the C code is a precondition on the depth of the leaf.
- `Bsp.BspTree.FindPoints`: negative radii.
- `Bsp.BspTree.FindClosest`: needs a point in the leaf that the given point is routed to, closer than the largest float; after removals that leaf can be empty, and then the C code has nothing to start from.
- Traversals with `PRF_TRAV_UP` and `PRF_TRAV_TRAVERSE`: the in-order loop has no case of their own for them.
- Rounding, overflow and NaN: numbers are exact; a dimension without range, and a row of zeros, are skipped as the failing comparisons of C skip them.
- The wrap-around of depths and counters that are 16 bits wide.
- Memory: malloc failure, the layout of structs, arrays that move when they grow (a child array is one object here).
- Streams in memory (`BF_MEMBUFFER`), floats in streams, `bf_unget_uint32_be`, hex dumps, progress callbacks, file access.
- Virtual nodes, and user data in the k-d tree.
- `bsp_clear`, `bsp_remove_point_by_idx`, `prf_model_append_node`, `prf_model_macros_fix` and `src/replicate.c`: unfinished or unsafe to call.
- Big-endian hosts.
