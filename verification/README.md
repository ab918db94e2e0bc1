# netCDF aggregation, archiving and traversal: a verified model

The iRODS netCDF and HDF5 modules keep long time series as collections of netCDF files and serve them as if
they were one array. This project models that behaviour and the algorithms around it, and proves what they
promise. Arrays have any number of dimensions, collections any number of files, runs any length; what is taken
for granted about the inputs beyond that is listed under "Left out".

The main results:

- **Archive and read back** (`RoundTrip.HistoryReadsBack`). In every state of every history of archive runs
  (successful, or failed after some files), index rebuilds and source growth that starts from an empty
  collection, a read inside the archived range gives the source's values when it has no more than one step in
  the dimensions before time or lies inside one file, whatever order the collection lists its files in when the
  index is built; the stored index serves the range of the files it knows. These are all the windows for which
  that can be promised (`Pieces.PiecesReadExactly`). The archive begins with the step the first run is told, and
  what has been archived stays. After a successful run that begins or continues the archive, at most one step of
  the source is not archived; a run through an index that does not know all files writes nothing, and any other
  one archives what is pending exactly when there is room for the files. The methods that run the archiver on a
  collection produce such histories (`Commands.Replay`, `RoundTrip.ArchiveAndOpen`).
- **Aggregate read** (`AggRead.RowMajorExactly`, `AggSession.AnswerIsHyperslab`, `AggSession.Session.GetVarsByType`).
  The buffer filled file by file is the hyperslab of the virtual array. The code is right for all data exactly
  when every dimension before time has a count of one, or one file serves the whole window.
- **Sessions** (`AggSession.Serve`). Whatever calls are made in whatever order, with whatever failures, a read
  that passes the first checks gives the answer of a fresh session exactly when every file behind the first that
  holds steps of the window and is not open already can be opened and inquired; the error, and which file is open
  afterwards, follow from the window and the state before, and closing leaves no descriptor open.
- **Sizes of archived files** (`Archive.Collection.ArchTimeSeries`, `ArchiveSize.RunBytes`). Of the files a run
  leaves in the collection, all but the last hold just more steps than fit the requested size, and the last is
  bounded by half of it more and two and a half steps.
- **HDF5 walk** (`H5Walk.WalkFindsExactly`, `H5Walk.WalkIsSound`). The walk ends on cyclic graphs and lists
  exactly the objects that can be reached, each under a path that opens it, one for each way to it
  (`H5Walk.PathsListedExactly`). The root is unfolded a second time exactly when links lead back to it and its id
  is not the one the tree records for it.
- **Copies, subsets, dictionaries, JSON**. The chunked copy equals one transfer; the subset parser accepts
  exactly its form, and on ascending integer coordinates a request selects exactly the steps with coordinates
  between its two numbers, if there are any (`Coordinates.RequestSelects`); a list of subsets selects, in every dimension, what the
  first one of its name says (`Subset.GetSingleNcVarData`, `Subset.DumpSubsetToFile`); the dictionary is a finite
  map; packed JSON carries every value, 64-bit integers included, and packing is undone by unpacking exactly for
  dictionaries without 64-bit integers and with bools 0 or 1, and unpacking loses nothing exactly for JSON
  without null.

Where the code departs from its intent, the model follows the code, and a lemma says exactly when intent and
code agree, as a condition on the inputs: `AggRead.RowMajorExactly` and `Pieces.PiecesReadExactly` (time not
outermost), `AggRead.ReadInPlaceExactly` with `AggSession.ReadIsByName` (every file is read by the variable's id
in the first one), `AggSession.StrideCorrectionExactly` (the correction between files finds the next step of a
strided read only by luck), `NetCdf.StridedFitsExactly` (a strided request's buffer against a transfer without
strides), `Copy.ResolvedExactly` (a value range below all coordinates), `Tiling.ResumeExactly` (equal times at a
resume point), `H5Walk.WalkFindsExactly` with `H5Walk.MarkedGroupIsSkipped` (a group with the root's mark),
`H5Walk.ReportIsTrueExactly` with `H5Walk.ErrorIsLost` (a subgroup that does not open goes unreported),
`Archive.Collection.ArchTimeSeries` (a run that has done everything reports an error for an object that is not
netCDF), `Json.RoundTripExactly`, and `Json.ErrorExactly` with `Json.NothingLostExactly` (a null that is not
last is dropped without an error).

Documentation and code disagree in one place: the usage text of `incarch` says that a file exceeds the size limit
by at most 50%. For every limit and step size some run exceeds it by more (`Tiling.HalfIsExceeded`);
`Tiling.WithinHalfExactly` gives the exact condition on the number of pending steps, the limit and the step size,
and `Tiling.ByteBounds` what holds of all runs. `ArchiveSize` carries this over to the bytes of the files written.

## Files

| file | content |
|---|---|
| `Hyperslab.dfy`, `Blocks.dfy` | row-major index arithmetic, variables as blocks, `nc_get_vara` |
| `NetCdf.dfy`, `Subset.dfy`, `Copy.dfy` | files and inquiries, sizes, subsetting, chunked copy, value ranges |
| `Decimal.dfy`, `SubsetString.dfy`, `Coordinates.dfy` | decimal numbers, the subset parser, requests by value |
| `GrownArray.dfy`, `AggInfo.dfy` | arrays grown in steps, the aggregate index, file numbers |
| `Tiling.dfy`, `Archive.dfy`, `ArchiveSize.dfy` | cutting steps into files, one archive run, bytes of its files |
| `History.dfy`, `Commands.dfy` | whole histories, and the commands that produce them |
| `AggRead.dfy`, `AggSession.dfy` | the multi-file read, the session |
| `Pieces.dfy`, `RoundTrip.dfy` | a block cut up and read, archive and read back |
| `H5Walk.dfy` | the HDF5 traversal |
| `Dictionary.dfy`, `Json.dfy` | attribute dictionaries, JSON |

## Model

| member | source | states |
|---|---|---|
| RoundTrip.HistoryReadsBack | api/src/rsNcArchTimeSeries.cpp:33-214 | over every history of runs, rebuilds and source growth: archived windows with single steps before time, or inside one file, read back as the source's through any index built from the files and, as far as it reaches, through the stored one; the bounds begin with the requested start and only grow; a successful run that begins or continues the archive leaves at most one step, and so does, whatever it reports, a run through an up-to-date index exactly when there is room for the pending files |
| RoundTrip.ArchivedReadIsSource | api/src/rsNcGetVarsByType.cpp:156-261 | through an index that knows the first m files, a window of their range (single steps before time, or inside one file) is the same window of the source counted from the first archived step; a variable without time is the source's |
| RoundTrip.KnownReadsBack | api/src/rsNcGetVarsByType.cpp:78-275 | every read inside the range an index knows that has single steps before time, or lies inside one file, gives the source's values |
| RoundTrip.ReadArchived | api/src/rsNcGetVarsByType.cpp:78-275 | a read through a session used in any way before gives the source's window exactly when the elements it has to open can be opened and inquired, so always when no file fails |
| Pieces.PiecesRead | api/src/rsNcGetVarsByType.cpp:213-223 | a block cut along one dimension and joined again reads like the block |
| Pieces.PiecesReadExactly | api/src/rsNcGetVarsByType.cpp:213-250 | a window of a block that has been cut up reads back for all data if and only if no dimension before time has more than one step in it, or one piece holds all of it |
| RoundTrip.ArchiveAndOpen | api/src/rsNcArchTimeSeries.cpp:33-214 | any commands on a new collection, then opening it: the stored index knows the files it lists, so that archived windows can be read |
| RoundTrip.ArchivedLength | api/lib/_rsNcInqDataObj.cpp:88-100 | the reported time length is that of the archived range, for any listing order |
| RoundTrip.FilesAreCuts | api/src/rsNcArchTimeSeries.cpp:273-338 | in every variable over time the files hold consecutive cuts of the source |
| History.HistoryKeepsTiling | api/src/rsNcArchTimeSeries.cpp:33-214 | every reachable state: files tile a range of the source without gap or overlap, the index knows a prefix of them, and each event has advanced the bounds as a run, a rebuild or growth does |
| History.RoomExactly | api/src/rsNcArchTimeSeries.cpp:273-338 | after a failure: spans that follow tiled files are all written exactly when the server takes enough files, and only then at most one step is left |
| History.NoStart | api/src/rsNcArchTimeSeries.cpp:158-184 | a run finds a step to start with if and only if it is told one or the index knows a file |
| Commands.Replay | api/src/rsNcArchTimeSeries.cpp:33-214 | commands carried out on a collection, whatever fails, produce a history whose last state is the collection |
| History.TilingOnlyGrows | api/src/rsNcArchTimeSeries.cpp:158-184 | once there is a file, the first index is fixed and written files stay in every later state |
| History.RunKeepsTiling | api/src/rsNcArchTimeSeries.cpp:158-212 | one run, successful or cut short, extends the tiling; a new archive begins with the requested step; success brings the index up to date and leaves at most one step when it begins or continues the archive; without an index of all files nothing is written |
| History.RebuiltIndex | api/src/rsNcGetAggInfo.cpp:57-91 | the index of tiled files is the list of them in time order, whatever the listing order |
| History.ResumesAtBound | api/src/rsNcArchTimeSeries.cpp:168-184 | an incremental run starts exactly behind the steps the index knows, and can start there |
| History.BlockedRun | api/src/rsNcArchTimeSeries.cpp:280-286 | a run whose first name is taken changes nothing, and has written all it had to only when nothing was pending |
| History.StepKeepsTiling | api/src/rsNcArchTimeSeries.cpp:33-214 | every event keeps files and index consistent |
| Archive.Collection.ArchTimeSeries | api/src/rsNcArchTimeSeries.cpp:33-214 | the run relation, for times in any order: start index, files written, index replaced just when all are written and it can be rebuilt and stored; of the files added, numbered in decimal, all but the one with the highest number hold just more steps than fit the requested size (1 GiB when none is requested), and that one at most half of it more and two and a half steps; success is reported just when the index has been replaced and every object is netCDF; without a one-dimensional time variable it fails and changes nothing |
| Archive.RunSized | api/src/rsNcArchTimeSeries.cpp:185-190 | the sizes, in steps against the limit, of the files a run adds; earlier files stay as they are |
| Archive.Collection.ArchPartialTimeSeries | api/src/rsNcArchTimeSeries.cpp:216-341 | writes a prefix of the pending spans under consecutive numbers, all of them just when it succeeds, and stops at the first that cannot be written |
| Archive.Collection.WriteTiles | api/src/rsNcArchTimeSeries.cpp:273-338 | the loop refines the recursive tiling |
| Archive.Collection.WriteFile | api/src/rsNcArchTimeSeries.cpp:280-336 | registers the window of the source, or changes nothing |
| Archive.Collection.GetAggInfo | api/src/rsNcGetAggInfo.cpp:29-140 | the index is built by adding the elements of all files in the order of some listing, and stored; there is none exactly when some file has no time dimension with a variable; an object that is not netCDF turns the status into an error, and the index stays |
| Archive.Collection.StartOfRun | api/src/rsNcArchTimeSeries.cpp:158-184 | where a new or incremental run starts, and when there is no such index |
| Archive.GetAggElement | api/src/rsNcGetAggElement.cpp:24-100 | path, length, and first and last time as 32-bit unsigned numbers, of a file; fails exactly without a time dimension and variable |
| Archive.FindTimeVar | api/src/rsNcArchTimeSeries.cpp:124-156 | finds the time dimension and the variable of its name, or there is none |
| Tiling.TilesPartition | api/src/rsNcArchTimeSeries.cpp:273-303 | the spans partition the pending range although the loop test is `<` |
| Tiling.PartitionCovers | api/src/rsNcArchTimeSeries.cpp:273-303 | every step of the range is in exactly one span |
| Tiling.TileSizes | api/src/rsNcArchTimeSeries.cpp:292-302 | all spans but the last have the interval's length, the last is bounded both ways |
| Tiling.ByteBounds | api/src/rsNcArchTimeSeries.cpp:251-302 | byte sizes against the limit, for all files and the last one |
| Tiling.WithinHalfExactly | icommands/src/incarch.cpp:141-146 | all files stay within half over the limit if and only if the last one and, with several, one interval do; both sizes follow from the number of steps, the limit and the step size |
| Tiling.HalfIsExceeded | icommands/src/incarch.cpp:141-146 | for every limit and step size, a run whose one file exceeds the limit by more than half |
| Tiling.LastTileSize | api/src/rsNcArchTimeSeries.cpp:292-302 | the length of the last span, from the number of steps and the interval |
| Tiling.FileBytesBound | api/lib/rcNcInq.cpp:1940-1971 | a file of c steps holds at most c step sizes |
| Tiling.FileBytesOfSteps | api/lib/rcNcInq.cpp:1940-1971 | and exactly that many when all variables run over time |
| ArchiveSize.RunBytes | api/src/rsNcArchTimeSeries.cpp:251-302 | the values in each file of a run, against the limit |
| ArchiveSize.RunWithinHalfExactly | icommands/src/incarch.cpp:141-146 | on series whose variables all run over time: no file of a run exceeds the limit by more than half if and only if the sizes that follow from the pending steps do not |
| ArchiveSize.RunExceedsHalf | icommands/src/incarch.cpp:141-146 | on such a series, a run whose one file does |
| Tiling.GetTimeInxForArch | api/src/rsNcArchTimeSeries.cpp:343-411 | the backward block search, for times in any order and every block size: in the last block that does not begin behind the end time, behind its first steps that are not; fails exactly when every block begins behind it |
| Tiling.ResumesExactly | api/src/rsNcArchTimeSeries.cpp:343-411 | on ascending times the search resumes at the least index with a later time, if that is not the first, and nowhere else |
| Tiling.ResumeExactly | api/src/rsNcArchTimeSeries.cpp:385-399 | resuming continues directly behind the last archived step if and only if the next time is later |
| AggInfo.AggTable.AddNcAggElement | api/lib/rcNcGetAggInfo.cpp:15-66 | sorted insertion in place, within the capacity grown in steps |
| AggInfo.InsertAt | api/lib/rcNcGetAggInfo.cpp:46-64 | shifting from the first greater element on is sorted insertion |
| AggInfo.BuiltIsStableSort | api/lib/rcNcGetAggInfo.cpp:46-64 | any sequence of insertions gives the stable sort by start and end time |
| AggInfo.BuiltInTimeOrder | api/lib/rcNcGetAggInfo.cpp:45-63 | the index holds what was added, ascending by start time and, among equal start times, by end time |
| AggInfo.StableSortUnique | api/lib/rcNcGetAggInfo.cpp:46-64 | there is only one stable sort |
| AggInfo.ListingOrderIrrelevant | api/lib/rcNcGetAggInfo.cpp:46-64 | with distinct time ranges the insertion order does not matter |
| AggInfo.SumAggElementArraylen | api/lib/rcNcGetAggInfo.cpp:68-83 | the total number of steps of all elements; the index argument is only range-checked |
| AggInfo.BuiltSum | api/lib/rcNcGetAggInfo.cpp:68-83 | the total length does not depend on the insertion order |
| AggInfo.GetNextNumber | api/lib/rcNcGetAggInfo.cpp:113-139 | 1, or one above the highest number that follows the base path in some element's path, whatever follows its digits |
| AggInfo.FreshNames | api/lib/rcNcGetAggInfo.cpp:113-139 | every name from the next number on differs from all element paths |
| AggInfo.FileNameInjective | api/src/rsNcArchTimeSeries.cpp:275-277 | chunk names are distinct |
| AggInfo.FileNameExactly | api/src/rsNcArchTimeSeries.cpp:275-277 | a file's name is the base path and its number in decimal without leading zeros |
| GrownArray.RoomForOne | api/lib/rcNcGetAggInfo.cpp:26-44 | growing just at multiples of the step always leaves room |
| GrownArray.SlackIsLeast | api/lib/rcNcGetAggInfo.cpp:23-40 | the capacity is the least multiple of the growth step that has room |
| AggRead.ReadIsHyperslab | api/src/rsNcGetVarsByType.cpp:156-261 | with counts of one outside time, the buffer is the hyperslab of the virtual array, cut at its end |
| AggRead.RowMajorExactly | api/src/rsNcGetVarsByType.cpp:213-250 | assembling file by file is right for all data if and only if outer counts are one or one file serves the window |
| AggRead.JoinedIsConcatenation | api/src/rsNcGetVarsByType.cpp:156-261 | with time outermost the virtual array is the concatenation of the files |
| AggRead.BufferLength | api/src/rsNcGetVarsByType.cpp:239-250 | the buffer holds exactly the existing cells of the window |
| AggRead.ReadInPlaceExactly | api/src/rsNcGetVarsByType.cpp:184-209 | reading some parts in place of others is right for all data if and only if the parts with steps of the window are the same |
| AggSession.ReadIsByName | api/src/rsNcGetVarsByType.cpp:184-209 | reading every file by element 0's id is reading by name when the elements with steps of the window have the variable under that id |
| AggSession.Session.GetVarsByType | api/src/rsNcGetVarsByType.cpp:78-275 | the answer for one variable whatever the session has open; it is given exactly when the session is open, element 0 is inquired or can be, something is asked for in every dimension, and each element that has steps of the window and is not open already can be opened and inquired, never failing for want of room; the error is that of the first check or element that fails, and afterwards the element open is the last that had steps of the window, or the one the read stopped at |
| AggSession.Session.CopyElements | api/src/rsNcGetVarsByType.cpp:156-261 | the loop fills the buffer with the answer |
| AggSession.AnswerIsHyperslab | api/src/rsNcGetVarsByType.cpp:119-275 | with single steps before time or one file in the window, the answer is the virtual hyperslab, zero filled behind the end, and empty exactly for windows behind the end |
| AggSession.AnswerWithoutTime | api/src/rsNcGetVarsByType.cpp:105-115 | a variable without time is read from the first element that has steps; a negative time start has no answer |
| AggSession.TransferredIsSelected | api/src/rsNcGetVarsByType.cpp:156-261 | what the loop transfers is each file's part of the window, and fits the buffer |
| AggSession.TransferredSteps | api/src/rsNcGetVarsByType.cpp:213-230 | position arithmetic of the loop along time |
| AggSession.StrideCorrectionExactly | api/src/rsNcGetVarsByType.cpp:223-229 | for any start, position and stride, when the correction goes on at the next step of the read |
| AggSession.LookUpVarId | api/src/rsNcGetVarsByType.cpp:184-209 | both lookups use element 0's table: the first variable of that name |
| AggSession.Session.OpenAggrFile | api/lib/rcNcOpen.cpp:236-289 | keeps the session invariant: at most two files, cached inquiries paired with their files |
| AggSession.Session.Open | api/lib/rcNcOpen.cpp:197-233 | opens element 0 |
| AggSession.Session.Close | api/src/rsNcClose.cpp:26-91 | leaves no descriptor open |
| AggSession.Session.InqColl | api/lib/_rsNcInqDataObj.cpp:67-104 | element 0's inquiry with the total length as time length |
| AggSession.Serve | api/src/rsNcGetVarsByType.cpp:103-115 | over any sequence of calls: each read succeeds exactly as GetVarsByType says of the state before it and then answers as a fresh session would, each call leaves the state told, and no descriptor is left after closing |
| NetCdf.GetSizeForGetVars | api/lib/rcNcGetVarsByType.cpp:118-134 | element count of a strided request; fails exactly on a count that is not positive |
| NetCdf.StridedFitsExactly | api/lib/rcNcGetVarsByType.cpp:118-134 | the count never exceeds the number of cells, and equals it exactly when no stride skips a cell |
| Copy.SizeIsLatticePoints | api/lib/rcNcGetVarsByType.cpp:118-134 | the count is the product, over the dimensions, of the lattice points each stride selects, a stride of 1 or less selecting all |
| NetCdf.SizeHoldsValues | api/lib/rcNcGetVarsByType.cpp:136-172 | the size of each integer and character type has as many bit patterns as the type has values |
| NetCdf.NamesTimeExactly | api/lib/rcNcInq.cpp:1861-1891 | a dimension is named time by the four letters in either case |
| NetCdf.GetTimeInxInVar | api/lib/rcNcInq.cpp:1861-1891 | position of the time dimension in a variable, or none |
| NetCdf.GetTimeStepSize | api/lib/rcNcInq.cpp:1940-1971 | bytes of one step over all variables |
| Subset.GetSingleNcVarData | api/lib/rcNcInq.cpp:523-590 | a variable restricted to any list of subsets: in each dimension the first subset of its name gives start and length, without one the dimension is whole, and each cell is the variable's cell moved by the starts; refused with NETCDF_DIM_MISMATCH_ERR exactly when such a subset is out of range, and read exactly when some steps of each dimension are selected and the type is known; any other error is that of the first check that fails |
| Subset.SelectsExactly | api/lib/rcNcInq.cpp:534-559 | the loop over the subsets finds the first of the dimension's name; range check and readability in its numbers |
| Subset.DumpSubsetToFile | api/lib/rcNcInq.cpp:897-1085 | the written file has in every dimension the length the first subset of its name selects, and in every variable the selected cells; it is written exactly when no length is negative and every variable can be read |
| Subset.WindowDumpable | api/lib/rcNcInq.cpp:541-559 | exactly the windows inside a series can be written |
| Subset.WindowBlock | api/lib/rcNcInq.cpp:897-1085 | each variable of a window file is the hyperslab of the series' variable |
| Subset.WindowTimes | api/lib/rcNcInq.cpp:897-1085 | the times of a window file are the slice of the times |
| Subset.WindowSurvives | api/lib/rcNcInq.cpp:897-1085 | windows taken before a series grew are windows of the grown series |
| Copy.GetAndPutVarToFile | api/lib/rcNcInq.cpp:820-894 | block by block equals one transfer, the blocks adding up to the window and each at most the limit and one row; fails exactly on an empty inner dimension |
| Copy.CopiedCell | api/lib/rcNcInq.cpp:866-890 | cells inside the window are the source's, cells outside keep their values |
| Copy.WholeCopy | api/lib/rcNcInq.cpp:820-894 | copying all of a variable leaves its data |
| Copy.ChooseStep | api/lib/rcNcInq.cpp:835-856 | rows per transfer: all that fit, or just enough to exceed the transfer size by at most a row |
| Copy.ResolveRange | api/lib/rcNcInq.cpp:1376-1445 | the scan's start and end |
| Copy.ResolvedExactly | api/lib/rcNcInq.cpp:1376-1445 | a non-empty selection is resolved exactly; an empty one is rejected exactly when some coordinate reaches the lower bound |
| Copy.LatticePoints | api/lib/rcNcInq.cpp:957-963 | the length of a strided dimension is the number of its lattice points and the request's factor |
| SubsetString.ParseExactly | api/lib/rcNcInq.cpp:1164-1207 | a text is accepted if and only if it has the form, and as what |
| SubsetString.RequestParses | api/lib/rcNcInq.cpp:1164-1207 | of an accepted text the first number is the start, the second the stride and the third the end, and the first and third texts are kept |
| SubsetString.PrintedSubsetParses | api/lib/rcNcInq.cpp:1164-1207 | printing and parsing recovers name, numbers and the texts of start and end |
| SubsetString.ParseNcSubset | api/lib/rcNcInq.cpp:1164-1207 | the parser on the buffer: accepts exactly texts name[start%stride%end], stores the three numbers and the texts of start and end, and leaves the name in the buffer; nothing is changed on failure |
| SubsetString.ParseSubsetStr | api/lib/rcNcInq.cpp:1227-1248 | the requests before the first wrong word, 64 at most |
| Coordinates.ResolveSubsetVar | api/lib/rcNcInq.cpp:1300-1451 | requests by value are resolved in place, one by one, on the first variable of their name, up to the first that has none, or none with numbers |
| Coordinates.ValuesSelected | api/lib/rcNcInq.cpp:1326-1445 | on ascending coordinates the resolved requests select exactly the steps whose values lie between what the two texts stand for; when there are none, the dimension is refused just when some value reaches the lower one |
| Coordinates.RequestSelects | api/lib/rcNcInq.cpp:1164-1445 | from the text to the steps, on integer coordinates |
| Decimal.AtoiPrint | api/lib/rcNcGetAggInfo.cpp:113-139 | atoi inverts decimal printing |
| Decimal.PrintExactly | api/lib/rcNcGetAggInfo.cpp:113-139 | of the texts atoi reads as a number, decimal printing gives the one of digits alone without leading zeros |
| H5Walk.GetStructure | microservices/hdf5/lib/h5File.cpp:157-177 | builds the unfolding of the root, and the status it reports |
| H5Walk.DepthFirst | microservices/hdf5/lib/h5File.cpp:180-281 | the recursive filling in of group and dataset arrays builds the unfolding; each group is opened by its path |
| H5Walk.HasLoop | microservices/hdf5/lib/h5File.cpp:327-343 | whether an id is among the ancestors |
| H5Walk.UnfoldListsExactly | microservices/hdf5/lib/h5File.cpp:180-281 | a tree lists exactly what ways without repeated groups reach |
| H5Walk.WalkFindsExactly | microservices/hdf5/lib/h5File.cpp:157-281 | the objects listed are exactly those reachable through groups that open and do not carry the root's mark |
| H5Walk.PathsListedExactly | microservices/hdf5/lib/h5File.cpp:180-281 | an object is listed under exactly the paths that are the names, each behind one slash, of the ways to it on which no group repeats |
| H5Walk.WalkIsComplete | microservices/hdf5/lib/h5File.cpp:157-281 | nothing linked is missed when all groups open and only the root is marked |
| H5Walk.WalkIsSound | microservices/hdf5/lib/h5File.cpp:236-266 | every path listed opens the object listed with it |
| H5Walk.UnfoldNeverRepeats | microservices/hdf5/lib/h5File.cpp:250-251 | no group is unfolded on a way down whose id has been recorded above it |
| H5Walk.StructureNeverRepeats | microservices/hdf5/lib/h5File.cpp:157-177 | below the root no group is unfolded twice on a way down |
| H5Walk.RootUnfoldedAgainExactly | microservices/hdf5/lib/h5File.cpp:171 | the root is unfolded below itself exactly when its id is not its mark and links lead back to it through groups that open |
| H5Walk.SuccessExactly | microservices/hdf5/lib/h5File.cpp:194-252 | success is reported exactly when the group opened last opens |
| H5Walk.ReportIsTrueExactly | microservices/hdf5/lib/h5File.cpp:194-252 | the report is true exactly when all groups that can be reached open or the one opened last does not |
| H5Walk.ErrorIsReal | microservices/hdf5/lib/h5File.cpp:194-252 | a reported error means that a reachable group does not open |
| H5Walk.ErrorIsLost | microservices/hdf5/lib/h5File.cpp:250-252 | a file where the error of a subgroup is overwritten |
| H5Walk.UnfoldIsShallow | microservices/hdf5/lib/h5File.cpp:250-251 | the depth is at most the number of groups plus two |
| H5Walk.MarkedGroupIsSkipped | microservices/hdf5/lib/h5File.cpp:171 | a file in which the root's mark hides a dataset |
| H5Walk.ChildResolves | microservices/hdf5/lib/h5File.cpp:241-246 | appending a name to a group's path leads one link further |
| Dictionary.Attributes.SetAttr | api/lib/ooiCi.cpp:14-60 | sets a key in place within the capacity |
| Dictionary.Attributes.GetAttr | api/lib/ooiCi.cpp:93-107 | the value of a key, if any |
| Dictionary.Attributes.DelAttr | api/lib/ooiCi.cpp:109-140 | removes a key by shifting; the last one frees the arrays |
| Dictionary.SetIsUpdate | api/lib/ooiCi.cpp:14-60 | setting updates the map and keeps keys distinct |
| Dictionary.DelIsRemove | api/lib/ooiCi.cpp:109-140 | deleting removes the key from the map |
| Dictionary.SetKeepsPlaces | api/lib/ooiCi.cpp:14-60 | a set leaves every key in its place and puts a new one last |
| Dictionary.DelKeepsOrder | api/lib/ooiCi.cpp:109-140 | a deletion keeps the order of the other keys |
| Dictionary.GetIsLookup | api/lib/ooiCi.cpp:93-107 | getting looks up in the map |
| Dictionary.RunOps | api/lib/ooiCi.cpp:14-140 | any run of sets, gets and deletes agrees with a finite map |
| Json.RoundTripExactly | api/lib/ooiCi.cpp:190-276 | for any member order of the JSON library, a dictionary survives exactly when it holds no 64-bit integer and bools 0 or 1 |
| Json.RoundTrip | api/lib/ooiCi.cpp:190-554 | unpacking gives the same map with integers narrowed and bools normalised |
| Json.PackFailsExactly | api/lib/ooiCi.cpp:254-259 | packing fails exactly when there is an array somewhere |
| Json.PackDictionary | api/lib/ooiCi.cpp:189-276 | the packing loop: fails exactly when there is an array somewhere, and else gives JSON that carries every value: integers of either width as they are, bools as zero or not, dictionaries key by key |
| Json.UnpackDict | api/lib/ooiCi.cpp:466-554 | the unpacking loop over a growing dictionary, with the status of the last member |
| Json.UnpackArray | api/lib/ooiCi.cpp:559-646 | the unpacking loop for arrays |
| Json.CleanUnpacks | api/lib/ooiCi.cpp:466-646 | JSON without null unpacks to what it means |
| Json.UnpackedInOrder | api/lib/ooiCi.cpp:466-554 | the entries of an unpacked object are its members that do not end in null, in the order they were read |
| Json.UnpackedElements | api/lib/ooiCi.cpp:559-646 | and the same of the elements of an array |
| Json.OnlyLastErrorCounts | api/lib/ooiCi.cpp:482-553 | of an object whose last member does not end in null, exactly the members that end in null are left out, without an error |
| Json.ErrorExactly | api/lib/ooiCi.cpp:466-646 | unpacking reports an error exactly when null comes last, at any depth |
| Json.NothingLostExactly | api/lib/ooiCi.cpp:466-646 | unpacking keeps the whole meaning exactly when there is no null anywhere |
| Json.NullIsDropped | api/lib/ooiCi.cpp:544-553 | an input where an error is lost |

## Left out

- AggSession.Session.GetVarsByType: strides that skip cells, and strides above 1 along time, are not modelled: per-file reads ignore the stride (`hasStride` is never set in api/lib/_rsNcGetVarsByType.cpp:15) and would overrun the buffer (`NetCdf.StridedFitsExactly`); `AggSession.StrideCorrectionExactly` covers the correction between files. Windows outside a file's other dimensions are left out, because the code drops the status of the read that fails (api/src/rsNcGetVarsByType.cpp:232) and goes on with a result that is not there. The type asked for is taken to be the variable's, and a known one.
- AggSession.Session.CopyElements: the same requests as for GetVarsByType.
- AggSession.LookUpVarId: the cached inquiry of the element itself is not searched, as in the code; variable names are taken to be unique within a file, as netCDF has them.
- AggSession.Session.OpenDataObj: descriptors are the lowest free numbers from 3 on; the record of an opened collection is a plain field, where the code stores a pointer and reads back a value (api/lib/rcNcOpen.cpp:215-246).
- Tiling.GetTimeInxForArch: times are 32-bit unsigned as in the comparison; 16-bit times of 32768 and more, which two conversions treat differently, are not modelled.
- Archive.Collection.StartOfRun: for a stored index without elements the code reads the element before the first (api/src/rsNcArchTimeSeries.cpp:172); the model returns an error. Such an index is stored by a new run on an empty collection with at most one step pending.
- Archive.Collection.ArchTimeSeries: a one-dimensional time variable is taken to run over the time dimension and to have a type times are converted from; for text and byte times the code compares an error code (api/lib/rcNcInq.cpp:1931-1936).
- Archive.Collection.WriteFile: creating an object under a registered name fails without effect; the iRODS catalogue is not part of this model.
- Archive.Collection.GetAggInfo: whether the collection holds an object that is not netCDF is a parameter; objects registered as netCDF that cannot be opened are left out.
- History.HistoryKeepsTiling: the files of the collection are those the runs have written; the source's times increase strictly as 32-bit unsigned numbers, its dimension names differ, its variables have known types, and no dimension of theirs but time has length 0.
- RoundTrip.HistoryReadsBack: the same sources as for HistoryKeepsTiling, with unique variable names; of a variable that has the time dimension twice nothing is said.
- AggInfo.GetNextNumber: splitting the collection path into a base path is left out; the base path is a parameter.
- AggInfo.AggTable.AddNcAggElement: PTR_ARRAY_MALLOC_LEN is any positive number (`growth`).
- NetCdf.GetSizeForGetVars: 32-bit overflow of element counts is not modelled, nor is that of intervals, step sizes and `atoi` results; the default limits stay below it.
- NetCdf.GetTimeStepSize: an unknown type has size 0, as the code's fall-through has it.
- Subset.GetSingleNcVarData: strides that skip cells are not modelled: the read ignores them and would overrun the buffer.
- Subset.DumpSubsetToFile: strides that skip cells, and a stride of 0, by which the code divides, are not modelled; attributes, unlimited dimensions and the choice of variables are left out.
- Copy.GetAndPutVarToFile: scalar variables, for which the code reads an uninitialised count, windows that reach outside a variable, and strides other than 1, which no caller passes, are left out.
- Copy.ResolveRange: coordinates are ordered integers; NaN and rounding are left out.
- Coordinates.ResolveSubsetVar: what `asciToTime` and `atof` make of a text are parameters.
- SubsetString.ParseSubsetStr: splitting the argument into words (`getNextEleInStr`) and truncation at the fixed name lengths are left out; `atoi` results are unbounded.
- H5Walk.DepthFirst: the pointer cast of the two-int object id (microservices/hdf5/lib/h5File.cpp:250), members whose information cannot be read, and dataset contents are left out; link names are not empty and hold no slash.
- Json.PackDictionary: nested dictionaries are values instead of pointers, so aliasing between them is not captured; floats are exact reals; the text form of JSON is left out.
- Network calls, host routing, permissions, metadata queries, text output, command lines, HTTP and the microservice wrappers have no logic of this kind.
