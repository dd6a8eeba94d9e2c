# LEGO model importer: brick disconnection and the part database

This project models two parts of the LEGO model importer for Unity and proves properties of
them in Dafny.

**Brick disconnection** (`brick_extensions.dfy`, module `BrickExtensions`). A brick owns
parts. A part owns a connectivity. A connectivity owns planar fields. A field owns connection
points. Each point holds `connectedTo`, a reference to at most one other point. The scene is
an arena: every object is an integer handle and `-1` is null. The class `ConnectivityGraph`
keeps all `connectedTo` references in one array, which its methods update in place.

- `DisconnectBricks(b1, b2)` walks b1's parts, fields and connections. It cuts every link
  whose target's owner chain `field.connectivity.part.brick` resolves to b2. A cut sets both
  the connection and its former target to null. A second pass does the same from b2 towards
  b1.
- `DisconnectAll(b)` applies `DisconnectBricks` to every brick in a snapshot of connected
  bricks, skipping null entries and b itself.

Each loop level is a method proved against a specification function (`Sever`, `SeverAll`,
`Disconnected`, `DisconnectedAll`). The lemmas then state:

- which links are cut;
- that both ends are nulled;
- what stays untouched;
- that both operations are idempotent;
- that `DisconnectAll` is complete when the snapshot holds every direct neighbour.

**Part database** (`part_utility.dfy`, module `PartUtility`, with the .NET string and path
helpers it uses in `text_util.dfy`, module `TextUtil`). The file system, the archives and the
parsed alias table form an oracle, `Host`. The static fields of the database are the fields of
class `PartDatabase`, and their value is a `DbState`. Every method is proved equal to a
function from the old state and the host to the new state and the result. An exception that
escapes the database is the `Err` case of `Result`. The model covers:

- choosing each package's source: unzipped folder, zip file or split zip `.001`…`.999`;
- reading the alias table;
- the existence checks and the New/Legacy/alias precedence of `CheckIfPartExists`;
- the new-part archive key and the design ID read back from it in `GetPartList`;
- the LOD folder, the skip rule and the output name of `UnpackExactNewPart`.

## Model

| member | source | states |
|---|---|---|
| BrickExtensions.OwnerBrick | Runtime/BrickExtensions.cs:57-60 | the brick at the end of a target's owner chain is a valid handle or null, and is null whenever the target's field is null |
| BrickExtensions.FieldPoints | Runtime/BrickExtensions.cs:50-54 | the connection points the innermost loop visits for one field, in order: none for a null field (the skip at line 50); every one is a valid point handle or null |
| BrickExtensions.FieldsPoints | Runtime/BrickExtensions.cs:48-71 | the points the loop over planar fields visits for the first n fields, field by field; all valid handles or null (FieldsPointsStep relates n + 1 fields to n) |
| BrickExtensions.PartPoints | Runtime/BrickExtensions.cs:46-71 | the points visited for one part: none for a null part or a null connectivity (the skip at line 46), otherwise those of all its planar fields; all valid handles or null |
| BrickExtensions.PartsPoints | Runtime/BrickExtensions.cs:44-72 | the points the loop over parts visits for the first n parts, part by part; all valid handles or null (PartsPointsStep relates n + 1 parts to n) |
| BrickExtensions.BrickPoints | Runtime/BrickExtensions.cs:44-72 | every connection point reachable from a brick through its parts, connectivity and planar fields, in the order DisconnectBricks visits them; all valid handles or null |
| BrickExtensions.LinkedBricks | Runtime/BrickExtensions.cs:23 | defines the direct neighbours of a brick: the other, non-null bricks that its points link to through a resolvable owner chain; DisconnectAllComplete assumes the snapshot from GetConnectedBricks holds them all |
| BrickExtensions.Sever | Runtime/BrickExtensions.cs:54-68 | one connection's step only clears references; it keeps every reference in range |
| BrickExtensions.SeverAll | Runtime/BrickExtensions.cs:44-72 | one pass over a sequence of points only clears references |
| BrickExtensions.Disconnected | Runtime/BrickExtensions.cs:39-104 | DisconnectBricks only clears references |
| BrickExtensions.DisconnectEach | Runtime/BrickExtensions.cs:26-33 | the loop over the snapshot only clears references |
| BrickExtensions.DisconnectedAll | Runtime/BrickExtensions.cs:18-34 | DisconnectAll only clears references |
| BrickExtensions.NoLinkIntoKept | Runtime/BrickExtensions.cs:64-67 | clearing references never creates a link into a brick |
| BrickExtensions.SeverAllAppend | Runtime/BrickExtensions.cs:44-72 | a pass over xs + ys is a pass over xs followed by a pass over ys |
| BrickExtensions.SeverAllStep | Runtime/BrickExtensions.cs:52-70 | a pass over k+1 points is a pass over k points followed by one Sever |
| BrickExtensions.PartsPointsStep | Runtime/BrickExtensions.cs:44-72 | a pass over i+1 parts is a pass over i parts followed by a pass over part i |
| BrickExtensions.FieldsPointsStep | Runtime/BrickExtensions.cs:48-71 | a pass over j+1 fields is a pass over j fields followed by a pass over field j |
| BrickExtensions.SeverAllLeavesNoLink | Runtime/BrickExtensions.cs:44-72 | after a pass, no point of the pass links to a point owned by the other brick |
| BrickExtensions.SeverAllChanges | Runtime/BrickExtensions.cs:57-68 | a pass changes a point only to null, and only if the point linked into the other brick or is owned by it and was the target of such a link |
| BrickExtensions.SeverAllNothingToCut | Runtime/BrickExtensions.cs:54-60 | a pass over points without links into the other brick changes nothing; null points, null links and unresolvable owner chains are skipped |
| BrickExtensions.SeverAllBothEnds | Runtime/BrickExtensions.cs:63-68 | when the pass's own points are not owned by the other brick, a link into it is nulled at both ends, whether or not the target linked back |
| BrickExtensions.DisconnectedLeavesNoLink | Runtime/BrickExtensions.cs:44-103 | after DisconnectBricks(b1, b2) no point of b1 links into b2 and no point of b2 links into b1 |
| BrickExtensions.DisconnectedFrame | Runtime/BrickExtensions.cs:57-98 | a point that neither brick reaches and neither brick owns keeps its reference |
| BrickExtensions.DisconnectedIdempotent | Runtime/BrickExtensions.cs:39-104 | a second DisconnectBricks with the same pair changes nothing |
| BrickExtensions.DisconnectedBothEnds | Runtime/BrickExtensions.cs:63-68 | with consistent ownership, each cut link b1→b2 is nulled at both ends; each link b2→b1 is nulled at its source, and at its target too unless the source point was itself the target of a b1 link (pass 1 already nulled it, so pass 2 has no link left to follow) |
| BrickExtensions.DisconnectEachSevers | Runtime/BrickExtensions.cs:26-33 | after the loop, the brick and every non-null, other brick of the snapshot have no link into each other |
| BrickExtensions.DisconnectAllComplete | Runtime/BrickExtensions.cs:15-33 | if the snapshot holds every directly linked brick, the brick has no resolvable link to any other brick afterwards |
| BrickExtensions.DisconnectEachFrame | Runtime/BrickExtensions.cs:26-33 | a point reached and owned by neither the brick nor any snapshot brick keeps its reference |
| BrickExtensions.DisconnectEachSkipsSelfAndNull | Runtime/BrickExtensions.cs:28 | a snapshot holding only null and the brick itself changes nothing |
| BrickExtensions.DisconnectEachNothingToCut | Runtime/BrickExtensions.cs:26-33 | a loop over bricks already cut apart from the brick changes nothing |
| BrickExtensions.DisconnectAllIdempotent | Runtime/BrickExtensions.cs:18-34 | DisconnectAll with the same snapshot is idempotent |
| BrickExtensions.ConnectivityGraph.constructor | Runtime/BrickExtensions.cs:44-60 | the graph holds the given layout and links |
| BrickExtensions.ConnectivityGraph.SeverFrom | Runtime/BrickExtensions.cs:44-72 | the outer loop of one pass updates the array in place to exactly SeverAll over the brick's points |
| BrickExtensions.ConnectivityGraph.SeverPart | Runtime/BrickExtensions.cs:46-71 | one part: a null part or null connectivity is skipped, otherwise its fields are severed |
| BrickExtensions.ConnectivityGraph.SeverFields | Runtime/BrickExtensions.cs:48-71 | the loop over planar fields is SeverAll over their points |
| BrickExtensions.ConnectivityGraph.SeverField | Runtime/BrickExtensions.cs:50-70 | one field: a null field is skipped, otherwise its connections are severed in order |
| BrickExtensions.ConnectivityGraph.SeverConnection | Runtime/BrickExtensions.cs:54-68 | one connection: the array becomes Sever of the old one |
| BrickExtensions.ConnectivityGraph.DisconnectBricks | Runtime/BrickExtensions.cs:39-104 | the array becomes Disconnected of the old one; a null argument leaves it unchanged |
| BrickExtensions.ConnectivityGraph.DisconnectAll | Runtime/BrickExtensions.cs:18-34 | the array becomes DisconnectedAll of the old one; a null brick leaves it unchanged |
| TextUtil.TrimStart | Editor/PartUtility.cs:164 | the result is a suffix, all dropped characters are white space, and it does not start with white space |
| TextUtil.TrimEnd | Editor/PartUtility.cs:164 | the result is a prefix, all dropped characters are white space, and it does not end with white space |
| TextUtil.Trim | Editor/PartUtility.cs:164 | the result is trimmed and is a contiguous core of the input with only white space around it |
| TextUtil.TrimIdentity | Editor/PartUtility.cs:164 | Trim leaves a string unchanged exactly when the string is already trimmed |
| TextUtil.TrimKeepsOut | Editor/PartUtility.cs:164 | trimming never introduces a character absent from the input |
| TextUtil.Split | Editor/PartUtility.cs:158 | Split returns at least one piece, and no piece contains the separator |
| TextUtil.SplitCount | Editor/PartUtility.cs:158 | Split returns one more piece than the input has separators |
| TextUtil.JoinSplit | Editor/PartUtility.cs:158 | joining the pieces of a split rebuilds the input |
| TextUtil.SplitJoin | Editor/PartUtility.cs:158 | splitting a join of separator-free pieces returns the pieces |
| TextUtil.PadLeft | Editor/PartUtility.cs:286 | PadLeft has length max(len, width), ends with the input and is padded with the fill character |
| TextUtil.DecimalValue | Editor/PartUtility.cs:179 | the decimal digits of n read back as n |
| TextUtil.FormatD3Value | Editor/PartUtility.cs:179 | for 0..999 the D3 form has three digits and reads back as the number |
| TextUtil.FormatD3Injective | Editor/PartUtility.cs:179 | different piece numbers up to 999 get different D3 forms |
| TextUtil.GetFileName | Editor/PartUtility.cs:175 | the file name has no separator, is a suffix of the path, and is the whole path or follows a separator |
| TextUtil.GetDirectoryName | Editor/PartUtility.cs:174 | the directory is a prefix of the path that does not end with a separator; it is empty when the path holds no separator, and otherwise only separators lie between it and the last separator, which pins it down to one value |
| TextUtil.FileNameOfCombine | Editor/PartUtility.cs:179 | the file name of Combine(a, b) is b, for a plain name b |
| TextUtil.DirectoryOfCombine | Editor/PartUtility.cs:174-179 | the directory of Combine(a, b) is a, for a plain name b and a directory without a trailing separator |
| TextUtil.CombineDirectoryAndName | Editor/PartUtility.cs:174-179 | recombining a path's directory with its file name plus a suffix gives the path plus that suffix |
| PartUtility.NewPartKey | Editor/PartUtility.cs:286 | the new-part archive key starts with "Geometry/VX" and ends with "/m" + the design ID + ".fbx" |
| PartUtility.DesignIdOf | Editor/PartUtility.cs:254 | Substring(1, Length - 5) raises exactly when the file name is shorter than five characters; otherwise the design ID is five characters shorter than the name |
| PartUtility.NewPartKeySegment | Editor/PartUtility.cs:286 | the key is "Geometry/VX" + the ID left-padded with '0' to at least 7 + "/m" + ID + ".fbx", and the padded segment ends with the ID |
| PartUtility.NewPartKeyFileName | Editor/PartUtility.cs:286 | for an ID without a separator, the key's file name is "m" + ID + ".fbx" |
| PartUtility.DesignIdRoundTrip | Editor/PartUtility.cs:252-254 | extracting the design ID from the key's file name returns the ID |
| PartUtility.MeshFileNameRoundTrip | Editor/PartUtility.cs:251-254 | every "m*.fbx" file name yields a design ID that rebuilds the name |
| PartUtility.PieceNameAppends | Editor/PartUtility.cs:174-179 | piece i of base path p is p + "." + the D3 form of i |
| PartUtility.ExistingRunIsLongest | Editor/PartUtility.cs:177-188 | the collected run is a prefix of the candidate names, every name in it exists, and the next candidate does not |
| PartUtility.ExistingRun | Editor/PartUtility.cs:177-188 | the run of existing names collected before the first missing one is no longer than the candidate list (ExistingRunIsLongest states the rest) |
| PartUtility.SplitPiecesLongest | Editor/PartUtility.cs:177-188 | the pieces are .001, .002, … in order, at most 999 of them and all existing; the next number after the last piece is absent |
| PartUtility.SplitPieces | Editor/PartUtility.cs:174-188 | defines the pieces OpenSplitZip collects for a base path; SplitPiecesLongest states what they are |
| PartUtility.SplitArchive | Editor/PartUtility.cs:190-209 | defines OpenSplitZip's result: the split archive of the pieces, or null when there are none; SplitArchiveAbsent states when it is null |
| PartUtility.SplitArchiveAbsent | Editor/PartUtility.cs:190-209 | OpenSplitZip returns null exactly when piece .001 is absent |
| PartUtility.OpenSplitZip | Editor/PartUtility.cs:170-210 | the method returns the split archive of the longest existing run of pieces, or none |
| PartUtility.CollectPieces | Editor/PartUtility.cs:177-188 | the loop collects exactly the longest existing run of the 999 candidate names |
| PartUtility.SelectSource | Editor/PartUtility.cs:90-106 | with an archive open the package is untouched; otherwise the unzipped flag ends true exactly when no archive was opened |
| PartUtility.SelectSourcePrecedence | Editor/PartUtility.cs:90-106 | with no archive open: the unzipped folder beats the zip file, which beats the split zip; with none of them the flag ends true. Each outcome is stated as an iff |
| PartUtility.SelectSourceIdempotent | Editor/PartUtility.cs:90-106 | choosing a source a second time changes nothing |
| PartUtility.SelectPackageSource | Editor/PartUtility.cs:90-106 | the method's choice equals SelectSource |
| PartUtility.TrimAll | Editor/PartUtility.cs:162-165 | trimming the pieces keeps their number |
| PartUtility.TrimmedAliases | Editor/PartUtility.cs:162-165 | the loop produces every piece trimmed, in order |
| PartUtility.AliasList | Editor/PartUtility.cs:158-165 | defines the alias list of an alternateDesignIDs attribute: its comma-separated pieces, each trimmed; AliasListShape and AliasListRoundTrip state its shape and round trip |
| PartUtility.AliasListShape | Editor/PartUtility.cs:158-165 | the alias list has one entry per comma plus one, and each entry is trimmed and holds no comma |
| PartUtility.AliasListRoundTrip | Editor/PartUtility.cs:158-165 | joining trimmed, comma-free aliases with commas and parsing them back returns them |
| PartUtility.LoadMappingSucceeds | Editor/PartUtility.cs:155-166 | reading the Part nodes raises no exception exactly when every node has both attributes and no design ID is added twice or is already present |
| PartUtility.LoadMappingContents | Editor/PartUtility.cs:155-166 | earlier entries are kept; each added key maps to the alias list of a node with that ID; on success every node's ID maps to its alias list |
| PartUtility.LoadMapping | Editor/PartUtility.cs:155-166 | defines the loop over Part nodes and the exception that stops it; LoadMappingSucceeds and LoadMappingContents state when it raises and what the table holds |
| PartUtility.LoadDesignIdMapping | Editor/PartUtility.cs:155-166 | the loop builds the table and reports the error exactly as LoadMapping |
| PartUtility.Open | Editor/PartUtility.cs:87-168 | after OpenDB the table is non-null; an existing table is kept and no exception is raised |
| PartUtility.Cleared | Editor/PartUtility.cs:62-82 | RefreshDB's first half nulls every archive and the table and keeps the unzipped flags |
| PartUtility.OpenSettles | Editor/PartUtility.cs:87-168 | OpenDB on a state OpenDB produced changes nothing and raises nothing |
| PartUtility.Refresh | Editor/PartUtility.cs:62-85 | RefreshDB forgets everything it had: from any state it gives the state and the error of the very first OpenDB |
| PartUtility.Check | Editor/PartUtility.cs:276-322 | with the table loaded an existence check raises nothing and keeps the table; an answer it returns is true exactly when the part exists locally or in the package of the state it leaves, on an unopened database too |
| PartUtility.CheckSettled | Editor/PartUtility.cs:276-322 | on an opened database an existence check changes nothing and answers PartExists |
| PartUtility.InPackage | Editor/PartUtility.cs:286-298 | defines whether a package holds a key: a file under the unzipped folder when that flag is set, else an entry of the open archive, else no |
| PartUtility.PartExists | Editor/PartUtility.cs:276-322 | defines the existence CheckIfNewPartExists and CheckIfLegacyPartExists report: a local copy, or the package holding the part's key; CheckSettled and Check state the link |
| PartUtility.FirstFound | Editor/PartUtility.cs:343-353 | the alias loop returns a member of the list, and raises nothing when the table is loaded |
| PartUtility.FirstExisting | Editor/PartUtility.cs:343-353 | the index of the first alias that exists, or the list length when none does |
| PartUtility.FirstFoundSettled | Editor/PartUtility.cs:343-353 | on an opened database the alias loop returns the first existing alias, or none |
| PartUtility.Resolve | Editor/PartUtility.cs:327-386 | defines CheckIfPartExists step by step, state and exceptions included; ResolveClassifies and ResolveFailure state its answer and its failure |
| PartUtility.ResolveAfterOpen | Editor/PartUtility.cs:340-385 | defines CheckIfPartExists from the alias loop over new parts on; ResolveClassifies states its answer on an opened database |
| PartUtility.ClassifyBy | Editor/PartUtility.cs:327-386 | defines the answer by precedence over which candidates exist; ClassifyOrder states the precedence |
| PartUtility.Classify | Editor/PartUtility.cs:327-386 | the classification on an opened database, over its alias table; ResolveClassifies states that CheckIfPartExists returns it |
| PartUtility.ClassifyOrder | Editor/PartUtility.cs:327-386 | None iff nothing exists; None carries the input ID; a found ID is the input or an alias and exists; New iff the ID or any alias exists as New; the input ID wins in its catalogue; an alias result is the first existing alias |
| PartUtility.ResolveClassifies | Editor/PartUtility.cs:327-386 | CheckIfPartExists returns the classification for the opened database; the state is the opened state, or unchanged after an early local New hit |
| PartUtility.ResolveFailure | Editor/PartUtility.cs:329-338 | when OpenDB raises and no local New copy answers first, CheckIfPartExists raises the same error and keeps the state OpenDB left |
| PartUtility.Matching | Editor/PartUtility.cs:249-251 | a wildcard listing returns only names from the listing that start with the prefix and end with the suffix, and every such name of the listing is returned |
| PartUtility.MatchingAppend | Editor/PartUtility.cs:249-251 | the wildcard listing keeps listing order: matching a listing in two parts is matching each part, in turn |
| PartUtility.MatchingOne | Editor/PartUtility.cs:249-251 | a single name is kept exactly when it starts with the prefix and ends with the suffix |
| PartUtility.IdsFrom | Editor/PartUtility.cs:251-256 | the loop over file names raises exactly when some name is shorter than five characters; otherwise it appends one design ID per name behind what was listed before |
| PartUtility.FolderIdsFrom | Editor/PartUtility.cs:249-257 | the loop over VX folders keeps what was listed before in front (FolderIdsNeverFail states what it appends) |
| PartUtility.ArchiveIdsFrom | Editor/PartUtility.cs:262-270 | defines the loop over archive entries; ArchiveIdsFail and ArchiveIdsExact state when it raises and what it appends |
| PartUtility.ListedFrom | Editor/PartUtility.cs:264-268 | one archive entry lists at most one design ID, and only when it is a geometry entry, the ID being the one read from its name |
| PartUtility.ListedAll | Editor/PartUtility.cs:262-270 | defines what the entries list, entry by entry in archive order |
| PartUtility.IdsFromMeshFiles | Editor/PartUtility.cs:251-256 | over "m*.fbx" file names the extraction never fails and appends one ID per name, each rebuilding its name |
| PartUtility.MeshFilesNamed | Editor/PartUtility.cs:251 | every file returned by GetFiles(dir, "m*.fbx") has a name matching "m*.fbx" |
| PartUtility.FolderIdsNeverFail | Editor/PartUtility.cs:244-258 | reading the unzipped folder never raises; it appends to the list one design ID per "m*.fbx" file of the folders, folder by folder in listing order, each ID rebuilding its file name as "m" + ID + ".fbx" |
| PartUtility.ArchiveIdsFail | Editor/PartUtility.cs:262-270 | reading the archive raises exactly when a geometry entry is named ".fbx" |
| PartUtility.ArchiveIdsKeep | Editor/PartUtility.cs:262-270 | reading the archive only appends to the list |
| PartUtility.ArchiveIdsExact | Editor/PartUtility.cs:262-270 | a listing that raises nothing appends exactly what the entries list, in archive order |
| PartUtility.KeyListed | Editor/PartUtility.cs:264-267 | a new-part key passes the entry filter and yields its own design ID |
| PartUtility.ArchiveListsKey | Editor/PartUtility.cs:262-270 | when the archive holds a part's key, the list holds its design ID |
| PartUtility.PartListFromFolder | Editor/PartUtility.cs:243-258 | GetPartList from the unzipped folder never raises, keeps the opened state and lists exactly one design ID per "m*.fbx" file of every "VX*" folder, in order, each rebuilding its file name; without a Geometry folder the list is empty |
| PartUtility.RebuildsAppend | Editor/PartUtility.cs:249-257 | the IDs read from one folder followed by those read from the rest are the IDs of all the folders' names, in order |
| PartUtility.PartList | Editor/PartUtility.cs:238-274 | defines GetPartList: open the database, then list from the unzipped folder, the archive, or nothing; PartListFromFolder and PartListFromArchive state the lists |
| PartUtility.PartListFromArchive | Editor/PartUtility.cs:260-271 | GetPartList from an archive raises exactly on a nameless geometry entry; otherwise it lists exactly what the entries list, in archive order, each ID from a geometry entry, and that includes every new part stored under its key |
| PartUtility.FilePartIds | Editor/PartUtility.cs:251-256 | the inner loop equals IdsFrom over the files' names |
| PartUtility.FolderPartIds | Editor/PartUtility.cs:249-257 | the loop over VX folders equals FolderIdsFrom |
| PartUtility.ArchivePartIds | Editor/PartUtility.cs:262-270 | the loop over archive entries equals ArchiveIdsFrom |
| PartUtility.LodDir | Editor/PartUtility.cs:390 | LOD0 iff the level is 0; LOD1 for every other level |
| PartUtility.UnpackTarget | Editor/PartUtility.cs:392-418 | defines the destination Assets/LEGO Data/Geometry/New[/Lightmapped]/LODn/<file>; UnpackThenSkip states that the written file is the one the skip test looks for |
| PartUtility.UnpackedName | Editor/PartUtility.cs:418 | for an ID without a separator, the output name is the ID + ".fbx" |
| PartUtility.UnpackedNameOfKey | Editor/PartUtility.cs:418 | the key's file name is long enough to drop its first character, and without it is the design ID + ".fbx" when the ID holds no separator |
| PartUtility.Unpack | Editor/PartUtility.cs:388-440 | defines UnpackExactNewPart step by step; UnpackSkips, UnpackFound and UnpackThenSkip state its answer and the file it writes |
| PartUtility.UnpackSkips | Editor/PartUtility.cs:392-395 | unless forced, an existing destination returns true with the state untouched |
| PartUtility.UnpackThenSkip | Editor/PartUtility.cs:392-419 | the file written is the one whose existence makes a later unforced unpack skip |
| PartUtility.UnpackFound | Editor/PartUtility.cs:392-440 | the result is true iff the destination exists unforced or the package holds the key; a file is written iff it was taken from the package |
| PartUtility.PartDatabase.constructor | Editor/PartUtility.cs:39-47 | the static fields start with no archive, no flag set and no table |
| PartUtility.PartDatabase.OpenDB | Editor/PartUtility.cs:87-168 | the new fields and the raised error are those of Open |
| PartUtility.PartDatabase.SelectSources | Editor/PartUtility.cs:90-143 | each package's fields become SelectSource of the old ones; the table is untouched |
| PartUtility.PartDatabase.LoadTable | Editor/PartUtility.cs:145-167 | an existing table is kept without error; an unreadable file leaves an empty table and raises; otherwise the table is LoadMapping of the nodes; the package fields are untouched |
| PartUtility.PartDatabase.RefreshDB | Editor/PartUtility.cs:62-85 | the new fields and the raised error are those of Refresh |
| PartUtility.PartDatabase.CheckIfNewPartExists | Editor/PartUtility.cs:276-299 | the new fields and the answer are those of Check on New |
| PartUtility.PartDatabase.CheckIfLegacyPartExists | Editor/PartUtility.cs:301-322 | the new fields and the answer are those of Check on Legacy |
| PartUtility.PartDatabase.CheckIfExists | Editor/PartUtility.cs:276-322 | the check for either catalogue: the new fields and the answer are those of Check on that catalogue |
| PartUtility.PartDatabase.FindFirst | Editor/PartUtility.cs:343-353 | the alias loop's fields and answer are those of FirstFound |
| PartUtility.PartDatabase.CheckIfPartExists | Editor/PartUtility.cs:327-386 | the new fields and the answer are those of Resolve |
| PartUtility.PartDatabase.ResolveWithTable | Editor/PartUtility.cs:340-385 | from the alias loop on, the fields and the answer are those of ResolveAfterOpen |
| PartUtility.PartDatabase.GetPartList | Editor/PartUtility.cs:238-274 | the new fields and the list are those of PartList |
| PartUtility.PartDatabase.UnpackExactNewPart | Editor/PartUtility.cs:388-440 | the new fields, the answer and the file written are those of Unpack |

## Left out

- File and archive I/O is an oracle (`Host`): existence, listings and archive entries. The model leaves out:
  - reading and copying bytes;
  - `ZipFile.OpenRead` failures on a corrupt archive;
  - concatenating split pieces into a temporary file (`Application.temporaryCachePath`);
  - `Directory.CreateDirectory`;
  - `AssetDatabase.ImportAsset`;
  - disposing archives and streams.
- The written file is reported as `Unpacked.written` instead of being created.
- XML parsing of designid.xml is left out. The Part nodes, each with optional `designID` and
  `alternateDesignIDs` attributes, are an input. A missing or malformed file becomes
  `MappingUnreadable`.
- Paths use '/' as the only separator. A second argument to `Path.Combine` that starts with
  '/' replaces the first, as in .NET. Backslash separators, drive letters and a second
  argument rooted by a backslash or a drive letter are not modelled.
- Wildcards ("VX*", "m*.fbx") are matched as an ordinal, case-sensitive prefix and suffix.
  Windows short-name extension quirks and case-insensitive matching are left out.
- `StartsWith` and `EndsWith` are ordinal; culture-sensitive comparison is left out.
- Strings are sequences of Unicode scalar values. C# `Length`, `PadLeft` and `Substring` count
  UTF-16 code units, so a design ID holding a character outside the Basic Multilingual Plane
  is padded and cut differently in the source (a one-emoji ID gets six padding zeros in the
  model, five in C#). Design IDs are numeric in practice.
- `ZipArchiveEntry.Name` is the file name of `FullName`.
- `Brick.GetConnectedBricks` is not shown in the source. Its result is an input sequence, so
  every enumeration order of the set is covered. `LinkedBricks` defines "directly linked",
  which the completeness lemma assumes the snapshot covers.
- Null collections: `brick.parts`, `connectivity.planarFields` and `field.connections` are
  sequences in the `Layout`, so they are never null. The source dereferences them without a
  guard (Runtime/BrickExtensions.cs:44, 48, 52, 75, 79, 83). A null collection would throw
  partway through, after some links had already been nulled. That exception and the partial
  result it leaves are not modelled.
- PartUtility.PartListFromFolder: assumes `ListingsArePlain`, meaning each directory listing
  holds non-empty names without a separator, as a real file system's listings do.
- BrickExtensions.DisconnectedBothEnds: needs `OwnershipConsistent`, meaning every point
  reachable from a brick names that brick at the end of its owner chain. Without it, a
  pass can clear a point of its own brick that a later link then cannot follow.
- PartUtility.UnpackedName: the output name is stated only for design IDs without '/'. With a
  '/' the key's file name is only its last segment, as in the source.
- Constants not used by the modelled operations are left out: the colliders, connectivity
  and data-root paths, the CommonParts folder name and the LOD2 folder.
- `ReadFileFromUnzippedFolder` is left out because no modelled operation calls it.
- `OpenFileFromUnzippedFolder` is modelled as a file-existence test.
- The common-parts package is opened with the others, but no modelled operation reads from it.
- The menu items and the settings window are editor UI and are not part of this model.
