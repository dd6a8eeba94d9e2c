/** The LEGO part database of the model importer: where part geometry is looked up (a local
    copy under the asset folder, an unzipped package folder, a zip file or a split zip), how
    a design ID is resolved through the alias table, how the list of new parts is read back
    from archive paths, and where an unpacked part is written.

    The file system and the archives are an oracle, `Host`: the files and directories that
    exist, the directory listings, the entries of each archive and the Part nodes of the
    alias table. The static fields of the database are the fields of class `PartDatabase`;
    their value is a `DbState`, and every operation is specified by a function from the old
    state (and the host) to the new state and the result. Exceptions that escape the
    database are the `Err` case of `Result`. */
module PartUtility {
  import opened TextUtil

  datatype Option<T> = None | Some(value: T)

  /** The exceptions the modelled code lets escape. */
  datatype DbError =
    | MappingUnreadable                    // designid.xml is missing or is not XML
    | MissingAttribute(attribute: string)  // a Part node without one of its two attributes
    | DuplicateDesignId(designID: string)  // Dictionary.Add with a key already present
    | EntryNameTooShort(name: string)      // Substring(1, Length - 5) on fewer than five characters

  datatype Result<T> = Ok(value: T) | Err(error: DbError)

  // ---------------------------------------------------------------------------------------
  // Paths

  const LegacyPartsPath := "Packages/com.unity.lego.modelimporter/Data/LegacyParts.zip"
  const NewPartsPath := "Packages/com.unity.lego.modelimporter/Data/NewParts.zip"
  const CommonPartsPath := "Packages/com.unity.lego.modelimporter/Data/CommonParts.zip"
  const LegacyPartsUnzippedPath := "Packages/com.unity.lego.modelimporter/Data/LegacyParts"
  const NewPartsUnzippedPath := "Packages/com.unity.lego.modelimporter/Data/NewParts"
  const CommonPartsUnzippedPath := "Packages/com.unity.lego.modelimporter/Data/CommonParts"
  const GeometryPath := "Assets/LEGO Data/Geometry"
  const NewDir := "New"
  const LegacyDir := "Legacy"
  const LightmappedDir := "Lightmapped"
  const Lod0Dir := "LOD0"
  const Lod1Dir := "LOD1"

  /** The highest split-zip piece number that is looked for. */
  const MaxSplitPieces := 999

  /** A part package: its zip file and the folder it may have been unzipped to. */
  datatype Package = Package(zipPath: string, unzippedPath: string)

  const LegacyParts := Package(LegacyPartsPath, LegacyPartsUnzippedPath)
  const NewParts := Package(NewPartsPath, NewPartsUnzippedPath)
  const CommonParts := Package(CommonPartsPath, CommonPartsUnzippedPath)

  /** The entry of a new part in the NewParts archive:
      Geometry/VX<design ID left-padded with '0' to seven characters>/m<design ID>.fbx */
  function NewPartKey(designID: string): (r: string)
    ensures StartsWith(r, "Geometry/VX") && EndsWith(r, "/m" + designID + ".fbx")
  {
    var head, tail := "Geometry/VX" + PadLeft(designID, 7, '0'), "/m" + designID + ".fbx";
    assert head + tail == "Geometry/VX" + PadLeft(designID, 7, '0') + "/m" + designID + ".fbx";
    assert (head + tail)[|head|..] == tail;
    head + tail
  }

  /** The design ID in a part file name: the name without its first character and its last
      four (String.Substring(1, Length - 5)), which fails on a name shorter than five. */
  function DesignIdOf(fileName: string): (r: Result<string>)
    ensures r.Err? <==> |fileName| < 5
    ensures r.Ok? ==> |r.value| + 5 == |fileName|
  {
    if |fileName| < 5 then Err(EntryNameTooShort(fileName)) else Ok(fileName[1..|fileName| - 4])
  }

  /** "m" + a design ID + ".fbx" holds no separator when the design ID holds none. */
  lemma MeshNamePlain(designID: string)
    requires Separator !in designID
    ensures Separator !in "m" + designID + ".fbx"
  {
    var name := "m" + designID + ".fbx";
    forall k | 0 <= k < |name| ensures name[k] != Separator {
      if 1 <= k < |name| - 4 {
        assert name[k] == designID[k - 1];
      } else if k >= |name| - 4 {
        assert name[k] == ".fbx"[k - (|name| - 4)];
      }
    }
  }

  /** The file name of a new part's key is "m" + the design ID + ".fbx", when the design ID
      holds no separator. */
  lemma NewPartKeyFileName(designID: string)
    requires Separator !in designID
    ensures GetFileName(NewPartKey(designID)) == "m" + designID + ".fbx"
  {
    var dir := "Geometry/VX" + PadLeft(designID, 7, '0');
    var name := "m" + designID + ".fbx";
    MeshNamePlain(designID);
    assert NewPartKey(designID) == dir + [Separator] + name;
    FileNameAfterSeparator(dir, name);
  }

  /** The padded segment of a key has at least seven characters and ends with the design ID,
      preceded only by zeros. */
  lemma NewPartKeySegment(designID: string)
    ensures var segment := PadLeft(designID, 7, '0');
      && NewPartKey(designID) == "Geometry/VX" + segment + "/m" + designID + ".fbx"
      && |segment| == (if |designID| >= 7 then |designID| else 7)
      && segment[|segment| - |designID|..] == designID
      && forall k :: 0 <= k < |segment| - |designID| ==> segment[k] == '0'
  {
  }

  /** Reading the design ID back from the key's file name gives the design ID. */
  lemma DesignIdRoundTrip(designID: string)
    requires Separator !in designID
    ensures DesignIdOf(GetFileName(NewPartKey(designID))) == Ok(designID)
  {
    NewPartKeyFileName(designID);
    var name := "m" + designID + ".fbx";
    assert name[1..|name| - 4] == designID;
  }

  /** The names the file pattern "m*.fbx" matches. */
  predicate IsMeshFileName(name: string) {
    StartsWith(name, "m") && EndsWith(name, ".fbx")
  }

  /** Conversely, a file name matching "m*.fbx" is rebuilt from the design ID read from it. */
  lemma MeshFileNameRoundTrip(name: string)
    requires IsMeshFileName(name)
    ensures DesignIdOf(name).Ok?
    ensures "m" + DesignIdOf(name).value + ".fbx" == name
  {
    assert name[0] == 'm';
    assert |name| >= 5;
    assert name == [name[0]] + name[1..|name| - 4] + name[|name| - 4..];
  }

  /** The key's file name is at least ".fbx" long, whatever the design ID. */
  lemma NewPartKeyFileNameLength(designID: string)
    ensures |GetFileName(NewPartKey(designID))| >= 4
  {
    var p := NewPartKey(designID);
    assert p[|p| - 4..] == ".fbx";
    forall j | |p| - 4 <= j < |p| ensures p[j] != Separator {
      assert p[j] == p[|p| - 4..][j - (|p| - 4)];
    }
  }

  /** The name of split-zip piece i of a file in `directory`: <directory>/<file name>.<i as D3>. */
  function PieceName(directory: string, fileName: string, i: nat): string {
    Combine(directory, fileName + "." + FormatD3(i))
  }

  /** For a path `dir/name`, piece i is the path itself with ".001", ".002", ... appended. */
  lemma PieceNameAppends(dir: string, name: string, i: nat)
    requires dir != [] && dir[|dir| - 1] != Separator
    requires name != [] && Separator !in name
    ensures var p := Combine(dir, name);
      PieceName(GetDirectoryName(p), GetFileName(p), i) == p + "." + FormatD3(i)
  {
    var suffix := "." + FormatD3(i);
    assert Separator !in suffix by {
      var digits := Decimal(i);
      forall k | 0 <= k < |suffix| ensures suffix[k] != Separator {
        if k > 0 {
          var d := FormatD3(i);
          if k - 1 < |d| - |digits| {
            assert d[k - 1] == '0';
          } else {
            assert d[k - 1] == digits[k - 1 - (|d| - |digits|)];
          }
        }
      }
    }
    CombineDirectoryAndName(dir, name, suffix);
    assert GetFileName(Combine(dir, name)) + "." + FormatD3(i) == GetFileName(Combine(dir, name)) + suffix;
  }

  // ---------------------------------------------------------------------------------------
  // The host: files, directories, listings, archives and the alias table

  /** Where an open archive was read from: one zip file, or the pieces of a split zip,
      concatenated in order. */
  datatype ZipSource = ZipFile(path: string) | SplitZip(pieces: seq<string>)

  /** A Part node of the alias table; an absent attribute is None. */
  datatype PartNode = PartNode(designID: Option<string>, alternateDesignIDs: Option<string>)

  datatype Host = Host(
    files: set<string>,                         // File.Exists
    dirs: set<string>,                          // Directory.Exists
    subdirectories: map<string, seq<string>>,   // names listed by Directory.GetDirectories
    directoryFiles: map<string, seq<string>>,   // names listed by Directory.GetFiles
    archiveEntries: map<ZipSource, seq<string>>, // the full name of every entry, in order
    mappingNodes: Option<seq<PartNode>>         // the Part nodes of designid.xml, None if unreadable
  )

  function Subdirectories(h: Host, dir: string): seq<string> {
    if dir in h.subdirectories then h.subdirectories[dir] else []
  }

  function DirectoryFiles(h: Host, dir: string): seq<string> {
    if dir in h.directoryFiles then h.directoryFiles[dir] else []
  }

  function Entries(h: Host, source: ZipSource): seq<string> {
    if source in h.archiveEntries then h.archiveEntries[source] else []
  }

  /** Every listed name is a plain, non-empty name. */
  predicate ListingsArePlain(h: Host) {
    && (forall d :: d in h.subdirectories ==> forall k :: 0 <= k < |h.subdirectories[d]| ==>
          h.subdirectories[d][k] != [] && Separator !in h.subdirectories[d][k])
    && (forall d :: d in h.directoryFiles ==> forall k :: 0 <= k < |h.directoryFiles[d]| ==>
          h.directoryFiles[d][k] != [] && Separator !in h.directoryFiles[d][k])
  }

  // ---------------------------------------------------------------------------------------
  // Split zips

  /** The longest prefix of `names` whose every name is in `files`. */
  function ExistingRun(files: set<string>, names: seq<string>): (r: seq<string>)
    ensures |r| <= |names|
  {
    if names == [] || names[0] !in files then [] else [names[0]] + ExistingRun(files, names[1..])
  }

  /** The run is a prefix of the names, all of them exist, and the name after it does not. */
  lemma {:induction false} ExistingRunIsLongest(files: set<string>, names: seq<string>)
    ensures var r := ExistingRun(files, names);
      && r == names[..|r|]
      && (forall k :: 0 <= k < |r| ==> r[k] in files)
      && (|r| < |names| ==> names[|r|] !in files)
  {
    if names != [] && names[0] in files {
      ExistingRunIsLongest(files, names[1..]);
      var r := ExistingRun(files, names);
      assert r == [names[0]] + ExistingRun(files, names[1..]);
      assert r[1..] == names[1..][..|r| - 1];
    }
  }

  /** One step along the names: the run from name j on starts with name j exactly when that
      name exists. */
  lemma ExistingRunStep(files: set<string>, names: seq<string>, j: nat)
    requires j < |names|
    ensures ExistingRun(files, names[j..])
      == if names[j] in files then [names[j]] + ExistingRun(files, names[j + 1..]) else []
  {
    assert names[j..][1..] == names[j + 1..];
  }

  /** The names OpenSplitZip tries for `fileName` in `directory`, .001 to .999. */
  function PieceNamesIn(directory: string, fileName: string): (r: seq<string>)
    ensures |r| == MaxSplitPieces
  {
    seq(MaxSplitPieces, k requires 0 <= k => PieceName(directory, fileName, k + 1))
  }

  /** Name k of the list is the piece numbered k + 1. */
  lemma PieceNamesAt(directory: string, fileName: string, k: nat)
    requires k < MaxSplitPieces
    ensures PieceNamesIn(directory, fileName)[k] == PieceName(directory, fileName, k + 1)
  {
  }

  /** The pieces OpenSplitZip collects for `basePath`: the longest run .001, .002, ... of
      existing files. */
  function SplitPieces(h: Host, basePath: string): seq<string> {
    ExistingRun(h.files, PieceNamesIn(GetDirectoryName(basePath), GetFileName(basePath)))
  }

  /** The pieces are .001, .002, ... in order, at most 999 of them, all existing, and the
      piece after the last one found does not exist. */
  lemma SplitPiecesLongest(h: Host, basePath: string)
    ensures var pieces := SplitPieces(h, basePath);
      var directory, fileName := GetDirectoryName(basePath), GetFileName(basePath);
      && |pieces| <= MaxSplitPieces
      && (forall k :: 0 <= k < |pieces| ==> pieces[k] == PieceName(directory, fileName, k + 1) && pieces[k] in h.files)
      && (|pieces| < MaxSplitPieces ==> PieceName(directory, fileName, |pieces| + 1) !in h.files)
  {
    PieceRunLongest(h.files, GetDirectoryName(basePath), GetFileName(basePath));
  }

  /** SplitPiecesLongest for any directory and file name. */
  lemma PieceRunLongest(files: set<string>, directory: string, fileName: string)
    ensures var pieces := ExistingRun(files, PieceNamesIn(directory, fileName));
      && |pieces| <= MaxSplitPieces
      && (forall k :: 0 <= k < |pieces| ==> pieces[k] == PieceName(directory, fileName, k + 1) && pieces[k] in files)
      && (|pieces| < MaxSplitPieces ==> PieceName(directory, fileName, |pieces| + 1) !in files)
  {
    var names := PieceNamesIn(directory, fileName);
    ExistingRunIsLongest(files, names);
    var pieces := ExistingRun(files, names);
    forall k | 0 <= k < |pieces| ensures pieces[k] == PieceName(directory, fileName, k + 1) {
      assert pieces[k] == names[k];
      PieceNamesAt(directory, fileName, k);
    }
    if |pieces| < MaxSplitPieces {
      PieceNamesAt(directory, fileName, |pieces|);
    }
  }

  /** OpenSplitZip returns null exactly when piece .001 does not exist. */
  lemma SplitArchiveAbsent(h: Host, basePath: string)
    ensures SplitArchive(h, basePath).None? <==>
      PieceName(GetDirectoryName(basePath), GetFileName(basePath), 1) !in h.files
  {
    SplitPiecesLongest(h, basePath);
  }

  /** The archive OpenSplitZip opens, or None when piece .001 does not exist. */
  function SplitArchive(h: Host, basePath: string): Option<ZipSource> {
    var pieces := SplitPieces(h, basePath);
    if pieces == [] then None else Some(SplitZip(pieces))
  }

  /** OpenSplitZip: look for <base>.001 to <base>.999 and stop at the first that is missing;
      the pieces found make up the archive. */
  method OpenSplitZip(h: Host, basePath: string) returns (archive: Option<ZipSource>)
    ensures archive == SplitArchive(h, basePath)
  {
    var directory := GetDirectoryName(basePath);
    var fileName := GetFileName(basePath);
    var splitFiles := CollectPieces(h.files, directory, fileName);
    if |splitFiles| > 0 {
      archive := Some(SplitZip(splitFiles));
    } else {
      archive := None;
    }
  }

  /** The loop of OpenSplitZip: collect piece 1, 2, ... while it exists, up to 999. */
  method CollectPieces(files: set<string>, directory: string, fileName: string)
    returns (splitFiles: seq<string>)
    ensures splitFiles == ExistingRun(files, PieceNamesIn(directory, fileName))
  {
    splitFiles := [];
    ghost var names := PieceNamesIn(directory, fileName);
    var i := 1;
    while i <= MaxSplitPieces
      invariant 1 <= i <= MaxSplitPieces + 1
      invariant splitFiles + ExistingRun(files, names[i - 1..]) == ExistingRun(files, names)
    {
      var splitFile := PieceName(directory, fileName, i);
      PieceNamesAt(directory, fileName, i - 1);
      ExistingRunStep(files, names, i - 1);
      if splitFile in files {
        splitFiles := splitFiles + [splitFile];
      } else {
        break;
      }
      i := i + 1;
    }
    assert ExistingRun(files, names[i - 1..]) == [];
    assert splitFiles + [] == splitFiles;
  }

  // ---------------------------------------------------------------------------------------
  // Choosing each package's source

  /** The source of one package: its open archive, and whether the unzipped folder is used. */
  datatype PackageState = PackageState(archive: Option<ZipSource>, unzipped: bool)

  /** One package's part of OpenDB: nothing changes while an archive is open; otherwise the
      unzipped folder wins over the zip file, which wins over a split zip, and when none of
      them is there the folder is chosen anyway. */
  function SelectSource(h: Host, pkg: Package, st: PackageState): (r: PackageState)
    ensures st.archive.Some? ==> r == st
    ensures st.archive.None? ==> (r.unzipped <==> r.archive.None?)
  {
    if st.archive.Some? then st
    else if pkg.unzippedPath in h.dirs then PackageState(None, true)
    else if pkg.zipPath in h.files then PackageState(Some(ZipFile(pkg.zipPath)), false)
    else
      var archive := SplitArchive(h, pkg.zipPath);
      PackageState(archive, archive.None?)
  }

  // ---------------------------------------------------------------------------------------
  // The alias table

  /** The alias list of an alternateDesignIDs attribute: its comma-separated pieces, each
      trimmed, in order. */
  function AliasList(attribute: string): seq<string> {
    TrimAll(Split(attribute, ','))
  }

  /** Each piece, trimmed. */
  function TrimAll(pieces: seq<string>): (r: seq<string>)
    ensures |r| == |pieces|
  {
    seq(|pieces|, k requires 0 <= k < |pieces| => Trim(pieces[k]))
  }

  /** The list has one alias per comma plus one, and every alias is trimmed and holds no
      comma. */
  lemma AliasListShape(attribute: string)
    ensures |AliasList(attribute)| == Occurrences(attribute, ',') + 1
    ensures forall k :: 0 <= k < |AliasList(attribute)| ==>
      var alias := AliasList(attribute)[k];
      IsTrimmed(alias) && ',' !in alias
  {
    SplitCount(attribute, ',');
    var pieces := Split(attribute, ',');
    forall k | 0 <= k < |pieces| ensures ',' !in Trim(pieces[k]) {
      TrimKeepsOut(pieces[k], ',');
    }
  }

  /** Writing trimmed, comma-free aliases out with commas and reading them back gives them
      back. */
  lemma AliasListRoundTrip(aliases: seq<string>)
    requires |aliases| >= 1
    requires forall k :: 0 <= k < |aliases| ==> IsTrimmed(aliases[k]) && ',' !in aliases[k]
    ensures AliasList(Join(aliases, ',')) == aliases
  {
    SplitJoin(aliases, ',');
    forall k | 0 <= k < |aliases| ensures Trim(aliases[k]) == aliases[k] {
      TrimIdentity(aliases[k]);
    }
  }

  /** The table after reading Part nodes, and the exception that stopped the reading, if
      any. */
  datatype Loaded = Loaded(mapping: map<string, seq<string>>, error: Option<DbError>)

  /** OpenDB's loop over the Part nodes, adding each to `mapping`: a missing designID or
      alternateDesignIDs attribute, or a design ID already in the table, stops the loop with
      the entries added so far. */
  function LoadMapping(mapping: map<string, seq<string>>, nodes: seq<PartNode>): Loaded
    decreases |nodes|
  {
    if nodes == [] then Loaded(mapping, None)
    else
      var node := nodes[0];
      if node.designID.None? then Loaded(mapping, Some(MissingAttribute("designID")))
      else if node.alternateDesignIDs.None? then
        Loaded(mapping, Some(MissingAttribute("alternateDesignIDs")))
      else if node.designID.value in mapping then
        Loaded(mapping, Some(DuplicateDesignId(node.designID.value)))
      else
        LoadMapping(mapping[node.designID.value := AliasList(node.alternateDesignIDs.value)],
                    nodes[1..])
  }

  predicate HasAttributes(node: PartNode) {
    node.designID.Some? && node.alternateDesignIDs.Some?
  }

  /** The design IDs of the nodes, all of which have both attributes, are pairwise different
      and none is a key of `mapping`. */
  predicate FreshIds(mapping: map<string, seq<string>>, nodes: seq<PartNode>) {
    && (forall k :: 0 <= k < |nodes| ==> HasAttributes(nodes[k]))
    && (forall k :: 0 <= k < |nodes| ==> nodes[k].designID.value !in mapping)
    && (forall j, k :: 0 <= j < k < |nodes| ==> nodes[j].designID != nodes[k].designID)
  }

  /** Loading succeeds exactly when every node has both attributes and no design ID is added
      twice. */
  lemma {:induction false} LoadMappingSucceeds(mapping: map<string, seq<string>>, nodes: seq<PartNode>)
    ensures LoadMapping(mapping, nodes).error.None? <==> FreshIds(mapping, nodes)
    decreases |nodes|
  {
    if nodes != [] && HasAttributes(nodes[0]) && nodes[0].designID.value !in mapping {
      var id := nodes[0].designID.value;
      var next := mapping[id := AliasList(nodes[0].alternateDesignIDs.value)];
      LoadMappingSucceeds(next, nodes[1..]);
      if FreshIds(mapping, nodes) {
        assert FreshIds(next, nodes[1..]) by {
          forall k | 0 <= k < |nodes| - 1 ensures nodes[1..][k].designID.value !in next {
            assert nodes[0].designID != nodes[k + 1].designID;
          }
        }
      }
      if FreshIds(next, nodes[1..]) {
        forall j, k | 0 <= j < k < |nodes| ensures nodes[j].designID != nodes[k].designID {
          if j > 0 {
            assert nodes[1..][j - 1] == nodes[j];
          }
          assert nodes[1..][k - 1] == nodes[k];
        }
        forall k | 0 <= k < |nodes| ensures nodes[k].designID.value !in mapping {
          if k > 0 {
            assert nodes[1..][k - 1] == nodes[k];
          }
        }
      }
    }
  }

  /** Whatever happens, the entries already in the table stay, every node read in full before
      the stop is in the table with its alias list, and nothing else is added. */
  lemma {:induction false} LoadMappingContents(mapping: map<string, seq<string>>, nodes: seq<PartNode>)
    ensures var r := LoadMapping(mapping, nodes).mapping;
      && (forall id :: id in mapping ==> id in r && r[id] == mapping[id])
      && (forall id :: id in r && id !in mapping ==>
            exists k :: (0 <= k < |nodes| && HasAttributes(nodes[k]) && nodes[k].designID == Some(id)
              && r[id] == AliasList(nodes[k].alternateDesignIDs.value)))
    ensures FreshIds(mapping, nodes) ==> forall k :: 0 <= k < |nodes| ==>
      var r := LoadMapping(mapping, nodes).mapping;
      nodes[k].designID.value in r && r[nodes[k].designID.value] == AliasList(nodes[k].alternateDesignIDs.value)
    decreases |nodes|
  {
    if nodes != [] && HasAttributes(nodes[0]) && nodes[0].designID.value !in mapping {
      var id0 := nodes[0].designID.value;
      var next := mapping[id0 := AliasList(nodes[0].alternateDesignIDs.value)];
      LoadMappingContents(next, nodes[1..]);
      var r := LoadMapping(mapping, nodes).mapping;
      assert r == LoadMapping(next, nodes[1..]).mapping;
      forall id | id in r && id !in mapping
        ensures exists k :: (0 <= k < |nodes| && HasAttributes(nodes[k]) && nodes[k].designID == Some(id)
          && r[id] == AliasList(nodes[k].alternateDesignIDs.value))
      {
        if id == id0 {
          assert HasAttributes(nodes[0]) && nodes[0].designID == Some(id);
        } else {
          var k :| 0 <= k < |nodes[1..]| && HasAttributes(nodes[1..][k]) && nodes[1..][k].designID == Some(id)
            && r[id] == AliasList(nodes[1..][k].alternateDesignIDs.value);
          assert nodes[k + 1] == nodes[1..][k];
        }
      }
      if FreshIds(mapping, nodes) {
        assert FreshIds(next, nodes[1..]) by {
          forall k | 0 <= k < |nodes| - 1 ensures nodes[1..][k].designID.value !in next {
            assert nodes[0].designID != nodes[k + 1].designID;
          }
        }
        forall k | 0 <= k < |nodes|
          ensures nodes[k].designID.value in r
          ensures r[nodes[k].designID.value] == AliasList(nodes[k].alternateDesignIDs.value)
        {
          if k > 0 {
            assert nodes[1..][k - 1] == nodes[k];
          }
        }
      }
    }
  }

  // ---------------------------------------------------------------------------------------
  // The database state, OpenDB and RefreshDB

  /** The static fields of the database: each package's source and the alias table
      (None while it is null). */
  datatype DbState = DbState(
    legacyParts: PackageState,
    newParts: PackageState,
    commonParts: PackageState,
    mapping: Option<map<string, seq<string>>>)

  /** The state before the database is first opened: no archive, no flag set, no table. */
  const Initial := DbState(PackageState(None, false), PackageState(None, false),
                           PackageState(None, false), None)

  /** The state after OpenDB, and the exception it let escape, if any. */
  datatype Opened = Opened(db: DbState, error: Option<DbError>)

  /** OpenDB: choose a source for each package still without an archive, then, when the
      table is null, set it to an empty table and read designid.xml into it. */
  function Open(h: Host, db: DbState): (r: Opened)
    ensures r.db.mapping.Some?
    ensures db.mapping.Some? ==> r.db.mapping == db.mapping && r.error.None?
  {
    var legacyParts := SelectSource(h, LegacyParts, db.legacyParts);
    var newParts := SelectSource(h, NewParts, db.newParts);
    var commonParts := SelectSource(h, CommonParts, db.commonParts);
    if db.mapping.Some? then
      Opened(DbState(legacyParts, newParts, commonParts, db.mapping), None)
    else if h.mappingNodes.None? then
      Opened(DbState(legacyParts, newParts, commonParts, Some(map[])), Some(MappingUnreadable))
    else
      var loaded := LoadMapping(map[], h.mappingNodes.value);
      Opened(DbState(legacyParts, newParts, commonParts, Some(loaded.mapping)), loaded.error)
  }

  /** RefreshDB: drop the three archives and the table, then open again. */
  function Cleared(db: DbState): (r: DbState)
    ensures r.legacyParts.archive.None? && r.newParts.archive.None? && r.commonParts.archive.None?
    ensures r.mapping.None?
    ensures r.legacyParts.unzipped == db.legacyParts.unzipped
    ensures r.newParts.unzipped == db.newParts.unzipped
    ensures r.commonParts.unzipped == db.commonParts.unzipped
  {
    DbState(PackageState(None, db.legacyParts.unzipped), PackageState(None, db.newParts.unzipped),
            PackageState(None, db.commonParts.unzipped), None)
  }

  /** RefreshDB forgets everything it had: its outcome depends on the host alone, and is the
      outcome of opening the database for the first time. */
  function Refresh(h: Host, db: DbState): (r: Opened)
    ensures r == Open(h, Initial)
  {
    Open(h, Cleared(db))
  }

  /** With no archive open, the package's source is chosen by precedence: the unzipped folder
      when it exists; else the zip file when it exists; else the split zip when piece .001
      exists; else the unzipped folder all the same. */
  lemma SelectSourcePrecedence(h: Host, pkg: Package, st: PackageState)
    requires st.archive.None?
    ensures var r := SelectSource(h, pkg, st);
      && (r == PackageState(None, true) <==>
            pkg.unzippedPath in h.dirs || (pkg.zipPath !in h.files && SplitPieces(h, pkg.zipPath) == []))
      && (r == PackageState(Some(ZipFile(pkg.zipPath)), false) <==>
            pkg.unzippedPath !in h.dirs && pkg.zipPath in h.files)
      && (r == PackageState(Some(SplitZip(SplitPieces(h, pkg.zipPath))), false) <==>
            pkg.unzippedPath !in h.dirs && pkg.zipPath !in h.files && SplitPieces(h, pkg.zipPath) != [])
  {
  }

  /** Choosing again on the same host changes nothing. */
  lemma SelectSourceIdempotent(h: Host, pkg: Package, st: PackageState)
    ensures SelectSource(h, pkg, SelectSource(h, pkg, st)) == SelectSource(h, pkg, st)
  {
  }

  /** Once OpenDB has run, running it again on the same host changes nothing and raises
      nothing, even when the first run raised an exception. */
  lemma OpenSettles(h: Host, db: DbState)
    ensures var s := Open(h, db).db; Open(h, s) == Opened(s, None)
  {
    SelectSourceIdempotent(h, LegacyParts, db.legacyParts);
    SelectSourceIdempotent(h, NewParts, db.newParts);
    SelectSourceIdempotent(h, CommonParts, db.commonParts);
  }

  // ---------------------------------------------------------------------------------------
  // Whether a part exists

  /** The two geometry catalogues a design ID is looked up in. */
  datatype Catalog = New | Legacy

  /** The package a catalogue is read from. */
  function PackageOf(c: Catalog): Package {
    match c
    case New => NewParts
    case Legacy => LegacyParts
  }

  function SourceOf(db: DbState, c: Catalog): PackageState {
    match c
    case New => db.newParts
    case Legacy => db.legacyParts
  }

  /** The two local copies checked before the database: plain and lightmapped. */
  function LocalCopies(c: Catalog, designID: string): seq<string> {
    match c
    case New => [Combine(GeometryPath, designID + ".fbx"),
                 CombineAll([GeometryPath, LightmappedDir, designID + ".fbx"])]
    case Legacy => [CombineAll([GeometryPath, LegacyDir, designID + ".fbx"]),
                    CombineAll([GeometryPath, LegacyDir, LightmappedDir, designID + ".fbx"])]
  }

  predicate ExistsLocally(h: Host, c: Catalog, designID: string) {
    LocalCopies(c, designID)[0] in h.files || LocalCopies(c, designID)[1] in h.files
  }

  /** The part's path inside its package: the VX key for a new part, the bare file name for a
      legacy part. */
  function ArchiveKey(c: Catalog, designID: string): string {
    match c
    case New => NewPartKey(designID)
    case Legacy => designID + ".fbx"
  }

  /** Whether a package, with the source `st`, holds `key`: a file under the unzipped folder
      when that flag is set, otherwise an entry of the open archive; with neither, no. */
  predicate InPackage(h: Host, pkg: Package, st: PackageState, key: string) {
    if st.unzipped then Combine(pkg.unzippedPath, key) in h.files
    else if st.archive.Some? then key in Entries(h, st.archive.value)
    else false
  }

  /** A part exists in a catalogue when a local copy exists or its package holds it. */
  predicate PartExists(h: Host, db: DbState, c: Catalog, designID: string) {
    ExistsLocally(h, c, designID) || InPackage(h, PackageOf(c), SourceOf(db, c), ArchiveKey(c, designID))
  }

  /** The state after an operation and what it returned or the exception it raised. */
  datatype Step<T> = Step(db: DbState, result: Result<T>)

  /** CheckIfNewPartExists and CheckIfLegacyPartExists: a local copy answers at once;
      otherwise the database is opened and the package asked. */
  function Check(h: Host, db: DbState, c: Catalog, designID: string): (r: Step<bool>)
    ensures db.mapping.Some? ==> r.db.mapping == db.mapping && r.result.Ok?
    ensures r.result.Ok? ==> (r.result.value <==> PartExists(h, r.db, c, designID))
  {
    if ExistsLocally(h, c, designID) then Step(db, Ok(true))
    else
      var afterOpen := Open(h, db);
      if afterOpen.error.Some? then Step(afterOpen.db, Err(afterOpen.error.value))
      else Step(afterOpen.db, Ok(InPackage(h, PackageOf(c), SourceOf(afterOpen.db, c), ArchiveKey(c, designID))))
  }

  /** On a database that OpenDB has settled, a check changes nothing and answers whether the
      part exists. */
  lemma CheckSettled(h: Host, s: DbState, c: Catalog, designID: string)
    requires Open(h, s) == Opened(s, None)
    ensures Check(h, s, c, designID) == Step(s, Ok(PartExists(h, s, c, designID)))
  {
  }

  /** The loop over an alias list: check each alias in order, stop at the first that exists
      or at the first exception. */
  function FirstFound(h: Host, db: DbState, c: Catalog, ids: seq<string>): (r: Step<Option<string>>)
    ensures db.mapping.Some? ==> r.db.mapping == db.mapping && r.result.Ok?
    ensures r.result.Ok? && r.result.value.Some? ==> r.result.value.value in ids
    decreases |ids|
  {
    if ids == [] then Step(db, Ok(None))
    else
      var checked := Check(h, db, c, ids[0]);
      if checked.result.Err? then Step(checked.db, Err(checked.result.error))
      else if checked.result.value then Step(checked.db, Ok(Some(ids[0])))
      else FirstFound(h, checked.db, c, ids[1..])
  }

  /** Whether a design ID exists in a catalogue: the question CheckIfPartExists asks. */
  type Lookup = (Catalog, string) -> bool

  /** The lookup on a settled database `s`. */
  function ExistsIn(h: Host, s: DbState): Lookup {
    (c: Catalog, designID: string) => PartExists(h, s, c, designID)
  }

  /** One alias of the loop: the loop from alias i on is decided by the check of alias i. */
  lemma FirstFoundStep(h: Host, db: DbState, c: Catalog, ids: seq<string>, i: nat)
    requires i < |ids|
    ensures var checked := Check(h, db, c, ids[i]);
      FirstFound(h, db, c, ids[i..])
        == if checked.result.Err? then Step(checked.db, Err(checked.result.error))
           else if checked.result.value then Step(checked.db, Ok(Some(ids[i])))
           else FirstFound(h, checked.db, c, ids[i + 1..])
  {
    assert ids[i..][0] == ids[i] && ids[i..][1..] == ids[i + 1..];
  }

  /** The index of the first id in `ids` found in the catalogue, |ids| when none is. */
  function FirstExisting(found: Lookup, c: Catalog, ids: seq<string>): (k: nat)
    ensures k <= |ids|
    ensures k < |ids| ==> found(c, ids[k])
    ensures forall j :: 0 <= j < k ==> !found(c, ids[j])
    decreases |ids|
  {
    if ids == [] || found(c, ids[0]) then 0
    else 1 + FirstExisting(found, c, ids[1..])
  }

  /** On a settled database, the loop finds the first alias that exists. */
  lemma {:induction false} FirstFoundSettled(h: Host, s: DbState, c: Catalog, ids: seq<string>)
    requires Open(h, s) == Opened(s, None)
    ensures var k := FirstExisting(ExistsIn(h, s), c, ids);
      FirstFound(h, s, c, ids) == Step(s, Ok(if k < |ids| then Some(ids[k]) else None))
    decreases |ids|
  {
    if ids != [] {
      CheckSettled(h, s, c, ids[0]);
      if !PartExists(h, s, c, ids[0]) {
        FirstFoundSettled(h, s, c, ids[1..]);
      }
    }
  }

  /** What CheckIfPartExists returns: the catalogue the part was found in (None when it was
      found in neither) and the design ID it was found under. */
  datatype PartExistenceResult = PartExistenceResult(existence: Option<Catalog>, designID: string)

  /** The aliases of a design ID in the table; none when it is not a key. */
  function Aliases(db: DbState, designID: string): seq<string>
    requires db.mapping.Some?
  {
    if designID in db.mapping.value then db.mapping.value[designID] else []
  }

  /** CheckIfPartExists: the exact ID as a new part; the database is opened; each alias as a
      new part; the exact ID as a legacy part; each alias as a legacy part; else not found. */
  function Resolve(h: Host, db: DbState, designID: string): Step<PartExistenceResult> {
    var exactNew := Check(h, db, New, designID);
    if exactNew.result.Err? then Step(exactNew.db, Err(exactNew.result.error))
    else if exactNew.result.value then Step(exactNew.db, Ok(PartExistenceResult(Some(New), designID)))
    else
      var afterOpen := Open(h, exactNew.db);
      if afterOpen.error.Some? then Step(afterOpen.db, Err(afterOpen.error.value))
      else ResolveAfterOpen(h, afterOpen.db, designID)
  }

  /** CheckIfPartExists from the alias loop over new parts on, with the table loaded. */
  function ResolveAfterOpen(h: Host, db: DbState, designID: string): Step<PartExistenceResult>
    requires db.mapping.Some?
  {
    var aliasNew := FirstFound(h, db, New, Aliases(db, designID));
    if aliasNew.result.value.Some? then
      Step(aliasNew.db, Ok(PartExistenceResult(Some(New), aliasNew.result.value.value)))
    else
      var exactLegacy := Check(h, aliasNew.db, Legacy, designID);
      if exactLegacy.result.value then
        Step(exactLegacy.db, Ok(PartExistenceResult(Some(Legacy), designID)))
      else
        var aliasLegacy := FirstFound(h, exactLegacy.db, Legacy, Aliases(exactLegacy.db, designID));
        if aliasLegacy.result.value.Some? then
          Step(aliasLegacy.db, Ok(PartExistenceResult(Some(Legacy), aliasLegacy.result.value.value)))
        else
          Step(aliasLegacy.db, Ok(PartExistenceResult(None, designID)))
  }

  /** The answer by precedence, written over which candidates are found: the exact ID,
      then the first alias, as a new part; then the same as a legacy part. */
  function ClassifyBy(found: Lookup, designID: string, aliases: seq<string>): PartExistenceResult {
    var firstNew := FirstExisting(found, New, aliases);
    var firstLegacy := FirstExisting(found, Legacy, aliases);
    if found(New, designID) then PartExistenceResult(Some(New), designID)
    else if firstNew < |aliases| then PartExistenceResult(Some(New), aliases[firstNew])
    else if found(Legacy, designID) then PartExistenceResult(Some(Legacy), designID)
    else if firstLegacy < |aliases| then PartExistenceResult(Some(Legacy), aliases[firstLegacy])
    else PartExistenceResult(None, designID)
  }

  /** The answer on a settled database `s`. */
  function Classify(h: Host, s: DbState, designID: string): PartExistenceResult
    requires s.mapping.Some?
  {
    ClassifyBy(ExistsIn(h, s), designID, Aliases(s, designID))
  }

  /** The precedence: a new part wins over a legacy part, whether found under the exact ID or
      an alias; the exact ID wins over the aliases within a catalogue; aliases are tried in
      list order; the answer names a candidate found in the catalogue it names; and the
      answer is None, under the design ID asked for, exactly when no candidate is found. */
  lemma ClassifyOrder(found: Lookup, designID: string, aliases: seq<string>)
    ensures var r := ClassifyBy(found, designID, aliases);
      && (r.existence.None? <==>
            && !found(New, designID) && !found(Legacy, designID)
            && forall k :: 0 <= k < |aliases| ==> !found(New, aliases[k]) && !found(Legacy, aliases[k]))
      && (r.existence.None? ==> r.designID == designID)
      && (r.existence.Some? ==>
            (r.designID == designID || r.designID in aliases) && found(r.existence.value, r.designID))
      && (r.existence == Some(New) <==>
            found(New, designID) || exists k :: 0 <= k < |aliases| && found(New, aliases[k]))
      && (r.existence.Some? && found(r.existence.value, designID) ==> r.designID == designID)
      && (r.existence.Some? && r.designID != designID ==>
            exists k :: 0 <= k < |aliases| && aliases[k] == r.designID
              && forall j :: 0 <= j < k ==> !found(r.existence.value, aliases[j]))
  {
    var firstNew := FirstExisting(found, New, aliases);
    var firstLegacy := FirstExisting(found, Legacy, aliases);
    if firstNew < |aliases| {
      assert aliases[firstNew] in aliases;
    }
    if firstLegacy < |aliases| {
      assert aliases[firstLegacy] in aliases;
    }
  }

  /** On a database whose opening raises nothing, CheckIfPartExists answers by precedence and
      leaves the database settled. */
  lemma ResolveClassifies(h: Host, db: DbState, designID: string)
    requires Open(h, db).error.None?
    ensures var s := Open(h, db).db;
      && Resolve(h, db, designID).result == Ok(Classify(h, s, designID))
      && (Resolve(h, db, designID).db == s || (Resolve(h, db, designID).db == db && ExistsLocally(h, New, designID)))
  {
    var s := Open(h, db).db;
    OpenSettles(h, db);
    var aliases := Aliases(s, designID);
    if !ExistsLocally(h, New, designID) {
      CheckSettled(h, s, New, designID);
      FirstFoundSettled(h, s, New, aliases);
      CheckSettled(h, s, Legacy, designID);
      FirstFoundSettled(h, s, Legacy, aliases);
    }
  }

  /** When opening the database raises an exception and no local copy answers first,
      CheckIfPartExists lets that exception escape. */
  lemma ResolveFailure(h: Host, db: DbState, designID: string)
    requires Open(h, db).error.Some? && !ExistsLocally(h, New, designID)
    ensures Resolve(h, db, designID) == Step(Open(h, db).db, Err(Open(h, db).error.value))
  {
  }

  // ---------------------------------------------------------------------------------------
  // The list of new parts

  /** Appending, in order, the design ID read from each file name to `acc`; the first name
      too short to hold one raises. */
  function IdsFrom(acc: seq<string>, names: seq<string>): (r: Result<seq<string>>)
    ensures r.Err? <==> exists k :: 0 <= k < |names| && |names[k]| < 5
    ensures r.Ok? ==> acc <= r.value && |r.value| == |acc| + |names|
    decreases |names|
  {
    if names == [] then Ok(acc)
    else
      assert forall k :: 1 <= k < |names| ==> names[k] == names[1..][k - 1];
      match DesignIdOf(names[0])
      case Err(e) => Err(e)
      case Ok(id) => IdsFrom(acc + [id], names[1..])
  }

  /** The file name of each path (Path.GetFileName). */
  function FileNames(paths: seq<string>): (r: seq<string>)
    ensures |r| == |paths|
  {
    seq(|paths|, k requires 0 <= k < |paths| => GetFileName(paths[k]))
  }

  /** The names of a listing that start with `prefix` and end with `suffix`, in listing
      order: the wildcard pattern prefix*suffix. */
  function Matching(names: seq<string>, prefix: string, suffix: string): (r: seq<string>)
    ensures |r| <= |names|
    ensures forall k :: 0 <= k < |r| ==> r[k] in names && StartsWith(r[k], prefix) && EndsWith(r[k], suffix)
    ensures forall n :: n in names && StartsWith(n, prefix) && EndsWith(n, suffix) ==> n in r
    decreases |names|
  {
    if names == [] then []
    else
      assert names == [names[0]] + names[1..];
      if StartsWith(names[0], prefix) && EndsWith(names[0], suffix) then
        [names[0]] + Matching(names[1..], prefix, suffix)
      else Matching(names[1..], prefix, suffix)
  }

  /** Matching keeps listing order: matching a listing in two parts is matching each part in
      turn. */
  lemma {:induction false} MatchingAppend(xs: seq<string>, ys: seq<string>, prefix: string, suffix: string)
    ensures Matching(xs + ys, prefix, suffix) == Matching(xs, prefix, suffix) + Matching(ys, prefix, suffix)
    decreases |xs|
  {
    if xs == [] {
      assert xs + ys == ys;
    } else {
      assert (xs + ys)[0] == xs[0];
      assert (xs + ys)[1..] == xs[1..] + ys;
      MatchingAppend(xs[1..], ys, prefix, suffix);
    }
  }

  /** A single name is kept exactly when it matches the pattern. */
  lemma MatchingOne(name: string, prefix: string, suffix: string)
    ensures Matching([name], prefix, suffix)
      == if StartsWith(name, prefix) && EndsWith(name, suffix) then [name] else []
  {
  }

  /** Each name of the listing of `dir`, as a full path. */
  function FullPaths(dir: string, names: seq<string>): (r: seq<string>)
    ensures |r| == |names|
  {
    seq(|names|, k requires 0 <= k < |names| => Combine(dir, names[k]))
  }

  /** The full paths Directory.GetDirectories(geometryDir, "VX*") returns. */
  function VxDirectories(h: Host, geometryDir: string): seq<string> {
    FullPaths(geometryDir, Matching(Subdirectories(h, geometryDir), "VX", ""))
  }

  /** The full paths Directory.GetFiles(dir, "m*.fbx") returns. */
  function MeshFiles(h: Host, dir: string): seq<string> {
    FullPaths(dir, Matching(DirectoryFiles(h, dir), "m", ".fbx"))
  }

  /** GetPartList's loop over the VX folders, appending the design ID of each mesh file in
      each folder, in order. */
  function FolderIdsFrom(acc: seq<string>, h: Host, dirs: seq<string>): (r: Result<seq<string>>)
    ensures r.Ok? ==> acc <= r.value
    decreases |dirs|
  {
    if dirs == [] then Ok(acc)
    else match IdsFrom(acc, FileNames(MeshFiles(h, dirs[0])))
      case Err(e) => Err(e)
      case Ok(ids) => FolderIdsFrom(ids, h, dirs[1..])
  }

  /** The names of the mesh files of the folders `dirs`, folder by folder, in listing order. */
  function FolderMeshNames(h: Host, dirs: seq<string>): seq<string>
    decreases |dirs|
  {
    if dirs == [] then [] else FileNames(MeshFiles(h, dirs[0])) + FolderMeshNames(h, dirs[1..])
  }

  /** The archive entries GetPartList reads: those whose name ends with ".fbx" and whose full
      name starts with "Geometry/VX". The entry's name is the part of its full name after
      the last separator. */
  predicate IsGeometryEntry(fullName: string) {
    EndsWith(GetFileName(fullName), ".fbx") && StartsWith(fullName, "Geometry/VX")
  }

  /** GetPartList's loop over the archive entries, appending the design ID of each geometry
      entry, in order. */
  function ArchiveIdsFrom(acc: seq<string>, entries: seq<string>): Result<seq<string>>
    decreases |entries|
  {
    if entries == [] then Ok(acc)
    else if IsGeometryEntry(entries[0]) then
      match DesignIdOf(GetFileName(GetFileName(entries[0])))
      case Err(e) => Err(e)
      case Ok(id) => ArchiveIdsFrom(acc + [id], entries[1..])
    else ArchiveIdsFrom(acc, entries[1..])
  }

  /** The folder GetPartList lists new parts from, when the unzipped package is used. */
  const NewGeometryDir := Combine(NewPartsUnzippedPath, "Geometry")

  /** GetPartList: open the database, then list the design IDs of the new parts, from the
      unzipped folder when that flag is set, else from the open archive, else none. */
  function PartList(h: Host, db: DbState): Step<seq<string>> {
    var afterOpen := Open(h, db);
    var s := afterOpen.db;
    if afterOpen.error.Some? then Step(s, Err(afterOpen.error.value))
    else if s.newParts.unzipped then
      if NewGeometryDir in h.dirs then Step(s, FolderIdsFrom([], h, VxDirectories(h, NewGeometryDir)))
      else Step(s, Ok([]))
    else if s.newParts.archive.Some? then Step(s, ArchiveIdsFrom([], Entries(h, s.newParts.archive.value)))
    else Step(s, Ok([]))
  }

  /** File names that match "m*.fbx" all yield a design ID, and each ID rebuilds its file
      name. */
  lemma {:induction false} IdsFromMeshFiles(acc: seq<string>, names: seq<string>)
    requires forall k :: 0 <= k < |names| ==> IsMeshFileName(names[k])
    ensures IdsFrom(acc, names).Ok?
    ensures var ids := IdsFrom(acc, names).value;
      && |ids| == |acc| + |names| && acc <= ids
      && forall k :: 0 <= k < |names| ==> "m" + ids[|acc| + k] + ".fbx" == names[k]
    decreases |names|
  {
    if names != [] {
      MeshFileNameRoundTrip(names[0]);
      var acc' := acc + [DesignIdOf(names[0]).value];
      IdsFromMeshFiles(acc', names[1..]);
      var ids := IdsFrom(acc', names[1..]).value;
      assert ids[|acc|] == acc'[|acc|];
      forall k | 1 <= k < |names|
        ensures "m" + ids[|acc| + k] + ".fbx" == names[k]
      {
        assert names[1..][k - 1] == names[k];
        assert |acc'| + (k - 1) == |acc| + k;
      }
    }
  }

  /** With plain listings, every file Directory.GetFiles(dir, "m*.fbx") returns has a file
      name matching the pattern. */
  lemma MeshFilesNamed(h: Host, dir: string)
    requires ListingsArePlain(h)
    ensures forall k :: 0 <= k < |MeshFiles(h, dir)| ==> IsMeshFileName(FileNames(MeshFiles(h, dir))[k])
  {
    var names := Matching(DirectoryFiles(h, dir), "m", ".fbx");
    forall k | 0 <= k < |names| ensures IsMeshFileName(FileNames(MeshFiles(h, dir))[k]) {
      assert names[k] in DirectoryFiles(h, dir);
      FileNameOfCombine(dir, names[k]);
    }
  }

  /** With plain listings, listing the unzipped folder never raises, and appends to `acc` one
      ID per mesh file of the folders, in order, each rebuilding its file name. */
  lemma {:induction false} FolderIdsNeverFail(acc: seq<string>, h: Host, dirs: seq<string>)
    requires ListingsArePlain(h)
    ensures FolderIdsFrom(acc, h, dirs).Ok?
    ensures Rebuilds(acc, FolderIdsFrom(acc, h, dirs).value, FolderMeshNames(h, dirs))
    decreases |dirs|
  {
    if dirs != [] {
      var first := FileNames(MeshFiles(h, dirs[0]));
      MeshFilesNamed(h, dirs[0]);
      IdsFromMeshFiles(acc, first);
      var mid := IdsFrom(acc, first).value;
      FolderIdsNeverFail(mid, h, dirs[1..]);
      RebuildsAppend(acc, mid, FolderIdsFrom(mid, h, dirs[1..]).value, first, FolderMeshNames(h, dirs[1..]));
    }
  }

  /** `ids` is `acc` followed by one design ID per name of `names`, in order, each ID
      rebuilding its name as "m" + ID + ".fbx". */
  predicate Rebuilds(acc: seq<string>, ids: seq<string>, names: seq<string>) {
    && |ids| == |acc| + |names| && acc <= ids
    && forall k :: 0 <= k < |names| ==> "m" + ids[|acc| + k] + ".fbx" == names[k]
  }

  /** Reading the names of one folder and then those of the rest reads the names of all. */
  lemma RebuildsAppend(acc: seq<string>, mid: seq<string>, ids: seq<string>, first: seq<string>, rest: seq<string>)
    requires Rebuilds(acc, mid, first) && Rebuilds(mid, ids, rest)
    ensures Rebuilds(acc, ids, first + rest)
  {
    var names := first + rest;
    forall k | 0 <= k < |names| ensures "m" + ids[|acc| + k] + ".fbx" == names[k] {
      if k < |first| {
        assert ids[|acc| + k] == mid[|acc| + k];
      } else {
        assert names[k] == rest[k - |first|];
        assert |mid| + (k - |first|) == |acc| + k;
      }
    }
  }

  /** A geometry entry whose name is ".fbx" alone, too short to hold a design ID. */
  predicate IsNamelessEntry(fullName: string) {
    IsGeometryEntry(fullName) && GetFileName(fullName) == ".fbx"
  }

  /** What listing an entry appends: its design ID when it is a geometry entry with a
      name long enough, else nothing. */
  function ListedFrom(fullName: string): (r: seq<string>)
    ensures |r| <= 1
    ensures r != [] ==> IsGeometryEntry(fullName) && DesignIdOf(GetFileName(fullName)) == Ok(r[0])
  {
    var name := GetFileName(fullName);
    if IsGeometryEntry(fullName) && |name| >= 5 then [name[1..|name| - 4]] else []
  }

  /** What listing the entries appends, entry by entry in archive order. */
  function ListedAll(entries: seq<string>): seq<string>
    decreases |entries|
  {
    if entries == [] then [] else ListedFrom(entries[0]) + ListedAll(entries[1..])
  }


  /** A name ending with ".fbx" is ".fbx" itself or long enough to hold a design ID. */
  lemma FbxNameLength(name: string)
    requires EndsWith(name, ".fbx")
    ensures name == ".fbx" || |name| >= 5
  {
    if |name| < 5 {
      assert name == name[|name| - 4..];
    }
  }

  /** One entry of the listing: it raises when it is nameless, otherwise the listing goes on
      with what it appends. */
  lemma ArchiveIdsHead(acc: seq<string>, entries: seq<string>)
    requires entries != []
    ensures IsNamelessEntry(entries[0]) ==> ArchiveIdsFrom(acc, entries).Err?
    ensures !IsNamelessEntry(entries[0]) ==>
      ArchiveIdsFrom(acc, entries) == ArchiveIdsFrom(acc + ListedFrom(entries[0]), entries[1..])
  {
    var name := GetFileName(entries[0]);
    if IsGeometryEntry(entries[0]) {
      FileNameOfName(name);
      FbxNameLength(name);
    } else {
      assert acc + ListedFrom(entries[0]) == acc;
    }
  }

  /** Past a first entry that is not nameless, the nameless entries are those of the rest. */
  lemma NamelessInRest(entries: seq<string>)
    requires entries != [] && !IsNamelessEntry(entries[0])
    ensures (exists k :: 0 <= k < |entries| && IsNamelessEntry(entries[k]))
      <==> (exists k :: 0 <= k < |entries| - 1 && IsNamelessEntry(entries[1..][k]))
  {
    if exists k :: 0 <= k < |entries| && IsNamelessEntry(entries[k]) {
      var k :| 0 <= k < |entries| && IsNamelessEntry(entries[k]);
      assert entries[1..][k - 1] == entries[k];
    }
  }

  /** Listing an archive raises exactly when it holds a nameless geometry entry. */
  lemma {:induction false} ArchiveIdsFail(acc: seq<string>, entries: seq<string>)
    ensures ArchiveIdsFrom(acc, entries).Err? <==>
      exists k :: 0 <= k < |entries| && IsNamelessEntry(entries[k])
    decreases |entries|
  {
    if entries != [] {
      ArchiveIdsHead(acc, entries);
      if !IsNamelessEntry(entries[0]) {
        NamelessInRest(entries);
        ArchiveIdsFail(acc + ListedFrom(entries[0]), entries[1..]);
      }
    }
  }

  /** Listing an archive keeps what was already listed in front. */
  lemma {:induction false} ArchiveIdsKeep(acc: seq<string>, entries: seq<string>)
    requires ArchiveIdsFrom(acc, entries).Ok?
    ensures acc <= ArchiveIdsFrom(acc, entries).value
    decreases |entries|
  {
    if entries != [] {
      ArchiveIdsHead(acc, entries);
      ArchiveIdsKeep(acc + ListedFrom(entries[0]), entries[1..]);
    }
  }

  /** A listing that succeeds appends exactly what the entries list, in archive order. */
  lemma {:induction false} ArchiveIdsExact(acc: seq<string>, entries: seq<string>)
    requires ArchiveIdsFrom(acc, entries).Ok?
    ensures ArchiveIdsFrom(acc, entries).value == acc + ListedAll(entries)
    decreases |entries|
  {
    if entries == [] {
      AppendEmpty(acc);
    } else {
      ArchiveIdsHead(acc, entries);
      ArchiveIdsExact(acc + ListedFrom(entries[0]), entries[1..]);
      AppendAssoc(acc, ListedFrom(entries[0]), ListedAll(entries[1..]));
    }
  }

  lemma AppendEmpty<T>(s: seq<T>)
    ensures s + [] == s && [] + s == s
  {
  }

  lemma AppendAssoc<T>(a: seq<T>, b: seq<T>, c: seq<T>)
    ensures (a + b) + c == a + (b + c)
  {
  }

  /** A new part's key is a geometry entry that lists its design ID. */
  lemma KeyListed(designID: string)
    requires Separator !in designID
    ensures IsGeometryEntry(NewPartKey(designID)) && !IsNamelessEntry(NewPartKey(designID))
    ensures ListedFrom(NewPartKey(designID)) == [designID]
  {
    var key := NewPartKey(designID);
    NewPartKeyFileName(designID);
    var name := GetFileName(key);
    assert name[|name| - 4..] == ".fbx";
    assert name[1..|name| - 4] == designID;
    assert key[..11] == "Geometry/VX";
  }

  /** A new part stored under its key is listed under its design ID. */
  lemma {:induction false} ArchiveListsKey(acc: seq<string>, entries: seq<string>, designID: string)
    requires Separator !in designID && NewPartKey(designID) in entries
    requires ArchiveIdsFrom(acc, entries).Ok?
    ensures designID in ArchiveIdsFrom(acc, entries).value
    decreases |entries|
  {
    var key := NewPartKey(designID);
    ArchiveIdsHead(acc, entries);
    if entries[0] == key {
      KeyListed(designID);
      ArchiveIdsKeep(acc + [designID], entries[1..]);
      assert (acc + [designID])[|acc|] == designID;
    } else {
      assert key in entries[1..];
      ArchiveListsKey(acc + ListedFrom(entries[0]), entries[1..], designID);
    }
  }

  /** With plain listings, GetPartList reading the unzipped folder raises nothing, and lists
      one design ID per "m*.fbx" file of every "VX*" folder, in order, each ID rebuilding its
      file name; without a Geometry folder the list is empty. */
  lemma PartListFromFolder(h: Host, db: DbState)
    requires ListingsArePlain(h)
    requires Open(h, db).error.None? && Open(h, db).db.newParts.unzipped
    ensures PartList(h, db).result.Ok?
    ensures PartList(h, db).db == Open(h, db).db
    ensures var ids := PartList(h, db).result.value;
      if NewGeometryDir in h.dirs then Rebuilds([], ids, FolderMeshNames(h, VxDirectories(h, NewGeometryDir)))
      else ids == []
  {
    FolderIdsNeverFail([], h, VxDirectories(h, NewGeometryDir));
  }

  /** GetPartList reading an archive raises exactly when the archive holds a nameless
      geometry entry; otherwise it lists what the entries list, in archive order, which
      takes in the design ID of every new part stored under its key. */
  lemma PartListFromArchive(h: Host, db: DbState, designID: string)
    requires Open(h, db).error.None?
    requires var s := Open(h, db).db; !s.newParts.unzipped && s.newParts.archive.Some?
    ensures var entries := Entries(h, Open(h, db).db.newParts.archive.value);
      && (PartList(h, db).result.Err? <==> exists k :: 0 <= k < |entries| && IsNamelessEntry(entries[k]))
      && (PartList(h, db).result.Ok? ==> PartList(h, db).result.value == ListedAll(entries))
      && (PartList(h, db).result.Ok? && Separator !in designID && NewPartKey(designID) in entries ==>
            designID in PartList(h, db).result.value)
  {
    var entries := Entries(h, Open(h, db).db.newParts.archive.value);
    ArchiveIdsFail([], entries);
    if ArchiveIdsFrom([], entries).Ok? {
      ArchiveIdsExact([], entries);
      AppendEmpty(ListedAll(entries));
    }
    if ArchiveIdsFrom([], entries).Ok? && Separator !in designID && NewPartKey(designID) in entries {
      ArchiveListsKey([], entries, designID);
    }
  }

  // ---------------------------------------------------------------------------------------
  // Unpacking a new part

  /** The level-of-detail folder: LOD0 for level 0, LOD1 for any other. */
  function LodDir(lod: int): (r: string)
    ensures r == Lod0Dir <==> lod == 0
    ensures r == Lod1Dir <==> lod != 0
  {
    if lod == 0 then Lod0Dir else Lod1Dir
  }

  /** Where an unpacked new part goes: Assets/LEGO Data/Geometry/New[/Lightmapped]/LODn/<file>. */
  function UnpackTarget(lightmapped: bool, lod: int, fileName: string): string {
    CombineAll([GeometryPath, NewDir, if lightmapped then LightmappedDir else "", LodDir(lod), fileName])
  }

  /** The name an unpacked part is written under: the key's file name without its leading
      'm', which is the design ID + ".fbx" when the design ID holds no separator. */
  function UnpackedName(designID: string): (r: string)
    ensures Separator !in designID ==> r == designID + ".fbx"
  {
    UnpackedNameOfKey(designID);
    GetFileName(NewPartKey(designID))[1..]
  }

  /** The key's file name has a leading character to drop, and with it dropped is the design
      ID + ".fbx" when the design ID holds no separator. */
  lemma UnpackedNameOfKey(designID: string)
    ensures |GetFileName(NewPartKey(designID))| >= 4
    ensures Separator !in designID ==> GetFileName(NewPartKey(designID))[1..] == designID + ".fbx"
  {
    NewPartKeyFileNameLength(designID);
    if Separator !in designID {
      NewPartKeyFileName(designID);
    }
  }

  /** What UnpackExactNewPart returns, and the file it writes, if any. */
  datatype Unpacked = Unpacked(found: bool, written: Option<string>)

  /** UnpackExactNewPart: unless forced, an existing unpacked file answers at once; otherwise
      the database is opened, and when the package holds the part's key it is written under
      the key's file name without its leading 'm'. */
  function Unpack(h: Host, db: DbState, designID: string, lightmapped: bool, lod: int, forceUnpack: bool)
    : Step<Unpacked>
  {
    if !forceUnpack && UnpackTarget(lightmapped, lod, designID + ".fbx") in h.files then
      Step(db, Ok(Unpacked(true, None)))
    else
      var afterOpen := Open(h, db);
      var key := NewPartKey(designID);
      if afterOpen.error.Some? then Step(afterOpen.db, Err(afterOpen.error.value))
      else if InPackage(h, NewParts, afterOpen.db.newParts, key) then
        Step(afterOpen.db, Ok(Unpacked(true, Some(UnpackTarget(lightmapped, lod, UnpackedName(designID))))))
      else Step(afterOpen.db, Ok(Unpacked(false, None)))
  }

  /** Unless forced, an existing unpacked file answers at once, on any host and state. */
  lemma UnpackSkips(h: Host, db: DbState, designID: string, lightmapped: bool, lod: int)
    requires UnpackTarget(lightmapped, lod, designID + ".fbx") in h.files
    ensures Unpack(h, db, designID, lightmapped, lod, false) == Step(db, Ok(Unpacked(true, None)))
  {
  }

  /** The part is written to the very file whose existence lets a later unforced unpack of
      the same part, LOD and lighting skip the database. */
  lemma UnpackThenSkip(h: Host, db: DbState, designID: string, lightmapped: bool, lod: int,
                       forceUnpack: bool, written: string, later: Host, laterDb: DbState)
    requires Separator !in designID
    requires Unpack(h, db, designID, lightmapped, lod, forceUnpack).result == Ok(Unpacked(true, Some(written)))
    requires written in later.files
    ensures written == UnpackTarget(lightmapped, lod, designID + ".fbx")
    ensures Unpack(later, laterDb, designID, lightmapped, lod, false) == Step(laterDb, Ok(Unpacked(true, None)))
  {
    UnpackSkips(later, laterDb, designID, lightmapped, lod);
  }

  /** Unpacking reports a part found exactly when, unless forced, its unpacked file exists,
      or else its package holds it; it writes a file exactly when it took the part from the
      package. */
  lemma UnpackFound(h: Host, db: DbState, designID: string, lightmapped: bool, lod: int, forceUnpack: bool)
    requires Open(h, db).error.None?
    ensures var r := Unpack(h, db, designID, lightmapped, lod, forceUnpack).result;
      var skip := !forceUnpack && UnpackTarget(lightmapped, lod, designID + ".fbx") in h.files;
      var stored := InPackage(h, NewParts, Open(h, db).db.newParts, NewPartKey(designID));
      && r.Ok?
      && (r.value.found <==> skip || stored)
      && (r.value.written.Some? <==> !skip && stored)
  {
  }

  // ---------------------------------------------------------------------------------------
  // The loops of OpenDB and GetPartList

  /** OpenDB's per-package choice: kept while an archive is open, made afresh otherwise. */
  method SelectPackageSource(h: Host, pkg: Package, st: PackageState) returns (r: PackageState)
    ensures r == SelectSource(h, pkg, st)
  {
    if st.archive.Some? {
      r := st;
    } else if pkg.unzippedPath in h.dirs {
      r := PackageState(None, true);
    } else if pkg.zipPath in h.files {
      r := PackageState(Some(ZipFile(pkg.zipPath)), false);
    } else {
      var archive := OpenSplitZip(h, pkg.zipPath);
      r := PackageState(archive, archive == None);
    }
  }

  /** OpenDB's inner loop: the alias list of one Part node, each piece trimmed. */
  method TrimmedAliases(pieces: seq<string>) returns (aliases: seq<string>)
    ensures aliases == TrimAll(pieces)
  {
    ghost var all := TrimAll(pieces);
    aliases := [];
    for j := 0 to |pieces|
      invariant aliases == all[..j]
    {
      var alias := Trim(pieces[j]);
      assert alias == all[j];
      PrefixStep(all, j);
      aliases := aliases + [alias];
    }
    assert all[..|pieces|] == all;
  }

  /** Growing a prefix by one element. */
  lemma PrefixStep<T>(s: seq<T>, j: nat)
    requires j < |s|
    ensures s[..j + 1] == s[..j] + [s[j]]
  {
  }

  /** OpenDB's loop over the Part nodes of designid.xml. */
  method LoadDesignIdMapping(nodes: seq<PartNode>)
    returns (mapping: map<string, seq<string>>, error: Option<DbError>)
    ensures Loaded(mapping, error) == LoadMapping(map[], nodes)
  {
    mapping := map[];
    error := None;
    var i := 0;
    while i < |nodes|
      invariant 0 <= i <= |nodes|
      invariant LoadMapping(mapping, nodes[i..]) == LoadMapping(map[], nodes)
    {
      var node := nodes[i];
      assert nodes[i..][0] == node && nodes[i..][1..] == nodes[i + 1..];
      if node.designID.None? {
        error := Some(MissingAttribute("designID"));
        return;
      }
      if node.alternateDesignIDs.None? {
        error := Some(MissingAttribute("alternateDesignIDs"));
        return;
      }
      var designID := node.designID.value;
      if designID in mapping {
        error := Some(DuplicateDesignId(designID));
        return;
      }
      var aliases := TrimmedAliases(Split(node.alternateDesignIDs.value, ','));
      mapping := mapping[designID := aliases];
      i := i + 1;
    }
  }

  /** GetPartList's loop over the mesh files of one VX folder. */
  method FilePartIds(acc: seq<string>, files: seq<string>) returns (r: Result<seq<string>>)
    ensures r == IdsFrom(acc, FileNames(files))
  {
    var result := acc;
    var i := 0;
    while i < |files|
      invariant 0 <= i <= |files|
      invariant IdsFrom(result, FileNames(files)[i..]) == IdsFrom(acc, FileNames(files))
    {
      var filename := GetFileName(files[i]);
      assert FileNames(files)[i..][0] == filename;
      assert FileNames(files)[i..][1..] == FileNames(files)[i + 1..];
      var designID := DesignIdOf(filename);
      if designID.Err? {
        return Err(designID.error);
      }
      result := result + [designID.value];
      i := i + 1;
    }
    return Ok(result);
  }

  /** One folder of GetPartList's loop over the VX folders. */
  lemma FolderIdsStep(acc: seq<string>, h: Host, dirs: seq<string>, i: nat)
    requires i < |dirs|
    ensures var files := IdsFrom(acc, FileNames(MeshFiles(h, dirs[i])));
      FolderIdsFrom(acc, h, dirs[i..])
        == if files.Err? then Err(files.error) else FolderIdsFrom(files.value, h, dirs[i + 1..])
  {
    assert dirs[i..][0] == dirs[i] && dirs[i..][1..] == dirs[i + 1..];
  }

  /** GetPartList's loop over the VX folders of the unzipped package. */
  method FolderPartIds(h: Host, dirs: seq<string>) returns (r: Result<seq<string>>)
    ensures r == FolderIdsFrom([], h, dirs)
  {
    var result := [];
    var i := 0;
    while i < |dirs|
      invariant 0 <= i <= |dirs|
      invariant FolderIdsFrom(result, h, dirs[i..]) == FolderIdsFrom([], h, dirs)
    {
      FolderIdsStep(result, h, dirs, i);
      var next := FilePartIds(result, MeshFiles(h, dirs[i]));
      if next.Err? {
        return next;
      }
      result := next.value;
      i := i + 1;
    }
    return Ok(result);
  }

  /** GetPartList's loop over the entries of the new-parts archive. */
  method ArchivePartIds(entries: seq<string>) returns (r: Result<seq<string>>)
    ensures r == ArchiveIdsFrom([], entries)
  {
    var result := [];
    var i := 0;
    while i < |entries|
      invariant 0 <= i <= |entries|
      invariant ArchiveIdsFrom(result, entries[i..]) == ArchiveIdsFrom([], entries)
    {
      var entry := entries[i];
      assert entries[i..][0] == entry && entries[i..][1..] == entries[i + 1..];
      var name := GetFileName(entry);
      if EndsWith(name, ".fbx") && StartsWith(entry, "Geometry/VX") {
        var designID := DesignIdOf(GetFileName(name));
        if designID.Err? {
          return Err(designID.error);
        }
        result := result + [designID.value];
      }
      i := i + 1;
    }
    return Ok(result);
  }

  // ---------------------------------------------------------------------------------------
  // The database's static fields and operations

  /** The static state of PartUtility and the operations that read and update it. The host
      is passed to every operation. */
  class PartDatabase {
    var designIdMapping: Option<map<string, seq<string>>>
    var legacyPartsArchive: Option<ZipSource>
    var newPartsArchive: Option<ZipSource>
    var commonPartsArchive: Option<ZipSource>
    var useLegacyUnzipped: bool
    var useNewUnzipped: bool
    var useCommonUnzipped: bool

    function State(): DbState
      reads this
    {
      DbState(PackageState(legacyPartsArchive, useLegacyUnzipped),
              PackageState(newPartsArchive, useNewUnzipped),
              PackageState(commonPartsArchive, useCommonUnzipped),
              designIdMapping)
    }

    /** The fields as the class is loaded: all null and false. */
    constructor ()
      ensures State() == Initial
    {
      designIdMapping := None;
      legacyPartsArchive, newPartsArchive, commonPartsArchive := None, None, None;
      useLegacyUnzipped, useNewUnzipped, useCommonUnzipped := false, false, false;
    }

    method OpenDB(h: Host) returns (error: Option<DbError>)
      modifies this
      ensures Opened(State(), error) == Open(h, old(State()))
    {
      SelectSources(h);
      error := LoadTable(h);
    }

    /** The first half of OpenDB: a source for each package without an open archive. */
    method SelectSources(h: Host)
      modifies this
      ensures State().legacyParts == SelectSource(h, LegacyParts, old(State()).legacyParts)
      ensures State().newParts == SelectSource(h, NewParts, old(State()).newParts)
      ensures State().commonParts == SelectSource(h, CommonParts, old(State()).commonParts)
      ensures designIdMapping == old(designIdMapping)
    {
      var legacyParts := SelectPackageSource(h, LegacyParts, State().legacyParts);
      var newParts := SelectPackageSource(h, NewParts, State().newParts);
      var commonParts := SelectPackageSource(h, CommonParts, State().commonParts);
      legacyPartsArchive, useLegacyUnzipped := legacyParts.archive, legacyParts.unzipped;
      newPartsArchive, useNewUnzipped := newParts.archive, newParts.unzipped;
      commonPartsArchive, useCommonUnzipped := commonParts.archive, commonParts.unzipped;
    }

    /** The second half of OpenDB: a null table is set to an empty one and filled from
        designid.xml. */
    method LoadTable(h: Host) returns (error: Option<DbError>)
      modifies this
      ensures old(designIdMapping).Some? ==> designIdMapping == old(designIdMapping) && error.None?
      ensures old(designIdMapping).None? && h.mappingNodes.None? ==>
        designIdMapping == Some(map[]) && error == Some(MappingUnreadable)
      ensures old(designIdMapping).None? && h.mappingNodes.Some? ==>
        designIdMapping.Some?
        && Loaded(designIdMapping.value, error) == LoadMapping(map[], h.mappingNodes.value)
      ensures legacyPartsArchive == old(legacyPartsArchive) && newPartsArchive == old(newPartsArchive)
      ensures commonPartsArchive == old(commonPartsArchive)
      ensures useLegacyUnzipped == old(useLegacyUnzipped) && useNewUnzipped == old(useNewUnzipped)
      ensures useCommonUnzipped == old(useCommonUnzipped)
    {
      error := None;
      if designIdMapping.None? {
        designIdMapping := Some(map[]);
        if h.mappingNodes.None? {
          error := Some(MappingUnreadable);
          return;
        }
        var mapping, loadError := LoadDesignIdMapping(h.mappingNodes.value);
        designIdMapping := Some(mapping);
        error := loadError;
      }
    }

    method RefreshDB(h: Host) returns (error: Option<DbError>)
      modifies this
      ensures Opened(State(), error) == Refresh(h, old(State()))
    {
      legacyPartsArchive := None;
      newPartsArchive := None;
      commonPartsArchive := None;
      designIdMapping := None;
      error := OpenDB(h);
    }

    method CheckIfNewPartExists(h: Host, designID: string) returns (r: Result<bool>)
      modifies this
      ensures Step(State(), r) == Check(h, old(State()), New, designID)
    {
      if Combine(GeometryPath, designID + ".fbx") in h.files
        || CombineAll([GeometryPath, LightmappedDir, designID + ".fbx"]) in h.files
      {
        return Ok(true);
      }
      var error := OpenDB(h);
      if error.Some? {
        return Err(error.value);
      }
      var path := NewPartKey(designID);
      if useNewUnzipped {
        return Ok(Combine(NewPartsUnzippedPath, path) in h.files);
      } else if newPartsArchive.Some? {
        return Ok(path in Entries(h, newPartsArchive.value));
      }
      return Ok(false);
    }

    method CheckIfLegacyPartExists(h: Host, designID: string) returns (r: Result<bool>)
      modifies this
      ensures Step(State(), r) == Check(h, old(State()), Legacy, designID)
    {
      if CombineAll([GeometryPath, LegacyDir, designID + ".fbx"]) in h.files
        || CombineAll([GeometryPath, LegacyDir, LightmappedDir, designID + ".fbx"]) in h.files
      {
        return Ok(true);
      }
      var error := OpenDB(h);
      if error.Some? {
        return Err(error.value);
      }
      if useLegacyUnzipped {
        return Ok(Combine(LegacyPartsUnzippedPath, designID + ".fbx") in h.files);
      } else if legacyPartsArchive.Some? {
        return Ok(designID + ".fbx" in Entries(h, legacyPartsArchive.value));
      }
      return Ok(false);
    }

    /** CheckIfNewPartExists or CheckIfLegacyPartExists, by catalogue. */
    method CheckIfExists(h: Host, c: Catalog, designID: string) returns (r: Result<bool>)
      modifies this
      ensures Step(State(), r) == Check(h, old(State()), c, designID)
    {
      if c == New {
        r := CheckIfNewPartExists(h, designID);
      } else {
        r := CheckIfLegacyPartExists(h, designID);
      }
    }

    /** The loops of CheckIfPartExists over an alias list. */
    method FindFirst(h: Host, c: Catalog, ids: seq<string>) returns (r: Result<Option<string>>)
      modifies this
      ensures Step(State(), r) == FirstFound(h, old(State()), c, ids)
    {
      var i := 0;
      while i < |ids|
        invariant 0 <= i <= |ids|
        invariant FirstFound(h, State(), c, ids[i..]) == FirstFound(h, old(State()), c, ids)
      {
        ghost var before := State();
        var found := CheckIfExists(h, c, ids[i]);
        FirstFoundStep(h, before, c, ids, i);
        if found.Err? {
          return Err(found.error);
        }
        if found.value {
          return Ok(Some(ids[i]));
        }
        i := i + 1;
      }
      return Ok(None);
    }

    method CheckIfPartExists(h: Host, designID: string) returns (r: Result<PartExistenceResult>)
      modifies this
      ensures Step(State(), r) == Resolve(h, old(State()), designID)
    {
      var exactNew := CheckIfNewPartExists(h, designID);
      if exactNew.Err? {
        return Err(exactNew.error);
      }
      if exactNew.value {
        return Ok(PartExistenceResult(Some(New), designID));
      }
      var error := OpenDB(h);
      if error.Some? {
        return Err(error.value);
      }
      r := ResolveWithTable(h, designID);
    }

    /** CheckIfPartExists from the alias loop over new parts on, once OpenDB has run. */
    method ResolveWithTable(h: Host, designID: string) returns (r: Result<PartExistenceResult>)
      requires designIdMapping.Some?
      modifies this
      ensures Step(State(), r) == ResolveAfterOpen(h, old(State()), designID)
    {
      var aliases := if designID in designIdMapping.value then designIdMapping.value[designID] else [];
      var aliasNew := FindFirst(h, New, aliases);
      if aliasNew.value.Some? {
        return Ok(PartExistenceResult(Some(New), aliasNew.value.value));
      }
      var exactLegacy := CheckIfLegacyPartExists(h, designID);
      if exactLegacy.value {
        return Ok(PartExistenceResult(Some(Legacy), designID));
      }
      aliases := if designID in designIdMapping.value then designIdMapping.value[designID] else [];
      var aliasLegacy := FindFirst(h, Legacy, aliases);
      if aliasLegacy.value.Some? {
        return Ok(PartExistenceResult(Some(Legacy), aliasLegacy.value.value));
      }
      return Ok(PartExistenceResult(None, designID));
    }

    method GetPartList(h: Host) returns (r: Result<seq<string>>)
      modifies this
      ensures Step(State(), r) == PartList(h, old(State()))
    {
      var error := OpenDB(h);
      if error.Some? {
        return Err(error.value);
      }
      if useNewUnzipped {
        if NewGeometryDir in h.dirs {
          r := FolderPartIds(h, VxDirectories(h, NewGeometryDir));
        } else {
          r := Ok([]);
        }
      } else if newPartsArchive.Some? {
        r := ArchivePartIds(Entries(h, newPartsArchive.value));
      } else {
        r := Ok([]);
      }
    }

    method UnpackExactNewPart(h: Host, designID: string, lightmapped: bool, lod: int, forceUnpack: bool)
      returns (r: Result<Unpacked>)
      modifies this
      ensures Step(State(), r) == Unpack(h, old(State()), designID, lightmapped, lod, forceUnpack)
    {
      if !forceUnpack && UnpackTarget(lightmapped, lod, designID + ".fbx") in h.files {
        return Ok(Unpacked(true, None));
      }
      var error := OpenDB(h);
      if error.Some? {
        return Err(error.value);
      }
      var path := NewPartKey(designID);
      var found := false;
      if useNewUnzipped {
        found := Combine(NewPartsUnzippedPath, path) in h.files;
      } else if newPartsArchive.Some? {
        found := path in Entries(h, newPartsArchive.value);
      }
      if found {
        var fileName := UnpackedName(designID);
        return Ok(Unpacked(true, Some(UnpackTarget(lightmapped, lod, fileName))));
      }
      return Ok(Unpacked(false, None));
    }
  }
}
