/**
 * The CSV export service (`services/csv_export.py`): turns every stored
 * transaction into one CSV row and writes the rows, in cursor order, into
 * numbered part files of at most `MaxRowsPerCsv` data rows each, inside a
 * temporary directory that the service owns until `CleanupTempFiles`.
 */
module CsvExport {
  import opened Wrappers
  import opened Chunking
  import opened Text
  import opened FileSystem

  /** The most data rows one part file holds. */
  const MaxRowsPerCsv: nat := 1_000_000

  /** The cursor's fetch size; it decides how records are fetched, not which or in what order. */
  const BatchSize: nat := 10_000

  /** The header row every part starts with. */
  function Headers(): (h: Row)
    ensures |h| == 6
  {
    ["id", "amount", "currency", "transaction_date", "category", "created_at"]
  }

  /** The file name of part `k` (parts are numbered from 1). */
  function PartName(k: nat): (name: string)
    ensures '/' !in name
  {
    "transactions_part_" + NatToString(k) + ".csv"
  }

  /** Different parts never share a file name. */
  lemma PartNameInjective(a: nat, b: nat)
    requires PartName(a) == PartName(b)
    ensures a == b
  {
    var na, nb := NatToString(a), NatToString(b);
    assert |na| == |nb|;
    assert na == PartName(a)[18..18 + |na|];
    assert nb == PartName(b)[18..18 + |nb|];
    NatToStringInjective(a, b);
  }

  // ---------------------------------------------------------------- records

  /**
   * One key of a stored document, as `dict.get` sees it: absent, present
   * with the value `None`, or present with a value.
   */
  datatype Field<T> = Missing | Null | Present(value: T)

  /**
   * A date field's value: a `datetime` (with its `isoformat()` text) or some
   * other value (with its `str()` text and whether Python finds it truthy).
   */
  datatype Stamp = DateTime(iso: string) | OtherStamp(text: string, truthy: bool)

  /**
   * A stored transaction document as the cursor yields it. `id` and
   * `amount` hold the `str()` text of the stored value (for a float amount,
   * the text of `Decimal(str(amount))`), `currency` and `category` the
   * stored string.
   */
  datatype Record = Record(
    id: Field<string>,
    amount: Field<string>,
    currency: Field<string>,
    transactionDate: Field<Stamp>,
    category: Field<string>,
    createdAt: Field<Stamp>)

  /** A date column: the ISO text of a datetime, `str()` of another truthy value, else empty. */
  function StampText(f: Field<Stamp>): (s: string)
    ensures f.Missing? || f.Null? ==> s == ""
  {
    match f
    case Present(DateTime(iso)) => iso
    case Present(OtherStamp(text, truthy)) => if truthy then text else ""
    case _ => ""
  }

  /**
   * What the export writes for `column` of `r`, by column name. A missing
   * `_id`, currency or category is written as the empty string, a missing
   * amount as `0` (the default of `get`), and a `None` category or date as
   * the empty string, never as `None`.
   */
  function ColumnText(r: Record, column: string): (s: string)
  {
    if column == "id" then
      (match r.id case Missing => "" case Null => "None" case Present(v) => v)
    else if column == "amount" then
      (match r.amount case Missing => "0" case Null => "None" case Present(v) => v)
    else if column == "currency" then
      (match r.currency case Present(v) => v case _ => "")
    else if column == "category" then
      (match r.category case Present(v) => v case _ => "")
    else if column == "transaction_date" then StampText(r.transactionDate)
    else if column == "created_at" then StampText(r.createdAt)
    else ""
  }

  /**
   * `_convert_transaction_to_row`: one field per header column, in header
   * order. It is total: every record, whatever it lacks, gives a row.
   */
  function ConvertRow(r: Record): (row: Row)
    ensures |row| == |Headers()|
    ensures !r.category.Present? ==> row[4] == ""
    ensures r.category.Present? ==> row[4] == r.category.value
    ensures r.id.Missing? ==> row[0] == ""
    ensures r.currency.Missing? ==> row[2] == ""
  {
    var transactionId := match r.id case Missing => "" case Null => "None" case Present(v) => v;
    var amount := match r.amount case Missing => "0" case Null => "None" case Present(v) => v;
    var currency := if r.currency.Present? then r.currency.value else "";
    var category := if r.category.Present? then r.category.value else "";
    [transactionId, amount, currency, StampText(r.transactionDate), category, StampText(r.createdAt)]
  }

  /** Field `i` of the row is what the record gives for the column named by header `i`. */
  lemma ConvertRowColumns(r: Record)
    ensures forall i :: 0 <= i < |Headers()| ==> ConvertRow(r)[i] == ColumnText(r, Headers()[i])
  {
    var row, h := ConvertRow(r), Headers();
    assert h[0] == "id" && row[0] == ColumnText(r, "id");
    assert h[1] == "amount" && row[1] == ColumnText(r, "amount");
    assert h[2] == "currency" && row[2] == ColumnText(r, "currency");
    assert h[3] == "transaction_date" && row[3] == ColumnText(r, "transaction_date");
    assert h[4] == "category" && row[4] == ColumnText(r, "category");
    assert h[5] == "created_at" && row[5] == ColumnText(r, "created_at");
  }

  /** The position of `name` in `header`. */
  function IndexOf(header: Row, name: string): (i: nat)
    requires name in header
    ensures i < |header| && header[i] == name
    ensures forall j :: 0 <= j < i ==> header[j] != name
  {
    if header[0] == name then 0 else 1 + IndexOf(header[1..], name)
  }

  /**
   * Reading a written row back against the header: the field found under
   * column `name` is what the record gives for `name`.
   */
  lemma ReadBackByHeader(r: Record, name: string)
    requires name in Headers()
    ensures ConvertRow(r)[IndexOf(Headers(), name)] == ColumnText(r, name)
  {
    ConvertRowColumns(r);
  }

  // ---------------------------------------------------------------- parts

  /** The rows of `records`, one per record, in cursor order. */
  function Rows(records: seq<Record>): (rows: seq<Row>)
    ensures |rows| == |records|
    ensures forall i :: 0 <= i < |records| ==> rows[i] == ConvertRow(records[i])
  {
    seq(|records|, i requires 0 <= i < |records| => ConvertRow(records[i]))
  }

  /** The data rows of each part, part 1 first. */
  function Parts(records: seq<Record>): (parts: seq<seq<Row>>)
  {
    Chunks(Rows(records), MaxRowsPerCsv)
  }

  /**
   * The parts of `records`: ceil(N / MaxRowsPerCsv) of them, each full but
   * the last, which holds between 1 and MaxRowsPerCsv rows, and together
   * the converted records in cursor order.
   */
  lemma PartsShape(records: seq<Record>)
    ensures |Parts(records)| == CeilDiv(|records|, MaxRowsPerCsv)
    ensures forall k :: 0 <= k < |Parts(records)| ==> 0 < |Parts(records)[k]| <= MaxRowsPerCsv
    ensures forall k :: 0 <= k < |Parts(records)| - 1 ==> |Parts(records)[k]| == MaxRowsPerCsv
    ensures Flatten(Parts(records)) == Rows(records)
  {
    ChunksCount(Rows(records), MaxRowsPerCsv);
    ChunkSizes(Rows(records), MaxRowsPerCsv);
    ChunksFlatten(Rows(records), MaxRowsPerCsv);
  }

  /** A record count that is an exact multiple of MaxRowsPerCsv fills every part and leaves no empty one. */
  lemma NoTrailingEmptyPart(records: seq<Record>, k: nat)
    requires |records| == k * MaxRowsPerCsv
    ensures |Parts(records)| == k
    ensures k > 0 ==> |Parts(records)[k - 1]| == MaxRowsPerCsv
  {
    PartsShape(records);
    var r := |Parts(records)|;
    assert k * MaxRowsPerCsv <= r * MaxRowsPerCsv < k * MaxRowsPerCsv + MaxRowsPerCsv;
    if k > 0 {
      var p := Parts(records);
      FlattenLength(p, MaxRowsPerCsv);
    }
  }

  /** The path of part `k` inside `dir`. */
  function PartPath(dir: Path, k: nat): (p: Path)
  {
    Join(dir, PartName(k))
  }

  /** Parts `j` and `k` of one directory have different paths. */
  lemma PartPathInjective(dir: Path, j: nat, k: nat)
    requires PartPath(dir, j) == PartPath(dir, k)
    ensures j == k
  {
    JoinInjective(dir, PartName(j), PartName(k));
    PartNameInjective(j, k);
  }

  /** Part `n` of `dir` has a path no earlier part has. */
  lemma PartPathFresh(dir: Path, n: nat)
    ensures forall k :: 1 <= k < n ==> PartPath(dir, k) != PartPath(dir, n)
  {
    forall k | 1 <= k < n
      ensures PartPath(dir, k) != PartPath(dir, n)
    {
      if PartPath(dir, k) == PartPath(dir, n) {
        PartPathInjective(dir, k, n);
      }
    }
  }

  /** The paths of parts `1..count` of `dir`, in order. */
  function PartPaths(dir: Path, count: nat): (ps: seq<Path>)
    ensures |ps| == count
    ensures forall k :: 0 <= k < count ==> ps[k] == PartPath(dir, k + 1)
  {
    if count == 0 then [] else PartPaths(dir, count - 1) + [PartPath(dir, count)]
  }

  /** The part files of `dir` holding `parts`: part `k` is the header followed by `parts[k - 1]`. */
  function PartFiles(dir: Path, parts: seq<seq<Row>>): (m: map<Path, Content>)
    ensures forall k :: 1 <= k <= |parts| ==>
      PartPath(dir, k) in m && m[PartPath(dir, k)] == CsvFile([Headers()] + parts[k - 1])
    ensures forall p :: p in m ==> Under(p, dir)
  {
    if |parts| == 0 then map[]
    else
      var n := |parts|;
      var prev := PartFiles(dir, parts[..n - 1]);
      var m := prev[PartPath(dir, n) := CsvFile([Headers()] + parts[n - 1])];
      JoinUnder(dir, PartName(n));
      PartPathFresh(dir, n);
      m
  }

  /** Adding one row to the data: a part of its own, or the end of the last part. */
  lemma PartsSnoc(records: seq<Record>, i: nat)
    requires i < |records|
    ensures var p, p' := Parts(records[..i]), Parts(records[..i + 1]);
      var row := ConvertRow(records[i]);
      p' == if |p| == 0 || |p[|p| - 1]| == MaxRowsPerCsv then p + [[row]]
            else p[..|p| - 1] + [p[|p| - 1] + [row]]
  {
    assert Rows(records[..i + 1]) == Rows(records[..i]) + [ConvertRow(records[i])];
    ChunksSnoc(Rows(records[..i]), ConvertRow(records[i]), MaxRowsPerCsv);
  }

  /** The last part holds between 1 and MaxRowsPerCsv rows. */
  lemma LastPartSize(records: seq<Record>)
    ensures var p := Parts(records);
      |p| > 0 ==> 0 < |p[|p| - 1]| <= MaxRowsPerCsv
  {
    var p := Chunks(Rows(records), MaxRowsPerCsv);
    ChunkSizes(Rows(records), MaxRowsPerCsv);
    if |p| > 0 {
      assert 0 < |p[|p| - 1]| <= MaxRowsPerCsv;
    }
  }

  /** Opening part `|parts| + 1` with its first row adds one file and leaves the others. */
  lemma PartFilesOpen(dir: Path, parts: seq<seq<Row>>, row: Row)
    ensures PartFiles(dir, parts + [[row]])
      == PartFiles(dir, parts)[PartPath(dir, |parts| + 1) := CsvFile([Headers()] + [row])]
  {
    assert (parts + [[row]])[..|parts|] == parts;
  }

  /** Adding a row to the last part rewrites that part's file and leaves the others. */
  lemma PartFilesExtend(dir: Path, parts: seq<seq<Row>>, row: Row)
    requires |parts| > 0
    ensures var n := |parts|;
      PartFiles(dir, parts[..n - 1] + [parts[n - 1] + [row]])
      == PartFiles(dir, parts)[PartPath(dir, n) := CsvFile([Headers()] + parts[n - 1] + [row])]
  {
    var n := |parts|;
    var parts' := parts[..n - 1] + [parts[n - 1] + [row]];
    assert parts'[..n - 1] == parts[..n - 1];
    assert [Headers()] + (parts[n - 1] + [row]) == [Headers()] + parts[n - 1] + [row];
  }

  /** Updating one key of a union updates the right-hand map, which holds that key. */
  lemma UpdateUnion(a: map<Path, Content>, b: map<Path, Content>, k: Path, v: Content)
    ensures (a + b)[k := v] == a + b[k := v]
  {
  }

  /**
   * The state of the export loop after `i` records: the parts written so
   * far are those of the first `i` rows, the current part is open exactly
   * while it is not full, and the next part to open is numbered after the
   * last one.
   */
  ghost predicate Progress(cursor: seq<Record>, i: nat, dir: Path, base: map<Path, Content>,
    files: map<Path, Content>, paths: seq<Path>, rowCount: nat, fileNum: nat, currentFile: Option<Path>)
    requires i <= |cursor|
  {
    var p := Parts(cursor[..i]);
    && paths == PartPaths(dir, |p|)
    && files == base + PartFiles(dir, p)
    && rowCount == (if |p| == 0 || |p[|p| - 1]| == MaxRowsPerCsv then 0 else |p[|p| - 1]|)
    && fileNum == |p| + (if rowCount == 0 then 1 else 0)
    && currentFile == (if rowCount == 0 then None else Some(PartPath(dir, |p|)))
  }

  /** A record that arrives while no part is open opens the next part and becomes its first row. */
  lemma OpenStep(cursor: seq<Record>, i: nat, dir: Path, base: map<Path, Content>,
    files: map<Path, Content>, paths: seq<Path>, fileNum: nat)
    requires i < |cursor|
    requires Progress(cursor, i, dir, base, files, paths, 0, fileNum, None)
    ensures var path := PartPath(dir, fileNum);
      var files' := files[path := CsvFile([Headers()])][path := CsvFile([Headers()] + [ConvertRow(cursor[i])])];
      Progress(cursor, i + 1, dir, base, files', paths + [path], 1, fileNum, Some(path))
  {
    var p := Parts(cursor[..i]);
    var row := ConvertRow(cursor[i]);
    var path := PartPath(dir, fileNum);
    LastPartSize(cursor[..i]);
    PartsSnoc(cursor, i);
    assert Parts(cursor[..i + 1]) == p + [[row]];
    PartFilesOpen(dir, p, row);
    UpdateUnion(base, PartFiles(dir, p), path, CsvFile([Headers()] + [row]));
  }

  /** A record that arrives while a part is open is added to it; the part is closed once full. */
  lemma ExtendStep(cursor: seq<Record>, i: nat, dir: Path, base: map<Path, Content>,
    files: map<Path, Content>, paths: seq<Path>, rowCount: nat, fileNum: nat, path: Path)
    requires i < |cursor| && rowCount > 0
    requires Progress(cursor, i, dir, base, files, paths, rowCount, fileNum, Some(path))
    ensures path in files && files[path].CsvFile?
    ensures var files' := files[path := CsvFile(files[path].rows + [ConvertRow(cursor[i])])];
      var full := rowCount + 1 >= MaxRowsPerCsv;
      Progress(cursor, i + 1, dir, base, files', paths, if full then 0 else rowCount + 1,
        if full then fileNum + 1 else fileNum, if full then None else Some(path))
  {
    var p := Parts(cursor[..i]);
    var n := |p|;
    var row := ConvertRow(cursor[i]);
    LastPartSize(cursor[..i]);
    assert files[path] == CsvFile([Headers()] + p[n - 1]);
    PartsSnoc(cursor, i);
    assert Parts(cursor[..i + 1]) == p[..n - 1] + [p[n - 1] + [row]];
    PartFilesExtend(dir, p, row);
    UpdateUnion(base, PartFiles(dir, p), path, CsvFile([Headers()] + p[n - 1] + [row]));
  }

  // ---------------------------------------------------------------- the service

  /** Where the record cursor or the file writes fail, if anywhere. */
  datatype Fault =
    | NoFault
    /** The cursor raises instead of yielding record `at` (at `|cursor|`: after the last one). */
    | ReadFault(at: nat)
    /** Writing the row of record `at` raises (after its part file was opened, when it starts one). */
    | WriteFault(at: nat)

  /** What the database provides: `count_documents({})`, the records `find({})` yields, and any fault. */
  datatype Source = Source(count: Option<nat>, cursor: seq<Record>, fault: Fault)

  /** The exception `export_to_csv` re-raises. */
  datatype ExportError = CountFailure | ReadFailure | WriteFailure

  /** How many records are written in full before the export stops. */
  function Written(src: Source): (n: nat)
    ensures n <= |src.cursor|
  {
    match src.fault
    case ReadFault(at) => if at <= |src.cursor| then at else |src.cursor|
    case WriteFault(at) => if at < |src.cursor| then at else |src.cursor|
    case NoFault => |src.cursor|
  }

  /** The error that stops the record loop, if one does. */
  function LoopError(src: Source): (e: Option<ExportError>)
    ensures e.None? ==> Written(src) == |src.cursor|
  {
    match src.fault
    case ReadFault(at) => if at <= |src.cursor| then Some(ReadFailure) else None
    case WriteFault(at) => if at < |src.cursor| then Some(WriteFailure) else None
    case NoFault => None
  }

  /**
   * The header-only file left behind when the write that fails is the first
   * row of a new part.
   */
  function StrayPart(dir: Path, src: Source): (m: map<Path, Content>)
    ensures forall p :: p in m ==> Under(p, dir)
  {
    match src.fault
    case WriteFault(at) =>
      if at < |src.cursor| then
        var p := Parts(src.cursor[..at]);
        if |p| == 0 || |p[|p| - 1]| == MaxRowsPerCsv then
          JoinUnder(dir, PartName(|p| + 1));
          map[PartPath(dir, |p| + 1) := CsvFile([Headers()])]
        else map[]
      else map[]
    case _ => map[]
  }

  /** No fault stops the loop before record `i`. */
  predicate ReachesRecord(src: Source, i: nat)
  {
    !(src.fault.ReadFault? && src.fault.at < i) && !(src.fault.WriteFault? && src.fault.at < i)
  }

  /** The cursor raising before record `i` leaves exactly the parts of the first `i` rows. */
  lemma ReadFaultExit(src: Source, i: nat, dir: Path, base: map<Path, Content>,
    files: map<Path, Content>, paths: seq<Path>, rowCount: nat, fileNum: nat, currentFile: Option<Path>)
    requires i <= |src.cursor| && src.fault == ReadFault(i)
    requires Progress(src.cursor, i, dir, base, files, paths, rowCount, fileNum, currentFile)
    ensures files == base + PartFiles(dir, Parts(src.cursor[..Written(src)])) + StrayPart(dir, src)
    ensures LoopError(src) == Some(ReadFailure)
  {
    assert StrayPart(dir, src) == map[];
  }

  /** A write that fails on the first row of a new part leaves that part holding only the header. */
  lemma WriteFaultOpenExit(src: Source, i: nat, dir: Path, base: map<Path, Content>,
    files: map<Path, Content>, paths: seq<Path>, fileNum: nat)
    requires i < |src.cursor| && src.fault == WriteFault(i)
    requires Progress(src.cursor, i, dir, base, files, paths, 0, fileNum, None)
    ensures files[PartPath(dir, fileNum) := CsvFile([Headers()])]
      == base + PartFiles(dir, Parts(src.cursor[..Written(src)])) + StrayPart(dir, src)
    ensures LoopError(src) == Some(WriteFailure)
  {
    var p := Parts(src.cursor[..i]);
    LastPartSize(src.cursor[..i]);
    assert StrayPart(dir, src) == map[PartPath(dir, fileNum) := CsvFile([Headers()])];
  }

  /** A write that fails inside an open part leaves the parts of the rows before it. */
  lemma WriteFaultExtendExit(src: Source, i: nat, dir: Path, base: map<Path, Content>,
    files: map<Path, Content>, paths: seq<Path>, rowCount: nat, fileNum: nat, currentFile: Option<Path>)
    requires i < |src.cursor| && src.fault == WriteFault(i) && rowCount > 0
    requires Progress(src.cursor, i, dir, base, files, paths, rowCount, fileNum, currentFile)
    ensures files == base + PartFiles(dir, Parts(src.cursor[..Written(src)])) + StrayPart(dir, src)
    ensures LoopError(src) == Some(WriteFailure)
  {
    assert StrayPart(dir, src) == map[];
  }

  /** Having consumed every record, the loop has written every part, unless the cursor raises at the end. */
  lemma LoopExit(src: Source, dir: Path, base: map<Path, Content>,
    files: map<Path, Content>, paths: seq<Path>, rowCount: nat, fileNum: nat, currentFile: Option<Path>)
    requires ReachesRecord(src, |src.cursor|)
    requires Progress(src.cursor, |src.cursor|, dir, base, files, paths, rowCount, fileNum, currentFile)
    ensures files == base + PartFiles(dir, Parts(src.cursor[..Written(src)])) + StrayPart(dir, src)
    ensures LoopError(src) == (if src.fault == ReadFault(|src.cursor|) then Some(ReadFailure) else None)
    ensures paths == PartPaths(dir, |Parts(src.cursor)|)
  {
    assert src.cursor[..|src.cursor|] == src.cursor;
    assert StrayPart(dir, src) == map[];
  }

  /**
   * One pass of the record loop for a record that is written: opens the
   * next part when none is open, appends the record's row, and closes the
   * part once it holds `MaxRowsPerCsv` rows.
   */
  method WriteRecord(disk: Disk, cursor: seq<Record>, i: nat, dir: Path, ghost base: map<Path, Content>,
    paths: seq<Path>, rowCount: nat, fileNum: nat, currentFile: Option<Path>)
    returns (paths': seq<Path>, rowCount': nat, fileNum': nat, currentFile': Option<Path>)
    requires i < |cursor| && dir in disk.dirs
    requires Progress(cursor, i, dir, base, disk.files, paths, rowCount, fileNum, currentFile)
    modifies disk
    ensures disk.dirs == old(disk.dirs) && disk.locked == old(disk.locked)
    ensures Progress(cursor, i + 1, dir, base, disk.files, paths', rowCount', fileNum', currentFile')
  {
    paths', rowCount', fileNum', currentFile' := paths, rowCount, fileNum, currentFile;
    var row := ConvertRow(cursor[i]);
    if rowCount == 0 {
      var filename := PartName(fileNum);
      OpenStep(cursor, i, dir, base, disk.files, paths, fileNum);
      var ok := disk.CreateFile(dir, filename, CsvFile([Headers()]));
      var filePath := Join(dir, filename);
      paths' := paths + [filePath];
      currentFile' := Some(filePath);
    } else {
      ExtendStep(cursor, i, dir, base, disk.files, paths, rowCount, fileNum, currentFile.value);
    }
    disk.AppendRow(currentFile'.value, row);
    rowCount' := rowCount + 1;
    if rowCount' >= MaxRowsPerCsv {
      currentFile' := None;
      fileNum' := fileNum + 1;
      rowCount' := 0;
    }
  }

  /**
   * One pass of the record loop for a record whose row cannot be written:
   * the next part is still opened with its header when none is open, and
   * then the write raises.
   */
  method FailWrite(disk: Disk, src: Source, i: nat, dir: Path, ghost base: map<Path, Content>,
    paths: seq<Path>, rowCount: nat, fileNum: nat, currentFile: Option<Path>)
    requires i < |src.cursor| && src.fault == WriteFault(i) && dir in disk.dirs
    requires Progress(src.cursor, i, dir, base, disk.files, paths, rowCount, fileNum, currentFile)
    modifies disk
    ensures disk.dirs == old(disk.dirs) && disk.locked == old(disk.locked)
    ensures disk.files == base + PartFiles(dir, Parts(src.cursor[..Written(src)])) + StrayPart(dir, src)
    ensures LoopError(src) == Some(WriteFailure)
  {
    if rowCount == 0 {
      WriteFaultOpenExit(src, i, dir, base, disk.files, paths, fileNum);
      var ok := disk.CreateFile(dir, PartName(fileNum), CsvFile([Headers()]));
    } else {
      WriteFaultExtendExit(src, i, dir, base, disk.files, paths, rowCount, fileNum, currentFile);
    }
  }

  /**
   * The record loop of `export_to_csv`: writes the records in cursor order
   * into parts 1, 2, … of `dir`, opening a part only when a record arrives
   * for it and closing it at `MaxRowsPerCsv` rows. A failure stops the loop
   * and leaves what was written.
   */
  method WriteParts(disk: Disk, src: Source, dir: Path) returns (r: Result<seq<Path>, ExportError>)
    requires dir in disk.dirs
    modifies disk
    ensures disk.dirs == old(disk.dirs) && disk.locked == old(disk.locked)
    ensures disk.files == old(disk.files) + PartFiles(dir, Parts(src.cursor[..Written(src)])) + StrayPart(dir, src)
    ensures r == if LoopError(src).Some? then Err(LoopError(src).value) else Ok(PartPaths(dir, |Parts(src.cursor)|))
  {
    var cursor := src.cursor;
    var paths: seq<Path> := [];
    var fileNum: nat := 1;
    var rowCount: nat := 0;
    var totalProcessed: nat := 0;
    var currentFile: Option<Path> := None;
    var i := 0;
    while i < |cursor|
      invariant i <= |cursor|
      invariant disk.dirs == old(disk.dirs) && disk.locked == old(disk.locked)
      invariant ReachesRecord(src, i)
      invariant Progress(cursor, i, dir, old(disk.files), disk.files, paths, rowCount, fileNum, currentFile)
      invariant totalProcessed == i
    {
      if src.fault == ReadFault(i) {
        ReadFaultExit(src, i, dir, old(disk.files), disk.files, paths, rowCount, fileNum, currentFile);
        return Err(ReadFailure);
      }
      if src.fault == WriteFault(i) {
        FailWrite(disk, src, i, dir, old(disk.files), paths, rowCount, fileNum, currentFile);
        return Err(WriteFailure);
      }
      paths, rowCount, fileNum, currentFile := WriteRecord(disk, cursor, i, dir, old(disk.files), paths, rowCount, fileNum, currentFile);
      totalProcessed := totalProcessed + 1;
      i := i + 1;
    }
    LoopExit(src, dir, old(disk.files), disk.files, paths, rowCount, fileNum, currentFile);
    if src.fault == ReadFault(|cursor|) {
      return Err(ReadFailure);
    }
    r := Ok(paths);
  }

  /** `TransactionCSVExportService`: the export job and the temporary directory it owns. */
  class ExportService {
    /** The file store the service writes to. */
    const disk: Disk
    /** `self.temp_dir`: the directory of the last export, until it is cleaned up. */
    var tempDir: Option<Path>

    constructor (disk: Disk)
      ensures this.disk == disk && tempDir == None
    {
      this.disk := disk;
      tempDir := None;
    }

    /** `get_temp_dir`. */
    function GetTempDir(): Option<Path>
      reads this
    {
      tempDir
    }

    /**
     * `export_to_csv`: creates the temporary directory `name` (the one
     * `mkdtemp` picks), then, unless the count fails or is 0, writes the
     * records in cursor order into parts 1, 2, … of that directory and
     * returns their paths in creation order. A part is opened only when a
     * record arrives for it; a failure stops the loop, leaves what was
     * written, and keeps the directory.
     */
    method ExportToCsv(src: Source, name: Path) returns (r: Result<seq<Path>, ExportError>)
      requires name !in disk.dirs && forall p :: p in disk.files ==> !Under(p, name)
      modifies this, disk
      ensures tempDir == Some(name)
      ensures disk.dirs == old(disk.dirs) + {name} && disk.locked == old(disk.locked)
      ensures src.count.None? ==> r == Err(CountFailure) && disk.files == old(disk.files)
      ensures src.count == Some(0) ==> r == Ok([]) && disk.files == old(disk.files)
      ensures src.count.Some? && src.count.value > 0 ==>
        && disk.files == old(disk.files) + PartFiles(name, Parts(src.cursor[..Written(src)])) + StrayPart(name, src)
        && r == if LoopError(src).Some? then Err(LoopError(src).value)
                else Ok(PartPaths(name, |Parts(src.cursor)|))
    {
      disk.MakeTempDir(name);
      tempDir := Some(name);
      if src.count.None? {
        return Err(CountFailure);
      }
      if src.count.value == 0 {
        return Ok([]);
      }
      r := WriteParts(disk, src, name);
    }

    /**
     * `cleanup_temp_files`: when the service holds a directory that still
     * exists, removes it with everything inside and forgets it; a removal
     * that raises is swallowed and the directory is kept. In every other
     * case nothing changes, so a second call after a successful one is a
     * no-op.
     */
    method CleanupTempFiles()
      modifies this, disk
      ensures var d := old(tempDir);
        if d.Some? && d.value != "" && d.value in old(disk.dirs) && d.value !in old(disk.locked) then
          && tempDir == None
          && disk.dirs == Prune(old(disk.dirs), d.value)
          && disk.files == Outside(old(disk.files), d.value)
          && disk.locked == old(disk.locked)
        else
          && tempDir == old(tempDir)
          && disk.dirs == old(disk.dirs) && disk.files == old(disk.files) && disk.locked == old(disk.locked)
    {
      if tempDir.Some? && tempDir.value != "" && tempDir.value in disk.dirs {
        var ok := disk.RemoveTree(tempDir.value);
        if ok {
          tempDir := None;
        }
      }
    }
  }
}
