/**
 * Deleting an item by name (`eliminar_item_por_nombre`): find the first
 * catalog record with that name, resolve its leaf file from the record's
 * hierarchy keys, re-read the leaf, keep every record whose name differs,
 * and rewrite the leaf under its original header.
 */
module Utilidades {
  import opened Wrappers
  import opened Text
  import opened CsvDict
  import opened ManejoArchivo

  /**
   * A record of the catalog that `crear_lista_desde_csv` builds: the columns
   * of one leaf row plus the hierarchy keys taken from the leaf's path.
   */
  type CatalogItem = map<string, string>

  const CategoriaKey: string := "categoria"
  const TipoKey: string := "tipo"
  const ProcesamientoKey: string := "procesamiento"

  /** `item.get(key, default)` */
  function Get(item: CatalogItem, key: string, default: string): (v: string) {
    if key in item then item[key] else default
  }

  /**
   * The name test: equal after `strip().lower()`.
   */
  predicate Matches(item: CatalogItem, target: string) {
    Normalize(Get(item, NameKey, "")) == Normalize(target)
  }

  /** A record without a name matches exactly the all-whitespace targets. */
  lemma NamelessMatches(item: CatalogItem, target: string)
    requires NameKey !in item
    ensures Matches(item, target) <==> AllSpace(target)
  {
    assert AllSpace("");
    NormalizeSpec("");
    NormalizeSpec(target);
  }

  /** The position of the first record with the target name; later ones are ignored. */
  function FirstMatch(catalog: seq<CatalogItem>, target: string): (r: Option<nat>)
    ensures r.Some? ==> r.value < |catalog| && Matches(catalog[r.value], target)
    ensures r.Some? ==> forall j :: 0 <= j < r.value ==> !Matches(catalog[j], target)
    ensures r.None? ==> forall j :: 0 <= j < |catalog| ==> !Matches(catalog[j], target)
  {
    if catalog == [] then None
    else if Matches(catalog[0], target) then Some(0)
    else match FirstMatch(catalog[1..], target)
      case None => None
      case Some(k) => Some(k + 1)
  }

  /** The first `for item in lista_completa` loop, which stops at the first match. */
  method FindFirstMatch(catalog: seq<CatalogItem>, target: string) returns (found: Option<nat>)
    ensures found == FirstMatch(catalog, target)
  {
    found := None;
    var i := 0;
    while i < |catalog|
      invariant 0 <= i <= |catalog|
      invariant forall j :: 0 <= j < i ==> !Matches(catalog[j], target)
    {
      if Matches(catalog[i], target) {
        found := Some(i);
        break;
      }
      i := i + 1;
    }
  }

  predicate HasHierarchy(item: CatalogItem) {
    CategoriaKey in item && TipoKey in item && ProcesamientoKey in item
  }

  /**
   * The leaf the deletion works on: that of the first matching record, when
   * the catalog is not empty, a record matches, it is not an empty
   * dictionary (`if not item_a_eliminar`) and it has all three hierarchy keys
   * (otherwise a `KeyError`, caught).
   */
  function Selected(catalog: seq<CatalogItem>, target: string): (r: Option<Path>)
    ensures catalog == [] ==> r == None
    ensures FirstMatch(catalog, target).None? ==> r == None
    ensures FirstMatch(catalog, target).Some? ==>
              var item := catalog[FirstMatch(catalog, target).value];
              r == if HasHierarchy(item)
                   then Some(LeafPath(item[CategoriaKey], item[TipoKey], item[ProcesamientoKey]))
                   else None
  {
    if catalog == [] then None
    else match FirstMatch(catalog, target)
      case None => None
      case Some(k) =>
        var item := catalog[k];
        if item == map[] then None
        else if !HasHierarchy(item) then None
        else Some(LeafPath(item[CategoriaKey], item[TipoKey], item[ProcesamientoKey]))
  }

  /** The row's name can be read and differs from the target: the row is kept. */
  predicate Differs(d: Row, target: string) {
    NameOf(d).Some? && Normalize(NameOf(d).value) != Normalize(target)
  }

  /** A non-blank record too short to reach the name column: its name reads as `None`. */
  predicate Unreadable(header: seq<string>, rec: Record) {
    rec != [] && NameOf(ReadRow(header, rec)).None?
  }

  /** Some record's name cannot be read. */
  predicate NameUnreadable(header: seq<string>, recs: seq<Record>) {
    exists i :: 0 <= i < |recs| && Unreadable(header, recs[i])
  }

  /**
   * The second loop, over `csv.DictReader` of the leaf: the dictionaries of
   * the non-blank records whose name differs from the target, in order, or
   * `None` when a record is too short to reach the name column
   * (`None.strip()` raises `AttributeError`, caught below).
   */
  function ScanRows(header: seq<string>, recs: seq<Record>, target: string): (r: Option<seq<Row>>)
    ensures r.Some? ==> |r.value| <= |recs|
    ensures r.Some? ==> forall i :: 0 <= i < |r.value| ==> Differs(r.value[i], target)
    ensures r.Some? && (forall i :: 0 <= i < |recs| ==> |recs[i]| <= |header|) ==>
              forall i :: 0 <= i < |r.value| ==> r.value[i].rest == []
    decreases |recs|
  {
    if recs == [] then Some([])
    else
      var prev := ScanRows(header, recs[..|recs| - 1], target);
      var last := recs[|recs| - 1];
      if prev.None? then None
      else if last == [] then prev
      else
        var fila := ReadRow(header, last);
        match NameOf(fila)
        case None => None
        case Some(name) =>
          if Normalize(name) != Normalize(target) then Some(prev.value + [fila]) else prev
  }

  /** Every row read has exactly the header's columns as keys. */
  lemma {:induction false} ScanColumns(header: seq<string>, recs: seq<Record>, target: string)
    requires ScanRows(header, recs, target).Some?
    ensures forall i :: 0 <= i < |ScanRows(header, recs, target).value| ==>
              ScanRows(header, recs, target).value[i].fields.Keys == set k | k in header
    decreases |recs|
  {
    if recs != [] {
      var last := recs[|recs| - 1];
      ScanColumns(header, recs[..|recs| - 1], target);
      FieldsKeys(header, last);
    }
  }

  lemma {:induction false} ScanFailureSticks(header: seq<string>, recs: seq<Record>, target: string, i: nat)
    requires i <= |recs| && ScanRows(header, recs[..i], target).None?
    ensures ScanRows(header, recs, target).None?
    decreases |recs| - i
  {
    if i < |recs| {
      assert recs[..i + 1][..i] == recs[..i];
      ScanFailureSticks(header, recs, target, i + 1);
    } else {
      assert recs[..i] == recs;
    }
  }

  /** The read fails exactly when a non-blank record's name reads as `None`. */
  lemma {:induction false} ScanFailsIff(header: seq<string>, recs: seq<Record>, target: string)
    ensures ScanRows(header, recs, target).None? <==> NameUnreadable(header, recs)
    decreases |recs|
  {
    if recs != [] {
      var init, last := recs[..|recs| - 1], recs[|recs| - 1];
      ScanFailsIff(header, init, target);
      assert ScanRows(header, recs, target).None? <==>
               ScanRows(header, init, target).None? || Unreadable(header, last);
      UnreadableSnoc(header, recs);
    }
  }

  lemma UnreadableSnoc(header: seq<string>, recs: seq<Record>)
    requires recs != []
    ensures NameUnreadable(header, recs) <==>
              NameUnreadable(header, recs[..|recs| - 1]) || Unreadable(header, recs[|recs| - 1])
  {
    var init, last := recs[..|recs| - 1], recs[|recs| - 1];
    assert NameUnreadable(header, init) ==> NameUnreadable(header, recs) by {
      if NameUnreadable(header, init) {
        var i :| 0 <= i < |init| && Unreadable(header, init[i]);
        assert recs[i] == init[i];
      }
    }
    assert Unreadable(header, last) ==> NameUnreadable(header, recs) by {
      if Unreadable(header, last) {
        assert recs[|recs| - 1] == last;
      }
    }
    assert NameUnreadable(header, recs) ==> NameUnreadable(header, init) || Unreadable(header, last) by {
      if NameUnreadable(header, recs) {
        var i :| 0 <= i < |recs| && Unreadable(header, recs[i]);
        if i < |init| {
          assert init[i] == recs[i];
        }
      }
    }
  }

  /** Every non-blank record whose name can be read and differs from the target is kept. */
  lemma {:induction false} ScanKeepsDiffering(header: seq<string>, recs: seq<Record>, target: string, i: nat)
    requires i < |recs| && recs[i] != [] && Differs(ReadRow(header, recs[i]), target)
    requires ScanRows(header, recs, target).Some?
    ensures ReadRow(header, recs[i]) in ScanRows(header, recs, target).value
    decreases |recs|
  {
    var init, last := recs[..|recs| - 1], recs[|recs| - 1];
    var prev := ScanRows(header, init, target);
    assert prev.Some?;
    if i < |init| {
      assert init[i] == recs[i];
      ScanKeepsDiffering(header, init, target, i);
      assert ScanRows(header, recs, target).value == prev.value ||
             ScanRows(header, recs, target).value == prev.value + [ReadRow(header, last)];
    } else {
      assert ScanRows(header, recs, target).value == prev.value + [ReadRow(header, last)];
    }
  }

  /** `for fila in lector: if <name differs>: filas_a_mantener.append(fila)` */
  method ScanLeaf(header: seq<string>, recs: seq<Record>, target: string) returns (kept: Option<seq<Row>>)
    ensures kept == ScanRows(header, recs, target)
  {
    var filas: seq<Row> := [];
    var i := 0;
    while i < |recs|
      invariant 0 <= i <= |recs|
      invariant ScanRows(header, recs[..i], target) == Some(filas)
    {
      assert recs[..i + 1][..i] == recs[..i];
      var rec := recs[i];
      assert recs[..i + 1][i] == rec;
      if rec != [] {
        var fila := ReadRow(header, rec);
        var name := NameOf(fila);
        if name.None? {
          ScanFailureSticks(header, recs, target, i + 1);
          return None;
        }
        if Normalize(name.value) != Normalize(target) {
          filas := filas + [fila];
        }
      }
      i := i + 1;
    }
    assert recs[..i] == recs;
    return Some(filas);
  }

  /** No record after the header is wider than the header. */
  predicate NoLongRecords(lines: seq<Record>) {
    forall i :: 1 <= i < |lines| ==> |lines[i]| <= |lines[0]|
  }

  /** Rows read from records no wider than the header can all be written back. */
  lemma ScannedRowsWrite(lines: seq<Record>, target: string)
    requires |lines| > 0 && ScanRows(lines[0], lines[1..], target).Some?
    ensures NoLongRecords(lines) ==> WriteRows(lines[0], ScanRows(lines[0], lines[1..], target).value).1
  {
    if NoLongRecords(lines) {
      var recs := lines[1..];
      ScanColumns(lines[0], recs, target);
      assert forall i :: 0 <= i < |recs| ==> |recs[i]| <= |lines[0]| by {
        forall i | 0 <= i < |recs| ensures |recs[i]| <= |lines[0]| {
          assert recs[i] == lines[i + 1];
        }
      }
    }
  }

  /**
   * `eliminar_item_por_nombre(target)` on the disk `fs`, given the catalog;
   * the result and the disk afterwards. `readFault` and `writeFault` stand
   * for an `IOError` raised by `open(..., 'r')` and by `open(..., 'w')`.
   */
  function Eliminar(fs: FileSystem, catalog: seq<CatalogItem>, target: string,
                    readFault: bool, writeFault: bool): (r: (bool, FileSystem))
    // the early exits: empty catalog, nothing found, incomplete hierarchy, unreadable leaf
    ensures catalog == [] ==> r == (false, fs)
    ensures FirstMatch(catalog, target).None? ==> r == (false, fs)
    ensures Selected(catalog, target).None? ==> r == (false, fs)
    ensures readFault ==> r == (false, fs)
    // a missing leaf (`FileNotFoundError`) or an empty one (no fieldnames, so `writeheader()` raises)
    ensures forall p :: Selected(catalog, target) == Some(p) && (p !in fs.files || fs.files[p] == []) ==>
              r == (false, fs)
    // a record too short to reach the name column (`AttributeError` during the read): nothing is written
    ensures forall p :: Selected(catalog, target) == Some(p) && p in fs.files && fs.files[p] != [] &&
                        NameUnreadable(fs.files[p][0], fs.files[p][1..]) ==>
              r == (false, fs)
    // `open(..., 'w')` raising truncates nothing
    ensures writeFault ==> r == (false, fs)
    // at most the selected leaf changes, and no file or directory appears or disappears
    ensures r.1.dirs == fs.dirs && r.1.files.Keys == fs.files.Keys
    ensures forall p :: p in fs.files && Selected(catalog, target) != Some(p) ==> r.1.files[p] == fs.files[p]
    ensures r.0 ==> !readFault && !writeFault && Selected(catalog, target).Some?
    // a rewritten leaf keeps its header, does not grow, and holds records exactly as wide as the header
    ensures forall p :: Selected(catalog, target) == Some(p) && p in fs.files && (r.0 || r.1 != fs) ==>
              var before, after := fs.files[p], r.1.files[p];
              |before| > 0 && |after| > 0 && after[0] == before[0] && |after| <= |before| &&
              forall i :: 1 <= i < |after| ==> |after[i]| == |before[0]|
    // without a record wider than the header, a failure leaves the disk as it was
    ensures forall p :: Selected(catalog, target) == Some(p) && p in fs.files && NoLongRecords(fs.files[p]) ==>
              r.0 || r.1 == fs
  {
    match Selected(catalog, target)
    case None => (false, fs)
    case Some(path) =>
      if readFault || path !in fs.files then (false, fs)
      else
        var lines := fs.files[path];
        // an empty file: DictReader.fieldnames is None, and writeheader() then raises
        if lines == [] then (false, fs)
        else
          var header := lines[0];
          ScanFailsIff(header, lines[1..], target);
          match ScanRows(header, lines[1..], target)
          case None => (false, fs)
          case Some(kept) =>
            ScannedRowsWrite(lines, target);
            if writeFault then (false, fs)
            else
              // the leaf is truncated, the header written, then the rows until one raises
              var (written, complete) := WriteRows(header, kept);
              (complete, fs.(files := fs.files[path := [header] + written]))
  }

  /**
   * A leaf whose header has no repeated column and whose records are blank or
   * no wider than the header and long enough to reach its name column.
   */
  predicate WellFormedLeaf(lines: seq<Record>) {
    |lines| > 0 && Distinct(lines[0]) && RecordsFit(lines[0], lines[1..])
  }

  predicate RecordsFit(header: seq<string>, recs: seq<Record>) {
    forall i :: 0 <= i < |recs| ==> recs[i] == [] || (|recs[i]| <= |header| && Reaches(header, recs[i]))
  }

  /** The name test on a record read by position. */
  predicate SameName(header: seq<string>, rec: Record, target: string)
    requires Reaches(header, rec)
  {
    Normalize(RecordName(header, rec)) == Normalize(target)
  }

  /** A record a deletion keeps: non-blank, no wider than the header, its name readable and different. */
  predicate Kept(header: seq<string>, rec: Record, target: string) {
    rec != [] && |rec| <= |header| && Reaches(header, rec) && !SameName(header, rec, target)
  }

  /**
   * The records a deletion should keep, defined on the records themselves:
   * the non-blank ones whose name differs from the target, in order.
   */
  function KeepByName(header: seq<string>, recs: seq<Record>, target: string): (r: seq<Record>)
    ensures |r| <= |recs|
    ensures forall i :: 0 <= i < |r| ==> r[i] in recs && Kept(header, r[i], target)
    decreases |recs|
  {
    if recs == [] then []
    else
      var prev := KeepByName(header, recs[..|recs| - 1], target);
      var last := recs[|recs| - 1];
      if Kept(header, last, target) then prev + [last] else prev
  }

  /** Every record a deletion keeps is among the records kept. */
  lemma {:induction false} KeepByNameComplete(header: seq<string>, recs: seq<Record>, target: string, i: nat)
    requires i < |recs| && Kept(header, recs[i], target)
    ensures recs[i] in KeepByName(header, recs, target)
    decreases |recs|
  {
    var init, last := recs[..|recs| - 1], recs[|recs| - 1];
    if i < |init| {
      assert init[i] == recs[i];
      KeepByNameComplete(header, init, target, i);
    }
  }

  /** The records a deletion drops: the blank ones, and those with the target name. */
  function Dropped(header: seq<string>, recs: seq<Record>, target: string): (r: seq<Record>)
    requires RecordsFit(header, recs)
    ensures forall i :: 0 <= i < |r| ==> r[i] in recs && (r[i] == [] || SameName(header, r[i], target))
    decreases |recs|
  {
    if recs == [] then []
    else
      var prev := Dropped(header, recs[..|recs| - 1], target);
      var last := recs[|recs| - 1];
      if Kept(header, last, target) then prev else prev + [last]
  }

  /** What is kept and what is dropped together make up the leaf: no record is lost or duplicated. */
  lemma {:induction false} KeepDroppedPartition(header: seq<string>, recs: seq<Record>, target: string)
    requires RecordsFit(header, recs)
    ensures multiset(KeepByName(header, recs, target)) + multiset(Dropped(header, recs, target)) == multiset(recs)
    decreases |recs|
  {
    if recs != [] {
      var init, last := recs[..|recs| - 1], recs[|recs| - 1];
      assert RecordsFit(header, init);
      KeepDroppedPartition(header, init, target);
      assert recs == init + [last];
      var keep, drop := KeepByName(header, init, target), Dropped(header, init, target);
      if Kept(header, last, target) {
        assert KeepByName(header, recs, target) == keep + [last];
        assert Dropped(header, recs, target) == drop;
      } else {
        assert KeepByName(header, recs, target) == keep;
        assert Dropped(header, recs, target) == drop + [last];
      }
    }
  }

  /** The records as the writer writes them back: each padded with empty cells to the header's width. */
  function PadAll(header: seq<string>, recs: seq<Record>): (r: seq<Record>)
    requires forall i :: 0 <= i < |recs| ==> |recs[i]| <= |header|
    ensures |r| == |recs| && forall i :: 0 <= i < |r| ==> r[i] == Pad(recs[i], |header|)
    ensures forall i :: 0 <= i < |r| ==> |r[i]| == |header| && r[i][..|recs[i]|] == recs[i]
    ensures forall i, j :: 0 <= i < |r| && |recs[i]| <= j < |header| ==> r[i][j] == ""
  {
    seq(|recs|, i requires 0 <= i < |recs| => Pad(recs[i], |header|))
  }

  /**
   * When the leaf is well-formed and exactly one of its records is blank or
   * has the target name, a successful deletion shortens it by exactly one
   * record.
   */
  lemma EliminarRemovesOne(fs: FileSystem, catalog: seq<CatalogItem>, target: string, p: Path)
    requires Selected(catalog, target) == Some(p) && p in fs.files && WellFormedLeaf(fs.files[p])
    requires var lines := fs.files[p]; |Dropped(lines[0], lines[1..], target)| == 1
    ensures var r := Eliminar(fs, catalog, target, false, false);
            r.0 && |r.1.files[p]| == |fs.files[p]| - 1
  {
    var lines := fs.files[p];
    EliminarWellFormedLeaf(fs, catalog, target, p);
    KeepDroppedPartition(lines[0], lines[1..], target);
    assert |multiset(KeepByName(lines[0], lines[1..], target))| + 1 == |multiset(lines[1..])|;
  }

  function ReadRows(header: seq<string>, recs: seq<Record>): (rows: seq<Row>)
    ensures |rows| == |recs|
  {
    seq(|recs|, i requires 0 <= i < |recs| => ReadRow(header, recs[i]))
  }

  lemma {:induction false} ScanWellFormed(header: seq<string>, recs: seq<Record>, target: string)
    requires Distinct(header) && RecordsFit(header, recs)
    ensures ScanRows(header, recs, target) == Some(ReadRows(header, KeepByName(header, recs, target)))
    decreases |recs|
  {
    if recs != [] {
      var init := recs[..|recs| - 1];
      var last := recs[|recs| - 1];
      assert RecordsFit(header, init);
      ScanWellFormed(header, init, target);
      var prev := KeepByName(header, init, target);
      if last != [] {
        NameOfRecord(header, last);
        if Kept(header, last, target) {
          assert ReadRows(header, prev + [last]) == ReadRows(header, prev) + [ReadRow(header, last)];
        }
      }
    }
  }

  /** Rows read from records no wider than the header are all written back, each padded to the header's width. */
  lemma WriteReadRows(header: seq<string>, recs: seq<Record>)
    requires Distinct(header)
    requires forall i :: 0 <= i < |recs| ==> |recs[i]| <= |header|
    ensures WriteRows(header, ReadRows(header, recs)) == (PadAll(header, recs), true)
  {
    var rows := ReadRows(header, recs);
    forall i | 0 <= i < |recs| ensures WriteRow(header, rows[i]) == Some(Pad(recs[i], |header|)) {
      RowRoundTrip(header, recs[i]);
    }
    var r := WriteRows(header, rows);
    assert r.1;
    assert r.0 == PadAll(header, recs);
  }

  /**
   * On a well-formed leaf, a deletion that meets no fault succeeds and leaves
   * the leaf holding its header followed by exactly the records whose name
   * differs from the target, in their original order, each padded with empty
   * cells to the header's width: every record with the target name in that
   * leaf is removed, whatever its other columns hold.
   */
  lemma EliminarWellFormedLeaf(fs: FileSystem, catalog: seq<CatalogItem>, target: string, p: Path)
    requires Selected(catalog, target) == Some(p) && p in fs.files && WellFormedLeaf(fs.files[p])
    ensures var lines := fs.files[p];
            Eliminar(fs, catalog, target, false, false) ==
              (true, fs.(files := fs.files[p := [lines[0]] + PadAll(lines[0], KeepByName(lines[0], lines[1..], target))]))
  {
    var lines := fs.files[p];
    var header := lines[0];
    ScanWellFormed(header, lines[1..], target);
    var kept := KeepByName(header, lines[1..], target);
    WriteReadRows(header, kept);
  }

  lemma {:induction false} KeepByNameKeepsKept(header: seq<string>, recs: seq<Record>, target: string)
    requires forall i :: 0 <= i < |recs| ==> Kept(header, recs[i], target)
    ensures KeepByName(header, recs, target) == recs
    decreases |recs|
  {
    if recs != [] {
      KeepByNameKeepsKept(header, recs[..|recs| - 1], target);
    }
  }

  /** Deleting the same name again, once it has been deleted from a well-formed leaf, changes nothing and succeeds. */
  lemma EliminarIdempotent(fs: FileSystem, catalog: seq<CatalogItem>, target: string, p: Path)
    requires Selected(catalog, target) == Some(p) && p in fs.files && WellFormedLeaf(fs.files[p])
    ensures var fs1 := Eliminar(fs, catalog, target, false, false).1;
            Eliminar(fs1, catalog, target, false, false) == (true, fs1)
  {
    var lines := fs.files[p];
    var header := lines[0];
    var padded := PadAll(header, KeepByName(header, lines[1..], target));
    var leaf1 := [header] + padded;
    var fs1 := fs.(files := fs.files[p := leaf1]);
    assert Eliminar(fs, catalog, target, false, false).1 == fs1 by {
      EliminarWellFormedLeaf(fs, catalog, target, p);
    }
    assert WellFormedLeaf(leaf1) && leaf1[1..] == padded && KeepByName(header, padded, target) == padded &&
           PadAll(header, padded) == padded by {
      KeptLeafWellFormed(lines, target);
      KeepByNameKeepsKept(header, padded, target);
      PadAllFull(header, padded);
    }
    assert Eliminar(fs1, catalog, target, false, false) == (true, fs1) by {
      EliminarWellFormedLeaf(fs1, catalog, target, p);
      RewriteSame(fs1.files, p, leaf1);
    }
  }

  /** Writing a leaf's own records back leaves the disk's files as they were. */
  lemma RewriteSame(files: map<Path, seq<Record>>, p: Path, lines: seq<Record>)
    requires p in files && files[p] == lines
    ensures files[p := lines] == files
  {
  }

  /** Records already as wide as the header are written back unchanged. */
  lemma PadAllFull(header: seq<string>, recs: seq<Record>)
    requires forall i :: 0 <= i < |recs| ==> |recs[i]| == |header|
    ensures PadAll(header, recs) == recs
  {
    forall i | 0 <= i < |recs| ensures Pad(recs[i], |header|) == recs[i] {
      assert Pad(recs[i], |header|) == recs[i] + [];
    }
  }

  /**
   * A leaf rewritten by a deletion is well-formed again, its records all
   * exactly as wide as the header, each one a deletion of the same name keeps.
   */
  lemma KeptLeafWellFormed(lines: seq<Record>, target: string)
    requires WellFormedLeaf(lines)
    ensures var header := lines[0];
            var padded := PadAll(header, KeepByName(header, lines[1..], target));
            && WellFormedLeaf([header] + padded)
            && ([header] + padded)[1..] == padded
            && forall i :: 0 <= i < |padded| ==> |padded[i]| == |header| && Kept(header, padded[i], target)
  {
    var header := lines[0];
    var kept := KeepByName(header, lines[1..], target);
    var padded := PadAll(header, kept);
    var leaf1 := [header] + padded;
    forall i | 0 <= i < |padded| ensures |padded[i]| == |header| && Kept(header, padded[i], target) {
      PadKeepsName(header, kept[i]);
    }
    assert leaf1[0] == header && leaf1[1..] == padded;
  }

  /**
   * Adding an item to a new leaf and then deleting it by name, through a
   * catalog whose first record of that name lies in that leaf, succeeds and
   * leaves the leaf with only its header; every other leaf is as before the
   * addition.
   */
  lemma AltaThenEliminar(fs: FileSystem, categoria: string, tipo: string, procesamiento: string,
                         item: Item, catalog: seq<CatalogItem>)
    requires WellFormedItem(item) && NameKey in item.keys
    requires AltaWrites(fs, categoria, tipo, procesamiento, false, false)
    requires LeafPath(categoria, tipo, procesamiento) !in fs.files
    requires Selected(catalog, item.values[NameKey]) == Some(LeafPath(categoria, tipo, procesamiento))
    ensures var fs1 := Alta(fs, categoria, tipo, procesamiento, item, false, false);
            var r := Eliminar(fs1, catalog, item.values[NameKey], false, false);
            && r.0
            && r.1.files[LeafPath(categoria, tipo, procesamiento)] == [item.keys]
            && r.1.files.Keys == fs.files.Keys + {LeafPath(categoria, tipo, procesamiento)}
            && forall q :: q in fs.files ==> r.1.files[q] == fs.files[q]
  {
    var path := LeafPath(categoria, tipo, procesamiento);
    var fs1 := Alta(fs, categoria, tipo, procesamiento, item, false, false);
    var rec := RecordOf(item);
    assert fs1.files[path] == [item.keys, rec];
    assert fs1.files[path][1..] == [rec];
    assert WellFormedLeaf(fs1.files[path]);
    EliminarWellFormedLeaf(fs1, catalog, item.values[NameKey], path);
    KeepOwnName(item);
    assert PadAll(item.keys, []) == [];
  }

  /** The record written for an item is dropped by a deletion of the item's own name. */
  lemma KeepOwnName(item: Item)
    requires WellFormedItem(item) && NameKey in item.keys
    ensures KeepByName(item.keys, [RecordOf(item)], item.values[NameKey]) == []
  {
    var rec := RecordOf(item);
    assert RecordName(item.keys, rec) == item.values[NameKey];
    assert !Kept(item.keys, rec, item.values[NameKey]);
    assert [rec][..0] == [];
  }

  /** The outcome of a deletion that reaches its write: the result of `writerows` on the rows kept. */
  lemma EliminarWrites(fs: FileSystem, catalog: seq<CatalogItem>, target: string, p: Path)
    requires Selected(catalog, target) == Some(p) && p in fs.files && fs.files[p] != []
    requires ScanRows(fs.files[p][0], fs.files[p][1..], target).Some?
    ensures var header := fs.files[p][0];
            var w := WriteRows(header, ScanRows(header, fs.files[p][1..], target).value);
            var r := Eliminar(fs, catalog, target, false, false);
            r.0 == w.1 && r.1.files[p] == [header] + w.0
  {
  }

  /** A kept row read from a record wider than the header stops `writerows` before the end. */
  lemma LongRowStopsWrite(header: seq<string>, recs: seq<Record>, target: string, k: nat)
    requires ScanRows(header, recs, target).Some?
    requires k < |recs| && |recs[k]| > |header| && Differs(ReadRow(header, recs[k]), target)
    ensures var w := WriteRows(header, ScanRows(header, recs, target).value); !w.1 && |w.0| < |recs|
  {
    var kept := ScanRows(header, recs, target).value;
    ScanKeepsDiffering(header, recs, target, k);
    var j :| 0 <= j < |kept| && kept[j] == ReadRow(header, recs[k]);
    assert WriteRow(header, kept[j]).None?;
  }

  /**
   * A record wider than the header whose name differs from the target makes
   * the deletion fail after the leaf was truncated: the leaf keeps its header
   * but loses records.
   */
  lemma LongRecordLosesRows(fs: FileSystem, catalog: seq<CatalogItem>, target: string, p: Path, i: nat)
    requires Selected(catalog, target) == Some(p) && p in fs.files && fs.files[p] != []
    requires var lines := fs.files[p]; !NameUnreadable(lines[0], lines[1..])
    requires var lines := fs.files[p];
             1 <= i < |lines| && |lines[i]| > |lines[0]| && Differs(ReadRow(lines[0], lines[i]), target)
    ensures var r := Eliminar(fs, catalog, target, false, false);
            !r.0 && r.1.files[p][0] == fs.files[p][0] && |r.1.files[p]| < |fs.files[p]|
  {
    ScanFailsIff(fs.files[p][0], fs.files[p][1..], target);
    LongRecordStopsWrite(fs.files[p], target, i);
    EliminarWrites(fs, catalog, target, p);
  }

  /** When the read of a leaf succeeds, a kept record wider than the header stops its rewrite early. */
  lemma LongRecordStopsWrite(lines: seq<Record>, target: string, i: nat)
    requires lines != [] && ScanRows(lines[0], lines[1..], target).Some?
    requires 1 <= i < |lines| && |lines[i]| > |lines[0]| && Differs(ReadRow(lines[0], lines[i]), target)
    ensures var w := WriteRows(lines[0], ScanRows(lines[0], lines[1..], target).value);
            !w.1 && |w.0| + 1 < |lines|
  {
    var header, recs := lines[0], lines[1..];
    assert recs[i - 1] == lines[i];
    LongRowStopsWrite(header, recs, target, i - 1);
  }

  /**
   * A concrete loss: the leaf `nombre / a,x` has one record wider than its
   * header; deleting "b" keeps that record, `writerows` then raises on it,
   * and the leaf is left holding only its header.
   */
  lemma LossExample()
    ensures var path := LeafPath("c", "t", "p");
            var catalog := [map[NameKey := "b", CategoriaKey := "c", TipoKey := "t", ProcesamientoKey := "p"]];
            var fs := FileSystem(map[path := [["nombre"], ["a", "x"]]], {});
            Eliminar(fs, catalog, "b", false, false) == (false, FileSystem(map[path := [["nombre"]]], {}))
  {
    var path := LeafPath("c", "t", "p");
    var item := map[NameKey := "b", CategoriaKey := "c", TipoKey := "t", ProcesamientoKey := "p"];
    var catalog := [item];
    var lines := [["nombre"], ["a", "x"]];
    var fs := FileSystem(map[path := lines], {});
    var row := ReadRow(["nombre"], ["a", "x"]);
    LossSelected();
    assert ScanRows(lines[0], lines[1..], "b") == Some([row]) by {
      assert lines[1..] == [["a", "x"]];
      LossScan();
    }
    assert WriteRows(["nombre"], [row]) == ([], false);
    var r := Eliminar(fs, catalog, "b", false, false);
    assert !r.0 && r.1.files[path] == [["nombre"]] && r.1.files.Keys == {path} && r.1.dirs == {} by {
      EliminarWrites(fs, catalog, "b", path);
      assert [["nombre"]] + [] == [["nombre"]];
    }
    SingleLeaf(r.1.files, path, [["nombre"]]);
  }

  /** The one-item catalog selects the leaf of its item. */
  lemma LossSelected()
    ensures Selected([map[NameKey := "b", CategoriaKey := "c", TipoKey := "t", ProcesamientoKey := "p"]], "b") ==
              Some(LeafPath("c", "t", "p"))
  {
    assert Matches(map[NameKey := "b", CategoriaKey := "c", TipoKey := "t", ProcesamientoKey := "p"], "b");
  }

  /** The read of the leaf `nombre / a,x` for the name "b" keeps its one record. */
  lemma LossScan()
    ensures ScanRows(["nombre"], [["a", "x"]], "b") == Some([ReadRow(["nombre"], ["a", "x"])])
  {
    var row := ReadRow(["nombre"], ["a", "x"]);
    assert Normalize("a") == "a" by {
      assert SkipLeft("a", 0) == 0;
      assert SkipRight("a", 0, 1) == 1;
    }
    assert Normalize("b") == "b" by {
      assert SkipLeft("b", 0) == 0;
      assert SkipRight("b", 0, 1) == 1;
    }
    assert NameOf(row) == Some("a");
    assert [["a", "x"]][..0] == [];
    assert ScanRows(["nombre"], [], "b") == Some([]);
    assert [] + [row] == [row];
  }

  /** A disk whose only file is `p` is determined by that file's records. */
  lemma SingleLeaf(files: map<Path, seq<Record>>, p: Path, lines: seq<Record>)
    requires files.Keys == {p} && files[p] == lines
    ensures files == map[p := lines]
  {
  }
}
