/**
 * The view of a CSV record that `csv.DictReader` gives and the record that
 * `csv.DictWriter` writes back. A record is one line of a leaf file as the
 * csv module splits it into fields (quoting is not modelled).
 */
module CsvDict {
  import opened Wrappers

  type Record = seq<string>

  /** The column that names an item. */
  const NameKey: string := "nombre"

  /**
   * A dictionary yielded by `DictReader`: the header's columns, each holding
   * the record's cell or `None` (the reader's restval) when the record is
   * shorter than the header, and under the key `None` (the reader's restkey)
   * the cells beyond the header, non-empty only for a record longer than it.
   */
  datatype Row = Row(fields: map<string, Option<string>>, rest: seq<string>)

  predicate Distinct(s: seq<string>) {
    forall i, j :: 0 <= i < j < |s| ==> s[i] != s[j]
  }

  /** Column `header[i]` gets cell `i`; for a repeated column name the last one wins. */
  function Fields(header: seq<string>, rec: Record): (m: map<string, Option<string>>)
    decreases |header|
  {
    if header == [] then map[]
    else
      var i := |header| - 1;
      Fields(header[..i], rec)[header[i] := if i < |rec| then Some(rec[i]) else None]
  }

  /** The reader's dictionary has exactly the header's columns as keys. */
  lemma {:induction false} FieldsKeys(header: seq<string>, rec: Record)
    ensures Fields(header, rec).Keys == set k | k in header
    decreases |header|
  {
    if header != [] {
      var i := |header| - 1;
      FieldsKeys(header[..i], rec);
      assert header == header[..i] + [header[i]];
    }
  }

  /**
   * `next(DictReader)` on a non-blank record: one entry per column, and the
   * cells beyond the header, which are there exactly when the record is wider
   * than the header.
   */
  function ReadRow(header: seq<string>, rec: Record): (d: Row)
    ensures d.rest == [] <==> |rec| <= |header|
    ensures d.rest != [] ==> |d.rest| == |rec| - |header| && d.rest == rec[|header|..]
  {
    Row(Fields(header, rec), if |header| < |rec| then rec[|header|..] else [])
  }

  /** `fila.get('nombre', '')`: a missing column gives "", so only a column holding `None` gives `None`. */
  function NameOf(d: Row): (r: Option<string>)
    ensures r.None? <==> NameKey in d.fields && d.fields[NameKey].None?
  {
    if NameKey in d.fields then d.fields[NameKey] else Some("")
  }

  /** The csv writer writes `None` as an empty field. */
  function Cell(v: Option<string>): (s: string) {
    match v
    case Some(s) => s
    case None => ""
  }

  /**
   * `DictWriter(fieldnames=header)` converting one dictionary to a record:
   * `None` (a `ValueError`) when the dictionary has keys outside the header,
   * the restkey `None` of a long record included; missing columns are written
   * as the writer's restval "".
   */
  function WriteRow(header: seq<string>, d: Row): (r: Option<Record>)
    ensures r.Some? <==> d.rest == [] && d.fields.Keys <= set k | k in header
    ensures r.Some? ==> |r.value| == |header|
  {
    if d.rest != [] || !(d.fields.Keys <= set k | k in header) then None
    else Some(seq(|header|, i requires 0 <= i < |header| =>
                if header[i] in d.fields then Cell(d.fields[header[i]]) else ""))
  }

  /**
   * `DictWriter.writerows(rows)`: the records written, in order, and whether
   * every row was written; the first row that raises stops the writing, and
   * the rows before it stay written.
   */
  function WriteRows(header: seq<string>, rows: seq<Row>): (r: (seq<Record>, bool))
    ensures |r.0| <= |rows|
    ensures forall i :: 0 <= i < |r.0| ==> WriteRow(header, rows[i]) == Some(r.0[i])
    ensures r.1 ==> |r.0| == |rows|
    ensures !r.1 ==> |r.0| < |rows| && WriteRow(header, rows[|r.0|]).None?
    decreases |rows|
  {
    if rows == [] then ([], true)
    else
      var (written, complete) := WriteRows(header, rows[..|rows| - 1]);
      if !complete then (written, false)
      else match WriteRow(header, rows[|rows| - 1])
        case None => (written, false)
        case Some(rec) => (written + [rec], true)
  }

  /** `rec` padded with empty cells up to `n` fields. */
  function Pad(rec: Record, n: nat): (r: Record)
    requires |rec| <= n
    ensures |r| == n && r[..|rec|] == rec
    ensures forall j :: |rec| <= j < n ==> r[j] == ""
  {
    rec + seq(n - |rec|, _ => "")
  }

  lemma {:induction false} FieldsAt(header: seq<string>, rec: Record, i: nat)
    requires Distinct(header) && i < |header|
    ensures header[i] in Fields(header, rec)
    ensures Fields(header, rec)[header[i]] == if i < |rec| then Some(rec[i]) else None
    decreases |header|
  {
    var last := |header| - 1;
    if i < last {
      assert header[..last][i] == header[i];
      FieldsAt(header[..last], rec, i);
    }
  }

  /**
   * Reading a record and writing the dictionary back: a record longer than
   * the header cannot be written; any other comes back padded to the
   * header's width, so a record as wide as the header comes back unchanged.
   */
  lemma RowRoundTrip(header: seq<string>, rec: Record)
    requires Distinct(header)
    ensures |rec| > |header| ==> WriteRow(header, ReadRow(header, rec)) == None
    ensures |rec| <= |header| ==> WriteRow(header, ReadRow(header, rec)) == Some(Pad(rec, |header|))
    ensures |rec| == |header| ==> WriteRow(header, ReadRow(header, rec)) == Some(rec)
  {
    FieldsKeys(header, rec);
    if |rec| <= |header| {
      var w := WriteRow(header, ReadRow(header, rec));
      forall i | 0 <= i < |header| ensures w.value[i] == Pad(rec, |header|)[i] {
        FieldsAt(header, rec, i);
      }
      assert w.value == Pad(rec, |header|);
      assert |rec| == |header| ==> Pad(rec, |header|) == rec;
    }
  }

  /** The index of the first column with the given name. */
  function IndexOf(header: seq<string>, key: string): (i: nat)
    requires key in header
    ensures i < |header| && header[i] == key
    ensures forall j :: 0 <= j < i ==> header[j] != key
  {
    if header[0] == key then 0 else 1 + IndexOf(header[1..], key)
  }

  /** The record has a cell in the name column, or the header has no name column. */
  predicate Reaches(header: seq<string>, rec: Record) {
    NameKey !in header || IndexOf(header, NameKey) < |rec|
  }

  /**
   * The name cell of a record, read by position: the cell under the first
   * `nombre` column, or "" when the header has no such column.
   */
  function RecordName(header: seq<string>, rec: Record): (name: string)
    requires Reaches(header, rec)
    ensures NameKey !in header ==> name == ""
    ensures NameKey in header ==>
      exists k :: 0 <= k < |header| && k < |rec| && header[k] == NameKey && name == rec[k] &&
        forall j :: 0 <= j < k ==> header[j] != NameKey
    ensures NameKey in header ==> name == rec[IndexOf(header, NameKey)]
  {
    if NameKey in header then rec[IndexOf(header, NameKey)] else ""
  }

  /**
   * Under a header without repeated columns, the reader finds the name by
   * position, and gives `None` exactly for a record too short to reach the
   * name column.
   */
  lemma NameOfRecord(header: seq<string>, rec: Record)
    requires Distinct(header)
    ensures NameOf(ReadRow(header, rec)) == if Reaches(header, rec) then Some(RecordName(header, rec)) else None
  {
    FieldsKeys(header, rec);
    if NameKey in header {
      FieldsAt(header, rec, IndexOf(header, NameKey));
    }
  }

  /** Padding a record keeps its name cell. */
  lemma PadKeepsName(header: seq<string>, rec: Record)
    requires |rec| <= |header| && Reaches(header, rec)
    ensures Reaches(header, Pad(rec, |header|)) && RecordName(header, Pad(rec, |header|)) == RecordName(header, rec)
  {
    if NameKey in header {
      var k := IndexOf(header, NameKey);
      assert Pad(rec, |header|)[k] == rec[k];
    }
  }
}
