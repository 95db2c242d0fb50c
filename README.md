# Food catalog storage: adding and deleting items

A small console catalog of foods keeps its data as CSV files in a directory
tree. Each file is `base_de_datos_alimentos/<categoria>/<tipo>/<procesamiento>/items.csv`.
This project models, and proves properties of, the two procedures that change
that tree:

- `alta_nuevo_item` (Manejo_archivo.py) makes the leaf's directories with
  `os.makedirs(..., exist_ok=True)`. It then appends the item to the leaf file,
  and writes the item's keys as a header row first only if the file did not
  exist.
- `eliminar_item_por_nombre` (Utilidades.py) takes the first catalog record
  whose name equals the target after `strip().lower()`. It rebuilds that
  record's leaf path from its `categoria`, `tipo` and `procesamiento`. It
  re-reads the leaf with `csv.DictReader`, keeps every row whose name differs,
  and rewrites the leaf with `csv.DictWriter` under the header it read.

The disk is a value, `ManejoArchivo.FileSystem`:

- the leaf files, each the list of its CSV records (a record is the list of
  fields the csv module splits a line into);
- the set of directories.

Both are keyed by path components. `Alta` and `Eliminar` are pure functions
from one disk to the next, and carry the properties as postconditions.
`BaseDeDatos.Store` is the mutable state: a class with `files` and `dirs`
fields. Its methods `AltaNuevoItem` and `EliminarItemPorNombre` follow the
procedures step by step, with the search and read loops as `while` loops, and
are proved equal to those functions.

## How the parts fit

- **Names** (module `Text`): `s.strip().lower()`, with the whitespace of
  `str.isspace()` and the letters of `str.lower()` restricted to ASCII.
- **Rows** (module `CsvDict`): `csv.DictReader` and `csv.DictWriter` are
  modelled at the level the code depends on:
  - a record shorter than the header gets `None` (the reader's restval) in the
    missing columns;
  - the cells of a record longer than the header go under the key `None` (the
    reader's restkey);
  - blank records are skipped;
  - `DictWriter` raises `ValueError` for a dictionary with keys outside its
    fieldnames, and writes `None` as an empty field.
- **Faults**: the operating-system failures the code catches are boolean
  parameters. `dirFault` is `os.makedirs` raising; `openFault` is
  `open(..., 'a')` raising; `readFault` and `writeFault` are `open(..., 'r')`
  and `open(..., 'w')` raising.
- **The catalog**: the output of `crear_lista_desde_csv` is an input sequence
  of string dictionaries. "First match" is relative to its order.

### Deletion: what the code does

The model follows the code. Where the code does something a reader of the
catalog's description would not expect, the model does the same:

- **No disambiguation.** One might expect the procedure to ask which of
  several same-named items to delete, or to delete a row by both its name
  and its calorie value. The code takes the first catalog record with the
  name and uses it only to locate the leaf. It then removes every row of
  that leaf with the name, whatever its calories. Same-named rows in other
  leaves stay.
- **A failed delete can lose rows.** One might expect a failure to leave the
  file as it was. In the code, rows are turned into records while the file
  is being rewritten. A row read from a record wider than the header carries
  the restkey `None`, so `writerows` raises `ValueError` on it. By then the
  file has been truncated and the header and the earlier rows written. The
  procedure returns `False` and the leaf keeps only `[header] + <rows before
  it>`. `Utilidades.Eliminar` promises that without such a record a failure
  leaves the disk unchanged. `Utilidades.LongRecordLosesRows` shows the
  converse: a kept record wider than the header always makes the deletion
  fail with the leaf shortened. `Utilidades.LossExample` is a concrete case:
  the leaf `nombre / a,x`, deleting "b", ends as the leaf `nombre` alone.
- **Short records.** A record too short to reach the `nombre` column makes
  `fila.get('nombre', '')` return `None`. `None.strip()` then raises
  `AttributeError` during the read. That is caught: `False`, and nothing has
  been written.
- **Empty-dictionary edge case.** An empty catalog dictionary matches a
  whitespace-only target. The code then reports "not found"
  (`if not item_a_eliminar`) and ignores any later match.
- **Success does not mean a row was deleted.** The catalog is an input, and
  the leaf it points to may no longer hold a record with the name. The rewrite
  then keeps every row and still returns `True`.
- **The rewrite normalises the leaf.** Blank records are dropped, and records
  shorter than the header come back padded with empty fields.

## Model

| member | source | states |
|---|---|---|
| Text.SkipLeftSpec | Utilidades.py:25 | the position `strip()` starts at: everything before it from `i` on is whitespace, and it is the end or a non-whitespace character |
| Text.SkipRightSpec | Utilidades.py:25 | the position `strip()` ends at: everything after it up to `j` is whitespace, and it is the lower bound or follows a non-whitespace character |
| Text.SkipLeft | Utilidades.py:25 | the leading-whitespace scan of `strip()` stays within the string |
| Text.SkipRight | Utilidades.py:25 | the trailing-whitespace scan of `strip()` stays between the start it is given and the end |
| Text.StripSpec | Utilidades.py:25 | `Strip`, the model of `strip()`, gives a string no longer than its input, empty exactly when the input is all whitespace, and otherwise beginning and ending with a non-whitespace character |
| Text.Lower | Utilidades.py:25 | `lower()` keeps the length of the string |
| Text.NormalizeSpec | Utilidades.py:25 | `Normalize`, the form names are compared in (`strip().lower()`), is no longer than the name, has no surrounding whitespace and no ASCII upper-case letter, and is empty exactly for an all-whitespace name |
| Text.StripLower | Utilidades.py:25 | stripping and lower-casing commute, so the order of `.strip().lower()` does not matter |
| Text.NormalizeIgnoresCase | Utilidades.py:24-25 | two names that differ only in the case of ASCII letters compare equal |
| Text.StripIgnoresPadding | Utilidades.py:24-25 | whitespace added around a name does not change what it strips to |
| Text.NormalizeIgnoresPadding | Utilidades.py:24-25 | a name with added surrounding whitespace and different letter case still matches the target under `Matches` |
| CsvDict.FieldsKeys | Utilidades.py:53-55 | `Fields`, the dictionary `DictReader` yields for a record, has exactly the header's columns as keys |
| CsvDict.FieldsAt | Utilidades.py:53-55 | under a header without repeated columns, each column of `Fields` holds the record's cell at its position, or the restval `None` when the record is shorter |
| CsvDict.ReadRow | Utilidades.py:53-55 | a row read from a record has cells under the restkey exactly when the record is wider than the header, and then exactly the cells beyond it |
| CsvDict.NameOf | Utilidades.py:57 | `fila.get('nombre', '')` gives `None` exactly when the row has a `nombre` column holding the restval `None` |
| CsvDict.WriteRow | Utilidades.py:62-64 | `DictWriter` writes a dictionary exactly when it has no key outside the header and no restkey cells, and then writes a record as wide as the header |
| CsvDict.WriteRows | Utilidades.py:64 | `writerows` writes the rows in order, stops at the first that raises, and leaves the ones before it written |
| CsvDict.Pad | Utilidades.py:62-64 | a padded record has exactly the requested width, begins with the record and has only empty fields after it |
| CsvDict.RowRoundTrip | Utilidades.py:53-64 | reading a record and writing it back under a header with no repeated columns: a wider record raises, a narrower one comes back padded with empty fields, one as wide as the header comes back unchanged |
| CsvDict.IndexOf | Utilidades.py:57 | the position found is the first that holds the column asked for |
| CsvDict.RecordName | Utilidades.py:57 | the name of a record read by position is its cell under the first `nombre` column, and "" when the header has none |
| CsvDict.NameOfRecord | Utilidades.py:57 | under a header with no repeated columns, `fila.get('nombre', '')` is the record's `nombre` cell, "" when the header has no such column, and `None` exactly when the record is too short to reach it |
| CsvDict.PadKeepsName | Utilidades.py:62-64 | padding a record with empty fields keeps its `nombre` cell |
| ManejoArchivo.LeafPath | Manejo_archivo.py:24-34 | the leaf file is `items.csv` inside `LeafDir`, the directory `RUTA_BASE_DATOS/categoria/tipo/procesamiento` |
| ManejoArchivo.LeafPathInjective | Manejo_archivo.py:24-34 | distinct hierarchy triples name distinct leaf files |
| ManejoArchivo.MakeDirs | Manejo_archivo.py:30 | `os.makedirs(..., exist_ok=True)` fails exactly when a file stands where one of the directories must be; on success the directory and all its parents exist and nothing else is created; in a valid file system an existing directory is no error and changes nothing |
| ManejoArchivo.ExistingDirPrefixes | Manejo_archivo.py:30 | in a valid file system, no file stands on the way to an existing directory, and all of its parents already exist |
| ManejoArchivo.MakeDirsIdempotent | Manejo_archivo.py:30 | ensuring the directories twice is the same as ensuring them once |
| ManejoArchivo.ChildNotPrefix | Manejo_archivo.py:30-38 | the leaf file is never one of the directories `makedirs` creates on the way to it |
| ManejoArchivo.RecordOf | Manejo_archivo.py:44-50 | the record written for the item holds its values in the order of its keys |
| ManejoArchivo.Alta | Manejo_archivo.py:6-58 | no leaf other than the triple's changes and none loses a record; directories are only added, and only those on the way to the leaf; once `makedirs` succeeds its directories stay even when `open` then fails; a failing `makedirs` leaves the disk unchanged; any failure writes no file; on success a new leaf holds the header (the item's keys, in order) and the item, and an existing leaf gets only the item appended |
| ManejoArchivo.AltaPreservesValid | Manejo_archivo.py:24-50 | after an addition, every file still lies in a directory whose parents all exist, and no path is both a file and a directory |
| ManejoArchivo.AltaTwiceWritesHeaderOnce | Manejo_archivo.py:38-50 | two additions to a new leaf write the header once, followed by both items in order |
| Utilidades.NamelessMatches | Utilidades.py:24-25 | under `Matches`, a catalog record with no `nombre` key (so `get` gives "") matches exactly the all-whitespace targets |
| Utilidades.FirstMatch | Utilidades.py:22-27 | the selected position holds a record with the target name and no earlier record has it; no result means no record has it |
| Utilidades.FindFirstMatch | Utilidades.py:22-27 | the search loop with `break` returns that first matching position |
| Utilidades.Selected | Utilidades.py:17-46 | an empty catalog or no match selects no leaf; otherwise the first match's leaf is `RUTA_BASE_DATOS/categoria/tipo/procesamiento/items.csv` from its own keys, and there is none when a key is missing |
| Utilidades.ScanRows | Utilidades.py:52-58 | the rows kept by a successful read are no more than the records, and each has a readable name that differs from the target after normalisation; rows from records no wider than the header carry no restkey cells |
| Utilidades.ScanColumns | Utilidades.py:53-58 | every row the read keeps has exactly the header's columns |
| Utilidades.ScanFailureSticks | Utilidades.py:55-58 | once the read has failed on some records it fails on any longer leaf that starts with them |
| Utilidades.ScanFailsIff | Utilidades.py:55-58 | the read fails with `AttributeError` exactly when some non-blank record's name reads as `None` |
| Utilidades.ScanKeepsDiffering | Utilidades.py:55-58 | every non-blank record whose name is readable and differs from the target is among the rows kept |
| Utilidades.ScanLeaf | Utilidades.py:55-58 | the read loop, returning early on `AttributeError`, yields exactly those kept rows or the failure |
| Utilidades.ScannedRowsWrite | Utilidades.py:55-64 | rows read from a leaf with no record wider than its header can all be written back |
| Utilidades.Eliminar | Utilidades.py:3-74 | false with the disk unchanged for: an empty catalog, no match, an empty or incomplete matching record, a read fault, a missing leaf (`FileNotFoundError`), an empty leaf (no header, so `writeheader()` raises), a record too short to reach `nombre` (`AttributeError` while reading), and a write fault; true only without a fault and with a selected leaf; no file or directory appears or disappears; every leaf other than the selected one, same-named rows included, is unchanged; a rewritten leaf keeps its header, does not grow and holds records as wide as the header; without a record wider than the header, a failure changes nothing |
| Utilidades.EliminarWrites | Utilidades.py:61-67 | a deletion that reaches its write returns what `writerows` reports and leaves the leaf as the header followed by the records written |
| Utilidades.KeepByName | Utilidades.py:55-58 | each record kept is a non-blank record of the leaf, no wider than the header, whose name is readable and differs from the target |
| Utilidades.KeepByNameComplete | Utilidades.py:55-58 | every such record of the leaf is kept |
| Utilidades.Dropped | Utilidades.py:55-58 | each record a deletion drops is a record of the leaf that is blank or has the target name |
| Utilidades.KeepDroppedPartition | Utilidades.py:55-58 | the records kept and the records dropped together are exactly the leaf's records, as multisets |
| Utilidades.PadAll | Utilidades.py:62-64 | the records as written back: as many as given, each as wide as the header, beginning with the original record and with only empty fields after it |
| Utilidades.ScanWellFormed | Utilidades.py:52-58 | under a header with no repeated columns and records that fit it, the read succeeds and keeps exactly the rows of the records a deletion keeps |
| Utilidades.WriteReadRows | Utilidades.py:53-64 | rows read from records no wider than the header are all written back, each padded with empty fields to the header's width |
| Utilidades.EliminarWellFormedLeaf | Utilidades.py:48-67 | on a leaf whose header has no repeated column and whose records are blank, or no wider than the header and long enough to reach `nombre`, a deletion with no fault returns true and the leaf becomes its header followed by exactly the records whose name differs from the target, in their original order, each padded with empty fields to the header's width |
| Utilidades.KeepByNameKeepsKept | Utilidades.py:55-58 | a leaf whose records would all be kept keeps them all, in order |
| Utilidades.PadAllFull | Utilidades.py:62-64 | records already as wide as the header are written back unchanged |
| Utilidades.KeptLeafWellFormed | Utilidades.py:60-64 | the leaf a deletion writes back is well-formed again: same header, every record exactly as wide as it, and each one a deletion of the same name keeps |
| Utilidades.EliminarIdempotent | Utilidades.py:48-67 | repeating a deletion on a well-formed leaf succeeds and changes nothing |
| Utilidades.EliminarRemovesOne | Utilidades.py:55-67 | when exactly one record of a well-formed leaf is blank or has the target name, a successful deletion shortens the leaf by exactly one record |
| Utilidades.KeepOwnName | Utilidades.py:55-58 | the record written for an item is dropped by a deletion of the item's own name |
| Utilidades.AltaThenEliminar | Utilidades.py:3-67 | adding an item to a new leaf and then deleting its name through a catalog pointing at that leaf returns true and leaves the leaf with only the header; every other leaf is as before |
| Utilidades.LongRowStopsWrite | Utilidades.py:55-64 | a kept row read from a record wider than the header makes `writerows` stop before the last kept row |
| Utilidades.LongRecordStopsWrite | Utilidades.py:55-64 | when the read succeeds, a record wider than the header whose name differs from the target makes the rewrite write fewer records than the leaf had |
| Utilidades.LongRecordLosesRows | Utilidades.py:48-71 | in a leaf whose names can all be read, a record wider than the header whose name differs from the target makes the deletion return false, with the leaf keeping its header but losing records |
| Utilidades.LossExample | Utilidades.py:48-74 | the leaf `nombre / a,x` and the target "b": the deletion returns false and leaves the leaf holding only its header |
| BaseDeDatos.Store.constructor | Manejo_archivo.py:4 | the store starts as the disk found under the root, which must be a valid file system |
| BaseDeDatos.Store.AltaNuevoItem | Manejo_archivo.py:6-58 | the procedure, step by step, ends in the state `Alta` gives and keeps the file system valid; errors are absorbed and nothing is returned |
| BaseDeDatos.Store.EliminarItemPorNombre | Utilidades.py:3-74 | the procedure, step by step, returns the result and ends in the state `Eliminar` gives, and keeps the file system valid |

## Left out

- `crear_lista_desde_csv` is not part of this model. Its body is not among the
  files. The catalog it builds is an input, not derived from the disk, so a
  stale catalog is possible.
- `modificar_item_por_nombre` is not part of this model. Its body is not among
  the files.
- The menu loop of Integrador_recursividad.py and the prompts and `float()`
  parsing of Sub_Menus.py are not modelled. They are console input. A value
  such as the calorie number is modelled as the text the csv writer would
  write for it.
- All `print` output is left out.
- The real filesystem is not modelled. A path is a list of components, and
  `os.path.join` is treated as keeping them apart. Its string behaviour is not
  modelled: an empty label is absorbed, and a label containing `/` or
  starting with one splits or resets the path, so two triples could name one
  file. Likewise, `os.makedirs` failing after creating only some of the
  directories is not modelled.
- I/O failures are limited to the four calls that open or create something.
  A failure in the middle of a write (for example disk full) is not modelled.
- CSV quoting, encoding and line endings are not modelled. A file is the list
  of records the csv module would read from it.
- CsvDict.RowRoundTrip: stated only for a header without repeated column
  names. The procedures handle repeated names (the last column wins), but
  the lemmas about rewritten rows do not cover them.
- Utilidades.EliminarWellFormedLeaf: the exact resulting leaf is stated only
  for a header without repeated column names and records that are blank or
  reach the `nombre` column without being wider than the header. Other
  leaves are covered by the general postconditions of `Utilidades.Eliminar`
  and by `Utilidades.LongRecordLosesRows`.
- Text.Lower: only ASCII letters are lower-cased. Python's `str.lower()`
  covers all of Unicode.
- Text.IsSpace: only ASCII whitespace is recognised. Python's `str.strip()`
  also strips non-ASCII whitespace such as U+00A0.
- Utilidades.Eliminar: the catalog's values are plain strings. A `None` value
  (possible if the aggregator read a short row) would make the search itself
  raise an uncaught exception; that case is not modelled.
- Concurrent access to a leaf is not modelled; the procedures run one at a
  time.
