/**
 * The storage tree and the procedure that adds an item to it
 * (`alta_nuevo_item`). The disk is a value: the leaf files, each the list of
 * its CSV records, and the set of directories, both keyed by path
 * components.
 */
module ManejoArchivo {
  import opened Wrappers
  import opened CsvDict

  /** The root of the storage tree. */
  const RutaBaseDatos: string := "base_de_datos_alimentos"
  /** The name of every leaf file. */
  const NombreArchivo: string := "items.csv"

  /** A path as the list of its components, as `os.path.join` receives them. */
  type Path = seq<string>

  datatype FileSystem = FileSystem(files: map<Path, seq<Record>>, dirs: set<Path>)

  /** `os.path.join(RUTA_BASE_DATOS, categoria, tipo, procesamiento)` */
  function LeafDir(categoria: string, tipo: string, procesamiento: string): (d: Path) {
    [RutaBaseDatos, categoria, tipo, procesamiento]
  }

  /** `<root>/<categoria>/<tipo>/<procesamiento>/items.csv`: the file `items.csv` in the leaf's directory. */
  function LeafPath(categoria: string, tipo: string, procesamiento: string): (p: Path)
    ensures |p| == 5 && p[0] == RutaBaseDatos && p[4] == NombreArchivo
    ensures p[..4] == LeafDir(categoria, tipo, procesamiento)
  {
    LeafDir(categoria, tipo, procesamiento) + [NombreArchivo]
  }

  /** Distinct hierarchy triples name distinct leaf files. */
  lemma LeafPathInjective(c: string, t: string, p: string, c': string, t': string, p': string)
    requires LeafPath(c, t, p) == LeafPath(c', t', p')
    ensures c == c' && t == t' && p == p'
  {
    assert LeafPath(c, t, p)[1..4] == [c, t, p];
    assert LeafPath(c', t', p')[1..4] == [c', t', p'];
  }

  /** The path and every directory above it. */
  function Prefixes(p: Path): (ps: set<Path>) {
    set i | 1 <= i <= |p| :: p[..i]
  }

  /** A path below `p` is not one of `p`'s prefixes. */
  lemma ChildNotPrefix(p: Path, name: string)
    ensures p + [name] !in Prefixes(p)
  {
    forall q | q in Prefixes(p) ensures |q| <= |p| {}
  }

  /**
   * A disk as a file system keeps it: no path is both a file and a directory,
   * every directory's parents are directories and every file lies in one.
   */
  predicate ValidFs(fs: FileSystem) {
    && fs.files.Keys !! fs.dirs
    && (forall d :: d in fs.dirs ==> UnderDirs(d, fs.dirs))
    && (forall f :: f in fs.files ==> UnderDirs(f, fs.dirs))
  }

  /** Every directory above `p` is in `dirs`. */
  predicate UnderDirs(p: Path, dirs: set<Path>) {
    forall i :: 1 <= i < |p| ==> p[..i] in dirs
  }

  /**
   * `os.makedirs(dir, exist_ok=True)`: creates every missing directory on the
   * way; fails only when a file stands where a directory is needed, never
   * because the directories already exist.
   */
  function MakeDirs(fs: FileSystem, dir: Path): (r: Option<set<Path>>)
    // it fails exactly when a file stands where one of the directories must be
    ensures r.None? <==> exists i :: 1 <= i <= |dir| && dir[..i] in fs.files
    // on success the directory and all its parents exist, and nothing else is created
    ensures r.Some? ==> fs.dirs <= r.value && forall i :: 1 <= i <= |dir| ==> dir[..i] in r.value
    ensures r.Some? ==> forall q :: q in r.value && q !in fs.dirs ==> 1 <= |q| <= |dir| && q == dir[..|q|]
    // an existing directory is no error and changes nothing (`exist_ok=True`)
    ensures ValidFs(fs) && dir in fs.dirs ==> r == Some(fs.dirs)
  {
    ExistingDirPrefixes(fs, dir);
    if Prefixes(dir) !! fs.files.Keys then Some(fs.dirs + Prefixes(dir)) else None
  }

  /** In a valid file system, an existing directory's prefixes are all directories, so none is a file. */
  lemma ExistingDirPrefixes(fs: FileSystem, dir: Path)
    ensures ValidFs(fs) && dir in fs.dirs ==>
              Prefixes(dir) !! fs.files.Keys && fs.dirs + Prefixes(dir) == fs.dirs
  {
    if ValidFs(fs) && dir in fs.dirs {
      forall q | q in Prefixes(dir) ensures q in fs.dirs {
        var k :| 1 <= k <= |dir| && q == dir[..k];
        if k == |dir| { assert q == dir; }
      }
      assert fs.dirs + Prefixes(dir) == fs.dirs;
    }
  }

  /** Ensuring a directory twice is the same as ensuring it once. */
  lemma MakeDirsIdempotent(fs: FileSystem, dir: Path)
    requires MakeDirs(fs, dir).Some?
    ensures MakeDirs(fs.(dirs := MakeDirs(fs, dir).value), dir) == MakeDirs(fs, dir)
  {
  }

  /** A Python dictionary: its keys in insertion order and the text of each value. */
  datatype Item = Item(keys: seq<string>, values: map<string, string>)

  predicate WellFormedItem(item: Item) {
    Distinct(item.keys) && (set k | k in item.keys) == item.values.Keys
  }

  function ItemRow(item: Item): (d: Row) {
    Row(map k | k in item.values :: Some(item.values[k]), [])
  }

  /** `DictWriter(fieldnames=item.keys()).writerow(item)`: the values, in key order. */
  function RecordOf(item: Item): (r: Record)
    requires WellFormedItem(item)
    ensures |r| == |item.keys|
    ensures forall i :: 0 <= i < |item.keys| ==> r[i] == item.values[item.keys[i]]
  {
    WriteRow(item.keys, ItemRow(item)).value
  }

  /** Whether `alta_nuevo_item` reaches its write: no fault, the directories could be made, the leaf is not a directory. */
  predicate AltaWrites(fs: FileSystem, categoria: string, tipo: string, procesamiento: string,
                       dirFault: bool, openFault: bool)
  {
    && !dirFault && !openFault
    && Prefixes(LeafDir(categoria, tipo, procesamiento)) !! fs.files.Keys
    && LeafPath(categoria, tipo, procesamiento) !in fs.dirs
  }

  /**
   * The disk after `alta_nuevo_item(categoria, tipo, procesamiento, item)`.
   * `dirFault` and `openFault` stand for an `OSError` raised by
   * `os.makedirs` and by `open(..., 'a')`; both are caught and reported.
   */
  function Alta(fs: FileSystem, categoria: string, tipo: string, procesamiento: string,
                item: Item, dirFault: bool, openFault: bool): (r: FileSystem)
    requires WellFormedItem(item)
    // no other leaf is touched, and no leaf loses a record
    ensures r.files.Keys == fs.files.Keys + (if AltaWrites(fs, categoria, tipo, procesamiento, dirFault, openFault)
                                             then {LeafPath(categoria, tipo, procesamiento)} else {})
    ensures forall p :: p in fs.files && p != LeafPath(categoria, tipo, procesamiento) ==> r.files[p] == fs.files[p]
    // directories are only ever added, and only those on the way to the leaf
    ensures fs.dirs <= r.dirs <= fs.dirs + Prefixes(LeafDir(categoria, tipo, procesamiento))
    // once `makedirs` has succeeded the directories stay, even when `open` then fails
    ensures !dirFault && Prefixes(LeafDir(categoria, tipo, procesamiento)) !! fs.files.Keys ==>
              r.dirs == fs.dirs + Prefixes(LeafDir(categoria, tipo, procesamiento))
    // a failing `makedirs` leaves the disk as it was
    ensures dirFault || !(Prefixes(LeafDir(categoria, tipo, procesamiento)) !! fs.files.Keys) ==> r == fs
    // a failure writes nothing
    ensures !AltaWrites(fs, categoria, tipo, procesamiento, dirFault, openFault) ==> r.files == fs.files
    // a new leaf gets the item's keys as header, then the item; an existing one gets the item appended
    ensures AltaWrites(fs, categoria, tipo, procesamiento, dirFault, openFault) ==>
              var path := LeafPath(categoria, tipo, procesamiento);
              r.files[path] == (if path in fs.files then fs.files[path] else [item.keys]) + [RecordOf(item)]
  {
    var dir := LeafDir(categoria, tipo, procesamiento);
    match (if dirFault then None else MakeDirs(fs, dir))
    case None => fs
    case Some(dirs) =>
      var path := dir + [NombreArchivo];
      ChildNotPrefix(dir, NombreArchivo);
      var writeHeader := !(path in fs.files || path in dirs);
      if openFault || path in dirs then fs.(dirs := dirs)
      else
        var before := if path in fs.files then fs.files[path] else [];
        var header := if writeHeader then [item.keys] else [];
        FileSystem(fs.files[path := before + header + [RecordOf(item)]], dirs)
  }

  /** Adding an item keeps the disk a valid file system. */
  lemma AltaPreservesValid(fs: FileSystem, categoria: string, tipo: string, procesamiento: string,
                           item: Item, dirFault: bool, openFault: bool)
    requires ValidFs(fs) && WellFormedItem(item)
    ensures ValidFs(Alta(fs, categoria, tipo, procesamiento, item, dirFault, openFault))
  {
    var dir := LeafDir(categoria, tipo, procesamiento);
    var path := LeafPath(categoria, tipo, procesamiento);
    var r := Alta(fs, categoria, tipo, procesamiento, item, dirFault, openFault);
    if r != fs {
      var dirs := fs.dirs + Prefixes(dir);
      assert r.dirs == dirs;
      assert forall d :: d in dirs ==> UnderDirs(d, dirs) by {
        forall d | d in dirs ensures UnderDirs(d, dirs) {
          if d !in fs.dirs {
            var k :| 1 <= k <= |dir| && d == dir[..k];
            forall i | 1 <= i < |d| ensures d[..i] in dirs {
              assert d[..i] == dir[..i];
            }
          }
        }
      }
      assert forall f :: f in r.files ==> UnderDirs(f, dirs) by {
        forall f | f in r.files ensures UnderDirs(f, dirs) {
          if f == path {
            forall i | 1 <= i < |f| ensures f[..i] in dirs {
              assert f[..i] == dir[..i];
            }
          }
        }
      }
      assert r.files.Keys !! dirs by {
        forall q | q in Prefixes(dir) ensures q !in r.files {
          var k :| 1 <= k <= |dir| && q == dir[..k];
          assert |q| < |path|;
        }
      }
    }
  }

  /**
   * Two additions to a leaf that did not exist: the header is written once,
   * by the first, and the two records follow it in order.
   */
  lemma AltaTwiceWritesHeaderOnce(fs: FileSystem, categoria: string, tipo: string, procesamiento: string,
                                  first: Item, second: Item)
    requires WellFormedItem(first) && WellFormedItem(second)
    requires AltaWrites(fs, categoria, tipo, procesamiento, false, false)
    requires LeafPath(categoria, tipo, procesamiento) !in fs.files
    ensures var fs1 := Alta(fs, categoria, tipo, procesamiento, first, false, false);
            var fs2 := Alta(fs1, categoria, tipo, procesamiento, second, false, false);
            fs2.files[LeafPath(categoria, tipo, procesamiento)] == [first.keys, RecordOf(first), RecordOf(second)]
  {
    var dir := LeafDir(categoria, tipo, procesamiento);
    var path := LeafPath(categoria, tipo, procesamiento);
    var fs1 := Alta(fs, categoria, tipo, procesamiento, first, false, false);
    assert fs1.files[path] == [first.keys, RecordOf(first)] && AltaWrites(fs1, categoria, tipo, procesamiento, false, false) by {
      forall q | q in Prefixes(dir) ensures q !in fs1.files {
        assert |q| <= |dir| < |path|;
      }
      ChildNotPrefix(dir, NombreArchivo);
    }
  }

}
