/**
 * The storage tree under `base_de_datos_alimentos` as mutable state, and the
 * two procedures that change it in place.
 */
module BaseDeDatos {
  import opened CsvDict
  import opened ManejoArchivo
  import opened Utilidades

  class Store {
    /** Every leaf file, with its CSV records. */
    var files: map<Path, seq<Record>>
    /** Every directory. */
    var dirs: set<Path>

    function State(): (fs: FileSystem)
      reads this
    {
      FileSystem(files, dirs)
    }

    ghost predicate Valid()
      reads this
    {
      ValidFs(State())
    }

    /** The disk as found. */
    constructor (files0: map<Path, seq<Record>>, dirs0: set<Path>)
      requires ValidFs(FileSystem(files0, dirs0))
      ensures Valid() && files == files0 && dirs == dirs0
    {
      files, dirs := files0, dirs0;
    }

    /**
     * `alta_nuevo_item`: ensure the leaf's directory, then append the item to
     * the leaf, writing its keys as header first when the leaf is new. Errors
     * are caught; nothing is returned.
     */
    method AltaNuevoItem(categoria: string, tipo: string, procesamiento: string, nuevoItem: Item,
                         dirFault: bool, openFault: bool)
      requires Valid() && WellFormedItem(nuevoItem)
      modifies this
      ensures Valid()
      ensures State() == Alta(old(State()), categoria, tipo, procesamiento, nuevoItem, dirFault, openFault)
    {
      AltaPreservesValid(State(), categoria, tipo, procesamiento, nuevoItem, dirFault, openFault);
      var rutaDirectorio := LeafDir(categoria, tipo, procesamiento);
      if dirFault || !(Prefixes(rutaDirectorio) !! files.Keys) {
        return;
      }
      dirs := dirs + Prefixes(rutaDirectorio);
      var rutaArchivo := rutaDirectorio + [NombreArchivo];
      var escribirEncabezado := !(rutaArchivo in files || rutaArchivo in dirs);
      if openFault || rutaArchivo in dirs {
        return;
      }
      var lines := if rutaArchivo in files then files[rutaArchivo] else [];
      if escribirEncabezado {
        lines := lines + [nuevoItem.keys];
      }
      lines := lines + [RecordOf(nuevoItem)];
      files := files[rutaArchivo := lines];
    }

    /**
     * `eliminar_item_por_nombre`: delete, from the leaf of the first catalog
     * record with the given name, every record with that name.
     */
    method EliminarItemPorNombre(catalog: seq<CatalogItem>, nombre: string, readFault: bool, writeFault: bool)
      returns (ok: bool)
      requires Valid()
      modifies this
      ensures Valid()
      ensures (ok, State()) == Eliminar(old(State()), catalog, nombre, readFault, writeFault)
    {
      if |catalog| == 0 {
        return false;
      }
      var found := FindFirstMatch(catalog, nombre);
      if found.None? || catalog[found.value] == map[] {
        return false;
      }
      var item := catalog[found.value];
      if !HasHierarchy(item) {
        return false;
      }
      var ruta := LeafPath(item[CategoriaKey], item[TipoKey], item[ProcesamientoKey]);
      if readFault || ruta !in files {
        return false;
      }
      var lines := files[ruta];
      if |lines| == 0 {
        return false;
      }
      var encabezados := lines[0];
      var kept := ScanLeaf(encabezados, lines[1..], nombre);
      if kept.None? || writeFault {
        return false;
      }
      var (written, complete) := WriteRows(encabezados, kept.value);
      files := files[ruta := [encabezados] + written];
      ok := complete;
    }
  }
}
