/**
 * The text formats of the engine's files, one line at a time: comics.csv
 * (tipo,codigo,nombre,autor,cantidad,fechaLlegada,precio), usuarios.txt (rut|nombre|email|celular)
 * and reservas.txt (rut|codigo|cantidad), read with String.split and Integer.parseInt as the
 * loaders do and written by concatenation as the savers do; and the choice of the
 * comics_N.csv name for an inventory snapshot. How a LocalDate or a double is printed and
 * parsed is a parameter.
 */
module Persistencia {
  import opened Wrappers
  import opened JavaInt
  import opened JavaString
  import opened Modelos

  /** What one line of a loader yields: a short line is skipped; a parse exception ends the whole load. */
  datatype Lectura<T> = Saltar | Leida(valor: T) | Abortar

  // ---- comics.csv ----

  datatype FilaComic = FilaComic(tipo: string, codigo: string, nombre: string, autor: string,
                                 cantidad: Int32, fechaLlegada: Option<Fecha>, precio: real)

  /** The header line written before the rows, and skipped when reading. */
  function CabeceraCsv(): string {
    "tipo,codigo,nombre,autor,cantidad,fechaLlegada,precio"
  }

  /** One row of cargarComicsDesdeCSV: seven or more comma-separated fields, "null" standing for no date. */
  function LeerFilaComic(linea: string, leerFecha: string -> Option<Fecha>, leerPrecio: string -> Option<real>)
    : (r: Lectura<FilaComic>)
    ensures r.Saltar? <==> |Split(linea, ',')| < 7
    ensures r.Leida? ==> var p := Split(linea, ',');
      r.valor.tipo == p[0] && r.valor.codigo == p[1] && r.valor.nombre == p[2] && r.valor.autor == p[3] &&
      ParseInt(p[4]) == Some(r.valor.cantidad) &&
      (r.valor.fechaLlegada.None? <==> p[5] == "null") && Some(r.valor.precio) == leerPrecio(p[6])
    ensures r.Leida? ==> var p := Split(linea, ',');
      r.valor.fechaLlegada == (if p[5] == "null" then None else leerFecha(p[5]))
    ensures r.Abortar? <==> var p := Split(linea, ',');
      |p| >= 7 && (ParseInt(p[4]).None? || (p[5] != "null" && leerFecha(p[5]).None?) || leerPrecio(p[6]).None?)
  {
    var p := Split(linea, ',');
    if |p| < 7 then Saltar
    else
      var cantidad := ParseInt(p[4]);
      var fecha := if p[5] == "null" then Some(None) else
        (var d := leerFecha(p[5]); if d.Some? then Some(Some(d.value)) else None);
      var precio := leerPrecio(p[6]);
      if cantidad.None? || fecha.None? || precio.None? then Abortar
      else Leida(FilaComic(p[0], p[1], p[2], p[3], cantidad.value, fecha.value, precio.value))
  }

  /** A date field as the inventory snapshot prints it. */
  function TextoFechaCsv(fecha: Option<Fecha>, mostrarFecha: Fecha -> string): string {
    if fecha.Some? then mostrarFecha(fecha.value) else "null"
  }

  /** One row of guardarInventarioActualizado. */
  function LineaComic(tipo: string, codigo: string, nombre: string, autor: string, cantidad: Int32,
                      fecha: string, precio: string): string {
    Join([tipo, codigo, nombre, autor, ToString(cantidad), fecha, precio], ",")
  }

  /** A decimal int rendering never holds a separator other than '-' or a digit. */
  lemma ToStringExcluye(n: Int32, c: char)
    requires c != '-' && !IsDigit(c)
    ensures ToString(n) != "" && Excludes(ToString(n), c)
  {
    if n < 0 {
      var d := Digits(-(n as int));
      assert ToString(n) == "-" + d;
      forall i | 0 <= i < |"-" + d| ensures ("-" + d)[i] != c {
        if i > 0 {
          assert ("-" + d)[i] == d[i - 1];
        }
      }
    }
  }

  /**
   * Reading back a snapshot row gives the row that was written, when no text field holds a
   * comma, the price prints as a non-empty token that parses back, and a date prints as a
   * token other than "null" that parses back.
   */
  lemma LeerLineaComic(f: FilaComic, mostrarFecha: Fecha -> string, leerFecha: string -> Option<Fecha>,
                       mostrarPrecio: real -> string, leerPrecio: string -> Option<real>)
    requires Excludes(f.tipo, ',') && Excludes(f.codigo, ',') && Excludes(f.nombre, ',') && Excludes(f.autor, ',')
    requires f.fechaLlegada.Some? ==> var t := mostrarFecha(f.fechaLlegada.value);
      Excludes(t, ',') && t != "null" && leerFecha(t) == f.fechaLlegada
    requires var t := mostrarPrecio(f.precio); t != "" && Excludes(t, ',') && leerPrecio(t) == Some(f.precio)
    ensures LeerFilaComic(LineaComic(f.tipo, f.codigo, f.nombre, f.autor, f.cantidad,
                                     TextoFechaCsv(f.fechaLlegada, mostrarFecha), mostrarPrecio(f.precio)),
                          leerFecha, leerPrecio) == Leida(f)
  {
    var campos := [f.tipo, f.codigo, f.nombre, f.autor, ToString(f.cantidad),
                   TextoFechaCsv(f.fechaLlegada, mostrarFecha), mostrarPrecio(f.precio)];
    ToStringExcluye(f.cantidad, ',');
    assert "null"[0] != ',' && Excludes("null", ',');
    SplitJoin(campos, ',');
    ParseToString(f.cantidad);
  }

  // ---- usuarios.txt ----

  datatype FilaUsuario = FilaUsuario(rut: string, nombre: string, email: string, celular: string)

  /** One line of cargarUsuariosDesdeTxt: four or more '|'-separated fields; fewer and the line is skipped. */
  function LeerFilaUsuario(linea: string): (r: Option<FilaUsuario>)
    ensures r.Some? <==> |Split(linea, '|')| >= 4
    ensures r.Some? ==> var p := Split(linea, '|');
      r.value == FilaUsuario(p[0], p[1], p[2], p[3])
  {
    var p := Split(linea, '|');
    if |p| >= 4 then Some(FilaUsuario(p[0], p[1], p[2], p[3])) else None
  }

  /** The line guardarUsuarioEnArchivo appends. */
  function LineaUsuario(u: FilaUsuario): string {
    Join([u.rut, u.nombre, u.email, u.celular], "|")
  }

  /** A saved user reads back unchanged when no field holds '|' and the phone is not empty. */
  lemma LeerLineaUsuario(u: FilaUsuario)
    requires Excludes(u.rut, '|') && Excludes(u.nombre, '|') && Excludes(u.email, '|') && Excludes(u.celular, '|')
    requires u.celular != ""
    ensures LeerFilaUsuario(LineaUsuario(u)) == Some(u)
  {
    SplitJoin([u.rut, u.nombre, u.email, u.celular], '|');
  }

  // ---- reservas.txt ----

  datatype FilaReserva = FilaReserva(rut: string, codigo: string, cantidad: Int32)

  /** One line of cargarReservasDesdeTxt: three or more fields, the third an int or the load ends. */
  function LeerFilaReserva(linea: string): (r: Lectura<FilaReserva>)
    ensures r.Saltar? <==> |Split(linea, '|')| < 3
    ensures r.Leida? ==> var p := Split(linea, '|');
      r.valor.rut == p[0] && r.valor.codigo == p[1] && ParseInt(p[2]) == Some(r.valor.cantidad)
    ensures r.Abortar? <==> |Split(linea, '|')| >= 3 && ParseInt(Split(linea, '|')[2]).None?
  {
    var p := Split(linea, '|');
    if |p| < 3 then Saltar
    else
      var n := ParseInt(p[2]);
      if n.None? then Abortar else Leida(FilaReserva(p[0], p[1], n.value))
  }

  /** The line guardarReservaEnArchivo appends. */
  function LineaReserva(r: FilaReserva): string {
    Join([r.rut, r.codigo, ToString(r.cantidad)], "|")
  }

  /** A saved reservation reads back unchanged when the RUT and the code hold no '|'. */
  lemma LeerLineaReserva(r: FilaReserva)
    requires Excludes(r.rut, '|') && Excludes(r.codigo, '|')
    ensures LeerFilaReserva(LineaReserva(r)) == Leida(r)
  {
    ToStringExcluye(r.cantidad, '|');
    SplitJoin([r.rut, r.codigo, ToString(r.cantidad)], '|');
    ParseToString(r.cantidad);
  }

  // ---- the snapshot file name ----

  function NombreSnapshot(sufijo: nat): string {
    "comics_" + Digits(sufijo) + ".csv"
  }

  /** Different suffixes name different files. */
  lemma NombreSnapshotInyectivo(j: nat, k: nat)
    requires NombreSnapshot(j) == NombreSnapshot(k)
    ensures j == k
  {
    var a, b := NombreSnapshot(j), NombreSnapshot(k);
    assert |Digits(j)| == |Digits(k)|;
    assert a[7..|a| - 4] == Digits(j);
    assert b[7..|b| - 4] == Digits(k);
    ValueOfDigits(j);
    ValueOfDigits(k);
  }

  /** Every suffix from 2 up to, not including, hasta names an existing file. */
  predicate Ocupados(existentes: set<string>, hasta: nat) {
    forall j :: 2 <= j < hasta ==> NombreSnapshot(j) in existentes
  }

  /**
   * The do-while of guardarInventarioActualizado: tries comics_2.csv, comics_3.csv, ... and
   * stops at the first name that does not exist yet.
   */
  method ElegirNombreSnapshot(existentes: set<string>) returns (archivo: string)
    ensures archivo !in existentes
    ensures exists k {:trigger NombreSnapshot(k)} :: (k >= 2 && archivo == NombreSnapshot(k) && Ocupados(existentes, k))
  {
    var sufijo: nat := 2;
    archivo := NombreSnapshot(sufijo);
    while archivo in existentes
      invariant sufijo >= 2 && archivo == NombreSnapshot(sufijo) && Ocupados(existentes, sufijo)
      invariant |existentes| >= sufijo - 2
      decreases |existentes| - (sufijo - 2)
    {
      Ocupar(existentes, sufijo);
      sufijo := sufijo + 1;
      archivo := NombreSnapshot(sufijo);
    }
  }

  /** The current name exists too: one more suffix is taken, and the existing names are at least that many. */
  lemma Ocupar(existentes: set<string>, s: nat)
    requires s >= 2 && Ocupados(existentes, s) && NombreSnapshot(s) in existentes
    ensures Ocupados(existentes, s + 1) && |existentes| >= s - 1
  {
    CuentaOcupados(existentes, s + 1);
  }

  /** Distinct suffixes name distinct files, so suffixes 2 .. hasta-1 account for hasta-2 existing names. */
  lemma {:induction false} CuentaOcupados(existentes: set<string>, hasta: nat)
    requires hasta >= 2 && Ocupados(existentes, hasta)
    ensures |existentes| >= hasta - 2
  {
    if hasta > 2 {
      var resto := existentes - {NombreSnapshot(hasta - 1)};
      forall j | 2 <= j < hasta - 1
        ensures NombreSnapshot(j) in resto
      {
        if NombreSnapshot(j) == NombreSnapshot(hasta - 1) {
          NombreSnapshotInyectivo(j, hasta - 1);
        }
      }
      CuentaOcupados(resto, hasta - 1);
    }
  }
}
