/**
 * The engine's data files as a whole: what the three start-up loaders read out of
 * comics.csv, usuarios.txt and reservas.txt, the code counter the comics loader seeds, the
 * inventory index it builds, and the rows an inventory snapshot writes.
 */
module Carga {
  import opened Wrappers
  import opened JavaInt
  import opened Modelos
  import opened Persistencia

  /** Every key that parses as an int is at most u. */
  predicate Acotados(claves: set<string>, u: int) {
    forall k :: k in claves && ParseInt(k).Some? ==> ParseInt(k).value <= u
  }

  /** The date an item adds to the set of arrival dates: none for an item already in the store. */
  function FechaDe(fecha: Option<Fecha>): set<Fecha> {
    if fecha.Some? then {fecha.value} else {}
  }

  /** One more row read: the prefix grows by that row. */
  lemma Prefijo<T>(s: seq<T>, k: nat)
    requires k < |s|
    ensures s[..k + 1] == s[..k] + [s[k]]
  {
  }

  // ---- comics.csv ----

  /** The lines after the header, which the loader reads and throws away. */
  function Cuerpo(lineas: seq<string>): seq<string> {
    if lineas == [] then [] else lineas[1..]
  }

  /** The rows of cargarComicsDesdeCSV: short lines are skipped, and the first line that fails to parse ends the load. */
  function FilasComic(lineas: seq<string>, leerFecha: string -> Option<Fecha>, leerPrecio: string -> Option<real>)
    : (filas: seq<FilaComic>)
    ensures |filas| <= |lineas|
  {
    if lineas == [] then []
    else
      match LeerFilaComic(lineas[0], leerFecha, leerPrecio)
      case Saltar => FilasComic(lineas[1..], leerFecha, leerPrecio)
      case Abortar => []
      case Leida(f) => [f] + FilasComic(lineas[1..], leerFecha, leerPrecio)
  }

  /** The counter after one loaded code: raised to the code's value when it is a larger int. */
  function Paso(u: Int32, codigo: string): (r: Int32)
    ensures r >= u
    ensures ParseInt(codigo).Some? ==> r >= ParseInt(codigo).value
    ensures r == u || Some(r) == ParseInt(codigo)
  {
    var n := ParseInt(codigo);
    if n.Some? && n.value > u then n.value else u
  }

  /** The counter after the loaded rows, starting from u. */
  function MaxCodigo(u: Int32, filas: seq<FilaComic>): Int32 {
    if filas == [] then u else Paso(MaxCodigo(u, filas[..|filas| - 1]), filas[|filas| - 1].codigo)
  }

  /** The codes the loaded rows file items under. */
  function Codigos(filas: seq<FilaComic>): set<string> {
    if filas == [] then {} else Codigos(filas[..|filas| - 1]) + {filas[|filas| - 1].codigo}
  }

  /** The arrival dates of the loaded rows. */
  function Fechas(filas: seq<FilaComic>): set<Fecha> {
    if filas == [] then {} else Fechas(filas[..|filas| - 1]) + FechaDe(filas[|filas| - 1].fechaLlegada)
  }

  /**
   * The seeded counter is the maximum of the start value and of every loaded code that
   * parses as an int: at least all of them, and equal to one of them.
   */
  lemma {:induction false} MaxCodigoEsMaximo(u: Int32, filas: seq<FilaComic>)
    ensures MaxCodigo(u, filas) >= u
    ensures forall k :: 0 <= k < |filas| && ParseInt(filas[k].codigo).Some? ==>
      ParseInt(filas[k].codigo).value <= MaxCodigo(u, filas)
    ensures MaxCodigo(u, filas) == u ||
      exists k :: 0 <= k < |filas| && ParseInt(filas[k].codigo) == Some(MaxCodigo(u, filas))
  {
    if filas != [] {
      var init := filas[..|filas| - 1];
      MaxCodigoEsMaximo(u, init);
      assert forall k :: 0 <= k < |init| ==> init[k] == filas[k];
    }
  }

  /** Loading keeps every numeric key at most the counter: the codes generated afterwards are new. */
  lemma {:induction false} AcotadosCarga(claves: set<string>, u: Int32, filas: seq<FilaComic>)
    requires Acotados(claves, u)
    ensures Acotados(claves + Codigos(filas), MaxCodigo(u, filas))
  {
    if filas != [] {
      var init := filas[..|filas| - 1];
      AcotadosCarga(claves, u, init);
    }
  }

  /** A comic built from a loaded row: the row's fields, the code present. */
  predicate Representa(c: Comic, f: FilaComic)
    reads c
  {
    c.codigo == Some(f.codigo) && c.tipo == f.tipo && c.nombre == f.nombre && c.autorOFabricante == f.autor &&
    c.cantidadDisponible == f.cantidad && c.fechaLlegada == f.fechaLlegada && c.precio == f.precio
  }

  /** Each comic of cs is built from the row of filas at the same position. */
  predicate Representan(cs: seq<Comic>, filas: seq<FilaComic>)
    reads cs
  {
    |cs| == |filas| && forall k :: 0 <= k < |cs| ==> Representa(cs[k], filas[k])
  }

  lemma RepresentanSnoc(cs: seq<Comic>, filas: seq<FilaComic>, c: Comic, f: FilaComic)
    requires Representan(cs, filas) && Representa(c, f)
    ensures Representan(cs + [c], filas + [f])
  {
  }

  // ---- the inventory index ----

  /** The map after put(getCodigo(), c) for each comic of cs in turn, skipping comics without a code. */
  function Indice(m: map<string, Comic>, cs: seq<Comic>): map<string, Comic>
    reads set i | 0 <= i < |cs| :: cs[i]
  {
    if cs == [] then m
    else
      var c := cs[|cs| - 1];
      var previo := Indice(m, cs[..|cs| - 1]);
      if c.codigo.Some? then previo[c.codigo.value := c] else previo
  }

  /** The last comic of cs whose code is k. */
  function UltimoCon(cs: seq<Comic>, k: string): (r: Option<Comic>)
    reads set i | 0 <= i < |cs| :: cs[i]
    ensures r.Some? ==> r.value in cs && r.value.codigo == Some(k)
  {
    if cs == [] then None
    else if cs[|cs| - 1].codigo == Some(k) then Some(cs[|cs| - 1])
    else UltimoCon(cs[..|cs| - 1], k)
  }

  /** Each code ends up with the last comic holding it; the other keys keep their old entry. */
  lemma {:induction false} IndiceEn(m: map<string, Comic>, cs: seq<Comic>, k: string)
    ensures k in Indice(m, cs) <==> k in m || UltimoCon(cs, k).Some?
    ensures k in Indice(m, cs) ==>
      Indice(m, cs)[k] == if UltimoCon(cs, k).Some? then UltimoCon(cs, k).value else m[k]
  {
    if cs != [] {
      IndiceEn(m, cs[..|cs| - 1], k);
    }
  }

  /** Putting the same comics a second time changes nothing: refreshing the index right after a load is a no-op. */
  lemma IndiceIdempotente(m: map<string, Comic>, cs: seq<Comic>)
    ensures Indice(Indice(m, cs), cs) == Indice(m, cs)
  {
    var a, b := Indice(m, cs), Indice(Indice(m, cs), cs);
    forall k | k in a || k in b
      ensures k in a && k in b && a[k] == b[k]
    {
      IndiceEn(m, cs, k);
      IndiceEn(a, cs, k);
    }
  }

  /** One more loaded row extends the codes, the dates and the counter by that row alone. */
  lemma CargaSnoc(filas: seq<FilaComic>, f: FilaComic, u: Int32)
    ensures Codigos(filas + [f]) == Codigos(filas) + {f.codigo}
    ensures Fechas(filas + [f]) == Fechas(filas) + FechaDe(f.fechaLlegada)
    ensures MaxCodigo(u, filas + [f]) == Paso(MaxCodigo(u, filas), f.codigo)
  {
    assert (filas + [f])[..|filas|] == filas;
  }

  /** The map after put(codigo, c) for each loaded row and the comic built from it, in order. */
  function Poner(m: map<string, Comic>, cs: seq<Comic>, filas: seq<FilaComic>): map<string, Comic>
    requires |cs| == |filas|
  {
    if cs == [] then m
    else Poner(m, cs[..|cs| - 1], filas[..|filas| - 1])[filas[|filas| - 1].codigo := cs[|cs| - 1]]
  }

  /** Putting comics built from rows indexes them under the rows' codes. */
  lemma {:induction false} PonerIndice(m: map<string, Comic>, cs: seq<Comic>, filas: seq<FilaComic>)
    requires Representan(cs, filas)
    ensures Indice(m, cs) == Poner(m, cs, filas)
  {
    if cs != [] {
      var n := |cs| - 1;
      assert forall k :: 0 <= k < n ==> cs[..n][k] == cs[k] && filas[..n][k] == filas[k];
      PonerIndice(m, cs[..n], filas[..n]);
    }
  }

  /** Refreshing the index with the comics just loaded changes nothing. */
  lemma PonerIdempotente(m: map<string, Comic>, cs: seq<Comic>, filas: seq<FilaComic>)
    requires Representan(cs, filas)
    ensures Indice(Poner(m, cs, filas), cs) == Poner(m, cs, filas)
  {
    PonerIndice(m, cs, filas);
    PonerIndice(Poner(m, cs, filas), cs, filas);
    IndiceIdempotente(m, cs);
  }

  /**
   * The catalogue after loading rows hechas as comics nuevos onto the state (cs0, inv0, fechas0, u0):
   * the comics appended, each put under its row's code, the dates added and the counter raised.
   */
  predicate Catalogado(cs: seq<Comic>, inv: map<string, Comic>, fechas: set<Fecha>, u: Int32,
                       cs0: seq<Comic>, inv0: map<string, Comic>, fechas0: set<Fecha>, u0: Int32,
                       nuevos: seq<Comic>, hechas: seq<FilaComic>)
  {
    cs == cs0 + nuevos && |nuevos| == |hechas| &&
    inv == Poner(inv0, nuevos, hechas) && inv.Keys == inv0.Keys + Codigos(hechas) &&
    fechas == fechas0 + Fechas(hechas) && u == MaxCodigo(u0, hechas)
  }

  /** Loading one more row keeps the catalogue loaded. */
  lemma CatalogadoSnoc(cs: seq<Comic>, inv: map<string, Comic>, fechas: set<Fecha>, u: Int32,
                       cs0: seq<Comic>, inv0: map<string, Comic>, fechas0: set<Fecha>, u0: Int32,
                       nuevos: seq<Comic>, hechas: seq<FilaComic>, c: Comic, f: FilaComic)
    requires Catalogado(cs, inv, fechas, u, cs0, inv0, fechas0, u0, nuevos, hechas)
    ensures Catalogado(cs + [c], inv[f.codigo := c], fechas + FechaDe(f.fechaLlegada), Paso(u, f.codigo),
                       cs0, inv0, fechas0, u0, nuevos + [c], hechas + [f])
  {
    CargaSnoc(hechas, f, u0);
    assert (nuevos + [c])[..|nuevos|] == nuevos;
    assert (hechas + [f])[..|hechas|] == hechas;
  }

  // ---- the inventory snapshot ----

  /** One item as guardarInventarioActualizado prints it: a missing code concatenates as "null". */
  function FilaDe(c: Comic): FilaComic
    reads c
  {
    FilaComic(c.tipo, if c.codigo.Some? then c.codigo.value else "null", c.nombre, c.autorOFabricante,
              c.cantidadDisponible, c.fechaLlegada, c.precio)
  }

  /** The line of comics_N.csv for a row, given how a LocalDate and a double print. */
  function Renglon(f: FilaComic, mostrarFecha: Fecha -> string, mostrarPrecio: real -> string): string {
    LineaComic(f.tipo, f.codigo, f.nombre, f.autor, f.cantidad, TextoFechaCsv(f.fechaLlegada, mostrarFecha),
               mostrarPrecio(f.precio))
  }

  function Renglones(filas: seq<FilaComic>, mostrarFecha: Fecha -> string, mostrarPrecio: real -> string)
    : (r: seq<string>)
    ensures |r| == |filas|
    ensures forall i :: 0 <= i < |filas| ==> r[i] == Renglon(filas[i], mostrarFecha, mostrarPrecio)
  {
    if filas == [] then [] else [Renglon(filas[0], mostrarFecha, mostrarPrecio)] + Renglones(filas[1..], mostrarFecha, mostrarPrecio)
  }

  /** One more row, one more line at the end. */
  lemma RenglonesSnoc(filas: seq<FilaComic>, f: FilaComic, mostrarFecha: Fecha -> string, mostrarPrecio: real -> string)
    ensures Renglones(filas + [f], mostrarFecha, mostrarPrecio) == Renglones(filas, mostrarFecha, mostrarPrecio) + [Renglon(f, mostrarFecha, mostrarPrecio)]
  {
    var r, r' := Renglones(filas, mostrarFecha, mostrarPrecio), Renglones(filas + [f], mostrarFecha, mostrarPrecio);
    assert forall i :: 0 <= i < |r'| ==> r'[i] == (r + [Renglon(f, mostrarFecha, mostrarPrecio)])[i];
  }

  /** A row survives being written and read back (the conditions of LeerLineaComic). */
  predicate Legible(f: FilaComic, mostrarFecha: Fecha -> string, leerFecha: string -> Option<Fecha>,
                    mostrarPrecio: real -> string, leerPrecio: string -> Option<real>)
  {
    JavaString.Excludes(f.tipo, ',') && JavaString.Excludes(f.codigo, ',') &&
    JavaString.Excludes(f.nombre, ',') && JavaString.Excludes(f.autor, ',') &&
    (f.fechaLlegada.Some? ==> var t := mostrarFecha(f.fechaLlegada.value);
       JavaString.Excludes(t, ',') && t != "null" && leerFecha(t) == f.fechaLlegada) &&
    (var t := mostrarPrecio(f.precio); t != "" && JavaString.Excludes(t, ',') && leerPrecio(t) == Some(f.precio))
  }

  /** Loading a snapshot gives back exactly the rows it was written from. */
  lemma {:induction false} RecargarInventario(filas: seq<FilaComic>, mostrarFecha: Fecha -> string,
                                              leerFecha: string -> Option<Fecha>, mostrarPrecio: real -> string,
                                              leerPrecio: string -> Option<real>)
    requires forall i :: 0 <= i < |filas| ==> Legible(filas[i], mostrarFecha, leerFecha, mostrarPrecio, leerPrecio)
    ensures FilasComic(Cuerpo([CabeceraCsv()] + Renglones(filas, mostrarFecha, mostrarPrecio)), leerFecha, leerPrecio)
      == filas
  {
    var r := Renglones(filas, mostrarFecha, mostrarPrecio);
    assert Cuerpo([CabeceraCsv()] + r) == r;
    if filas != [] {
      var resto := Renglones(filas[1..], mostrarFecha, mostrarPrecio);
      assert r[1..] == resto;
      LeerLineaComic(filas[0], mostrarFecha, leerFecha, mostrarPrecio, leerPrecio);
      assert FilasComic(r, leerFecha, leerPrecio) == [filas[0]] + FilasComic(resto, leerFecha, leerPrecio);
      RecargarInventario(filas[1..], mostrarFecha, leerFecha, mostrarPrecio, leerPrecio);
      assert Cuerpo([CabeceraCsv()] + resto) == resto;
      JavaString.ConsTail(filas);
    }
  }

  // ---- usuarios.txt ----

  /** The users cargarUsuariosDesdeTxt reads: every line with four fields, the others skipped. */
  function FilasUsuario(lineas: seq<string>): (filas: seq<FilaUsuario>)
    ensures |filas| <= |lineas|
  {
    if lineas == [] then []
    else
      var f := LeerFilaUsuario(lineas[|lineas| - 1]);
      FilasUsuario(lineas[..|lineas| - 1]) + (if f.Some? then [f.value] else [])
  }

  function Ruts(filas: seq<FilaUsuario>): set<string> {
    if filas == [] then {} else Ruts(filas[..|filas| - 1]) + {filas[|filas| - 1].rut}
  }

  function Emails(filas: seq<FilaUsuario>): set<string> {
    if filas == [] then {} else Emails(filas[..|filas| - 1]) + {filas[|filas| - 1].email}
  }

  /** The last row for a RUT: the one whose user stays filed, as each put replaces the previous. */
  function UltimaFila(filas: seq<FilaUsuario>, rut: string): (r: Option<FilaUsuario>)
    ensures r.Some? ==> r.value in filas && r.value.rut == rut
  {
    if filas == [] then None
    else if filas[|filas| - 1].rut == rut then Some(filas[|filas| - 1])
    else UltimaFila(filas[..|filas| - 1], rut)
  }

  /** A RUT has a last row exactly when some row holds it, and that row's address is among the loaded ones. */
  lemma {:induction false} UltimaFilaRuts(filas: seq<FilaUsuario>, rut: string)
    ensures UltimaFila(filas, rut).Some? <==> rut in Ruts(filas)
    ensures UltimaFila(filas, rut).Some? ==> UltimaFila(filas, rut).value.email in Emails(filas)
  {
    if filas != [] {
      UltimaFilaRuts(filas[..|filas| - 1], rut);
    }
  }

  /** One more user row: its RUT and address join the loaded ones, and it becomes the last row for its RUT. */
  lemma UsuarioSnoc(filas: seq<FilaUsuario>, f: FilaUsuario)
    ensures Ruts(filas + [f]) == Ruts(filas) + {f.rut}
    ensures Emails(filas + [f]) == Emails(filas) + {f.email}
    ensures forall rut :: UltimaFila(filas + [f], rut) == if f.rut == rut then Some(f) else UltimaFila(filas, rut)
  {
    assert (filas + [f])[..|filas|] == filas;
  }

  /** A user built from a row of usuarios.txt. */
  predicate DeFila(u: Usuario, f: FilaUsuario) {
    u.rut == f.rut && u.nombre == f.nombre && u.email == f.email && u.celular == f.celular
  }

  /**
   * The users of m after loading filas over antes: each RUT with a row holds a user built
   * from its last row, with empty histories; every other RUT keeps its user of antes.
   */
  predicate Cargados(m: map<string, Usuario>, antes: map<string, Usuario>, filas: seq<FilaUsuario>)
    reads m.Values
  {
    m.Keys == antes.Keys + Ruts(filas) &&
    forall rut :: rut in m ==>
      if UltimaFila(filas, rut).Some? then
        DeFila(m[rut], UltimaFila(filas, rut).value) && m[rut].historialReservas == [] && m[rut].historialCompras == []
      else rut in antes && m[rut] == antes[rut]
  }

  /** u is the user the last row for rut describes, with no purchases. */
  predicate Registrado(u: Usuario, filas: seq<FilaUsuario>, rut: string)
    reads u`historialCompras
  {
    UltimaFila(filas, rut).Some? && DeFila(u, UltimaFila(filas, rut).value) && u.historialCompras == []
  }

  /** Right after loading into an empty directory, no user has reserved anything. */
  lemma HistorialesVacios(m: map<string, Usuario>, filas: seq<FilaUsuario>)
    requires Cargados(m, map[], filas)
    ensures Historiales(m) == map rut | rut in m :: []
  {
  }

  /** Loaded into an empty directory, every user comes from a row and has empty histories. */
  lemma CargadosDesdeCero(m: map<string, Usuario>, filas: seq<FilaUsuario>)
    requires Cargados(m, map[], filas)
    ensures m.Keys == Ruts(filas)
    ensures forall rut :: rut in m ==> Registrado(m[rut], filas, rut) && m[rut].historialReservas == []
  {
  }

  /** Filing a user built from one more row keeps the description. */
  lemma CargadosSnoc(m: map<string, Usuario>, antes: map<string, Usuario>, filas: seq<FilaUsuario>,
                     f: FilaUsuario, u: Usuario)
    requires Cargados(m, antes, filas)
    requires DeFila(u, f) && u.historialReservas == [] && u.historialCompras == []
    ensures Cargados(m[f.rut := u], antes, filas + [f])
  {
    UsuarioSnoc(filas, f);
  }

  /** The users appended to usuarios.txt load back, when no field holds '|' and no phone is empty. */
  lemma {:induction false} RecargarUsuarios(filas: seq<FilaUsuario>)
    requires forall i :: 0 <= i < |filas| ==> var u := filas[i];
      JavaString.Excludes(u.rut, '|') && JavaString.Excludes(u.nombre, '|') &&
      JavaString.Excludes(u.email, '|') && JavaString.Excludes(u.celular, '|') && u.celular != ""
    ensures FilasUsuario(LineasUsuario(filas)) == filas
  {
    if filas != [] {
      var n := |filas| - 1;
      var antes, l := LineasUsuario(filas[..n]), LineasUsuario(filas);
      assert l == antes + [LineaUsuario(filas[n])];
      assert l[..n] == antes;
      RecargarUsuarios(filas[..n]);
      LeerLineaUsuario(filas[n]);
      Prefijo(filas, n);
      assert filas[..n + 1] == filas;
    }
  }

  function LineasUsuario(filas: seq<FilaUsuario>): (r: seq<string>)
    ensures |r| == |filas|
    ensures forall i :: 0 <= i < |filas| ==> r[i] == LineaUsuario(filas[i])
  {
    if filas == [] then [] else LineasUsuario(filas[..|filas| - 1]) + [LineaUsuario(filas[|filas| - 1])]
  }

  // ---- reservas.txt ----

  /** The reservations cargarReservasDesdeTxt reads: short lines skipped, a bad quantity ends the load. */
  function FilasReserva(lineas: seq<string>): (filas: seq<FilaReserva>)
    ensures |filas| <= |lineas|
  {
    if lineas == [] then []
    else
      match LeerFilaReserva(lineas[0])
      case Saltar => FilasReserva(lineas[1..])
      case Abortar => []
      case Leida(f) => [f] + FilasReserva(lineas[1..])
  }

  /** The codes the loaded reservations mark as reserved, whether or not the product exists. */
  function CodigosReservados(filas: seq<FilaReserva>): set<string> {
    if filas == [] then {} else CodigosReservados(filas[..|filas| - 1]) + {filas[|filas| - 1].codigo}
  }

  /** The history entries the loaded reservations give the user filed under rut: rows for unknown products are dropped. */
  function Entradas(filas: seq<FilaReserva>, rut: string, inventario: map<string, Comic>): seq<ReservaCompra> {
    if filas == [] then []
    else Entradas(filas[..|filas| - 1], rut, inventario) + Entrada(filas[|filas| - 1], rut, inventario)
  }

  /** What one row adds to the reservations of the user filed under rut. */
  function Entrada(f: FilaReserva, rut: string, inventario: map<string, Comic>): seq<ReservaCompra> {
    if f.rut == rut && f.codigo in inventario then [ReservaCompra(inventario[f.codigo], f.cantidad)] else []
  }

  /** One more reservation row: its code is reserved, and only its own user may gain an entry. */
  lemma ReservaSnoc(filas: seq<FilaReserva>, f: FilaReserva, inventario: map<string, Comic>)
    ensures CodigosReservados(filas + [f]) == CodigosReservados(filas) + {f.codigo}
    ensures forall rut :: Entradas(filas + [f], rut, inventario) == Entradas(filas, rut, inventario) + Entrada(f, rut, inventario)
  {
    assert (filas + [f])[..|filas|] == filas;
  }

  /** The reservation histories of the users of m, by RUT. */
  function Historiales(m: map<string, Usuario>): map<string, seq<ReservaCompra>>
    reads m.Values
  {
    map rut | rut in m :: m[rut].historialReservas
  }

  /** Each user's history is its history of antes followed by the entries the rows give it. */
  predicate Reservadas(h: map<string, seq<ReservaCompra>>, antes: map<string, seq<ReservaCompra>>,
                       filas: seq<FilaReserva>, inventario: map<string, Comic>)
  {
    h.Keys == antes.Keys && forall rut :: rut in h ==> h[rut] == antes[rut] + Entradas(filas, rut, inventario)
  }

  /** The histories after one row: its user, when filed and the product known, gains one entry. */
  function AnotarHistorial(h: map<string, seq<ReservaCompra>>, f: FilaReserva, inventario: map<string, Comic>)
    : map<string, seq<ReservaCompra>>
  {
    if f.rut in h && f.codigo in inventario then h[f.rut := h[f.rut] + [ReservaCompra(inventario[f.codigo], f.cantidad)]]
    else h
  }

  /** Applying one more row keeps each history equal to its start followed by the rows' entries. */
  lemma AnotarEn(h: map<string, seq<ReservaCompra>>, antes: map<string, seq<ReservaCompra>>,
                 filas: seq<FilaReserva>, f: FilaReserva, inventario: map<string, Comic>)
    requires Reservadas(h, antes, filas, inventario)
    ensures Reservadas(AnotarHistorial(h, f, inventario), antes, filas + [f], inventario)
  {
    var h' := AnotarHistorial(h, f, inventario);
    forall rut | rut in h'
      ensures h'[rut] == antes[rut] + Entradas(filas + [f], rut, inventario)
    {
      assert (filas + [f])[..|filas|] == filas;
      assert Entradas(filas + [f], rut, inventario) == Entradas(filas, rut, inventario) + Entrada(f, rut, inventario);
    }
  }

  /** Each entry names a product of the inventory, and there is at most one per row. */
  lemma {:induction false} EntradasDelInventario(filas: seq<FilaReserva>, rut: string, inventario: map<string, Comic>)
    ensures |Entradas(filas, rut, inventario)| <= |filas|
    ensures forall e :: e in Entradas(filas, rut, inventario) ==> e.comic in inventario.Values
  {
    if filas != [] {
      EntradasDelInventario(filas[..|filas| - 1], rut, inventario);
    }
  }

  function LineasReserva(filas: seq<FilaReserva>): (r: seq<string>)
    ensures |r| == |filas|
    ensures forall i :: 0 <= i < |filas| ==> r[i] == LineaReserva(filas[i])
  {
    if filas == [] then [] else [LineaReserva(filas[0])] + LineasReserva(filas[1..])
  }

  /** The reservations appended to reservas.txt load back, when no RUT or code holds '|'. */
  lemma {:induction false} RecargarReservas(filas: seq<FilaReserva>)
    requires forall i :: 0 <= i < |filas| ==>
      JavaString.Excludes(filas[i].rut, '|') && JavaString.Excludes(filas[i].codigo, '|')
    ensures FilasReserva(LineasReserva(filas)) == filas
  {
    if filas != [] {
      LeerLineaReserva(filas[0]);
      RecargarReservas(filas[1..]);
      assert LineasReserva(filas)[1..] == LineasReserva(filas[1..]);
    }
  }
}
