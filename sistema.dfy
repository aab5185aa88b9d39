/**
 * The store engine, class ComicCollectorSystem: a catalogue (the comics list, the inventory
 * by code and the set of arrival dates), a user directory (users by RUT and the registered
 * e-mail addresses), the set of reserved product codes, the purchase ranking and the
 * counter that numbers new products. Each public operation runs a fixed sequence of checks
 * and changes the state only when all of them pass. Today's date is a parameter.
 */
module Sistema {
  import opened Wrappers
  import opened Errores
  import opened JavaInt
  import opened JavaString
  import opened ValidadorDatos
  import opened Modelos
  import opened Persistencia
  import opened Carga

  // ---- the decisions behind each operation ----

  /** What a purchase or a reservation examines of a product: its arrival date and its stock. */
  datatype Producto = Producto(fechaLlegada: Option<Fecha>, stock: Int32)

  /** On sale: in the store already, or arriving today or earlier (not isAfter(today)). */
  predicate Vendible(p: Producto, hoy: Fecha) {
    p.fechaLlegada.None? || p.fechaLlegada.value <= hoy
  }

  /** Open for pre-order: dated, and arriving today or later (not isBefore(today)). */
  predicate EnPreventa(p: Producto, hoy: Fecha) {
    p.fechaLlegada.Some? && p.fechaLlegada.value >= hoy
  }

  /** The checks of realizarCompra, in their order: quantity, user, product, date, stock. */
  function DecidirCompra(cantidad: Int32, usuarioExiste: bool, producto: Option<Producto>, hoy: Fecha): (r: Outcome)
    ensures r == Pass <==> cantidad >= 0 && usuarioExiste && producto.Some? &&
                           Vendible(producto.value, hoy) && cantidad <= producto.value.stock
  {
    var v := ValidarNoNegativo(cantidad, "cantidad a comprar");
    if v.Fail? then v
    else if !usuarioExiste then Fail(UsuarioNoEncontrado)
    else if producto.None? then Fail(ProductoNoEncontrado)
    else if !Vendible(producto.value, hoy) then Fail(NoDisponibleParaVenta)
    else if producto.value.stock < cantidad then Fail(StockInsuficiente)
    else Pass
  }

  /** Each way a purchase fails, with every earlier check passed. */
  lemma CompraErrores(cantidad: Int32, usuarioExiste: bool, producto: Option<Producto>, hoy: Fecha)
    ensures var r := DecidirCompra(cantidad, usuarioExiste, producto, hoy);
      (r == Fail(CampoNegativo("cantidad a comprar")) <==> cantidad < 0) &&
      (r == Fail(UsuarioNoEncontrado) <==> cantidad >= 0 && !usuarioExiste) &&
      (r == Fail(ProductoNoEncontrado) <==> cantidad >= 0 && usuarioExiste && producto.None?) &&
      (r == Fail(NoDisponibleParaVenta) <==>
         cantidad >= 0 && usuarioExiste && producto.Some? && !Vendible(producto.value, hoy)) &&
      (r == Fail(StockInsuficiente) <==>
         cantidad >= 0 && usuarioExiste && producto.Some? && Vendible(producto.value, hoy) &&
         producto.value.stock < cantidad)
  {
  }

  /** The checks of hacerReserva, in their order: user, product, date, stock. The quantity's sign is never checked. */
  function DecidirReserva(cantidad: Int32, usuarioExiste: bool, producto: Option<Producto>, hoy: Fecha): (r: Outcome)
    ensures r == Pass <==> usuarioExiste && producto.Some? && EnPreventa(producto.value, hoy) &&
                           cantidad <= producto.value.stock
    ensures r != Fail(ProductoYaReservado)
  {
    if !usuarioExiste then Fail(UsuarioNoEncontrado)
    else if producto.None? then Fail(ProductoNoEncontrado)
    else if !EnPreventa(producto.value, hoy) then Fail(NoEnPreventa)
    else if producto.value.stock < cantidad then Fail(StockInsuficiente)
    else Pass
  }

  /** Each way a reservation fails, with every earlier check passed. */
  lemma ReservaErrores(cantidad: Int32, usuarioExiste: bool, producto: Option<Producto>, hoy: Fecha)
    ensures var r := DecidirReserva(cantidad, usuarioExiste, producto, hoy);
      (r == Fail(UsuarioNoEncontrado) <==> !usuarioExiste) &&
      (r == Fail(ProductoNoEncontrado) <==> usuarioExiste && producto.None?) &&
      (r == Fail(NoEnPreventa) <==> usuarioExiste && producto.Some? && !EnPreventa(producto.value, hoy)) &&
      (r == Fail(StockInsuficiente) <==>
         usuarioExiste && producto.Some? && EnPreventa(producto.value, hoy) && producto.value.stock < cantidad)
  {
  }

  /** Both date checks are strict, so a product can be bought and reserved exactly when it arrives today. */
  lemma VendibleYEnPreventa(p: Producto, hoy: Fecha)
    ensures Vendible(p, hoy) && EnPreventa(p, hoy) <==> p.fechaLlegada == Some(hoy)
  {
  }

  /** A successful purchase never takes the stock below zero nor above what it was. */
  lemma CompraAcotada(cantidad: Int32, usuarioExiste: bool, p: Producto, hoy: Fecha)
    requires DecidirCompra(cantidad, usuarioExiste, Some(p), hoy) == Pass
    ensures 0 <= Sub(p.stock, cantidad) <= p.stock
  {
  }

  /** A negative reservation passes every check and raises the stock; at the top of the int range it wraps to a negative stock. */
  lemma ReservaNegativaDesborda(hoy: Fecha)
    ensures DecidirReserva(-1, true, Some(Producto(Some(hoy), 5)), hoy) == Pass && Sub(5, -1) == 6
    ensures DecidirReserva(-1, true, Some(Producto(Some(hoy), MAX)), hoy) == Pass && Sub(MAX, -1) == MIN
  {
  }

  /** A reservation keeps the stock non-negative whenever the exact difference fits in an int. */
  lemma ReservaAcotada(cantidad: Int32, usuarioExiste: bool, p: Producto, hoy: Fecha)
    requires DecidirReserva(cantidad, usuarioExiste, Some(p), hoy) == Pass
    requires p.stock - cantidad <= MAX
    ensures Sub(p.stock, cantidad) == p.stock - cantidad >= 0
  {
  }

  /** The checks of registrarUsuario, in their order; the e-mail is checked against the addresses already registered. */
  function VerificarRegistro(rut: Option<string>, nombre: Option<string>, email: Option<string>,
                             celular: Option<string>, registrados: set<string>): (r: Outcome)
    ensures r == Pass <==> (ValidarRut(rut) == Pass && ValidarNoVacio(nombre, "nombre") == Pass &&
      ValidarNoVacio(email, "email") == Pass && ValidarNoVacio(celular, "celular") == Pass &&
      ValidarCelular(celular) == Pass && ValidarEmailUnico(email, registrados) == Pass)
    ensures ValidarRut(rut) != Pass ==> r == Fail(RutInvalido)
    ensures r.Fail? ==> r.error in {RutInvalido, CampoVacio("nombre"), CampoVacio("email"), CampoVacio("celular"),
                                    CelularInvalido, EmailYaRegistrado, EmailInvalido}
  {
    var a := ValidarRut(rut);
    if a.Fail? then a else
    var b := ValidarNoVacio(nombre, "nombre");
    if b.Fail? then b else
    var c := ValidarNoVacio(email, "email");
    if c.Fail? then c else
    var d := ValidarNoVacio(celular, "celular");
    if d.Fail? then d else
    var e := ValidarCelular(celular);
    if e.Fail? then e else
    ValidarEmailUnico(email, registrados)
  }

  /** A registered address is refused as a duplicate even when it is malformed, once the other fields pass. */
  lemma RegistroDuplicado(rut: string, nombre: string, email: string, celular: string, registrados: set<string>)
    requires ValidarRut(Some(rut)) == Pass && ValidarNoVacio(Some(nombre), "nombre") == Pass
    requires ValidarNoVacio(Some(email), "email") == Pass && ValidarCelular(Some(celular)) == Pass
    requires email in registrados
    ensures VerificarRegistro(Some(rut), Some(nombre), Some(email), Some(celular), registrados) == Fail(EmailYaRegistrado)
  {
  }

  /** A text field that validarNoVacio accepts: present, and not blank after trim(). */
  predicate Lleno(dato: Option<string>) {
    dato.Some? && !EnBlanco(dato.value)
  }

  /**
   * Each way a registration fails, with every earlier check passed: RUT, then name, e-mail
   * and phone present, then the phone's format, then the e-mail's uniqueness and format.
   */
  lemma RegistroErrores(rut: Option<string>, nombre: Option<string>, email: Option<string>,
                        celular: Option<string>, registrados: set<string>)
    ensures var r := VerificarRegistro(rut, nombre, email, celular, registrados);
      var rutOk := rut.Some? && CoincideRut(rut.value);
      var celularOk := celular.Some? && |celular.value| == 8 && AllDigits(celular.value);
      (r == Fail(RutInvalido) <==> !rutOk) &&
      (r == Fail(CampoVacio("nombre")) <==> rutOk && !Lleno(nombre)) &&
      (r == Fail(CampoVacio("email")) <==> rutOk && Lleno(nombre) && !Lleno(email)) &&
      (r == Fail(CampoVacio("celular")) <==> rutOk && Lleno(nombre) && Lleno(email) && !Lleno(celular)) &&
      (r == Fail(CelularInvalido) <==>
         rutOk && Lleno(nombre) && Lleno(email) && Lleno(celular) && !celularOk) &&
      (r == Fail(EmailYaRegistrado) <==>
         rutOk && Lleno(nombre) && Lleno(email) && Lleno(celular) && celularOk && email.value in registrados) &&
      (r == Fail(EmailInvalido) <==>
         rutOk && Lleno(nombre) && Lleno(email) && Lleno(celular) && celularOk && email.value !in registrados &&
         !CoincideEmail(email.value))
  {
  }

  /** The checks of agregarComic, in their order: name, producer, stock, price. */
  function VerificarComic(nombre: string, autor: string, cantidad: Int32, precio: real): (r: Outcome)
    ensures r == Pass <==> (ValidarNoVacio(Some(nombre), "nombre") == Pass &&
      ValidarNoVacio(Some(autor), "autor/fabricante") == Pass && cantidad >= 0 && precio >= 0.0)
    ensures r.Fail? ==> r.error in {CampoVacio("nombre"), CampoVacio("autor/fabricante"),
                                    CampoNegativo("cantidad disponible"), CampoNegativo("precio")}
  {
    var a := ValidarNoVacio(Some(nombre), "nombre");
    if a.Fail? then a else
    var b := ValidarNoVacio(Some(autor), "autor/fabricante");
    if b.Fail? then b else
    var c := ValidarNoNegativo(cantidad, "cantidad disponible");
    if c.Fail? then c else
    ValidarNoNegativoReal(precio, "precio")
  }

  /** Each way adding a comic fails, with every earlier check passed: name, producer, stock, price. */
  lemma ComicErrores(nombre: string, autor: string, cantidad: Int32, precio: real)
    ensures var r := VerificarComic(nombre, autor, cantidad, precio);
      (r == Fail(CampoVacio("nombre")) <==> EnBlanco(nombre)) &&
      (r == Fail(CampoVacio("autor/fabricante")) <==> !EnBlanco(nombre) && EnBlanco(autor)) &&
      (r == Fail(CampoNegativo("cantidad disponible")) <==> !EnBlanco(nombre) && !EnBlanco(autor) && cantidad < 0) &&
      (r == Fail(CampoNegativo("precio")) <==>
         !EnBlanco(nombre) && !EnBlanco(autor) && cantidad >= 0 && precio < 0.0)
  {
  }

  // ---- fresh product codes ----

  /** Below the top of the int range, the next generated code is new and the bound moves up with it. */
  lemma CodigoGeneradoEsNuevo(claves: set<string>, u: Int32)
    requires Acotados(claves, u) && u < MAX
    ensures Format03(u + 1) !in claves
    ensures Acotados(claves + {Format03(u + 1)}, u + 1)
  {
    ParseFormat03(u + 1);
  }

  // ---- List.remove(Object) ----

  /** The list without the first occurrence of x; unchanged when x does not occur. */
  function QuitarPrimero<T(==)>(s: seq<T>, x: T): (r: seq<T>)
    ensures x in s ==> |r| == |s| - 1
    ensures x !in s ==> r == s
  {
    if s == [] then []
    else if s[0] == x then s[1..]
    else [s[0]] + QuitarPrimero(s[1..], x)
  }

  /** Removing takes out exactly one copy of x, and only if there is one. */
  lemma {:induction false} QuitarPrimeroMultiset<T>(s: seq<T>, x: T)
    ensures multiset(QuitarPrimero(s, x)) == multiset(s) - multiset{x}
    ensures x !in s ==> QuitarPrimero(s, x) == s
  {
    if s != [] {
      assert s == [s[0]] + s[1..];
      if s[0] != x {
        QuitarPrimeroMultiset(s[1..], x);
      }
    }
  }

  /** Removing cuts the list at the first index holding x. */
  lemma {:induction false} QuitarPrimeroCorte<T>(s: seq<T>, x: T, i: nat)
    requires i < |s| && s[i] == x && x !in s[..i]
    ensures QuitarPrimero(s, x) == s[..i] + s[i + 1..]
  {
    if i > 0 {
      assert s[0] in s[..i];
      assert s[1..][..i - 1] == s[1..i];
      QuitarPrimeroCorte(s[1..], x, i - 1);
      assert s[..i] == [s[0]] + s[1..i];
      assert s[1..][i..] == s[i + 1..];
    }
  }

  /** No item of an inventory has a negative stock. */
  predicate StockNoNegativo(inventario: map<string, Comic>)
    reads inventario.Values
  {
    forall k :: k in inventario ==> inventario[k].cantidadDisponible >= 0
  }

  lemma Asociar<T>(a: seq<T>, b: seq<T>, c: seq<T>)
    ensures (a + b) + c == a + (b + c)
  {
  }

  /** A walk over a set of keys: those not remaining were taken, each once, in the order given. */
  ghost predicate Recorrido(claves: set<string>, restantes: set<string>, orden: seq<string>) {
    restantes <= claves && (forall x :: x in orden <==> x in claves && x !in restantes) &&
    forall i, j :: 0 <= i < j < |orden| ==> orden[i] != orden[j]
  }

  lemma RecorridoPaso(claves: set<string>, restantes: set<string>, orden: seq<string>, x: string)
    requires Recorrido(claves, restantes, orden) && x in restantes
    ensures Recorrido(claves, restantes - {x}, orden + [x])
  {
  }

  /** The header and one row per product of an inventory, its codes taken in some order, each once. */
  method VolcarInventario(inventario: map<string, Comic>, mostrarFecha: Fecha -> string, mostrarPrecio: real -> string)
    returns (lineas: seq<string>, ghost orden: seq<string>, ghost filas: seq<FilaComic>)
    ensures |orden| == |filas| && (forall x :: x in orden <==> x in inventario)
    ensures forall i, j :: 0 <= i < j < |orden| ==> orden[i] != orden[j]
    ensures forall i :: 0 <= i < |orden| ==> filas[i] == FilaDe(inventario[orden[i]])
    ensures lineas == [CabeceraCsv()] + Renglones(filas, mostrarFecha, mostrarPrecio)
  {
    lineas, orden, filas := [CabeceraCsv()], [], [];
    var restantes := inventario.Keys;
    while restantes != {}
      invariant Recorrido(inventario.Keys, restantes, orden) && |orden| == |filas|
      invariant forall i :: 0 <= i < |orden| ==> filas[i] == FilaDe(inventario[orden[i]])
      invariant lineas == [CabeceraCsv()] + Renglones(filas, mostrarFecha, mostrarPrecio)
      decreases |restantes|
    {
      var codigo :| codigo in restantes;
      var fila := FilaDe(inventario[codigo]);
      var renglon := Renglon(fila, mostrarFecha, mostrarPrecio);
      RenglonesSnoc(filas, fila, mostrarFecha, mostrarPrecio);
      Asociar([CabeceraCsv()], Renglones(filas, mostrarFecha, mostrarPrecio), [renglon]);
      lineas := lineas + [renglon];
      RecorridoPaso(inventario.Keys, restantes, orden, codigo);
      orden, filas := orden + [codigo], filas + [fila];
      restantes := restantes - {codigo};
    }
  }

  /** What a purchase or reservation of this code sees: nothing, or the item's date and stock. */
  function ProductoEn(inventario: map<string, Comic>, codigo: string): Option<Producto>
    reads inventario.Values
  {
    if codigo in inventario then Some(Producto(inventario[codigo].fechaLlegada, inventario[codigo].cantidadDisponible))
    else None
  }

  // ---- the engine ----

  class ComicCollectorSystem {
    var comics: seq<Comic>
    var usuarios: map<string, Usuario>
    var emailsRegistrados: set<string>
    var productosReservados: set<string>
    var fechasLanzamiento: set<Fecha>
    /** The TreeSet ordered by Usuario.compareTo, as the set of its members. */
    var rankingUsuarios: set<Usuario>
    var inventario: map<string, Comic>
    var ultimoCodigoProducto: Int32

    /** No numeric code in the inventory is above the counter, so the next generated code is new. */
    predicate CodigosAcotados()
      reads this`inventario, this`ultimoCodigoProducto
    {
      Acotados(inventario.Keys, ultimoCodigoProducto)
    }

    /** Each user is filed under their own RUT, and their address is registered. */
    predicate UsuariosConsistentes()
      reads this`usuarios, this`emailsRegistrados
    {
      forall rut :: rut in usuarios ==> usuarios[rut].rut == rut && usuarios[rut].email in emailsRegistrados
    }

    /**
     * The constructor: empty collections, then cargarDatosDesdeArchivos. The three files are
     * given as their lines (a missing file reads as no lines), with how a LocalDate and a
     * double are parsed.
     */
    constructor (comicsCsv: seq<string>, usuariosTxt: seq<string>, reservasTxt: seq<string>,
                 leerFecha: string -> Option<Fecha>, leerPrecio: string -> Option<real>)
      ensures Representan(comics, FilasComic(Cuerpo(comicsCsv), leerFecha, leerPrecio))
      ensures Catalogado(comics, inventario, fechasLanzamiento, ultimoCodigoProducto, [], map[], {}, 0,
                         comics, FilasComic(Cuerpo(comicsCsv), leerFecha, leerPrecio))
      ensures usuarios.Keys == Ruts(FilasUsuario(usuariosTxt)) && emailsRegistrados == Emails(FilasUsuario(usuariosTxt))
      ensures forall rut :: rut in usuarios ==> Registrado(usuarios[rut], FilasUsuario(usuariosTxt), rut)
      ensures Reservadas(Historiales(usuarios), map rut | rut in usuarios :: [], FilasReserva(reservasTxt), inventario)
      ensures productosReservados == CodigosReservados(FilasReserva(reservasTxt)) && rankingUsuarios == {}
      ensures CodigosAcotados() && UsuariosConsistentes()
    {
      comics := [];
      usuarios := map[];
      emailsRegistrados := {};
      productosReservados := {};
      fechasLanzamiento := {};
      rankingUsuarios := {};
      inventario := map[];
      ultimoCodigoProducto := 0;
      new;
      CargarDatosDesdeArchivos(FilasComic(Cuerpo(comicsCsv), leerFecha, leerPrecio), FilasUsuario(usuariosTxt),
                               FilasReserva(reservasTxt));
    }

    /**
     * cargarDatosDesdeArchivos, on an empty store and the rows read from the three files:
     * comics, then users, then reservations, then the refresh of the inventory, which finds
     * every comic already in place.
     */
    method CargarDatosDesdeArchivos(filasC: seq<FilaComic>, filasU: seq<FilaUsuario>, filasR: seq<FilaReserva>)
      modifies this`comics, this`inventario, this`fechasLanzamiento, this`ultimoCodigoProducto
      modifies this`usuarios, this`emailsRegistrados, this`productosReservados, usuarios.Values`historialReservas
      requires comics == [] && inventario == map[] && fechasLanzamiento == {} && ultimoCodigoProducto == 0
      requires usuarios == map[] && emailsRegistrados == {} && productosReservados == {}
      ensures Representan(comics, filasC)
      ensures Catalogado(comics, inventario, fechasLanzamiento, ultimoCodigoProducto, [], map[], {}, 0, comics, filasC)
      ensures usuarios.Keys == Ruts(filasU) && emailsRegistrados == Emails(filasU)
      ensures forall rut :: rut in usuarios ==> Registrado(usuarios[rut], filasU, rut)
      ensures Reservadas(Historiales(usuarios), map rut | rut in usuarios :: [], filasR, inventario)
      ensures productosReservados == CodigosReservados(filasR)
      ensures CodigosAcotados() && UsuariosConsistentes()
    {
      ghost var nuevos := CargarComicsDesdeCSV(filasC);
      assert comics == nuevos;
      CargarClientes(filasU, filasR);
      assert Representan(comics, filasC);
      RefrescarCargado(filasC);
    }

    /** actualizarInventarioEnMemoria right after a load: every comic is already under its code. */
    method RefrescarCargado(ghost filasC: seq<FilaComic>)
      modifies this`inventario
      requires Representan(comics, filasC) && inventario == Poner(map[], comics, filasC)
      ensures inventario == old(inventario) && Representan(comics, filasC)
    {
      ActualizarInventarioEnMemoria();
      PonerIdempotente(map[], comics, filasC);
    }

    /** The users, then their reservations, into an empty directory. */
    method CargarClientes(filasU: seq<FilaUsuario>, filasR: seq<FilaReserva>)
      modifies this`usuarios, this`emailsRegistrados, this`productosReservados, usuarios.Values`historialReservas
      requires usuarios == map[] && emailsRegistrados == {} && productosReservados == {}
      ensures usuarios.Keys == Ruts(filasU) && emailsRegistrados == Emails(filasU)
      ensures forall rut :: rut in usuarios ==> Registrado(usuarios[rut], filasU, rut)
      ensures Reservadas(Historiales(usuarios), map rut | rut in usuarios :: [], filasR, inventario)
      ensures productosReservados == CodigosReservados(filasR)
      ensures UsuariosConsistentes() && unchanged(comics)
    {
      CargarUsuariosDesdeTxt(filasU);
      CargadosDesdeCero(usuarios, filasU);
      HistorialesVacios(usuarios, filasU);
      CargarReservasDesdeTxt(filasR);
    }

    /**
     * cargarComicsDesdeCSV, applied to the rows read (FilasComic): each row becomes a new
     * comic, appended to the list, put in the inventory under its code, its date added to the
     * date set; a code that parses as a larger int raises the counter.
     */
    method CargarComicsDesdeCSV(filas: seq<FilaComic>) returns (ghost nuevos: seq<Comic>)
      modifies this`comics, this`inventario, this`fechasLanzamiento, this`ultimoCodigoProducto
      ensures Representan(nuevos, filas)
      ensures Catalogado(comics, inventario, fechasLanzamiento, ultimoCodigoProducto, old(comics), old(inventario),
                         old(fechasLanzamiento), old(ultimoCodigoProducto), nuevos, filas)
      ensures old(CodigosAcotados()) ==> CodigosAcotados()
    {
      nuevos := [];
      ghost var hechas: seq<FilaComic> := [];
      for k := 0 to |filas|
        invariant hechas == filas[..k]
        invariant Representan(nuevos, hechas)
        invariant Catalogado(comics, inventario, fechasLanzamiento, ultimoCodigoProducto, old(comics), old(inventario),
                             old(fechasLanzamiento), old(ultimoCodigoProducto), nuevos, hechas)
      {
        var f := filas[k];
        Prefijo(filas, k);
        ghost var cs, inv, fechas, u := comics, inventario, fechasLanzamiento, ultimoCodigoProducto;
        var c := AltaComic(f);
        CatalogadoSnoc(cs, inv, fechas, u, old(comics), old(inventario), old(fechasLanzamiento), old(ultimoCodigoProducto),
                       nuevos, hechas, c, f);
        RepresentanSnoc(nuevos, hechas, c, f);
        nuevos := nuevos + [c];
        hechas := hechas + [f];
      }
      assert hechas == filas;
      if old(CodigosAcotados()) {
        AcotadosCarga(old(inventario).Keys, old(ultimoCodigoProducto), filas);
      }
    }

    /** One loaded row of comics.csv: a new comic, listed, indexed under its code, its date recorded, the counter raised. */
    method AltaComic(f: FilaComic) returns (c: Comic)
      modifies this`comics, this`inventario, this`fechasLanzamiento, this`ultimoCodigoProducto
      ensures fresh(c) && Representa(c, f)
      ensures comics == old(comics) + [c] && inventario == old(inventario)[f.codigo := c]
      ensures fechasLanzamiento == old(fechasLanzamiento) + FechaDe(f.fechaLlegada)
      ensures ultimoCodigoProducto == Paso(old(ultimoCodigoProducto), f.codigo)
    {
      c := new Comic(Some(f.codigo), f.tipo, f.nombre, f.autor, f.cantidad, f.fechaLlegada, f.precio);
      comics := comics + [c];
      inventario := inventario[f.codigo := c];
      if f.fechaLlegada.Some? {
        fechasLanzamiento := fechasLanzamiento + {f.fechaLlegada.value};
      }
      var num := ParseInt(f.codigo);
      if num.Some? && num.value > ultimoCodigoProducto {
        ultimoCodigoProducto := num.value;
      }
    }

    /** cargarUsuariosDesdeTxt: each line of four fields becomes a new user, filed under its RUT, its address registered. */
    method CargarUsuariosDesdeTxt(filas: seq<FilaUsuario>)
      modifies this`usuarios, this`emailsRegistrados
      ensures Cargados(usuarios, old(usuarios), filas)
      ensures emailsRegistrados == old(emailsRegistrados) + Emails(filas)
      ensures old(UsuariosConsistentes()) ==> UsuariosConsistentes()
      ensures fresh(usuarios.Values - old(usuarios).Values)
    {
      for k := 0 to |filas|
        invariant Cargados(usuarios, old(usuarios), filas[..k])
        invariant fresh(usuarios.Values - old(usuarios).Values)
        invariant emailsRegistrados == old(emailsRegistrados) + Emails(filas[..k])
        invariant old(UsuariosConsistentes()) ==> UsuariosConsistentes()
      {
        var f := filas[k];
        assert filas[..k + 1] == filas[..k] + [f];
        UsuarioSnoc(filas[..k], f);
        ghost var previos := usuarios;
        AltaUsuario(f);
        CargadosSnoc(previos, old(usuarios), filas[..k], f, usuarios[f.rut]);
      }
      assert filas[..|filas|] == filas;
    }

    /** One loaded row of usuarios.txt: a new user filed under its RUT, its address registered. */
    method AltaUsuario(f: FilaUsuario)
      modifies this`usuarios, this`emailsRegistrados
      ensures f.rut in usuarios && usuarios == old(usuarios)[f.rut := usuarios[f.rut]]
      ensures fresh(usuarios[f.rut]) && DeFila(usuarios[f.rut], f)
      ensures usuarios[f.rut].historialReservas == [] && usuarios[f.rut].historialCompras == []
      ensures emailsRegistrados == old(emailsRegistrados) + {f.email}
      ensures old(UsuariosConsistentes()) ==> UsuariosConsistentes()
    {
      var u := new Usuario(f.rut, f.nombre, f.email, f.celular);
      usuarios := usuarios[u.rut := u];
      emailsRegistrados := emailsRegistrados + {u.email};
    }

    /**
     * cargarReservasDesdeTxt: each row of three fields marks its code as reserved and, when
     * both the user and the product exist, appends the entry to that user's reservations;
     * a quantity that does not parse ends the load.
     */
    method CargarReservasDesdeTxt(filas: seq<FilaReserva>)
      modifies this`productosReservados, usuarios.Values`historialReservas
      ensures productosReservados == old(productosReservados) + CodigosReservados(filas)
      ensures old(UsuariosConsistentes()) ==>
        Reservadas(Historiales(usuarios), old(Historiales(usuarios)), filas, inventario)
    {
      ghost var antes := Historiales(usuarios);
      for k := 0 to |filas|
        invariant productosReservados == old(productosReservados) + CodigosReservados(filas[..k])
        invariant old(UsuariosConsistentes()) ==> Reservadas(Historiales(usuarios), antes, filas[..k], inventario)
      {
        assert filas[..k + 1] == filas[..k] + [filas[k]];
        ReservaSnoc(filas[..k], filas[k], inventario);
        ghost var h := Historiales(usuarios);
        AnotarReserva(filas[k]);
        if old(UsuariosConsistentes()) {
          AnotarEn(h, antes, filas[..k], filas[k], inventario);
        }
      }
      assert filas[..|filas|] == filas;
    }

    /** One loaded row of reservas.txt: the code is reserved, and the entry goes to the user when user and product exist. */
    method AnotarReserva(f: FilaReserva)
      modifies this`productosReservados, usuarios.Values`historialReservas
      ensures productosReservados == old(productosReservados) + {f.codigo}
      ensures old(UsuariosConsistentes()) ==> Historiales(usuarios) == AnotarHistorial(old(Historiales(usuarios)), f, inventario)
    {
      ghost var h0 := Historiales(usuarios);
      productosReservados := productosReservados + {f.codigo};
      var usuario := BuscarUsuarioPorRut(f.rut);
      var comic := BuscarComicPorCodigo(f.codigo);
      if usuario.Some? && comic.Some? {
        var u := usuario.value;
        u.AgregarReserva(comic.value, f.cantidad);
        if old(UsuariosConsistentes()) {
          forall rut | rut in usuarios
            ensures usuarios[rut].historialReservas == AnotarHistorial(h0, f, inventario)[rut]
          {
            if rut != f.rut {
              assert old(usuarios[rut].rut) == rut;
            }
          }
        }
      }
    }

    /** actualizarInventarioEnMemoria: put(getCodigo(), c) for each comic of the list, in order. */
    method ActualizarInventarioEnMemoria()
      modifies this`inventario
      ensures inventario == Indice(old(inventario), comics)
    {
      for i := 0 to |comics|
        invariant inventario == Indice(old(inventario), comics[..i])
      {
        assert comics[..i + 1][..i] == comics[..i];
        var c := comics[i];
        if c.codigo.Some? {
          inventario := inventario[c.codigo.value := c];
        }
      }
      assert comics[..|comics|] == comics;
    }

    /** buscarComicPorCodigo: HashMap.get, None where Java returns null. */
    method BuscarComicPorCodigo(codigo: string) returns (c: Option<Comic>)
      ensures c.Some? <==> codigo in inventario
      ensures c.Some? ==> c.value == inventario[codigo]
    {
      c := if codigo in inventario then Some(inventario[codigo]) else None;
    }

    /** buscarUsuarioPorRut: HashMap.get, None where Java returns null. */
    method BuscarUsuarioPorRut(rut: string) returns (u: Option<Usuario>)
      ensures u.Some? <==> rut in usuarios
      ensures u.Some? ==> u.value == usuarios[rut]
    {
      u := if rut in usuarios then Some(usuarios[rut]) else None;
    }

    /** actualizarRankingUsuarios: remove, then add back; as a set of users, the ranking afterwards holds the user. */
    method ActualizarRankingUsuarios(usuario: Usuario)
      modifies this`rankingUsuarios
      ensures rankingUsuarios == old(rankingUsuarios) + {usuario}
    {
      rankingUsuarios := rankingUsuarios - {usuario};
      rankingUsuarios := rankingUsuarios + {usuario};
    }

    /** registrarUsuario: six checks, then the user is filed under the RUT with a formatted name and written to usuarios.txt. */
    method RegistrarUsuario(rut: Option<string>, nombre: Option<string>, email: Option<string>, celular: Option<string>)
      returns (r: Outcome, registro: Option<string>)
      modifies this`usuarios, this`emailsRegistrados
      ensures r == VerificarRegistro(rut, nombre, email, celular, old(emailsRegistrados))
      ensures r.Pass? ==> (rut.Some? && email.Some? && celular.Some? && rut.value in usuarios &&
        usuarios == old(usuarios)[rut.value := usuarios[rut.value]] &&
        emailsRegistrados == old(emailsRegistrados) + {email.value})
      ensures r.Pass? ==> var u := usuarios[rut.value];
        fresh(u) && u.rut == rut.value && u.nombre == NombreFormateado(nombre) && u.email == email.value &&
        u.celular == celular.value && u.historialReservas == [] && u.historialCompras == [] &&
        registro == Some(LineaUsuario(FilaUsuario(u.rut, u.nombre, u.email, u.celular)))
      ensures r.Fail? ==> usuarios == old(usuarios) && emailsRegistrados == old(emailsRegistrados) && registro == None
      ensures old(UsuariosConsistentes()) ==> UsuariosConsistentes()
    {
      registro := None;
      var verificado := VerificarRegistro(rut, nombre, email, celular, emailsRegistrados);
      if verificado != Pass {
        return verificado, None;
      }
      registro := Inscribir(rut.value, nombre, email.value, celular.value);
      r := Pass;
    }

    /** The second half of registrarUsuario: a new user filed under the RUT, the email registered, the line to append. */
    method Inscribir(rut: string, nombre: Option<string>, email: string, celular: string) returns (registro: Option<string>)
      modifies this`usuarios, this`emailsRegistrados
      ensures rut in usuarios && usuarios == old(usuarios)[rut := usuarios[rut]]
      ensures emailsRegistrados == old(emailsRegistrados) + {email}
      ensures var u := usuarios[rut];
        fresh(u) && u.rut == rut && u.nombre == NombreFormateado(nombre) && u.email == email &&
        u.celular == celular && u.historialReservas == [] && u.historialCompras == [] &&
        registro == Some(LineaUsuario(FilaUsuario(u.rut, u.nombre, u.email, u.celular)))
      ensures old(UsuariosConsistentes()) ==> UsuariosConsistentes()
    {
      var formateado := FormatearNombre(nombre);
      var usuario := new Usuario(rut, formateado, email, celular);
      usuarios := usuarios[rut := usuario];
      emailsRegistrados := emailsRegistrados + {email};
      registro := Some(LineaUsuario(FilaUsuario(usuario.rut, usuario.nombre, usuario.email, usuario.celular)));
    }

    /** generarNuevoCodigo: increments the counter (an int, so it wraps) and renders it with "%03d". */
    method GenerarNuevoCodigo() returns (codigo: string)
      modifies this`ultimoCodigoProducto
      ensures ultimoCodigoProducto == Wrap(old(ultimoCodigoProducto) + 1)
      ensures codigo == Format03(ultimoCodigoProducto)
      ensures old(CodigosAcotados()) && old(ultimoCodigoProducto) < MAX ==>
        codigo !in inventario && Acotados(inventario.Keys + {codigo}, ultimoCodigoProducto)
    {
      if CodigosAcotados() && ultimoCodigoProducto < MAX {
        CodigoGeneradoEsNuevo(inventario.Keys, ultimoCodigoProducto);
      }
      ultimoCodigoProducto := Wrap(ultimoCodigoProducto + 1);
      codigo := Format03(ultimoCodigoProducto);
    }

    /** agregarComic: four checks, then a fresh code, the list, the inventory and the date set. */
    method AgregarComic(nuevoComic: Comic) returns (r: Outcome)
      modifies this`ultimoCodigoProducto, this`comics, this`inventario, this`fechasLanzamiento, nuevoComic`codigo
      ensures r == VerificarComic(nuevoComic.nombre, nuevoComic.autorOFabricante, nuevoComic.cantidadDisponible,
                                  nuevoComic.precio)
      ensures r.Pass? ==> (ultimoCodigoProducto == Wrap(old(ultimoCodigoProducto) + 1) &&
        nuevoComic.codigo == Some(Format03(ultimoCodigoProducto)) &&
        comics == old(comics) + [nuevoComic] &&
        inventario == old(inventario)[Format03(ultimoCodigoProducto) := nuevoComic] &&
        fechasLanzamiento == old(fechasLanzamiento) + FechaDe(nuevoComic.fechaLlegada))
      ensures r.Fail? ==> (ultimoCodigoProducto == old(ultimoCodigoProducto) && nuevoComic.codigo == old(nuevoComic.codigo) &&
        comics == old(comics) && inventario == old(inventario) && fechasLanzamiento == old(fechasLanzamiento))
      ensures r.Pass? && old(CodigosAcotados()) && old(ultimoCodigoProducto) < MAX ==>
        Format03(ultimoCodigoProducto) !in old(inventario) && CodigosAcotados()
      ensures old(StockNoNegativo(inventario)) ==> StockNoNegativo(inventario)
    {
      var verificado := VerificarComic(nuevoComic.nombre, nuevoComic.autorOFabricante,
                                       nuevoComic.cantidadDisponible, nuevoComic.precio);
      if verificado != Pass {
        return verificado;
      }
      Catalogar(nuevoComic);
      r := Pass;
    }

    /** The second half of agregarComic: a fresh code, then the list, the inventory and the date set. */
    method Catalogar(nuevoComic: Comic)
      modifies this`ultimoCodigoProducto, this`comics, this`inventario, this`fechasLanzamiento, nuevoComic`codigo
      ensures ultimoCodigoProducto == Wrap(old(ultimoCodigoProducto) + 1)
      ensures nuevoComic.codigo == Some(Format03(ultimoCodigoProducto))
      ensures comics == old(comics) + [nuevoComic]
      ensures inventario == old(inventario)[Format03(ultimoCodigoProducto) := nuevoComic]
      ensures fechasLanzamiento == old(fechasLanzamiento) + FechaDe(nuevoComic.fechaLlegada)
      ensures old(CodigosAcotados()) && old(ultimoCodigoProducto) < MAX ==>
        Format03(ultimoCodigoProducto) !in old(inventario) && CodigosAcotados()
      ensures old(StockNoNegativo(inventario)) && nuevoComic.cantidadDisponible >= 0 ==> StockNoNegativo(inventario)
    {
      var nuevoCodigo := GenerarNuevoCodigo();
      nuevoComic.SetCodigo(nuevoCodigo);
      comics := comics + [nuevoComic];
      inventario := inventario[nuevoCodigo := nuevoComic];
      if nuevoComic.fechaLlegada.Some? {
        fechasLanzamiento := fechasLanzamiento + {nuevoComic.fechaLlegada.value};
      }
    }

    /** eliminarComic: false for an unknown code; otherwise the item leaves the list, the inventory, the reserved codes and the date set. */
    method EliminarComic(codigo: string) returns (eliminado: bool)
      modifies this`comics, this`inventario, this`productosReservados, this`fechasLanzamiento
      ensures eliminado <==> codigo in old(inventario)
      ensures !eliminado ==> (comics == old(comics) && inventario == old(inventario) &&
        productosReservados == old(productosReservados) && fechasLanzamiento == old(fechasLanzamiento))
      ensures eliminado ==> var c := old(inventario[codigo]);
        comics == QuitarPrimero(old(comics), c) && inventario == old(inventario) - {codigo} &&
        productosReservados == old(productosReservados) - {codigo} &&
        fechasLanzamiento == old(fechasLanzamiento) - FechaDe(c.fechaLlegada)
      ensures old(CodigosAcotados()) ==> CodigosAcotados()
      ensures old(StockNoNegativo(inventario)) ==> StockNoNegativo(inventario)
    {
      var comic := BuscarComicPorCodigo(codigo);
      if comic.None? {
        return false;
      }
      var c := comic.value;
      comics := QuitarPrimero(comics, c);
      inventario := inventario - {codigo};
      productosReservados := productosReservados - {codigo};
      if c.fechaLlegada.Some? {
        fechasLanzamiento := fechasLanzamiento - {c.fechaLlegada.value};
      }
      eliminado := true;
    }

    /** realizarCompra: five checks, then the stock goes down, the purchase is recorded and the ranking updated. */
    method RealizarCompra(rutUsuario: string, codigoComic: string, cantidad: Int32, hoy: Fecha) returns (r: Outcome)
      modifies this`rankingUsuarios
      modifies (if codigoComic in inventario then {inventario[codigoComic]} else {})`cantidadDisponible
      modifies (if rutUsuario in usuarios then {usuarios[rutUsuario]} else {})`historialCompras
      ensures r == DecidirCompra(cantidad, rutUsuario in usuarios, old(ProductoEn(inventario, codigoComic)), hoy)
      ensures r.Pass? ==> var c, u := inventario[codigoComic], usuarios[rutUsuario];
        c.cantidadDisponible == old(c.cantidadDisponible) - cantidad &&
        u.historialCompras == old(u.historialCompras) + [ReservaCompra(c, cantidad)] &&
        u.Total() == Wrap(old(u.Total()) + cantidad) &&
        rankingUsuarios == old(rankingUsuarios) + {u}
      ensures r.Fail? ==> (rankingUsuarios == old(rankingUsuarios) &&
        (codigoComic in inventario ==> inventario[codigoComic].cantidadDisponible == old(inventario[codigoComic].cantidadDisponible)) &&
        (rutUsuario in usuarios ==> usuarios[rutUsuario].historialCompras == old(usuarios[rutUsuario].historialCompras)))
      ensures old(StockNoNegativo(inventario)) ==> StockNoNegativo(inventario)
    {
      var usuario := BuscarUsuarioPorRut(rutUsuario);
      var comic := BuscarComicPorCodigo(codigoComic);
      r := ValidarNoNegativo(cantidad, "cantidad a comprar");
      if !r.Pass? {
        return;
      }
      if usuario.None? {
        return Fail(UsuarioNoEncontrado);
      }
      if comic.None? {
        return Fail(ProductoNoEncontrado);
      }
      var c, u := comic.value, usuario.value;
      if c.fechaLlegada.Some? && c.fechaLlegada.value > hoy {
        return Fail(NoDisponibleParaVenta);
      }
      if c.cantidadDisponible < cantidad {
        return Fail(StockInsuficiente);
      }
      c.SetCantidadDisponible(Sub(c.cantidadDisponible, cantidad));
      u.AgregarCompra(c, cantidad);
      ActualizarRankingUsuarios(u);
    }

    /**
     * hacerReserva: four checks, then the stock goes down by the quantity (int arithmetic),
     * the code is marked reserved, the reservation is recorded and written to reservas.txt.
     */
    method HacerReserva(rutUsuario: string, codigoComic: string, cantidad: Int32, hoy: Fecha)
      returns (r: Outcome, registro: Option<string>)
      modifies this`productosReservados
      modifies (if codigoComic in inventario then {inventario[codigoComic]} else {})`cantidadDisponible
      modifies (if rutUsuario in usuarios then {usuarios[rutUsuario]} else {})`historialReservas
      ensures r == DecidirReserva(cantidad, rutUsuario in usuarios, old(ProductoEn(inventario, codigoComic)), hoy)
      ensures r.Pass? ==> var c, u := inventario[codigoComic], usuarios[rutUsuario];
        c.cantidadDisponible == Sub(old(c.cantidadDisponible), cantidad) &&
        u.historialReservas == old(u.historialReservas) + [ReservaCompra(c, cantidad)] &&
        productosReservados == old(productosReservados) + {codigoComic} &&
        registro == Some(LineaReserva(FilaReserva(u.rut, codigoComic, cantidad)))
      ensures r.Fail? ==> (productosReservados == old(productosReservados) && registro == None &&
        (codigoComic in inventario ==> inventario[codigoComic].cantidadDisponible == old(inventario[codigoComic].cantidadDisponible)) &&
        (rutUsuario in usuarios ==> usuarios[rutUsuario].historialReservas == old(usuarios[rutUsuario].historialReservas)))
      ensures (old(StockNoNegativo(inventario)) &&
        (codigoComic in inventario ==> old(inventario[codigoComic].cantidadDisponible) - cantidad <= MAX)) ==>
        StockNoNegativo(inventario)
    {
      registro := None;
      var usuario := BuscarUsuarioPorRut(rutUsuario);
      var comic := BuscarComicPorCodigo(codigoComic);
      if usuario.None? {
        return Fail(UsuarioNoEncontrado), None;
      }
      if comic.None? {
        return Fail(ProductoNoEncontrado), None;
      }
      var c, u := comic.value, usuario.value;
      if c.fechaLlegada.None? || c.fechaLlegada.value < hoy {
        return Fail(NoEnPreventa), None;
      }
      if c.cantidadDisponible < cantidad {
        return Fail(StockInsuficiente), None;
      }
      c.SetCantidadDisponible(Sub(c.cantidadDisponible, cantidad));
      productosReservados := productosReservados + {codigoComic};
      u.AgregarReserva(c, cantidad);
      registro := Some(LineaReserva(FilaReserva(u.rut, codigoComic, cantidad)));
      r := Pass;
    }
  
    /**
     * guardarInventarioActualizado: the first free comics_N.csv name from N = 2, then the
     * header and one row per product of the inventory, in the map's iteration order (any
     * order that takes every code once). Which names exist is a parameter, and so is how a
     * LocalDate and a double print; the lines are returned instead of written.
     */
    method GuardarInventarioActualizado(existentes: set<string>, mostrarFecha: Fecha -> string,
                                        mostrarPrecio: real -> string)
      returns (archivo: string, lineas: seq<string>, ghost orden: seq<string>, ghost filas: seq<FilaComic>)
      ensures archivo !in existentes
      ensures exists k {:trigger NombreSnapshot(k)} :: (k >= 2 && archivo == NombreSnapshot(k) && Ocupados(existentes, k))
      ensures |orden| == |filas| && (forall x :: x in orden <==> x in inventario)
      ensures forall i, j :: 0 <= i < j < |orden| ==> orden[i] != orden[j]
      ensures forall i :: 0 <= i < |orden| ==> filas[i] == FilaDe(inventario[orden[i]])
      ensures lineas == [CabeceraCsv()] + Renglones(filas, mostrarFecha, mostrarPrecio)
    {
      archivo := ElegirNombreSnapshot(existentes);
      lineas, orden, filas := VolcarInventario(inventario, mostrarFecha, mostrarPrecio);
    }
  }
}
