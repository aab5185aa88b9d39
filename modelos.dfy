/**
 * The records of package comiccollector.modelos. Comic is a product whose code and stock
 * the engine updates in place; ReservaCompra is an immutable (product, quantity) entry of
 * a history; Usuario is a customer whose purchase and reservation histories only grow,
 * with the purchase total and the comparator that orders the ranking.
 */
module Modelos {
  import opened Wrappers
  import opened JavaInt
  import JavaString

  /** A LocalDate as a day number: only the order of dates matters to the engine. */
  type Fecha = int

  // ---- Comic ----

  class Comic {
    /** None until the engine assigns one (toString shows "(pendiente)"). */
    var codigo: Option<string>
    const tipo: string
    const nombre: string
    const autorOFabricante: string
    var cantidadDisponible: Int32
    /** None: the product is already in the store ("En Tienda"). */
    const fechaLlegada: Option<Fecha>
    /** A double in the source; only its sign is ever examined. */
    const precio: real

    /** Stores the seven fields as given; nothing is validated. */
    constructor (codigo: Option<string>, tipo: string, nombre: string, autorOFabricante: string,
                 cantidadDisponible: Int32, fechaLlegada: Option<Fecha>, precio: real)
      ensures this.codigo == codigo && this.tipo == tipo && this.nombre == nombre
      ensures this.autorOFabricante == autorOFabricante && this.cantidadDisponible == cantidadDisponible
      ensures this.fechaLlegada == fechaLlegada && this.precio == precio
    {
      this.codigo := codigo;
      this.tipo := tipo;
      this.nombre := nombre;
      this.autorOFabricante := autorOFabricante;
      this.cantidadDisponible := cantidadDisponible;
      this.fechaLlegada := fechaLlegada;
      this.precio := precio;
    }

    method SetCodigo(codigo: string)
      modifies this`codigo
      ensures this.codigo == Some(codigo)
    {
      this.codigo := Some(codigo);
    }

    /** No bounds check: guarding the stock is the caller's job. */
    method SetCantidadDisponible(cantidad: Int32)
      modifies this`cantidadDisponible
      ensures cantidadDisponible == cantidad
    {
      cantidadDisponible := cantidad;
    }

    /** The code as toString renders it. */
    function TextoCodigo(): (r: string)
      reads this`codigo
      ensures codigo.None? ==> r == "(pendiente)"
      ensures codigo.Some? ==> r == codigo.value
    {
      if codigo.Some? then codigo.value else Pendiente()
    }

    /** The arrival date as toString renders it, given how a LocalDate prints. */
    function TextoFecha(mostrar: Fecha -> string): (r: string)
      ensures fechaLlegada.None? ==> r == "En Tienda"
      ensures fechaLlegada.Some? ==> r == mostrar(fechaLlegada.value)
    {
      if fechaLlegada.Some? then mostrar(fechaLlegada.value) else EnTienda()
    }
  }

  function Pendiente(): string {
    "(pendiente)"
  }

  function EnTienda(): string {
    "En Tienda"
  }

  /** A code the engine generates is never rendered as the placeholder of a missing code. */
  lemma CodigoGeneradoNoPendiente(n: Int32)
    ensures Format03(n) != Pendiente()
  {
    ParseFormat03(n);
    assert Pendiente()[0] == '(';
    assert ParseInt(Pendiente()) == None;
  }

  /** toString shows "(pendiente)" exactly for a comic without a code, once codes come from the generator. */
  lemma TextoCodigoPendiente(c: Comic)
    requires c.codigo.Some? ==> exists n {:trigger Format03(n)} :: MIN <= n <= MAX && c.codigo.value == Format03(n)
    ensures c.TextoCodigo() == Pendiente() <==> c.codigo.None?
  {
    if c.codigo.Some? {
      var n :| MIN <= n <= MAX && c.codigo.value == Format03(n);
      CodigoGeneradoNoPendiente(n);
    }
  }

  // ---- ReservaCompra ----

  /** One entry of a history: a product and a quantity. Any int is stored, zero and negatives included. */
  datatype ReservaCompra = ReservaCompra(comic: Comic, cantidad: Int32)

  /** The exact (unbounded) sum of the quantities of a history. */
  function SumaCantidades(h: seq<ReservaCompra>): int {
    if h == [] then 0 else SumaCantidades(h[..|h| - 1]) + h[|h| - 1].cantidad
  }

  lemma SumaCantidadesSnoc(h: seq<ReservaCompra>, x: ReservaCompra)
    ensures SumaCantidades(h + [x]) == SumaCantidades(h) + x.cantidad
  {
    assert (h + [x])[..|h|] == h;
  }

  /** A history's sum splits over concatenation. */
  lemma {:induction false} SumaCantidadesConcat(a: seq<ReservaCompra>, b: seq<ReservaCompra>)
    ensures SumaCantidades(a + b) == SumaCantidades(a) + SumaCantidades(b)
    decreases |b|
  {
    if b == [] {
      assert a + b == a;
    } else {
      var b' := b[..|b| - 1];
      assert a + b == (a + b') + [b[|b| - 1]];
      SumaCantidadesSnoc(a + b', b[|b| - 1]);
      SumaCantidadesConcat(a, b');
      assert b == b' + [b[|b| - 1]];
      SumaCantidadesSnoc(b', b[|b| - 1]);
    }
  }

  /** Java's running int total after one more entry: the wrapped sum, wrapped again with the new quantity. */
  lemma TotalTrasCompra(h: seq<ReservaCompra>, x: ReservaCompra)
    ensures Wrap(SumaCantidades(h + [x])) == Wrap(Wrap(SumaCantidades(h)) + x.cantidad)
  {
    SumaCantidadesSnoc(h, x);
    WrapAdd(SumaCantidades(h), x.cantidad);
  }

  // ---- Usuario ----

  class Usuario {
    const rut: string
    const nombre: string
    const email: string
    const celular: string
    /** Reservations (pre-orders), oldest first. */
    var historialReservas: seq<ReservaCompra>
    /** Purchases, oldest first. */
    var historialCompras: seq<ReservaCompra>

    constructor (rut: string, nombre: string, email: string, celular: string)
      ensures this.rut == rut && this.nombre == nombre && this.email == email && this.celular == celular
      ensures historialReservas == [] && historialCompras == []
    {
      this.rut := rut;
      this.nombre := nombre;
      this.email := email;
      this.celular := celular;
      historialReservas := [];
      historialCompras := [];
    }

    method AgregarReserva(comic: Comic, cantidad: Int32)
      modifies this`historialReservas
      ensures historialReservas == old(historialReservas) + [ReservaCompra(comic, cantidad)]
      ensures Total() == old(Total())
    {
      historialReservas := historialReservas + [ReservaCompra(comic, cantidad)];
    }

    method AgregarCompra(comic: Comic, cantidad: Int32)
      modifies this`historialCompras
      ensures historialCompras == old(historialCompras) + [ReservaCompra(comic, cantidad)]
      ensures Total() == Wrap(old(Total()) + cantidad)
    {
      TotalTrasCompra(historialCompras, ReservaCompra(comic, cantidad));
      historialCompras := historialCompras + [ReservaCompra(comic, cantidad)];
    }

    /** What totalCompras() returns: the quantities purchased, summed in 32-bit arithmetic. */
    function Total(): (r: Int32)
      reads this`historialCompras
      ensures historialCompras == [] ==> r == 0
      ensures MIN <= SumaCantidades(historialCompras) <= MAX ==> r == SumaCantidades(historialCompras)
    {
      Wrap(SumaCantidades(historialCompras))
    }

    /** totalCompras(): the accumulator loop over the purchase history. */
    method TotalCompras() returns (total: Int32)
      ensures total == Total()
    {
      total := 0;
      for i := 0 to |historialCompras|
        invariant total == Wrap(SumaCantidades(historialCompras[..i]))
      {
        TotalTrasCompra(historialCompras[..i], historialCompras[i]);
        assert historialCompras[..i + 1] == historialCompras[..i] + [historialCompras[i]];
        total := Wrap(total + historialCompras[i].cantidad);
      }
      assert historialCompras[..|historialCompras|] == historialCompras;
    }

    /** compareTo: by descending purchase total, then by RUT. */
    method CompareTo(otro: Usuario) returns (r: int)
      ensures r == CompararClaves(Total(), rut, otro.Total(), otro.rut)
    {
      var suyo := otro.TotalCompras();
      var propio := TotalCompras();
      var cmp := Compare(suyo, propio);
      if cmp != 0 {
        return cmp;
      }
      r := JavaString.CompareTo(rut, otro.rut);
    }
  }

  // ---- the ranking order ----

  /** The comparator on (total, rut) keys: Integer.compare of the totals reversed, then String.compareTo of the RUTs. */
  function CompararClaves(totalA: int, rutA: string, totalB: int, rutB: string): int {
    var cmp := Compare(totalB, totalA);
    if cmp != 0 then cmp else JavaString.CompareTo(rutA, rutB)
  }

  /** Two users compare as equal exactly when their totals and their RUTs coincide. */
  lemma CompararClavesCero(totalA: int, rutA: string, totalB: int, rutB: string)
    ensures CompararClaves(totalA, rutA, totalB, rutB) == 0 <==> totalA == totalB && rutA == rutB
  {
    JavaString.CompareToZero(rutA, rutB);
  }

  /** Swapping the two users negates the result, so the signs are opposite. */
  lemma CompararClavesAntisimetrico(totalA: int, rutA: string, totalB: int, rutB: string)
    ensures CompararClaves(totalA, rutA, totalB, rutB) == -CompararClaves(totalB, rutB, totalA, rutA)
  {
    JavaString.CompareToAntisymmetric(rutA, rutB);
  }

  /** A user ranks first exactly when they bought more, or as much with a lexicographically smaller RUT. */
  lemma CompararClavesNegativo(totalA: int, rutA: string, totalB: int, rutB: string)
    ensures CompararClaves(totalA, rutA, totalB, rutB) < 0 <==>
      totalA > totalB || (totalA == totalB && JavaString.LexLess(rutA, rutB))
  {
    JavaString.CompareToNegative(rutA, rutB);
  }

  /** The ranking order is transitive. */
  lemma CompararClavesTransitivo(ta: int, ra: string, tb: int, rb: string, tc: int, rc: string)
    requires CompararClaves(ta, ra, tb, rb) < 0 && CompararClaves(tb, rb, tc, rc) < 0
    ensures CompararClaves(ta, ra, tc, rc) < 0
  {
    if ta == tb && tb == tc {
      JavaString.CompareToTransitive(ra, rb, rc);
    }
  }
}
