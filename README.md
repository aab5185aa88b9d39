# ComicCollector store engine in Dafny

A model of the store engine of ComicCollector, a console application for a comic and
collectibles shop. `ComicCollectorSystem` keeps:

- a catalogue: the `comics` list, the `inventario` map from product code to product, and the
  set of arrival dates `fechasLanzamiento`;
- a user directory: `usuarios`, keyed by RUT (the Chilean national id), and the set of
  registered e-mail addresses;
- the set of reserved product codes;
- the purchase ranking;
- the counter that numbers new products (`ultimoCodigoProducto`).

Each public operation runs a fixed sequence of checks (the `ValidadorDatos` validators and
lookups) and changes the state only when every check passes. The model covers all of the following:

- the engine;
- its validators;
- the records it works on (`Comic`, whose code and stock are updated in place; `ReservaCompra`,
  an immutable product/quantity history entry; `Usuario`, with append-only histories, the
  purchase total and the ranking comparator);
- the loaders, which run as the engine is built;
- the line formats of `comics.csv`, `usuarios.txt` and `reservas.txt`;
- the choice of the inventory snapshot name.

Modules, one per concern:

| file | module | what it holds |
|---|---|---|
| `wrappers.dfy` | `Wrappers` | `Option` |
| `errores.dfy` | `Errores` | the exceptions as an `Error` datatype, and `Outcome` (pass, or fail with a cause) |
| `java_int.dfy` | `JavaInt` | Java `int` (32-bit wrap-around), `Integer.compare`, `parseInt`, `toString`, `"%03d"` |
| `java_string.dfy` | `JavaString` | `trim`, `\s`, ASCII case mapping, `split("\\s+")`, `split` on one literal character, `compareTo`, `indexOf` |
| `validador_datos.dfy` | `ValidadorDatos` | the validators and `formatearNombre` |
| `modelos.dfy` | `Modelos` | classes `Comic` and `Usuario`, datatype `ReservaCompra`, the ranking comparator |
| `persistencia.dfy` | `Persistencia` | line parse/print for the three files, and the `comics_N.csv` name |
| `carga.dfy` | `Carga` | what the loaders compute, as functions of the rows read, and the lemmas about it |
| `sistema.dfy` | `Sistema` | the decisions of each operation, and class `ComicCollectorSystem` |

Dates are day numbers (`int`). Today's date is a parameter of the purchase and reservation
operations. Stock, quantities, purchase totals and the code counter are Java `int`s and
wrap around explicitly. Prices are reals; only their sign is ever examined. A Java `null`
is `None`.

The engine's state lives in its fields, updated in place by the methods:

- the list and maps are `seq` and `map` fields;
- the hash and tree sets are `set` fields;
- the ranking `TreeSet` is the set of its members.

Each method is specified against pure functions. For example, `RealizarCompra` returns
exactly what `DecidirCompra` decides, and says what changes when that outcome is `Pass`
and that nothing changes when it fails. Lemmas then state, for all inputs, the properties
of those functions: error precedence, stock bounds, fresh product codes, round-trips of
the file formats, and the laws of the ranking order.

The order of the checks follows the code:

- A purchase rejects a negative quantity first, then an unknown user, then an unknown
  product, then a product arriving after today, then insufficient stock.
- A reservation never checks the quantity's sign. It rejects an unknown user, then an
  unknown product, then a product without a date or dated before today, then insufficient
  stock. It never consults the set of reserved codes, so `ProductoYaReservado` is never
  produced.
- A product arriving exactly today can be both bought and reserved, since both date tests
  are strict (`VendibleYEnPreventa`).
- Removing a product drops its date from the date set even when another product shares
  that date.
- Registering a user never checks whether the RUT is already taken: an existing entry is
  overwritten.

## Model

| member | source | states |
|---|---|---|
| `ValidadorDatos.ValidarRut` | src/comiccollector/servicios/ValidadorDatos.java:20-24 | passes exactly for a non-null string of the RUT pattern (1-2 digits, dot, 3 digits, dot, 3 digits, dash, digit or k or K), fails with `RutInvalido` otherwise; an accepted RUT is 11 or 12 characters long |
| `ValidadorDatos.EsRutCoincide` | src/comiccollector/servicios/ValidadorDatos.java:13 | the position-by-position test used for the RUT holds iff the string is the concatenation of pieces of the pattern (both directions) |
| `ValidadorDatos.RutTextoPartes` | src/comiccollector/servicios/ValidadorDatos.java:13 | a RUT assembled from pieces passes the positional test iff every piece has the required characters |
| `ValidadorDatos.ValidarNoVacio` | src/comiccollector/servicios/ValidadorDatos.java:27-31 | passes iff the value is non-null and not made only of characters up to U+0020; otherwise fails naming the field |
| `ValidadorDatos.ValidarNoNegativo` | src/comiccollector/servicios/ValidadorDatos.java:34-38 | passes iff the int is at least 0, else fails naming the field |
| `ValidadorDatos.ValidarNoNegativoReal` | src/comiccollector/servicios/ValidadorDatos.java:40-44 | the same for the double overload |
| `ValidadorDatos.ValidarCelular` | src/comiccollector/servicios/ValidadorDatos.java:47-51 | passes iff the value is exactly eight ASCII digits, else `CelularInvalido` |
| `ValidadorDatos.CelularEsNumero` | src/comiccollector/servicios/ValidadorDatos.java:17 | an accepted phone number reads as an int in [0, 10^8) |
| `ValidadorDatos.ValidarEmailUnico` | src/comiccollector/servicios/ValidadorDatos.java:54-61 | a registered address fails with `EmailYaRegistrado` whatever its shape (exact membership); otherwise it passes iff non-null and matching the e-mail pattern, else `EmailInvalido` |
| `ValidadorDatos.EsEmailCoincide` | src/comiccollector/servicios/ValidadorDatos.java:15 | the positional e-mail test (first `@`, last `.`) holds iff the string is local part + `@` + domain + `.` + two or more word characters, with local part and domain non-empty runs of `[\w.-]` |
| `ValidadorDatos.FormatearNombre` | src/comiccollector/servicios/ValidadorDatos.java:64-78 | the method returns `NombreFormateado`: `""` for null, otherwise the words of the trimmed lower-cased name, each capitalised and followed by a space, trimmed |
| `ValidadorDatos.AnexarPalabras` | src/comiccollector/servicios/ValidadorDatos.java:67-76 | the StringBuilder loop appends, for each non-empty piece in order, the capitalised piece and one space |
| `ValidadorDatos.NoVaciasSplitSpaces` | src/comiccollector/servicios/ValidadorDatos.java:66-69 | skipping the empty pieces of `split("\\s+")` visits exactly the \s-separated words |
| `ValidadorDatos.NombreFormateadoVacio` | src/comiccollector/servicios/ValidadorDatos.java:64-78 | the result is `""` iff the name is null or made only of characters up to U+0020 |
| `ValidadorDatos.NombreFormateadoJoin` | src/comiccollector/servicios/ValidadorDatos.java:64-78 | for a printable name the result is its capitalised words joined by single spaces, so it has no leading or trailing blank |
| `ValidadorDatos.NombreFormateadoPalabras` | src/comiccollector/servicios/ValidadorDatos.java:64-78 | splitting the result on \s gives back the input's words, each with a non-lower-case first character and no ASCII capital after it |
| `ValidadorDatos.NombreFormateadoIdempotente` | src/comiccollector/servicios/ValidadorDatos.java:64-78 | formatting a formatted printable name gives it unchanged |
| `ValidadorDatos.NombreFormateadoEjemplo` | src/comiccollector/servicios/ValidadorDatos.java:64-78 | `"  ana  PEREZ "` is formatted to `"Ana Perez"` |
| `JavaString.Trim` | src/comiccollector/servicios/ValidadorDatos.java:28 | `trim()` leaves a string that is empty or starts and ends above U+0020 |
| `JavaString.Split` | src/comiccollector/servicios/ComicCollectorSystem.java:69 | `split` on one literal character: no piece holds the separator, and a string without it comes back whole |
| `JavaString.SplitJoin` | src/comiccollector/servicios/ComicCollectorSystem.java:69 | splitting on a character fields joined by it gives the fields back, when no field holds it and the last is non-empty |
| `JavaString.CompareTo` | src/comiccollector/modelos/Usuario.java:74 | `String.compareTo`; when one string is a prefix of the other the result is the difference of the lengths |
| `JavaString.CompareToNegative` | src/comiccollector/modelos/Usuario.java:74 | `compareTo` is negative iff the first string is lexicographically smaller (a proper prefix, or smaller at the first difference) |
| `JavaString.CompareToZero` | src/comiccollector/modelos/Usuario.java:74 | `String.compareTo` is 0 iff the strings are equal |
| `JavaString.CompareToAntisymmetric` | src/comiccollector/modelos/Usuario.java:74 | swapping the strings negates `compareTo` |
| `JavaString.CompareToTransitive` | src/comiccollector/modelos/Usuario.java:74 | a negative `compareTo` is transitive |
| `JavaInt.ParseInt` | src/comiccollector/servicios/ComicCollectorSystem.java:75 | what `Integer.parseInt` accepts is an optional sign then ASCII digits only, a negative result only after `-` and a positive one never; out-of-range values are refused |
| `JavaInt.Format03` | src/comiccollector/servicios/ComicCollectorSystem.java:174 | `String.format("%03d")` renders at least three characters, starting with `-` iff the number is negative |
| `JavaInt.ParseFormat03` | src/comiccollector/servicios/ComicCollectorSystem.java:172-175 | `parseInt` of the `"%03d"` rendering of an int gives that int back |
| `JavaInt.ParseToString` | src/comiccollector/servicios/ComicCollectorSystem.java:248 | `parseInt` of a printed int gives it back |
| `JavaInt.WrapAdd` | src/comiccollector/modelos/Usuario.java:61-67 | adding to a wrapped int and wrapping again equals wrapping the exact sum |
| `Modelos.Comic.constructor` | src/comiccollector/modelos/Comic.java:18-26 | all seven fields stored as given, none validated |
| `Modelos.Comic.SetCodigo` | src/comiccollector/modelos/Comic.java:51-53 | sets the code; may change nothing but the code |
| `Modelos.Comic.SetCantidadDisponible` | src/comiccollector/modelos/Comic.java:55-57 | sets the stock, with no bounds check; may change nothing but the stock |
| `Modelos.Comic.TextoCodigo` | src/comiccollector/modelos/Comic.java:62 | the code as `toString` renders it: the code, or `"(pendiente)"` when it is null |
| `Modelos.Comic.TextoFecha` | src/comiccollector/modelos/Comic.java:67 | the arrival date as `toString` renders it: the printed date, or `"En Tienda"` when it is null |
| `Modelos.CodigoGeneradoNoPendiente` | src/comiccollector/modelos/Comic.java:62 | no `"%03d"` code equals the placeholder `"(pendiente)"` |
| `Modelos.TextoCodigoPendiente` | src/comiccollector/modelos/Comic.java:62 | a comic whose code, if any, was generated renders `"(pendiente)"` iff it has no code |
| `Modelos.Usuario.constructor` | src/comiccollector/modelos/Usuario.java:17-24 | stores the four fields; both histories empty |
| `Modelos.Usuario.AgregarReserva` | src/comiccollector/modelos/Usuario.java:51-53 | appends exactly one (comic, quantity) entry to the reservations; purchases and their total unchanged |
| `Modelos.Usuario.AgregarCompra` | src/comiccollector/modelos/Usuario.java:56-58 | appends exactly one entry to the purchases; the total grows by the quantity in int arithmetic; reservations unchanged |
| `Modelos.Usuario.Total` | src/comiccollector/modelos/Usuario.java:61-67 | the value of `totalCompras()`: 0 for no purchases, and the exact sum of the quantities whenever it fits in an int |
| `Modelos.Usuario.TotalCompras` | src/comiccollector/modelos/Usuario.java:61-67 | the accumulator loop returns the sum of the purchased quantities, wrapped to an int |
| `Modelos.TotalTrasCompra` | src/comiccollector/modelos/Usuario.java:61-67 | the running int total after one more entry is the wrapped exact sum |
| `Modelos.SumaCantidadesConcat` | src/comiccollector/modelos/Usuario.java:61-67 | the sum of a history splits over concatenation |
| `Modelos.Usuario.CompareTo` | src/comiccollector/modelos/Usuario.java:71-75 | returns the comparator on (total, RUT): totals compared in reverse, then RUTs with `String.compareTo` |
| `Modelos.CompararClavesCero` | src/comiccollector/modelos/Usuario.java:71-75 | the comparator is 0 iff totals and RUTs are both equal |
| `Modelos.CompararClavesAntisimetrico` | src/comiccollector/modelos/Usuario.java:71-75 | swapping the two users negates the result |
| `Modelos.CompararClavesNegativo` | src/comiccollector/modelos/Usuario.java:71-75 | a user ranks first iff they bought more, or the same with a lexicographically smaller RUT |
| `Modelos.CompararClavesTransitivo` | src/comiccollector/modelos/Usuario.java:71-75 | the ranking order is transitive |
| `Persistencia.LeerFilaComic` | src/comiccollector/servicios/ComicCollectorSystem.java:69-77 | a comics.csv line with fewer than 7 comma fields is skipped; it ends the load iff the quantity does not parse as an int, the date field is not `"null"` and does not parse, or the price does not parse; otherwise the row holds fields 0-3, the parsed quantity, no date for `"null"` and else the parsed date, and the parsed price |
| `Persistencia.LeerLineaComic` | src/comiccollector/servicios/ComicCollectorSystem.java:275-283 | a snapshot row printed by guardarInventarioActualizado reads back as the same row, when no text field holds a comma and dates and prices print as tokens that parse back |
| `Persistencia.LeerFilaUsuario` | src/comiccollector/servicios/ComicCollectorSystem.java:102-104 | a usuarios.txt line is read iff it has at least four `|` fields, and then holds the first four |
| `Persistencia.LeerLineaUsuario` | src/comiccollector/servicios/ComicCollectorSystem.java:164 | the line guardarUsuarioEnArchivo appends reads back as the same user, when no field holds `|` and the phone is non-empty |
| `Persistencia.LeerFilaReserva` | src/comiccollector/servicios/ComicCollectorSystem.java:118-122 | a reservas.txt line is skipped iff it has fewer than three fields, ends the load iff the third does not parse as an int, and otherwise holds RUT, code and quantity |
| `Persistencia.LeerLineaReserva` | src/comiccollector/servicios/ComicCollectorSystem.java:248 | the line guardarReservaEnArchivo appends reads back as the same reservation, when RUT and code hold no `|` |
| `Persistencia.NombreSnapshotInyectivo` | src/comiccollector/servicios/ComicCollectorSystem.java:266 | different suffixes give different `comics_N.csv` names |
| `Persistencia.CuentaOcupados` | src/comiccollector/servicios/ComicCollectorSystem.java:264-268 | if suffixes 2 .. n-1 all name existing files there are at least n-2 existing names (why the search ends) |
| `Persistencia.ElegirNombreSnapshot` | src/comiccollector/servicios/ComicCollectorSystem.java:263-268 | the do-while returns a name that does not exist, `comics_k.csv` for the smallest k >= 2 with that property |
| `Carga.FilasComic` | src/comiccollector/servicios/ComicCollectorSystem.java:62-95 | the rows cargarComicsDesdeCSV reads from the lines after the header: short lines skipped, the load ending at the first line that fails to parse; never more rows than lines |
| `Carga.Paso` | src/comiccollector/servicios/ComicCollectorSystem.java:84-89 | the counter after one loaded code never decreases, reaches the code's value when it is numeric, and is either unchanged or that value |
| `Carga.MaxCodigoEsMaximo` | src/comiccollector/servicios/ComicCollectorSystem.java:84-89 | after a load the counter is at least its start and every numeric loaded code, and equals the start or one of them |
| `Carga.AcotadosCarga` | src/comiccollector/servicios/ComicCollectorSystem.java:84-89 | if no numeric key exceeded the counter before a load, none exceeds it after |
| `Carga.CargaSnoc` | src/comiccollector/servicios/ComicCollectorSystem.java:78-89 | one more row adds its code to the codes, its date (if any) to the dates, and takes the counter one step |
| `Carga.CatalogadoSnoc` | src/comiccollector/servicios/ComicCollectorSystem.java:78-89 | appending, indexing and dating the comic of one more row keeps list, map, date set and counter equal to what the rows so far determine |
| `Carga.RepresentanSnoc` | src/comiccollector/servicios/ComicCollectorSystem.java:78 | one more comic built from one more row keeps every comic built from its row |
| `Carga.IndiceEn` | src/comiccollector/servicios/ComicCollectorSystem.java:136-140 | after putting each comic under its code, a code maps to the last comic that holds it, and other keys keep their old entry |
| `Carga.IndiceIdempotente` | src/comiccollector/servicios/ComicCollectorSystem.java:136-140 | putting the same comics a second time changes nothing |
| `Carga.PonerIndice` | src/comiccollector/servicios/ComicCollectorSystem.java:136-140 | for comics built from rows, putting by their codes is putting by the rows' codes |
| `Carga.PonerIdempotente` | src/comiccollector/servicios/ComicCollectorSystem.java:53-58 | refreshing the index with the comics just loaded from rows gives the same map |
| `Carga.Renglones` | src/comiccollector/servicios/ComicCollectorSystem.java:273-284 | one snapshot line per row, line i printed from row i |
| `Carga.RenglonesSnoc` | src/comiccollector/servicios/ComicCollectorSystem.java:273-284 | one more row puts one more line at the end |
| `Carga.RecargarInventario` | src/comiccollector/servicios/ComicCollectorSystem.java:262-289 | loading a snapshot (header, then one line per row) gives back exactly the rows, when each row survives printing |
| `Carga.FilasUsuario` | src/comiccollector/servicios/ComicCollectorSystem.java:97-112 | the users cargarUsuariosDesdeTxt reads: one row per line with four fields, never more rows than lines |
| `Carga.UltimaFila` | src/comiccollector/servicios/ComicCollectorSystem.java:105 | the last row for a RUT, whose user stays filed since each put replaces the previous one, is a row with that RUT |
| `Carga.UltimaFilaRuts` | src/comiccollector/servicios/ComicCollectorSystem.java:103-106 | a RUT has a last row iff some row holds it, and that row's address is among the loaded addresses |
| `Carga.UsuarioSnoc` | src/comiccollector/servicios/ComicCollectorSystem.java:103-107 | one more row adds its RUT and address, and becomes the last row for its RUT |
| `Carga.CargadosSnoc` | src/comiccollector/servicios/ComicCollectorSystem.java:103-107 | filing the user of one more row keeps every filed user equal to the last row for its RUT |
| `Carga.CargadosDesdeCero` | src/comiccollector/servicios/ComicCollectorSystem.java:97-112 | loaded into an empty directory, the keys are exactly the loaded RUTs and each user is its last row with empty histories |
| `Carga.HistorialesVacios` | src/comiccollector/servicios/ComicCollectorSystem.java:104 | right after the users load, every reservation history is empty |
| `Carga.LineasUsuario` | src/comiccollector/servicios/ComicCollectorSystem.java:164 | one usuarios.txt line per user, line i printed from user i |
| `Carga.RecargarUsuarios` | src/comiccollector/servicios/ComicCollectorSystem.java:162-168 | the users appended to usuarios.txt load back as exactly those rows |
| `Carga.FilasReserva` | src/comiccollector/servicios/ComicCollectorSystem.java:114-134 | the reservations read: short lines skipped, a bad quantity ends the load; never more rows than lines |
| `Carga.ReservaSnoc` | src/comiccollector/servicios/ComicCollectorSystem.java:119-128 | one more row reserves its code and can add an entry only to its own RUT's history |
| `Carga.AnotarEn` | src/comiccollector/servicios/ComicCollectorSystem.java:123-128 | applying one more row keeps every history equal to its start followed by the entries the rows give it |
| `Carga.EntradasDelInventario` | src/comiccollector/servicios/ComicCollectorSystem.java:124-128 | a loaded reservation always names a product of the inventory, and each row gives at most one entry |
| `Carga.LineasReserva` | src/comiccollector/servicios/ComicCollectorSystem.java:248 | one reservas.txt line per reservation, line i printed from reservation i |
| `Carga.RecargarReservas` | src/comiccollector/servicios/ComicCollectorSystem.java:246-252 | the reservations appended to reservas.txt load back as exactly those rows |
| `Sistema.DecidirCompra` | src/comiccollector/servicios/ComicCollectorSystem.java:212-222 | a purchase passes iff quantity >= 0, the user and the product exist, the product arrives today or earlier (or has no date) and the quantity is at most the stock |
| `Sistema.CompraErrores` | src/comiccollector/servicios/ComicCollectorSystem.java:214-222 | each purchase error happens iff its own check fails and every earlier one passed: negative quantity, user, product, date, stock |
| `Sistema.CompraAcotada` | src/comiccollector/servicios/ComicCollectorSystem.java:220-223 | after a passed purchase the new stock is between 0 and the old stock |
| `Sistema.DecidirReserva` | src/comiccollector/servicios/ComicCollectorSystem.java:230-239 | a reservation passes iff the user and the product exist, the product has a date not before today, and the quantity (of any sign) is at most the stock; `ProductoYaReservado` never results |
| `Sistema.ReservaErrores` | src/comiccollector/servicios/ComicCollectorSystem.java:232-239 | each reservation error happens iff its own check fails and every earlier one passed: user, product, date, stock |
| `Sistema.VendibleYEnPreventa` | src/comiccollector/servicios/ComicCollectorSystem.java:217-234 | a product can be bought and reserved at once iff it arrives exactly today |
| `Sistema.ReservaAcotada` | src/comiccollector/servicios/ComicCollectorSystem.java:237-240 | a passed reservation leaves a stock >= 0 whenever the exact difference fits in an int |
| `Sistema.ReservaNegativaDesborda` | src/comiccollector/servicios/ComicCollectorSystem.java:237-240 | a quantity of -1 passes and raises the stock; on a stock of 2^31-1 the int subtraction wraps to -2^31 |
| `Sistema.VerificarRegistro` | src/comiccollector/servicios/ComicCollectorSystem.java:146-151 | registration passes iff all six validators pass; an invalid RUT is reported first; any failure is one of the validators' errors |
| `Sistema.RegistroErrores` | src/comiccollector/servicios/ComicCollectorSystem.java:146-151 | each registration error happens iff its own check fails and every earlier one passed: RUT, then name, e-mail and phone present, then the phone's eight digits, then the address already registered, then its format |
| `Sistema.RegistroDuplicado` | src/comiccollector/servicios/ComicCollectorSystem.java:146-151 | with the other fields valid, a registered address is refused as a duplicate even when malformed |
| `Sistema.VerificarComic` | src/comiccollector/servicios/ComicCollectorSystem.java:178-181 | adding passes iff name and producer are non-blank and stock and price are non-negative; any failure is one of the four field errors |
| `Sistema.ComicErrores` | src/comiccollector/servicios/ComicCollectorSystem.java:178-181 | each error of adding a comic happens iff its own check fails and every earlier one passed: blank name, blank producer, negative stock, negative price |
| `Sistema.CodigoGeneradoEsNuevo` | src/comiccollector/servicios/ComicCollectorSystem.java:172-175 | below the top of the int range, the next generated code is not a key, and the bound holds again with it added |
| `Sistema.QuitarPrimero` | src/comiccollector/servicios/ComicCollectorSystem.java:197 | `List.remove(Object)`: one element shorter when the object occurs, the same list otherwise |
| `Sistema.QuitarPrimeroMultiset` | src/comiccollector/servicios/ComicCollectorSystem.java:197 | `List.remove(Object)` takes out exactly one copy when there is one, and leaves the list as it was otherwise |
| `Sistema.QuitarPrimeroCorte` | src/comiccollector/servicios/ComicCollectorSystem.java:197 | it cuts the list at the first position holding the object |
| `Sistema.VolcarInventario` | src/comiccollector/servicios/ComicCollectorSystem.java:273-284 | the header, then one line per inventory entry, taking every code exactly once |
| `Sistema.ComicCollectorSystem.constructor` | src/comiccollector/servicios/ComicCollectorSystem.java:41-51 | from empty collections, loads the three files: comics built from the rows, indexed, dated and counted; users are the last row per RUT; reservations are appended per user; reserved codes come from the rows; no numeric code exceeds the counter; users are filed under their RUT with registered addresses |
| `Sistema.ComicCollectorSystem.CargarDatosDesdeArchivos` | src/comiccollector/servicios/ComicCollectorSystem.java:53-58 | the same, from the rows, including that the final inventory refresh changes nothing |
| `Sistema.ComicCollectorSystem.RefrescarCargado` | src/comiccollector/servicios/ComicCollectorSystem.java:57 | the refresh right after loading leaves the inventory exactly as the load built it, each comic still built from its row |
| `Sistema.ComicCollectorSystem.CargarClientes` | src/comiccollector/servicios/ComicCollectorSystem.java:55-56 | users and then reservations into an empty directory, as above, leaving the comics untouched |
| `Sistema.ComicCollectorSystem.CargarComicsDesdeCSV` | src/comiccollector/servicios/ComicCollectorSystem.java:62-95 | a new comic per row, appended, put under its code, its date added, the counter raised to the largest numeric code; keeps the code bound |
| `Sistema.ComicCollectorSystem.AltaComic` | src/comiccollector/servicios/ComicCollectorSystem.java:78-89 | one row: a fresh comic with its fields, listed, indexed, dated, the counter stepped |
| `Sistema.ComicCollectorSystem.CargarUsuariosDesdeTxt` | src/comiccollector/servicios/ComicCollectorSystem.java:97-112 | each read row files a fresh user under its RUT with empty histories and registers its address; keeps users filed under their own RUT |
| `Sistema.ComicCollectorSystem.AltaUsuario` | src/comiccollector/servicios/ComicCollectorSystem.java:104-106 | one row: a fresh user from the row replaces the RUT's entry, the address is registered |
| `Sistema.ComicCollectorSystem.CargarReservasDesdeTxt` | src/comiccollector/servicios/ComicCollectorSystem.java:114-134 | every read code is marked reserved; each user's reservations are their old ones followed by the entries for rows with their RUT and a known product |
| `Sistema.ComicCollectorSystem.AnotarReserva` | src/comiccollector/servicios/ComicCollectorSystem.java:119-128 | one row: its code reserved; the entry appended only when user and product both exist |
| `Sistema.ComicCollectorSystem.ActualizarInventarioEnMemoria` | src/comiccollector/servicios/ComicCollectorSystem.java:136-140 | the inventory after putting each listed comic under its code, in list order |
| `Sistema.ComicCollectorSystem.BuscarComicPorCodigo` | src/comiccollector/servicios/ComicCollectorSystem.java:321-323 | found iff the code is a key, and then the filed comic |
| `Sistema.ComicCollectorSystem.BuscarUsuarioPorRut` | src/comiccollector/servicios/ComicCollectorSystem.java:325-327 | found iff the RUT is a key, and then the filed user |
| `Sistema.ComicCollectorSystem.ActualizarRankingUsuarios` | src/comiccollector/servicios/ComicCollectorSystem.java:256-259 | the ranking afterwards is the old one with the user in it |
| `Sistema.ComicCollectorSystem.RegistrarUsuario` | src/comiccollector/servicios/ComicCollectorSystem.java:144-160 | result is `VerificarRegistro`; on success a fresh user with the formatted name replaces whatever the RUT held, the raw address is registered, and the usuarios.txt line is produced; on failure nothing changes; keeps users filed under their own RUT |
| `Sistema.ComicCollectorSystem.Inscribir` | src/comiccollector/servicios/ComicCollectorSystem.java:153-159 | the update half of registration, as above |
| `Sistema.ComicCollectorSystem.GenerarNuevoCodigo` | src/comiccollector/servicios/ComicCollectorSystem.java:172-175 | the counter goes up by one in int arithmetic and the code is its `"%03d"` text; below the top of the range that code is new and the bound is kept |
| `Sistema.ComicCollectorSystem.AgregarComic` | src/comiccollector/servicios/ComicCollectorSystem.java:177-192 | result is `VerificarComic`; on success the next code is assigned and the comic is listed, indexed under it and dated; on failure nothing changes, the counter included; keeps the code bound and non-negative stock |
| `Sistema.ComicCollectorSystem.Catalogar` | src/comiccollector/servicios/ComicCollectorSystem.java:183-191 | the update half of adding, as above |
| `Sistema.ComicCollectorSystem.EliminarComic` | src/comiccollector/servicios/ComicCollectorSystem.java:194-206 | true iff the code was a key; then the comic leaves the list (first occurrence), the map, the reserved codes and the date set; an unknown code changes nothing |
| `Sistema.ComicCollectorSystem.RealizarCompra` | src/comiccollector/servicios/ComicCollectorSystem.java:210-226 | result is `DecidirCompra`; on success the stock drops by exactly the quantity, one purchase entry is appended, the total grows by it and the user is in the ranking; on failure nothing changes; keeps stock non-negative |
| `Sistema.ComicCollectorSystem.HacerReserva` | src/comiccollector/servicios/ComicCollectorSystem.java:228-252 | result is `DecidirReserva`; on success the stock drops by the quantity in int arithmetic, the code is reserved, one reservation entry is appended and the reservas.txt line produced; the ranking is untouched; on failure nothing changes |
| `Sistema.ComicCollectorSystem.GuardarInventarioActualizado` | src/comiccollector/servicios/ComicCollectorSystem.java:262-289 | the first free `comics_N.csv` name from N = 2, and the header followed by one line per product, every code once, read back by `Carga.RecargarInventario` |

## Left out

- File I/O: the three files are passed as their lines (a missing file reads as no lines). The appended usuarios.txt and reservas.txt lines, and the snapshot's lines, are returned rather than written. The set of existing file names is a parameter. Console messages are not modelled.
- The loaders parse all the lines first (`FilasComic`, `FilasUsuario`, `FilasReserva`) and then apply the rows in order. Java interleaves the two, but parsing has no effect on the state, so the results agree, including the load stopping at the first line that throws.
- `LocalDate.parse`/`toString` and `Double.parseDouble`/`toString` are function parameters. `LocalDate.now()` is the `hoy` parameter.
- Prices are reals: floating-point rounding is not modelled, since only the `< 0` check matters.
- Unicode: `trim`, `\s`, `toLowerCase`/`toUpperCase` and `\d`/`\w` are ASCII-only.
- `JavaInt.ParseInt` accepts only ASCII digits, where `Integer.parseInt` also accepts other Unicode decimal digits (`Character.digit`), so a quantity or code written with them is read as a parse failure here.
- The text fields of `Comic` (type, name, producer) are plain strings, so a `null` name or producer cannot be passed to `AgregarComic`; `validarNoVacio` would reject it with the same error as a blank one.
- `ValidadorDatos.NombreFormateadoJoin`, `ValidadorDatos.NombreFormateadoPalabras` and `ValidadorDatos.NombreFormateadoIdempotente` assume the name holds no control characters other than \s ones. `trim()` drops those characters but `split("\\s+")` does not split on them.
- The ranking `TreeSet` is a set of users. Java may miss the stale node in `remove`, because the key changed before removal; red-black balancing is not modelled either.
- `Sistema.ComicCollectorSystem.ActualizarRankingUsuarios`: the set uses object identity, but `TreeSet` treats two users as the same element when `compareTo` gives 0 (same total and same RUT). After a RUT is registered again, its new `Usuario` object can displace the old one with the same key in Java, while the model's set keeps both.
- Exceptions are values of `Error`; their messages are not modelled. That includes `ValidadorDatos.java:22`, which passes the message where a RUT is expected.
- `Sistema.ComicCollectorSystem.GenerarNuevoCodigo`: freshness of the code is proved only below `Integer.MAX_VALUE`. At the top, the counter wraps as Java does.
- `Sistema.ComicCollectorSystem.HacerReserva`: a negative quantity raises the stock and can wrap it to a negative int (`Sistema.ReservaNegativaDesborda`). Non-negative stock is promised only when the exact difference fits.
- `Sistema.ComicCollectorSystem.ActualizarInventarioEnMemoria`: a comic without a code is skipped, where Java would put it under the `null` key. No comic reaches the list without a code.
- `Sistema.ComicCollectorSystem.CargarDatosDesdeArchivos` requires the empty state its only caller, the constructor, provides.
- `Sistema.ComicCollectorSystem.constructor` does not state that the loaded comics are fresh objects.
- `Sistema.ComicCollectorSystem.GuardarInventarioActualizado`: the iteration order of `HashMap.values()` is unspecified. The model promises only some order that takes every code once.
- The getters of `ComicCollectorSystem`, `Comic`, `Usuario` and `ReservaCompra` are field reads. `ReservaCompra` is a datatype, so an entry never changes. `toString` is modelled only through `Modelos.Comic.TextoCodigo`/`TextoFecha` and the snapshot lines.
- `JavaString.CompareTo` compares Dafny characters, which are Unicode code points, where Java compares UTF-16 code units; the two orders differ only for characters above U+FFFF against characters in U+E000..U+FFFF, which a RUT read from usuarios.txt could hold.
- The menus and `Main` are not part of this model.
