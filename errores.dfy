/**
 * The exceptions the store engine throws (package comiccollector.excepciones and the
 * IllegalArgumentExceptions of the validator and the engine), as values. Each check
 * either passes or fails with one cause; message texts are not modelled.
 */
module Errores {
  datatype Error =
    | RutInvalido                    // RutInvalidoException from validarRut
    | CampoVacio(campo: string)      // validarNoVacio: null or blank field
    | CampoNegativo(campo: string)   // validarNoNegativo: value below zero
    | CelularInvalido                // validarCelular: not exactly 8 digits
    | EmailYaRegistrado              // EmailYaRegistradoException from validarEmailUnico
    | EmailInvalido                  // validarEmailUnico: malformed address
    | UsuarioNoEncontrado
    | ProductoNoEncontrado
    | NoDisponibleParaVenta          // purchase of an item that arrives after today
    | NoEnPreventa                   // reservation of an item without a date, or dated before today
    | StockInsuficiente
    | ProductoYaReservado            // ProductoYaReservadoException: declared, never thrown

  /** The result of a check or of an operation that returns nothing: it passes or throws. */
  datatype Outcome = Pass | Fail(error: Error)
}
