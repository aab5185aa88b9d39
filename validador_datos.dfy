/**
 * ValidadorDatos: the input checks of the store. Every check answers Pass or the error
 * the Java method throws; a null argument is None. Each regular expression of the class
 * has a reference definition (the pattern read as "the string is these pieces
 * concatenated") and a positional check, and a lemma shows the two agree.
 */
module ValidadorDatos {
  import opened Wrappers
  import opened Errores
  import opened JavaInt
  import opened JavaString

  // ---- character classes of the patterns ----

  /** \w without UNICODE_CHARACTER_CLASS: [a-zA-Z_0-9]. */
  predicate IsWordChar(c: char) {
    'a' <= c <= 'z' || 'A' <= c <= 'Z' || IsDigit(c) || c == '_'
  }

  /** [\w\.-] */
  predicate IsEmailChar(c: char) {
    IsWordChar(c) || c == '.' || c == '-'
  }

  /** [\dkK], the check character of a RUT. */
  predicate IsDv(c: char) {
    IsDigit(c) || c == 'k' || c == 'K'
  }

  predicate AllWordChars(s: string) {
    forall i :: 0 <= i < |s| ==> IsWordChar(s[i])
  }

  predicate AllEmailChars(s: string) {
    forall i :: 0 <= i < |s| ==> IsEmailChar(s[i])
  }

  // ---- RUT: ^\d{1,2}\.\d{3}\.\d{3}-[\dkK]$ ----

  function RutTexto(a: string, b: string, c: string, dv: char): string {
    a + "." + b + "." + c + "-" + [dv]
  }

  ghost predicate PartesRut(a: string, b: string, c: string, dv: char) {
    1 <= |a| <= 2 && |b| == 3 && |c| == 3 && AllDigits(a) && AllDigits(b) && AllDigits(c) && IsDv(dv)
  }

  /** The RUT pattern: one or two digits, a dot, three digits, a dot, three digits, a dash, a check character. */
  ghost predicate CoincideRut(s: string) {
    exists a, b, c, dv {:trigger RutTexto(a, b, c, dv)} :: PartesRut(a, b, c, dv) && RutTexto(a, b, c, dv) == s
  }

  /** The positional reading of the pattern with n leading digits. */
  predicate RutCon(s: string, n: nat) {
    |s| == n + 10 && AllDigits(s[..n]) && s[n] == '.' && AllDigits(s[n + 1..n + 4]) &&
    s[n + 4] == '.' && AllDigits(s[n + 5..n + 8]) && s[n + 8] == '-' && IsDv(s[n + 9])
  }

  predicate EsRut(s: string) {
    RutCon(s, 1) || RutCon(s, 2)
  }

  /** Reading a RUT written from its pieces gives the pieces back. */
  lemma RutTextoPartes(a: string, b: string, c: string, dv: char)
    requires |b| == 3 && |c| == 3
    ensures RutCon(RutTexto(a, b, c, dv), |a|) <==> AllDigits(a) && AllDigits(b) && AllDigits(c) && IsDv(dv)
  {
    var s := RutTexto(a, b, c, dv);
    var n := |a|;
    assert s == a + ['.'] + b + ['.'] + c + ['-'] + [dv];
    assert s[..n] == a && s[n] == '.' && s[n + 1..n + 4] == b && s[n + 4] == '.';
    assert s[n + 5..n + 8] == c && s[n + 8] == '-' && s[n + 9] == dv;
  }

  lemma EsRutCoincide(s: string)
    ensures EsRut(s) <==> CoincideRut(s)
  {
    if EsRut(s) {
      var n := if RutCon(s, 1) then 1 else 2;
      var a, b, c, dv := s[..n], s[n + 1..n + 4], s[n + 5..n + 8], s[n + 9];
      assert RutTexto(a, b, c, dv) == s;
      assert PartesRut(a, b, c, dv);
    }
    if CoincideRut(s) {
      var a, b, c, dv :| PartesRut(a, b, c, dv) && RutTexto(a, b, c, dv) == s;
      RutTextoPartes(a, b, c, dv);
      assert RutCon(s, |a|);
    }
  }

  /** validarRut: null or a string that does not match the pattern is RutInvalido. */
  function ValidarRut(rut: Option<string>): (r: Outcome)
    ensures r == Pass <==> rut.Some? && CoincideRut(rut.value)
    ensures r != Pass ==> r == Fail(RutInvalido)
    ensures r == Pass ==> |rut.value| == 11 || |rut.value| == 12
  {
    if rut.None? then Fail(RutInvalido)
    else
      EsRutCoincide(rut.value);
      if EsRut(rut.value) then Pass else Fail(RutInvalido)
  }

  // ---- e-mail: ^[\w\.-]+@[\w\.-]+\.\w{2,}$ ----

  function EmailTexto(local: string, dominio: string, tld: string): string {
    local + "@" + dominio + "." + tld
  }

  ghost predicate PartesEmail(local: string, dominio: string, tld: string) {
    local != [] && AllEmailChars(local) && dominio != [] && AllEmailChars(dominio) &&
    |tld| >= 2 && AllWordChars(tld)
  }

  /** The e-mail pattern: local part, '@', domain, '.', and at least two word characters. */
  ghost predicate CoincideEmail(s: string) {
    exists l, d, t {:trigger EmailTexto(l, d, t)} :: PartesEmail(l, d, t) && EmailTexto(l, d, t) == s
  }

  /** After the '@': the last '.' splits it into a non-empty domain and a suffix of two or more word characters. */
  predicate EsDominio(d: string) {
    var p := LastIndexOf(d, '.');
    p >= 1 && |d| - p - 1 >= 2 && AllEmailChars(d[..p]) && AllWordChars(d[p + 1..])
  }

  /** The positional reading: a non-empty run of [\w.-] up to the first '@', then a domain. */
  predicate EsEmail(s: string) {
    var i := IndexOf(s, '@');
    1 <= i < |s| && AllEmailChars(s[..i]) && EsDominio(s[i + 1..])
  }

  lemma IndexOfAt(s: string, c: char, k: nat)
    requires k < |s| && s[k] == c && forall j :: 0 <= j < k ==> s[j] != c
    ensures IndexOf(s, c) == k
  {
  }

  lemma LastIndexOfAt(s: string, c: char, k: nat)
    requires k < |s| && s[k] == c && forall j :: k < j < |s| ==> s[j] != c
    ensures LastIndexOf(s, c) == k
  {
  }

  lemma EsEmailCoincide(s: string)
    ensures EsEmail(s) <==> CoincideEmail(s)
  {
    if EsEmail(s) {
      EsEmailPartes(s);
    }
    if CoincideEmail(s) {
      var l, d, t :| PartesEmail(l, d, t) && EmailTexto(l, d, t) == s;
      PartesEsEmail(l, d, t);
    }
  }

  lemma EsEmailPartes(s: string)
    requires EsEmail(s)
    ensures CoincideEmail(s)
  {
    var i := IndexOf(s, '@');
    var dd := s[i + 1..];
    var p := LastIndexOf(dd, '.');
    var l, d, t := s[..i], dd[..p], dd[p + 1..];
    EmailTextoCortes(s, i, p);
    assert PartesEmail(l, d, t);
  }

  lemma EmailTextoCortes(s: string, i: nat, p: nat)
    requires i < |s| && s[i] == '@' && p < |s[i + 1..]| && s[i + 1..][p] == '.'
    ensures EmailTexto(s[..i], s[i + 1..][..p], s[i + 1..][p + 1..]) == s
  {
    var dd := s[i + 1..];
    assert dd == dd[..p] + "." + dd[p + 1..];
    assert s == s[..i] + "@" + dd;
  }

  lemma PartesEsEmail(l: string, d: string, t: string)
    requires PartesEmail(l, d, t)
    ensures EsEmail(EmailTexto(l, d, t))
  {
    EmailTextoArroba(l, d, t);
    EsDominioDe(d, t);
    EsEmailDe(l, d + "." + t);
  }

  lemma EmailTextoArroba(l: string, d: string, t: string)
    ensures EmailTexto(l, d, t) == l + "@" + (d + "." + t)
  {
    assert l + "@" + d + "." + t == (l + "@") + (d + "." + t);
  }

  lemma EsEmailDe(l: string, dd: string)
    requires l != [] && AllEmailChars(l) && EsDominio(dd)
    ensures EsEmail(l + "@" + dd)
  {
    ArrobaUnica(l, dd);
  }

  lemma EsDominioDe(d: string, t: string)
    requires d != [] && AllEmailChars(d) && |t| >= 2 && AllWordChars(t)
    ensures EsDominio(d + "." + t)
  {
    PuntoFinal(d, t);
  }

  /** A local part without '@' puts the first '@' right after it. */
  lemma ArrobaUnica(l: string, dd: string)
    requires AllEmailChars(l)
    ensures var s := l + "@" + dd; IndexOf(s, '@') == |l| && s[..|l|] == l && s[|l| + 1..] == dd
  {
    var s := l + "@" + dd;
    assert forall j :: 0 <= j < |l| ==> s[j] == l[j];
    IndexOfAt(s, '@', |l|);
    assert s[..|l|] == l && s[|l| + 1..] == dd;
  }

  /** A suffix of word characters puts the last '.' right before it. */
  lemma PuntoFinal(d: string, t: string)
    requires AllWordChars(t)
    ensures var dd := d + "." + t; LastIndexOf(dd, '.') == |d| && dd[..|d|] == d && dd[|d| + 1..] == t
  {
    var dd := d + "." + t;
    assert forall j :: |d| < j < |dd| ==> dd[j] == t[j - |d| - 1];
    LastIndexOfAt(dd, '.', |d|);
    assert dd[..|d|] == d && dd[|d| + 1..] == t;
  }

  /**
   * validarEmailUnico: an address already registered is EmailYaRegistrado, checked first;
   * otherwise null or a string that does not match the pattern is EmailInvalido.
   */
  function ValidarEmailUnico(email: Option<string>, registrados: set<string>): (r: Outcome)
    ensures email.Some? && email.value in registrados ==> r == Fail(EmailYaRegistrado)
    ensures !(email.Some? && email.value in registrados) ==>
      (r == Pass <==> email.Some? && CoincideEmail(email.value))
    ensures r != Pass ==> r == Fail(EmailYaRegistrado) || r == Fail(EmailInvalido)
  {
    if email.Some? && email.value in registrados then Fail(EmailYaRegistrado)
    else if email.None? then Fail(EmailInvalido)
    else
      EsEmailCoincide(email.value);
      if EsEmail(email.value) then Pass else Fail(EmailInvalido)
  }

  // ---- the remaining checks ----

  /** validarNoVacio: null, or nothing left after trim(), names the field. */
  function ValidarNoVacio(dato: Option<string>, campo: string): (r: Outcome)
    ensures r == Pass <==> dato.Some? && !EnBlanco(dato.value)
    ensures r != Pass ==> r == Fail(CampoVacio(campo))
  {
    if dato.None? then Fail(CampoVacio(campo))
    else
      TrimEnBlanco(dato.value);
      if Trim(dato.value) == "" then Fail(CampoVacio(campo)) else Pass
  }

  /** validarNoNegativo(int, String). */
  function ValidarNoNegativo(valor: int, campo: string): (r: Outcome)
    ensures r == Pass <==> valor >= 0
    ensures r != Pass ==> r == Fail(CampoNegativo(campo))
  {
    if valor < 0 then Fail(CampoNegativo(campo)) else Pass
  }

  /** validarNoNegativo(double, String), on the reals. */
  function ValidarNoNegativoReal(valor: real, campo: string): (r: Outcome)
    ensures r == Pass <==> valor >= 0.0
    ensures r != Pass ==> r == Fail(CampoNegativo(campo))
  {
    if valor < 0.0 then Fail(CampoNegativo(campo)) else Pass
  }

  /** validarCelular: exactly eight ASCII digits. */
  function ValidarCelular(celular: Option<string>): (r: Outcome)
    ensures r == Pass <==> celular.Some? && |celular.value| == 8 && AllDigits(celular.value)
    ensures r != Pass ==> r == Fail(CelularInvalido)
  {
    if celular.Some? && |celular.value| == 8 && AllDigits(celular.value) then Pass else Fail(CelularInvalido)
  }

  /** An accepted mobile number is an eight-digit number: Integer.parseInt reads it as a value below 10^8. */
  lemma CelularEsNumero(celular: string)
    requires ValidarCelular(Some(celular)) == Pass
    ensures ParseInt(celular).Some? && 0 <= ParseInt(celular).value < 100000000
  {
    ValueOfBound(celular);
  }

  lemma {:induction false} ValueOfBound(s: string)
    requires AllDigits(s)
    ensures ValueOf(s) < Pow10(|s|)
  {
    if s != [] {
      ValueOfBound(s[..|s| - 1]);
    }
  }

  function Pow10(k: nat): (r: nat)
    ensures r >= 1
  {
    if k == 0 then 1 else 10 * Pow10(k - 1)
  }

  // ---- formatearNombre ----

  /** The first character upper-cased, the rest kept. */
  function Capitalizar(w: string): (r: string)
    ensures |r| == |w| && (w != [] ==> r[0] == ToUpper(w[0]) && r[1..] == w[1..])
  {
    if w == [] then [] else [ToUpper(w[0])] + w[1..]
  }

  function Capitalizadas(ws: seq<string>): (cs: seq<string>)
    ensures |cs| == |ws| && forall i :: 0 <= i < |ws| ==> cs[i] == Capitalizar(ws[i])
  {
    seq(|ws|, i requires 0 <= i < |ws| => Capitalizar(ws[i]))
  }

  /** The pieces that are not empty, in order. */
  function NoVacias(ps: seq<string>): (ws: seq<string>)
    ensures forall i :: 0 <= i < |ws| ==> ws[i] != []
  {
    if ps == [] then []
    else
      var init := NoVacias(ps[..|ps| - 1]);
      var last := ps[|ps| - 1];
      var ws := if last == [] then init else init + [last];
      assert forall i :: 0 <= i < |init| ==> ws[i] == init[i];
      ws
  }

  /** Each word capitalised and followed by one space. */
  function Espaciado(ws: seq<string>): string {
    if ws == [] then "" else Espaciado(ws[..|ws| - 1]) + Capitalizar(ws[|ws| - 1]) + " "
  }

  /**
   * What formatearNombre returns: "" for null; otherwise the words of the trimmed,
   * lower-cased name, each capitalised and followed by a space, trimmed once more.
   */
  function NombreFormateado(nombre: Option<string>): string {
    if nombre.None? then "" else Trim(Espaciado(Words(LowerCase(Trim(nombre.value)))))
  }

  /** formatearNombre. */
  method FormatearNombre(nombre: Option<string>) returns (r: string)
    ensures r == NombreFormateado(nombre)
  {
    if nombre.None? {
      return "";
    }
    var limpio := LowerCase(Trim(nombre.value));
    var palabras := SplitSpaces(limpio);
    var sb := AnexarPalabras(palabras);
    NoVaciasSplitSpaces(limpio);
    r := Trim(sb);
  }

  /** The StringBuilder loop of formatearNombre: each non-empty piece capitalised, then a space. */
  method AnexarPalabras(palabras: seq<string>) returns (sb: string)
    ensures sb == Espaciado(NoVacias(palabras))
  {
    sb := "";
    var i := 0;
    while i < |palabras|
      invariant 0 <= i <= |palabras|
      invariant sb == Espaciado(NoVacias(palabras[..i]))
    {
      var palabra := palabras[i];
      NoVaciasPaso(palabras, i);
      if palabra != [] {
        ghost var antes := sb;
        sb := sb + [ToUpper(palabra[0])];
        if |palabra| > 1 {
          sb := sb + palabra[1..];
        }
        AnexarCapitalizada(antes, palabra);
        sb := sb + " ";
      }
      i := i + 1;
    }
    assert palabras[..i] == palabras;
  }

  /** Appending the upper-cased first character and then the rest appends the capitalised word. */
  lemma AnexarCapitalizada(antes: string, p: string)
    requires p != []
    ensures |p| > 1 ==> antes + [ToUpper(p[0])] + p[1..] == antes + Capitalizar(p)
    ensures |p| == 1 ==> antes + [ToUpper(p[0])] == antes + Capitalizar(p)
  {
    if |p| > 1 {
      assert antes + [ToUpper(p[0])] + p[1..] == antes + ([ToUpper(p[0])] + p[1..]);
    } else {
      assert [ToUpper(p[0])] == Capitalizar(p);
    }
  }

  /** One more piece: the loop step of formatearNombre. */
  lemma NoVaciasPaso(ps: seq<string>, i: nat)
    requires i < |ps|
    ensures ps[i] == [] ==> Espaciado(NoVacias(ps[..i + 1])) == Espaciado(NoVacias(ps[..i]))
    ensures ps[i] != [] ==>
      Espaciado(NoVacias(ps[..i + 1])) == Espaciado(NoVacias(ps[..i])) + Capitalizar(ps[i]) + " "
  {
    assert ps[..i + 1][..i] == ps[..i];
    var ws := NoVacias(ps[..i]) + [ps[i]];
    assert ws[..|ws| - 1] == NoVacias(ps[..i]);
  }

  lemma {:induction false} NoVaciasAppend(xs: seq<string>, ys: seq<string>)
    ensures NoVacias(xs + ys) == NoVacias(xs) + NoVacias(ys)
    decreases |ys|
  {
    if ys != [] {
      var ys' := ys[..|ys| - 1];
      assert (xs + ys)[..|xs + ys| - 1] == xs + ys';
      NoVaciasAppend(xs, ys');
    } else {
      assert xs + ys == xs;
    }
  }

  lemma {:induction false} NoVaciasTodas(ws: seq<string>)
    requires forall i :: 0 <= i < |ws| ==> ws[i] != []
    ensures NoVacias(ws) == ws
  {
    if ws != [] {
      NoVaciasTodas(ws[..|ws| - 1]);
      assert ws[..|ws| - 1] + [ws[|ws| - 1]] == ws;
    }
  }

  /** The loop over split("\\s+") that skips empty pieces visits exactly the words. */
  lemma NoVaciasSplitSpaces(s: string)
    ensures NoVacias(SplitSpaces(s)) == Words(s)
  {
    var ws := Words(s);
    NoVaciasTodas(ws);
    if s != "" && ws != [] && IsSpace(s[0]) {
      NoVaciasAppend([""], ws);
      assert NoVacias([""]) == NoVacias([]);
    }
  }

  // ---- what formatearNombre promises ----

  /** Nothing that trim() would remove but \s does not separate: names as people type them. */
  predicate Imprimible(s: string) {
    forall i :: 0 <= i < |s| ==> IsSpace(s[i]) || s[i] > ' '
  }

  /** Every character is above U+0020. */
  predicate Grafica(w: string) {
    forall k :: 0 <= k < |w| ==> w[k] > ' '
  }

  predicate Graficas(ws: seq<string>) {
    forall i :: 0 <= i < |ws| ==> Grafica(ws[i])
  }

  /** No ASCII capital letter. */
  predicate SinMayusculas(w: string) {
    forall k :: 0 <= k < |w| ==> !('A' <= w[k] <= 'Z')
  }

  /** Capitalised: not starting with a small ASCII letter, and no ASCII capital after the first character. */
  predicate Capitalizada(w: string) {
    w != [] && !('a' <= w[0] <= 'z') && SinMayusculas(w[1..])
  }

  /** The blank-only names are exactly the ones formatted to "". */
  lemma NombreFormateadoVacio(nombre: Option<string>)
    ensures NombreFormateado(nombre) == "" <==>
      nombre.None? || forall i :: 0 <= i < |nombre.value| ==> nombre.value[i] <= ' '
  {
    if nombre.Some? {
      TrimVacio(nombre.value);
      var x := Trim(nombre.value);
      var t := LowerCase(x);
      if x != [] {
        NombreVisible(x);
      } else {
        assert t == [];
        assert Words(t) == [];
      }
    }
  }

  /** A trimmed non-empty name has a first word that starts visibly. */
  lemma NombreVisible(x: string)
    requires x != [] && x[0] > ' '
    ensures Trim(Espaciado(Words(LowerCase(x)))) != []
  {
    var t := LowerCase(x);
    assert t[0] == ToLower(x[0]) > ' ';
    FirstWord(t);
    EspaciadoVisible(Words(t));
  }

  /** A first word starting with a visible character leaves something after trim(). */
  lemma EspaciadoVisible(ws: seq<string>)
    requires ws != [] && ws[0] != [] && ws[0][0] > ' '
    ensures Trim(Espaciado(ws)) != []
  {
    var e := Espaciado(ws);
    EspaciadoInicio(ws);
    assert e[0] > ' ';
    TrimVacio(e);
  }

  /** Espaciado starts with the first word capitalised. */
  lemma {:induction false} EspaciadoInicio(ws: seq<string>)
    requires ws != [] && ws[0] != []
    ensures |Espaciado(ws)| > 0 && Espaciado(ws)[0] == ToUpper(ws[0][0])
  {
    if |ws| > 1 {
      var init := ws[..|ws| - 1];
      assert init[0] == ws[0];
      EspaciadoInicio(init);
    }
  }

  /** With words and no trailing space: the capitalised words joined by single spaces, plus one. */
  lemma {:induction false} EspaciadoJoin(ws: seq<string>)
    requires ws != []
    ensures Espaciado(ws) == Join(Capitalizadas(ws), " ") + " "
  {
    if |ws| == 1 {
      EspaciadoUna(ws);
    } else {
      var init := ws[..|ws| - 1];
      EspaciadoJoin(init);
      EspaciadoSnoc(ws, Join(Capitalizadas(init), " "));
    }
  }

  lemma EspaciadoUna(ws: seq<string>)
    requires |ws| == 1
    ensures Espaciado(ws) == Join(Capitalizadas(ws), " ") + " "
  {
    var c := Capitalizar(ws[0]);
    assert Espaciado(ws[..0]) == "";
    assert "" + c == c;
    assert Capitalizadas(ws)[0] == c;
  }

  /** One more word after the first ones, given how the first ones render. */
  lemma EspaciadoSnoc(ws: seq<string>, j: string)
    requires |ws| > 1
    requires Espaciado(ws[..|ws| - 1]) == j + " "
    requires j == Join(Capitalizadas(ws[..|ws| - 1]), " ")
    ensures Espaciado(ws) == Join(Capitalizadas(ws), " ") + " "
  {
    var last := Capitalizar(ws[|ws| - 1]);
    CapitalizadasSnoc(ws);
    JoinSnoc(Capitalizadas(ws[..|ws| - 1]), last, " ");
  }

  lemma CapitalizadasSnoc(ws: seq<string>)
    requires ws != []
    ensures Capitalizadas(ws) == Capitalizadas(ws[..|ws| - 1]) + [Capitalizar(ws[|ws| - 1])]
  {
  }

  lemma {:induction false} JoinStartsWithFirst(ws: seq<string>, sep: string)
    requires |ws| >= 1
    ensures |Join(ws, sep)| >= |ws[0]| && Join(ws, sep)[..|ws[0]|] == ws[0]
  {
    if |ws| > 1 {
      assert Join(ws, sep) == ws[0] + (sep + Join(ws[1..], sep));
    }
  }

  /** A first and a last word that are non-empty and visible. */
  predicate Extremos(ws: seq<string>) {
    ws != [] && ws[0] != [] && ws[|ws| - 1] != [] && Grafica(ws[0]) && Grafica(ws[|ws| - 1])
  }

  /** The trailing space of Espaciado goes, and nothing else, when the outer words are visible characters. */
  lemma TrimEspaciado(ws: seq<string>)
    requires Extremos(ws)
    ensures Trim(Espaciado(ws)) == Join(Capitalizadas(ws), " ")
  {
    JoinCapitalizadasVisible(ws);
    TrimEspaciadoDe(ws, Join(Capitalizadas(ws), " "));
  }

  lemma TrimEspaciadoDe(ws: seq<string>, j: string)
    requires ws != [] && j == Join(Capitalizadas(ws), " ") && Visible(j)
    ensures Trim(Espaciado(ws)) == j
  {
    EspaciadoJoin(ws);
    TrimTrailingSpace(Espaciado(ws), j);
  }

  lemma TrimTrailingSpace(e: string, j: string)
    requires e == j + " " && j != [] && j[0] > ' ' && j[|j| - 1] > ' '
    ensures Trim(e) == j
  {
    TrimSpaceAfter(j);
  }

  /** Non-empty, starting and ending with characters above U+0020. */
  predicate Visible(j: string) {
    j != [] && j[0] > ' ' && j[|j| - 1] > ' '
  }

  /** The first piece starts, and the last piece ends, with a visible character. */
  predicate BordesVisibles(cs: seq<string>) {
    cs != [] && cs[0] != [] && cs[0][0] > ' ' && cs[|cs| - 1] != [] && cs[|cs| - 1][|cs[|cs| - 1]| - 1] > ' '
  }

  lemma JoinCapitalizadasVisible(ws: seq<string>)
    requires Extremos(ws)
    ensures Visible(Join(Capitalizadas(ws), " "))
  {
    CapitalizadasExtremos(ws);
    JoinVisible(Capitalizadas(ws), " ");
  }

  lemma JoinVisible(cs: seq<string>, sep: string)
    requires BordesVisibles(cs)
    ensures Visible(Join(cs, sep))
  {
    JoinExtremos(cs, sep);
  }

  /** The first and the last capitalised word start and end with visible characters. */
  lemma CapitalizadasExtremos(ws: seq<string>)
    requires Extremos(ws)
    ensures BordesVisibles(Capitalizadas(ws))
  {
    var cs := Capitalizadas(ws);
    CapitalizarGrafica(ws[0]);
    CapitalizarGrafica(ws[|ws| - 1]);
  }

  /** A join starts with the first piece's first character and ends with the last piece's last. */
  lemma JoinExtremos(cs: seq<string>, sep: string)
    requires cs != [] && cs[0] != [] && cs[|cs| - 1] != []
    ensures var j := Join(cs, sep); var last := cs[|cs| - 1];
      j != [] && j[0] == cs[0][0] && j[|j| - 1] == last[|last| - 1]
  {
    JoinStartsWithFirst(cs, sep);
    JoinEndsWithLast(cs, sep);
    var j := Join(cs, sep);
    assert j[..|cs[0]|][0] == j[0];
  }

  lemma TrimSpaceAfter(x: string)
    requires x != [] && x[0] > ' ' && x[|x| - 1] > ' '
    ensures Trim(x + " ") == x
  {
    var y := x + " ";
    assert y[0] == x[0];
    assert TrimStart(y) == y;
    assert y[|y| - 1] == ' ' && y[..|y| - 1] == x;
    assert TrimEnd(y) == TrimEnd(x) == x;
  }

  predicate ImprimibleCar(c: char) {
    IsSpace(c) || c > ' '
  }

  predicate NoMayuscula(c: char) {
    !('A' <= c <= 'Z')
  }

  /** trim() and toLowerCase keep a name printable. */
  lemma ImprimibleLimpio(s: string)
    requires Imprimible(s)
    ensures Imprimible(LowerCase(Trim(s)))
  {
    assert All(s, ImprimibleCar);
    TrimKeeps(s, ImprimibleCar);
    LowerCaseImprimible(Trim(s));
  }

  lemma LowerCaseImprimible(x: string)
    requires All(x, ImprimibleCar)
    ensures Imprimible(LowerCase(x))
  {
    var l := LowerCase(x);
    forall i | 0 <= i < |l| ensures IsSpace(l[i]) || l[i] > ' ' {
      assert ImprimibleCar(x[i]);
    }
  }

  /** The words of a printable string consist of visible characters. */
  lemma PalabrasGraficas(t: string)
    requires Imprimible(t)
    ensures Graficas(Words(t))
  {
    var ws := Words(t);
    WordsKeep(t, ImprimibleCar);
    forall i | 0 <= i < |ws| ensures Grafica(ws[i]) {
      forall k | 0 <= k < |ws[i]| ensures ws[i][k] > ' ' {
        assert ImprimibleCar(ws[i][k]) && !IsSpace(ws[i][k]);
      }
    }
  }

  /** The words of a lower-cased string have no capital letters. */
  lemma PalabrasMinusculas(x: string)
    ensures forall i :: 0 <= i < |Words(LowerCase(x))| ==> SinMayusculas(Words(LowerCase(x))[i])
  {
    var t := LowerCase(x);
    LowerCaseSpaceOr(x);
    WordsKeep(t, NoMayuscula);
    SinMayusculasDe(Words(t));
  }

  lemma LowerCaseSpaceOr(x: string)
    ensures SpaceOr(LowerCase(x), NoMayuscula)
  {
  }

  lemma SinMayusculasDe(ws: seq<string>)
    requires forall i :: 0 <= i < |ws| ==> All(ws[i], NoMayuscula)
    ensures forall i :: 0 <= i < |ws| ==> SinMayusculas(ws[i])
  {
    forall i | 0 <= i < |ws| ensures SinMayusculas(ws[i]) {
      assert All(ws[i], NoMayuscula);
    }
  }

  /** What trim() leaves is empty or visible at both ends. */
  lemma TrimBordes(x: string)
    ensures Trim(x) == [] || Visible(Trim(x))
  {
  }

  /**
   * For a printable name: the capitalised words of the trimmed, lower-cased name, joined by
   * single spaces, so the result is empty or starts and ends with a visible character.
   */
  lemma NombreFormateadoJoin(s: string)
    requires Imprimible(s)
    ensures NombreFormateado(Some(s)) == Join(Capitalizadas(Words(LowerCase(Trim(s)))), " ")
    ensures NombreFormateado(Some(s)) == [] || Visible(NombreFormateado(Some(s)))
  {
    var t := LowerCase(Trim(s));
    var ws := Words(t);
    TrimBordes(Espaciado(ws));
    if ws != [] {
      ImprimibleLimpio(s);
      PalabrasGraficas(t);
      assert Extremos(ws);
      TrimEspaciado(ws);
    }
  }

  lemma CapitalizarNoSpace(w: string)
    requires w != [] && NoSpace(w)
    ensures Capitalizar(w) != [] && NoSpace(Capitalizar(w))
  {
    var c := Capitalizar(w);
    forall k | 0 <= k < |c| ensures !IsSpace(c[k]) {
      if k > 0 {
        assert c[k] == c[1..][k - 1] == w[1..][k - 1] == w[k];
      }
    }
  }

  /**
   * For a printable name the result's words are the input's words, each capitalised:
   * splitting the result on \s gives exactly them.
   */
  lemma NombreFormateadoPalabras(s: string)
    requires Imprimible(s)
    ensures var ws := Words(LowerCase(Trim(s)));
      Words(NombreFormateado(Some(s))) == Capitalizadas(ws) &&
      forall i :: 0 <= i < |ws| ==> Capitalizada(Capitalizadas(ws)[i])
  {
    var x := Trim(s);
    var ws := Words(LowerCase(x));
    NombreFormateadoJoin(s);
    CapitalizadasPalabras(ws);
    WordsOfJoin(Capitalizadas(ws));
    PalabrasMinusculas(x);
    CapitalizadasMayuscula(ws);
  }

  lemma CapitalizadasPalabras(ws: seq<string>)
    requires AreWords(ws)
    ensures AreWords(Capitalizadas(ws))
  {
    var cs := Capitalizadas(ws);
    forall i | 0 <= i < |cs| ensures cs[i] != [] && NoSpace(cs[i]) {
      CapitalizarNoSpace(ws[i]);
    }
  }

  lemma CapitalizadasMayuscula(ws: seq<string>)
    requires forall i :: 0 <= i < |ws| ==> ws[i] != [] && SinMayusculas(ws[i])
    ensures forall i :: 0 <= i < |ws| ==> Capitalizada(Capitalizadas(ws)[i])
  {
    var cs := Capitalizadas(ws);
    forall i | 0 <= i < |ws| ensures Capitalizada(cs[i]) {
      assert cs[i][1..] == ws[i][1..];
    }
  }

  /** Capitalising the lower-case of a capitalised lower-case word gives it back. */
  lemma CapitalizarMinusculas(w: string)
    requires SinMayusculas(w)
    ensures Capitalizar(LowerCase(Capitalizar(w))) == Capitalizar(w)
  {
    if w != [] {
      var c := Capitalizar(w);
      var l := LowerCase(c);
      assert l[1..] == w[1..] by {
        forall k | 0 <= k < |w| - 1 ensures l[1..][k] == w[1..][k] {
          assert c[k + 1] == w[k + 1];
        }
      }
    }
  }

  /** Formatting a formatted printable name changes nothing. */
  lemma NombreFormateadoIdempotente(s: string)
    requires Imprimible(s)
    ensures NombreFormateado(Some(NombreFormateado(Some(s)))) == NombreFormateado(Some(s))
  {
    var ws := Words(LowerCase(Trim(s)));
    NombreFormateadoJoin(s);
    PalabrasLimpias(s);
    Reformatear(NombreFormateado(Some(s)), ws);
  }

  /** The words of a trimmed, lower-cased printable name: visible characters, no capitals. */
  lemma PalabrasLimpias(s: string)
    requires Imprimible(s)
    ensures var ws := Words(LowerCase(Trim(s)));
      AreWords(ws) && Graficas(ws) && forall i :: 0 <= i < |ws| ==> SinMayusculas(ws[i])
  {
    ImprimibleLimpio(s);
    PalabrasGraficas(LowerCase(Trim(s)));
    PalabrasMinusculas(Trim(s));
  }

  /** A tidy join of capitalised lower-case words is formatted to itself. */
  lemma Reformatear(r: string, ws: seq<string>)
    requires AreWords(ws) && Graficas(ws) && forall i :: 0 <= i < |ws| ==> SinMayusculas(ws[i])
    requires r == Join(Capitalizadas(ws), " ")
    ensures NombreFormateado(Some(r)) == r
  {
    var cs := Capitalizadas(ws);
    if ws != [] {
      JoinCapitalizadasVisible(ws);
    }
    TrimTidy(r);
    LowerCaseJoin(cs);
    MinusculasDeCapitalizadas(ws);
    FormateadoDePalabras(r, LowerCases(cs));
  }

  /** A tidy string whose lower-case is some words joined by single spaces formats to those words capitalised. */
  lemma FormateadoDePalabras(r: string, ls: seq<string>)
    requires AreWords(ls) && Graficas(ls)
    requires Trim(r) == r && LowerCase(r) == Join(ls, " ")
    ensures NombreFormateado(Some(r)) == Join(Capitalizadas(ls), " ")
  {
    WordsOfJoin(ls);
    if ls != [] {
      assert Extremos(ls);
      TrimEspaciado(ls);
    }
  }

  /** Lower-casing capitalised lower-case words keeps them words, and capitalising again restores them. */
  lemma MinusculasDeCapitalizadas(ws: seq<string>)
    requires AreWords(ws)
    requires forall i :: 0 <= i < |ws| ==> SinMayusculas(ws[i])
    requires Graficas(ws)
    ensures var ls := LowerCases(Capitalizadas(ws));
      AreWords(ls) && Graficas(ls) &&
      Capitalizadas(ls) == Capitalizadas(ws)
  {
    var cs := Capitalizadas(ws);
    var ls := LowerCases(cs);
    forall i | 0 <= i < |ls| ensures ls[i] != [] && NoSpace(ls[i]) && Grafica(ls[i]) && Capitalizar(ls[i]) == cs[i] {
      CapitalizarNoSpace(ws[i]);
      CapitalizarMinusculas(ws[i]);
      CasoSinEspacio(cs[i]);
      CapitalizarGrafica(ws[i]);
    }
  }

  lemma CapitalizarGrafica(w: string)
    requires Grafica(w)
    ensures Grafica(Capitalizar(w))
  {
    var c := Capitalizar(w);
    forall k | 0 <= k < |c| ensures c[k] > ' ' {
      if k > 0 {
        assert c[k] == c[1..][k - 1] == w[1..][k - 1] == w[k];
      }
    }
  }

  /** toLowerCase keeps non-\s characters non-\s, and visible characters visible. */
  lemma CasoSinEspacio(w: string)
    ensures NoSpace(w) ==> NoSpace(LowerCase(w))
    ensures Grafica(w) ==> Grafica(LowerCase(w))
  {
  }

  /** A worked case: surrounding blanks dropped, runs of blanks collapsed, each word capitalised. */
  lemma NombreFormateadoEjemplo()
    ensures NombreFormateado(Some("  ana  PEREZ ")) == "Ana Perez"
  {
    var m := "ana  PEREZ";
    assert "  ana  PEREZ " == " " + (" " + (m + " "));
    TrimPadded(m);
    LowerCaseEjemplo();
    WordsEjemplo();
    EspaciadoEjemplo();
    TrimSpaceAfter("Ana Perez");
  }

  lemma WordsEjemplo()
    ensures Words("ana" + (" " + (" " + "perez"))) == ["ana", "perez"]
  {
    assert NoSpace("ana") && NoSpace("perez");
    DosPalabras("ana", "perez");
  }

  /** Two words with a run of two blanks between them. */
  lemma DosPalabras(a: string, b: string)
    requires a != [] && NoSpace(a) && b != [] && NoSpace(b)
    ensures Words(a + (" " + (" " + b))) == [a, b]
  {
    var x := " " + (" " + b);
    WordsCons(a, x);
    WordsAfterSpace(" " + b);
    WordsAfterSpace(b);
    OneWord(b);
    ConsPair(a, b);
  }

  lemma EspaciadoEjemplo()
    ensures Espaciado(["ana", "perez"]) == "Ana Perez" + " "
  {
    var ws := ["ana", "perez"];
    assert ws[..1] == ["ana"];
    assert Capitalizar("perez") == "Perez";
    assert Capitalizar("ana") == "Ana";
    assert Espaciado(ws[..1]) == Espaciado([]) + "Ana" + " ";
  }

  lemma LowerCaseEjemplo()
    ensures LowerCase("ana  PEREZ") == "ana" + (" " + (" " + "perez"))
  {
    var t := LowerCase("ana  PEREZ");
    var u := "ana" + (" " + (" " + "perez"));
    assert |t| == |u| == 10;
    forall i | 0 <= i < 10 ensures t[i] == u[i] {
      assert t[i] == ToLower("ana  PEREZ"[i]);
    }
  }

  /** Two leading blanks and one trailing blank around a tidy string are trimmed away. */
  lemma TrimPadded(m: string)
    requires m != [] && m[0] > ' ' && m[|m| - 1] > ' '
    ensures Trim(" " + (" " + (m + " "))) == m
  {
    var y := m + " ";
    assert (" " + (" " + y))[1..] == " " + y;
    assert (" " + y)[1..] == y;
    assert y[0] == m[0] && TrimStart(y) == y;
    assert TrimStart(" " + (" " + y)) == y;
    TrimSpaceAfter(m);
  }
}
