/**
 * The parts of java.lang.String and java.lang.Character the engine uses, restricted to
 * ASCII where Java consults Unicode tables: trim(), the regular-expression class \s,
 * toLowerCase/toUpperCase, splitting on runs of \s, compareTo, indexOf, and split with
 * a one-character literal separator.
 */
module JavaString {

  // ---- trim() ----

  /** String.trim() removes leading and trailing characters whose code is at most U+0020. */
  function TrimStart(s: string): (r: string)
    ensures |r| <= |s| && r == s[|s| - |r|..]
    ensures r == [] || r[0] > ' '
    ensures forall i :: 0 <= i < |s| - |r| ==> s[i] <= ' '
  {
    if s != [] && s[0] <= ' ' then TrimStart(s[1..]) else s
  }

  function TrimEnd(s: string): (r: string)
    ensures |r| <= |s| && r == s[..|r|]
    ensures r == [] || r[|r| - 1] > ' '
    ensures forall i :: |r| <= i < |s| ==> s[i] <= ' '
  {
    if s != [] && s[|s| - 1] <= ' ' then TrimEnd(s[..|s| - 1]) else s
  }

  /** String.trim(). */
  function Trim(s: string): (r: string)
    ensures r == [] || (r[0] > ' ' && r[|r| - 1] > ' ')
  {
    TrimEndHead(TrimStart(s));
    TrimEnd(TrimStart(s))
  }

  /** trim() leaves nothing exactly when every character is at most U+0020. */
  lemma TrimVacio(s: string)
    ensures Trim(s) == [] <==> forall i :: 0 <= i < |s| ==> s[i] <= ' '
  {
    TrimStartEmpty(s);
    TrimEndHead(TrimStart(s));
  }

  /** Every character is at most U+0020: what trim() reduces to the empty string. */
  predicate EnBlanco(s: string) {
    s == [] || (s[0] <= ' ' && EnBlanco(s[1..]))
  }

  lemma {:induction false} EnBlancoTodos(s: string)
    ensures EnBlanco(s) <==> forall i :: 0 <= i < |s| ==> s[i] <= ' '
  {
    if s != [] {
      EnBlancoTodos(s[1..]);
      assert forall i :: 0 < i < |s| ==> s[i] == s[1..][i - 1];
    }
  }

  /** trim() leaves nothing exactly on a blank string. */
  lemma TrimEnBlanco(s: string)
    ensures Trim(s) == [] <==> EnBlanco(s)
  {
    TrimVacio(s);
    EnBlancoTodos(s);
  }

  lemma TrimStartEmpty(s: string)
    ensures TrimStart(s) == [] <==> forall i :: 0 <= i < |s| ==> s[i] <= ' '
  {
    var t := TrimStart(s);
    if t != [] {
      assert t[0] == s[|s| - |t|];
    }
  }

  /** Trimming the end keeps a visible first character. */
  lemma TrimEndHead(t: string)
    requires t == [] || t[0] > ' '
    ensures TrimEnd(t) == [] <==> t == []
    ensures TrimEnd(t) != [] ==> TrimEnd(t)[0] == t[0]
  {
    if t != [] {
      assert TrimEnd(t) != [];
    }
  }

  /** A string with nothing to trim is its own trim. */
  lemma TrimTidy(s: string)
    requires s == [] || (s[0] > ' ' && s[|s| - 1] > ' ')
    ensures Trim(s) == s
  {
    if s != [] {
      assert TrimStart(s) == s;
      assert TrimEnd(s) == s;
    }
  }

  // ---- characters ----

  /** The characters of the regular-expression class \s: space, \t, \n, \x0B, \f and \r. */
  predicate IsSpace(c: char) {
    c == ' ' || '\t' <= c <= '\r'
  }

  predicate NoSpace(w: string) {
    forall i :: 0 <= i < |w| ==> !IsSpace(w[i])
  }

  /** Character.toLowerCase, on ASCII letters only. */
  function ToLower(c: char): char {
    if 'A' <= c <= 'Z' then (c as int + 32) as char else c
  }

  /** Character.toUpperCase, on ASCII letters only. */
  function ToUpper(c: char): char {
    if 'a' <= c <= 'z' then (c as int - 32) as char else c
  }

  /** String.toLowerCase, on ASCII letters only. */
  function LowerCase(s: string): (r: string)
    ensures |r| == |s| && forall i :: 0 <= i < |s| ==> r[i] == ToLower(s[i])
  {
    seq(|s|, i requires 0 <= i < |s| => ToLower(s[i]))
  }

  lemma LowerCaseAppend(a: string, b: string)
    ensures LowerCase(a + b) == LowerCase(a) + LowerCase(b)
  {
  }

  // ---- split("\\s+") and joining ----

  function SkipSpaces(s: string): (r: string)
    ensures |r| <= |s| && r == s[|s| - |r|..]
    ensures r == [] || !IsSpace(r[0])
    ensures forall i :: 0 <= i < |s| - |r| ==> IsSpace(s[i])
  {
    if s != [] && IsSpace(s[0]) then SkipSpaces(s[1..]) else s
  }

  function TakeWord(s: string): (w: string)
    ensures |w| <= |s| && w == s[..|w|]
    ensures NoSpace(w)
    ensures |w| == |s| || IsSpace(s[|w|])
  {
    if s != [] && !IsSpace(s[0]) then [s[0]] + TakeWord(s[1..]) else []
  }

  /** Non-empty runs of non-\s characters. */
  predicate AreWords(ws: seq<string>) {
    forall i :: 0 <= i < |ws| ==> ws[i] != [] && NoSpace(ws[i])
  }

  lemma AreWordsCons(w: string, ws: seq<string>)
    requires w != [] && NoSpace(w) && AreWords(ws)
    ensures AreWords([w] + ws)
  {
    var xs := [w] + ws;
    forall i | 0 <= i < |xs| ensures xs[i] != [] && NoSpace(xs[i]) {
      if i > 0 {
        assert xs[i] == ws[i - 1];
      }
    }
  }

  lemma AreWordsTail(ws: seq<string>)
    requires |ws| >= 1 && AreWords(ws)
    ensures ws[0] != [] && NoSpace(ws[0]) && AreWords(ws[1..])
  {
    var tail := ws[1..];
    forall i | 0 <= i < |tail| ensures tail[i] != [] && NoSpace(tail[i]) {
      assert tail[i] == ws[i + 1];
    }
  }

  /**
   * The maximal runs of non-\s characters of s, in order. These are exactly the
   * non-empty pieces that s.split("\\s+") returns.
   */
  function Words(s: string): (ws: seq<string>)
    ensures AreWords(ws)
    decreases |s|
  {
    var t := SkipSpaces(s);
    if t == [] then [] else
      var w := TakeWord(t);
      var rest := Words(t[|w|..]);
      AreWordsCons(w, rest);
      [w] + rest
  }

  /** Every character of w satisfies p. */
  predicate All(w: string, p: char -> bool) {
    forall k :: 0 <= k < |w| ==> p(w[k])
  }

  /** What holds of every non-\s character of s holds of every character of every word. */
  lemma {:induction false} WordsKeep(s: string, p: char -> bool)
    requires SpaceOr(s, p)
    ensures forall i :: 0 <= i < |Words(s)| ==> All(Words(s)[i], p)
    decreases |s|
  {
    var t := SkipSpaces(s);
    if t != [] {
      var w := TakeWord(t);
      var rest := t[|w|..];
      HeadWordKeeps(s, p);
      WordsKeep(rest, p);
      assert Words(s) == [w] + Words(rest);
      AllCons(w, Words(rest), p);
    }
  }

  lemma AllCons(w: string, ws: seq<string>, p: char -> bool)
    requires All(w, p) && forall i :: 0 <= i < |ws| ==> All(ws[i], p)
    ensures forall i :: 0 <= i < |[w] + ws| ==> All(([w] + ws)[i], p)
  {
    var xs := [w] + ws;
    forall i | 0 <= i < |xs| ensures All(xs[i], p) {
      if i > 0 {
        assert xs[i] == ws[i - 1];
      }
    }
  }

  /** Every character of s is \s or satisfies p. */
  predicate SpaceOr(s: string, p: char -> bool) {
    forall i :: 0 <= i < |s| ==> IsSpace(s[i]) || p(s[i])
  }

  lemma SpaceOrSlice(s: string, lo: nat, hi: nat, p: char -> bool)
    requires lo <= hi <= |s| && SpaceOr(s, p)
    ensures SpaceOr(s[lo..hi], p)
  {
    forall k | 0 <= k < hi - lo ensures IsSpace(s[lo..hi][k]) || p(s[lo..hi][k]) {
      assert s[lo..hi][k] == s[lo + k];
    }
  }

  lemma HeadWordKeeps(s: string, p: char -> bool)
    requires SpaceOr(s, p)
    ensures SkipSpaces(s) != [] ==> All(TakeWord(SkipSpaces(s)), p)
    ensures var t := SkipSpaces(s); t != [] ==> SpaceOr(t[|TakeWord(t)|..], p)
  {
    var t := SkipSpaces(s);
    if t != [] {
      var w := TakeWord(t);
      SpaceOrSlice(s, |s| - |t|, |s|, p);
      assert s[|s| - |t|..|s|] == t;
      SpaceOrSlice(t, 0, |w|, p);
      SpaceOrSlice(t, |w|, |t|, p);
      assert t[0..|w|] == w && t[|w|..|t|] == t[|w|..];
    }
  }

  /** What holds of every character of s holds of every character of trim(s). */
  lemma TrimKeeps(s: string, p: char -> bool)
    requires All(s, p)
    ensures All(Trim(s), p)
  {
    var t := TrimStart(s);
    SliceKeeps(s, |s| - |t|, |s|, p);
    SliceKeeps(t, 0, |TrimEnd(t)|, p);
  }

  lemma SliceKeeps(s: string, lo: nat, hi: nat, p: char -> bool)
    requires lo <= hi <= |s| && All(s, p)
    ensures All(s[lo..hi], p)
  {
    forall k | 0 <= k < hi - lo ensures p(s[lo..hi][k]) {
      assert s[lo..hi][k] == s[lo + k];
    }
  }

  /** The pieces of ws with sep between each two neighbours. */
  function Join(ws: seq<string>, sep: string): string {
    if |ws| == 0 then "" else if |ws| == 1 then ws[0] else ws[0] + sep + Join(ws[1..], sep)
  }

  lemma {:induction false} TakeWordPrefix(w: string, x: string)
    requires NoSpace(w)
    requires x == [] || IsSpace(x[0])
    ensures TakeWord(w + x) == w
  {
    if w != [] {
      assert (w + x)[1..] == w[1..] + x;
      TakeWordPrefix(w[1..], x);
    } else {
      assert w + x == x;
    }
  }

  lemma WordsAfterSpace(x: string)
    ensures Words(" " + x) == Words(x)
  {
    assert (" " + x)[1..] == x;
  }

  /** A word followed by a space or by nothing is the first word. */
  lemma WordsCons(w: string, x: string)
    requires w != [] && NoSpace(w)
    requires x == [] || IsSpace(x[0])
    ensures Words(w + x) == [w] + Words(x)
  {
    var s := w + x;
    assert s[0] == w[0];
    assert SkipSpaces(s) == s;
    TakeWordPrefix(w, x);
    assert s[|w|..] == x;
  }

  /** Splitting single-space-joined words gives the words back. */
  lemma {:induction false} WordsOfJoin(ws: seq<string>)
    requires AreWords(ws)
    ensures Words(Join(ws, " ")) == ws
  {
    if |ws| == 1 {
      OneWord(ws[0]);
    } else if |ws| > 1 {
      var w, tail := ws[0], ws[1..];
      ConsTail(ws);
      AreWordsTail(ws);
      WordsOfJoin(tail);
      JoinCons(ws, " ");
      WordThenSpace(w, Join(tail, " "));
    }
  }

  lemma ConsTail<T>(xs: seq<T>)
    requires |xs| >= 1
    ensures xs == [xs[0]] + xs[1..]
  {
  }

  lemma ConsPair<T>(a: T, b: T)
    ensures [a] + [b] == [a, b]
  {
  }

  lemma JoinCons(ws: seq<string>, sep: string)
    requires |ws| > 1
    ensures Join(ws, sep) == ws[0] + (sep + Join(ws[1..], sep))
  {
  }

  /** A single word is its own split. */
  lemma OneWord(w: string)
    requires w != [] && NoSpace(w)
    ensures Words(w) == [w]
  {
    WordsCons(w, "");
    assert w + "" == w;
    assert Words("") == [];
  }

  /** A word, one space, and the rest: the word comes first, then the rest's words. */
  lemma WordThenSpace(w: string, j: string)
    requires w != [] && NoSpace(w)
    ensures Words(w + (" " + j)) == [w] + Words(j)
  {
    WordsCons(w, " " + j);
    WordsAfterSpace(j);
  }

  /**
   * s.split("\\s+"): "" gives [""]; otherwise the words, preceded by one empty piece when
   * s starts with a \s character, and nothing at all when s is only \s characters
   * (trailing empty pieces are dropped).
   */
  function SplitSpaces(s: string): (ps: seq<string>)
    ensures s != "" && !IsSpace(s[0]) ==> ps == Words(s)
  {
    if s == "" then [""]
    else
      var ws := Words(s);
      if ws == [] then [] else if IsSpace(s[0]) then [""] + ws else ws
  }

  /** Joining one more piece at the end. */
  lemma {:induction false} JoinSnoc(ws: seq<string>, w: string, sep: string)
    requires |ws| >= 1
    ensures Join(ws + [w], sep) == Join(ws, sep) + sep + w
  {
    if |ws| > 1 {
      assert (ws + [w])[1..] == ws[1..] + [w];
      JoinSnoc(ws[1..], w, sep);
    }
  }

  /** Each piece lower-cased. */
  function LowerCases(ws: seq<string>): (ls: seq<string>)
    ensures |ls| == |ws| && forall i :: 0 <= i < |ws| ==> ls[i] == LowerCase(ws[i])
  {
    seq(|ws|, i requires 0 <= i < |ws| => LowerCase(ws[i]))
  }

  /** toLowerCase leaves a single space alone, so it goes through a join. */
  lemma {:induction false} LowerCaseJoin(ws: seq<string>)
    ensures LowerCase(Join(ws, " ")) == Join(LowerCases(ws), " ")
  {
    var ls := LowerCases(ws);
    if |ws| > 1 {
      LowerCaseJoin(ws[1..]);
      assert ls[1..] == LowerCases(ws[1..]);
      LowerCaseAppend(ws[0], " " + Join(ws[1..], " "));
      LowerCaseAppend(" ", Join(ws[1..], " "));
      assert Join(ws, " ") == ws[0] + (" " + Join(ws[1..], " "));
      assert Join(ls, " ") == ls[0] + (" " + Join(ls[1..], " "));
    }
  }

  /** The first word of a string that starts with a non-space starts with that character. */
  lemma FirstWord(x: string)
    requires x != [] && !IsSpace(x[0])
    ensures |Words(x)| > 0 && Words(x)[0][0] == x[0]
  {
    assert SkipSpaces(x) == x;
  }

  // ---- compareTo ----

  /** String.compareTo: the difference of the first differing characters, else of the lengths. */
  function CompareTo(a: string, b: string): (r: int)
    ensures |a| <= |b| && a == b[..|a|] ==> r == |a| - |b|
    decreases |a|
  {
    if |a| == 0 || |b| == 0 then |a| - |b|
    else if a[0] != b[0] then a[0] as int - b[0] as int
    else CompareTo(a[1..], b[1..])
  }

  /** Lexicographic order: a proper prefix, or smaller at the first difference. */
  ghost predicate LexLess(a: string, b: string) {
    (|a| < |b| && a == b[..|a|]) ||
    exists k :: 0 <= k < |a| && k < |b| && a[..k] == b[..k] && a[k] < b[k]
  }

  lemma {:induction false} CompareToZero(a: string, b: string)
    ensures CompareTo(a, b) == 0 <==> a == b
    decreases |a|
  {
    if |a| > 0 && |b| > 0 && a[0] == b[0] {
      CompareToZero(a[1..], b[1..]);
      assert a == [a[0]] + a[1..] && b == [b[0]] + b[1..];
    }
  }

  lemma {:induction false} CompareToAntisymmetric(a: string, b: string)
    ensures CompareTo(a, b) == -CompareTo(b, a)
    decreases |a|
  {
    if |a| > 0 && |b| > 0 && a[0] == b[0] {
      CompareToAntisymmetric(a[1..], b[1..]);
    }
  }

  lemma {:induction false} CompareToTransitive(a: string, b: string, c: string)
    requires CompareTo(a, b) < 0 && CompareTo(b, c) < 0
    ensures CompareTo(a, c) < 0
    decreases |a|
  {
    if |a| > 0 && |b| > 0 && |c| > 0 && a[0] == b[0] && b[0] == c[0] {
      CompareToTransitive(a[1..], b[1..], c[1..]);
    }
  }

  lemma {:induction false} CompareToNegative(a: string, b: string)
    ensures CompareTo(a, b) < 0 <==> LexLess(a, b)
    decreases |a|
  {
    if |a| == 0 || |b| == 0 {
      LexLessEmpty(a, b);
    } else if a[0] != b[0] {
      LexLessHead(a, b);
    } else {
      CompareToNegative(a[1..], b[1..]);
      LexLessTail(a, b);
    }
  }

  lemma LexLessEmpty(a: string, b: string)
    requires |a| == 0 || |b| == 0
    ensures LexLess(a, b) <==> |a| < |b|
  {
    if |a| == 0 && |b| > 0 {
      assert a == b[..0];
    }
  }

  lemma LexLessHead(a: string, b: string)
    requires |a| > 0 && |b| > 0 && a[0] != b[0]
    ensures LexLess(a, b) <==> a[0] < b[0]
  {
    assert a[..0] == b[..0];
    if |a| < |b| {
      assert a[..|a|][0] != b[..|a|][0];
    }
    forall k | 0 < k <= |a| && k <= |b| ensures a[..k] != b[..k] {
      assert a[..k][0] != b[..k][0];
    }
  }

  lemma LexLessTail(a: string, b: string)
    requires |a| > 0 && |b| > 0 && a[0] == b[0]
    ensures LexLess(a, b) <==> LexLess(a[1..], b[1..])
  {
    if LexLess(a[1..], b[1..]) {
      LexLessGrow(a, b);
    }
    if LexLess(a, b) {
      LexLessShrink(a, b);
    }
  }

  lemma LexLessGrow(a: string, b: string)
    requires |a| > 0 && |b| > 0 && a[0] == b[0] && LexLess(a[1..], b[1..])
    ensures LexLess(a, b)
  {
    var a', b' := a[1..], b[1..];
    if |a'| < |b'| && a' == b'[..|a'|] {
      assert a == [a[0]] + a' && b[..|a|] == [b[0]] + b'[..|a'|];
    } else {
      var k :| 0 <= k < |a'| && k < |b'| && a'[..k] == b'[..k] && a'[k] < b'[k];
      assert a[..k + 1] == [a[0]] + a'[..k] && b[..k + 1] == [b[0]] + b'[..k];
      assert a[k + 1] == a'[k] && b[k + 1] == b'[k];
    }
  }

  lemma LexLessShrink(a: string, b: string)
    requires |a| > 0 && |b| > 0 && a[0] == b[0] && LexLess(a, b)
    ensures LexLess(a[1..], b[1..])
  {
    var a', b' := a[1..], b[1..];
    if |a| < |b| && a == b[..|a|] {
      assert a' == b'[..|a'|];
    } else {
      var k :| 0 <= k < |a| && k < |b| && a[..k] == b[..k] && a[k] < b[k];
      assert k > 0;
      assert a'[..k - 1] == a[..k][1..] && b'[..k - 1] == b[..k][1..];
      assert a'[k - 1] == a[k] && b'[k - 1] == b[k];
    }
  }

  // ---- indexOf and split with a literal separator ----

  function IndexOf(s: string, c: char): (i: nat)
    ensures i <= |s| && (i < |s| ==> s[i] == c)
    ensures forall j :: 0 <= j < i ==> s[j] != c
  {
    if s == [] then 0 else if s[0] == c then 0 else 1 + IndexOf(s[1..], c)
  }

  /** lastIndexOf: -1 when c does not occur. */
  function LastIndexOf(s: string, c: char): (i: int)
    ensures -1 <= i < |s| && (i >= 0 ==> s[i] == c)
    ensures forall j :: i < j < |s| ==> s[j] != c
  {
    if s == [] then -1 else if s[|s| - 1] == c then |s| - 1 else LastIndexOf(s[..|s| - 1], c)
  }

  /** The pieces of s between occurrences of sep, empty pieces included. */
  function Pieces(s: string, sep: char): (ps: seq<string>)
    ensures |ps| >= 1
    ensures forall k :: 0 <= k < |ps| ==> Excludes(ps[k], sep)
    decreases |s|
  {
    var i := IndexOf(s, sep);
    if i == |s| then [s] else
      var resto := Pieces(s[i + 1..], sep);
      assert Excludes(s[..i], sep);
      [s[..i]] + resto
  }

  function DropTrailingEmpty(ps: seq<string>): (r: seq<string>)
    ensures |r| <= |ps| && r == ps[..|r|]
    ensures r == [] || r[|r| - 1] != ""
  {
    if |ps| > 0 && ps[|ps| - 1] == "" then DropTrailingEmpty(ps[..|ps| - 1]) else ps
  }

  /**
   * s.split(x) where x is one literal character and no limit is given: trailing empty
   * pieces are removed, and a string without the separator is returned whole.
   */
  function Split(s: string, sep: char): (r: seq<string>)
    ensures Excludes(s, sep) ==> r == [s]
    ensures forall i :: 0 <= i < |r| ==> Excludes(r[i], sep)
  {
    if s == "" then [""] else DropTrailingEmpty(Pieces(s, sep))
  }

  predicate Excludes(w: string, c: char) {
    forall i :: 0 <= i < |w| ==> w[i] != c
  }

  lemma {:induction false} PiecesOfJoin(fields: seq<string>, sep: char)
    requires |fields| >= 1
    requires forall i :: 0 <= i < |fields| ==> Excludes(fields[i], sep)
    ensures Pieces(Join(fields, [sep]), sep) == fields
  {
    var w := fields[0];
    if |fields| == 1 {
      assert IndexOf(w, sep) == |w|;
    } else {
      var j := Join(fields[1..], [sep]);
      var s := w + [sep] + j;
      assert IndexOf(s, sep) == |w| by {
        assert s[|w|] == sep;
        assert forall k :: 0 <= k < |w| ==> s[k] == w[k];
      }
      assert s[..|w|] == w && s[|w| + 1..] == j;
      PiecesOfJoin(fields[1..], sep);
    }
  }

  /** Splitting what was joined gives the fields back, if none holds the separator and the last is not empty. */
  lemma SplitJoin(fields: seq<string>, sep: char)
    requires |fields| >= 1
    requires forall i :: 0 <= i < |fields| ==> Excludes(fields[i], sep)
    requires fields[|fields| - 1] != ""
    ensures Split(Join(fields, [sep]), sep) == fields
  {
    PiecesOfJoin(fields, sep);
    JoinEndsWithLast(fields, [sep]);
  }

  lemma {:induction false} JoinEndsWithLast(ws: seq<string>, sep: string)
    requires |ws| >= 1
    ensures |Join(ws, sep)| >= |ws[|ws| - 1]|
    ensures Join(ws, sep)[|Join(ws, sep)| - |ws[|ws| - 1]|..] == ws[|ws| - 1]
  {
    if |ws| > 1 {
      JoinEndsWithLast(ws[1..], sep);
      var j := Join(ws[1..], sep);
      assert Join(ws, sep) == (ws[0] + sep) + j;
    }
  }
}
