/**
 Searching, trimming and splitting of byte strings, as `std::string_view` does it.

 A byte is a `char`; nothing below depends on a character being less than 256.
 */
module Text {
  import opened Prelude

  const CRLF: string := "\r\n"

  predicate CrlfAt(s: string, i: int) {
    0 <= i && i + 1 < |s| && s[i] == '\r' && s[i + 1] == '\n'
  }

  /** CRLFCRLF starts at i: the end of a header block. */
  predicate BlankAt(s: string, i: int) {
    CrlfAt(s, i) && CrlfAt(s, i + 2)
  }

  ghost predicate NoCrlf(s: string) {
    forall i :: !CrlfAt(s, i)
  }

  predicate EndsBlank(s: string) {
    BlankAt(s, |s| - 4)
  }

  function Repeated(c: char, n: nat): (s: string)
    ensures |s| == n
  {
    seq(n, _ => c)
  }

  // ---------- first occurrences ----------

  function FindChar(s: string, c: char, from: nat := 0): (r: Option<nat>)
    requires from <= |s|
    ensures r.Some? ==> from <= r.value < |s| && s[r.value] == c
    ensures r.Some? ==> forall j :: from <= j < r.value ==> s[j] != c
    ensures r.None? ==> forall j :: from <= j < |s| ==> s[j] != c
    decreases |s| - from
  {
    if from == |s| then None
    else if s[from] == c then Some(from)
    else FindChar(s, c, from + 1)
  }

  function FindCrlf(s: string, from: nat := 0): (r: Option<nat>)
    requires from <= |s|
    ensures r.Some? ==> from <= r.value && CrlfAt(s, r.value)
    ensures r.Some? ==> forall j :: from <= j < r.value ==> !CrlfAt(s, j)
    ensures r.None? ==> forall j :: from <= j ==> !CrlfAt(s, j)
    decreases |s| - from
  {
    if from == |s| then None
    else if CrlfAt(s, from) then Some(from)
    else FindCrlf(s, from + 1)
  }

  function FindBlank(s: string, from: nat := 0): (r: Option<nat>)
    requires from <= |s|
    ensures r.Some? ==> from <= r.value && BlankAt(s, r.value)
    ensures r.Some? ==> forall j :: from <= j < r.value ==> !BlankAt(s, j)
    ensures r.None? ==> forall j :: from <= j ==> !BlankAt(s, j)
    decreases |s| - from
  {
    if from == |s| then None
    else if BlankAt(s, from) then Some(from)
    else FindBlank(s, from + 1)
  }

  /** More input never moves an end of headers that was already visible. */
  lemma BlankIsStable(s: string, t: string)
    ensures FindBlank(s).Some? ==> FindBlank(s + t) == FindBlank(s)
    ensures FindBlank(s).None? && FindBlank(s + t).Some? ==> |s| < FindBlank(s + t).value + 4
  {
    assert forall j :: BlankAt(s, j) ==> BlankAt(s + t, j);
    assert forall j :: j + 4 <= |s| && BlankAt(s + t, j) ==> BlankAt(s, j);
  }

  /** A block cut at its first end of headers ends there, and nowhere before. */
  lemma BlankOfPrefix(s: string, e: nat)
    requires FindBlank(s) == Some(e)
    ensures FindBlank(s[..e + 4]) == Some(e) && EndsBlank(s[..e + 4])
  {
    var block := s[..e + 4];
    assert BlankAt(block, e);
    forall j | 0 <= j < e ensures !BlankAt(block, j) {
      assert !BlankAt(s, j);
    }
    FirstBlank(block, e);
  }

  /** The first end of headers is the only one that leaves none before it. */
  lemma FirstBlank(s: string, e: nat)
    requires BlankAt(s, e)
    requires forall j :: 0 <= j < e ==> !BlankAt(s, j)
    ensures FindBlank(s) == Some(e)
  {
  }

  lemma FirstCrlf(s: string, e: nat)
    requires CrlfAt(s, e)
    requires forall j :: 0 <= j < e ==> !CrlfAt(s, j)
    ensures FindCrlf(s) == Some(e)
  {
  }

  lemma FirstChar(s: string, c: char, e: nat)
    requires e < |s| && s[e] == c
    requires forall j :: 0 <= j < e ==> s[j] != c
    ensures FindChar(s, c) == Some(e)
  {
  }

  // ---------- lines ----------

  function Join(lines: seq<string>): string {
    if lines == [] then "" else lines[0] + CRLF + Join(lines[1..])
  }

  /** What remains of a header block is the closing CRLF, or ends in CRLFCRLF. */
  predicate Terminated(head: string) {
    head == CRLF || EndsBlank(head)
  }

  /** In a terminated block a CRLF is always found, and cutting the line off leaves a terminated block. */
  lemma CutLine(head: string)
    requires EndsBlank(head)
    ensures FindCrlf(head).Some?
    ensures FindCrlf(head).value + 2 < |head| && Terminated(head[FindCrlf(head).value + 2..])
  {
  }

  /** The lines of a terminated block, without their CRLFs and without the empty one that closes it. */
  function Lines(head: string): (lines: seq<string>)
    requires Terminated(head)
    decreases |head|
  {
    if head == CRLF then []
    else
      CutLine(head);
      var e := FindCrlf(head).value;
      [head[..e]] + Lines(head[e + 2..])
  }

  lemma BeforeCrlf(head: string, e: nat)
    requires FindCrlf(head) == Some(e)
    ensures NoCrlf(head[..e]) && head == head[..e] + CRLF + head[e + 2..]
  {
    forall i ensures !CrlfAt(head[..e], i) {
      assert 0 <= i < e ==> !CrlfAt(head, i);
    }
  }

  lemma NoCrlfCons(line: string, lines: seq<string>)
    requires NoCrlf(line) && forall i :: 0 <= i < |lines| ==> NoCrlf(lines[i])
    ensures forall i :: 0 <= i < |[line] + lines| ==> NoCrlf(([line] + lines)[i])
  {
  }

  lemma JoinCons(line: string, lines: seq<string>)
    ensures Join([line] + lines) + CRLF == line + CRLF + (Join(lines) + CRLF)
  {
  }

  /** Cutting a terminated block into lines loses nothing, and no line holds a CRLF. */
  lemma {:induction false} LinesRejoin(head: string)
    requires Terminated(head)
    ensures Join(Lines(head)) + CRLF == head
    ensures forall i :: 0 <= i < |Lines(head)| ==> NoCrlf(Lines(head)[i])
    decreases |head|
  {
    hide FindCrlf, NoCrlf, CrlfAt, Join;
    if head == CRLF {
      JoinNone();
    } else {
      CutLine(head);
      var e := FindCrlf(head).value;
      var rest := head[e + 2..];
      BeforeCrlf(head, e);
      LinesRejoin(rest);
      JoinCons(head[..e], Lines(rest));
      NoCrlfCons(head[..e], Lines(rest));
    }
  }

  lemma JoinNone()
    ensures Join([]) + CRLF == CRLF
  {
  }

  lemma {:induction false} JoinTerminated(lines: seq<string>)
    ensures Terminated(Join(lines) + CRLF)
    ensures |Join(lines) + CRLF| == 2 <==> lines == []
  {
    if lines != [] {
      JoinTerminated(lines[1..]);
      var rest := Join(lines[1..]) + CRLF;
      var whole := Join(lines) + CRLF;
      assert whole == lines[0] + CRLF + rest;
      if lines[1..] == [] {
        assert rest == CRLF;
        assert BlankAt(whole, |whole| - 4);
      } else {
        assert BlankAt(rest, |rest| - 4);
        assert BlankAt(whole, |whole| - 4);
      }
    }
  }

  /** In a line followed by CRLF and more, the first CRLF is the line's own. */
  lemma LineEnd(line: string, rest: string)
    requires NoCrlf(line)
    ensures FindCrlf(line + CRLF + rest) == Some(|line|)
  {
    var s := line + CRLF + rest;
    assert CrlfAt(s, |line|);
    forall j | 0 <= j < |line| ensures !CrlfAt(s, j) {
      assert !CrlfAt(line, j);
    }
    FirstCrlf(s, |line|);
  }

  /** Joining lines and cutting them again gives the same lines back. */
  lemma {:induction false} JoinThenLines(lines: seq<string>)
    requires forall i :: 0 <= i < |lines| ==> NoCrlf(lines[i])
    ensures Terminated(Join(lines) + CRLF)
    ensures Lines(Join(lines) + CRLF) == lines
  {
    JoinTerminated(lines);
    if lines != [] {
      var rest := Join(lines[1..]) + CRLF;
      var whole := Join(lines) + CRLF;
      assert whole == lines[0] + CRLF + rest;
      LineEnd(lines[0], rest);
      JoinThenLines(lines[1..]);
      assert whole[..|lines[0]|] == lines[0];
      assert whole[|lines[0]| + 2..] == rest;
      assert Lines(whole) == [lines[0]] + Lines(rest);
    }
  }

  lemma CrlfShift(line: string, rest: string, j: nat)
    ensures CrlfAt(line + CRLF + rest, |line| + 2 + j) <==> CrlfAt(rest, j)
    ensures !CrlfAt(line + CRLF + rest, |line| + 1)
  {
  }

  /** A line in front of a block that starts with a non-empty line moves its first CRLFCRLF along. */
  lemma BlankAfterLine(line: string, rest: string, e: nat)
    requires NoCrlf(line) && !CrlfAt(rest, 0) && FindBlank(rest) == Some(e)
    ensures FindBlank(line + CRLF + rest) == Some(|line| + 2 + e)
  {
    hide FindCrlf, FindBlank, CrlfAt, NoCrlf;
    var n, whole := |line|, line + CRLF + rest;
    LineEnd(line, rest);
    forall j | 0 <= j < n + 2 + e ensures !BlankAt(whole, j) {
      CrlfShift(line, rest, 0);
      if j >= n + 2 {
        CrlfShift(line, rest, j - n - 2);
        CrlfShift(line, rest, j - n);
        assert !BlankAt(rest, j - n - 2);
      }
    }
    CrlfShift(line, rest, e);
    CrlfShift(line, rest, e + 2);
    FirstBlank(whole, n + 2 + e);
  }

  /** When no line is empty, the first CRLFCRLF of a joined block is the one that ends it. */
  lemma {:induction false} JoinFirstBlank(lines: seq<string>)
    requires lines != []
    requires forall i :: 0 <= i < |lines| ==> NoCrlf(lines[i]) && lines[i] != ""
    ensures FindBlank(Join(lines) + CRLF) == Some(|Join(lines)| - 2)
    ensures !CrlfAt(Join(lines) + CRLF, 0)
  {
    hide FindCrlf, FindBlank, NoCrlf;
    var line, tail := lines[0], lines[1..];
    var rest := Join(tail) + CRLF;
    assert Join(lines) + CRLF == line + CRLF + rest;
    LineEnd(line, rest);
    if tail == [] {
      assert rest == CRLF;
      var whole := line + CRLF + rest;
      assert BlankAt(whole, |line|);
      assert forall j :: 0 <= j < |line| ==> !CrlfAt(whole, j);
      FirstBlank(whole, |line|);
    } else {
      JoinFirstBlank(tail);
      BlankAfterLine(line, rest, |Join(tail)| - 2);
    }
  }

  lemma {:induction false} JoinAppend(lines: seq<string>, more: seq<string>)
    ensures Join(lines + more) == Join(lines) + Join(more)
  {
    if lines == [] {
      assert lines + more == more;
    } else {
      JoinAppend(lines[1..], more);
      assert (lines + more)[1..] == lines[1..] + more;
    }
  }

  lemma JoinOne(line: string)
    ensures Join([line]) == line + CRLF
  {
  }

  lemma JoinPush(lines: seq<string>, line: string)
    ensures Join(lines + [line]) == Join(lines) + line + CRLF
  {
    JoinAppend(lines, [line]);
    JoinOne(line);
    assert Join(lines) + (line + CRLF) == Join(lines) + line + CRLF;
  }

  // ---------- lines that may themselves hold CRLFs ----------

  /** The lines a text prints when a CRLF follows it. */
  function SubLines(s: string): (lines: seq<string>)
  {
    TextTerminated(s);
    Lines(s + CRLF + CRLF)
  }

  lemma TextTerminated(s: string)
    ensures EndsBlank(s + CRLF + CRLF)
  {
  }

  /** What a list of texts really is as a list of lines. */
  function Flatten(texts: seq<string>): seq<string> {
    if texts == [] then [] else SubLines(texts[0]) + Flatten(texts[1..])
  }

  ghost predicate AllNoCrlf(lines: seq<string>) {
    forall i :: 0 <= i < |lines| ==> NoCrlf(lines[i])
  }

  lemma SubLinesRejoin(s: string)
    ensures Join(SubLines(s)) == s + CRLF && AllNoCrlf(SubLines(s)) && SubLines(s) != []
  {
    hide Join, Lines;
    TextTerminated(s);
    LinesRejoin(s + CRLF + CRLF);
    var joined := Join(SubLines(s));
    assert joined + CRLF == (s + CRLF) + CRLF;
    assert joined == (joined + CRLF)[..|joined|];
    assert s + CRLF == ((s + CRLF) + CRLF)[..|s + CRLF|];
    if SubLines(s) == [] {
      JoinNone();
    }
  }

  lemma SubLinesOfLine(s: string)
    requires NoCrlf(s)
    ensures SubLines(s) == [s]
  {
    hide NoCrlf, Join, Lines;
    JoinOne(s);
    JoinThenLines([s]);
  }

  lemma NoCrlfAppend(a: seq<string>, b: seq<string>)
    requires AllNoCrlf(a) && AllNoCrlf(b)
    ensures AllNoCrlf(a + b)
  {
  }

  lemma {:induction false} FlattenJoins(texts: seq<string>)
    ensures Join(Flatten(texts)) == Join(texts) && AllNoCrlf(Flatten(texts))
  {
    hide SubLines, NoCrlf, AllNoCrlf;
    if texts == [] {
      assert AllNoCrlf([]) by {
        NothingHasCrlf();
      }
    } else {
      FlattenJoins(texts[1..]);
      SubLinesRejoin(texts[0]);
      JoinAppend(SubLines(texts[0]), Flatten(texts[1..]));
      NoCrlfAppend(SubLines(texts[0]), Flatten(texts[1..]));
    }
  }

  lemma NothingHasCrlf()
    ensures AllNoCrlf([])
  {
  }

  /** A block printed from any texts is read as their lines. */
  lemma LinesOfTexts(texts: seq<string>)
    ensures Terminated(Join(texts) + CRLF) && Lines(Join(texts) + CRLF) == Flatten(texts)
  {
    hide Join, Lines, Flatten, NoCrlf;
    FlattenJoins(texts);
    JoinThenLines(Flatten(texts));
  }

  lemma {:induction false} FlattenAppend(a: seq<string>, b: seq<string>)
    ensures Flatten(a + b) == Flatten(a) + Flatten(b)
  {
    hide SubLines;
    if a == [] {
      assert a + b == b;
    } else {
      FlattenAppend(a[1..], b);
      assert (a + b)[1..] == a[1..] + b && (a + b)[0] == a[0];
      var x, y, z := SubLines(a[0]), Flatten(a[1..]), Flatten(b);
      assert x + (y + z) == (x + y) + z;
    }
  }

  lemma {:induction false} FlattenLines(lines: seq<string>)
    requires AllNoCrlf(lines)
    ensures Flatten(lines) == lines
  {
    hide SubLines, NoCrlf;
    if lines != [] {
      SubLinesOfLine(lines[0]);
      FlattenLines(lines[1..]);
    }
  }

  lemma EndsWithCrlf(before: string, after: string)
    requires |before| >= 2 && CrlfAt(before, |before| - 2)
    ensures BlankAt(before + CRLF + after, |before| - 2)
  {
  }

  lemma {:induction false} JoinEndsWithCrlf(lines: seq<string>)
    requires lines != []
    ensures |Join(lines)| >= 2 && CrlfAt(Join(lines), |Join(lines)| - 2)
  {
    var n := |lines| - 1;
    JoinPush(lines[..n], lines[n]);
    assert lines == lines[..n] + [lines[n]];
  }

  /** An empty line after the first ends the block early. */
  lemma EmptyLineEndsEarly(lines: seq<string>, i: nat)
    requires 0 < i < |lines| && lines[i] == ""
    ensures FindBlank(Join(lines) + CRLF).Some? && FindBlank(Join(lines) + CRLF).value < |Join(lines)| - 2
  {
    hide FindBlank, CrlfAt, Join;
    var before, after := Join(lines[..i]), Join(lines[i + 1..]);
    JoinAppend(lines[..i], lines[i..]);
    JoinAppend([""], lines[i + 1..]);
    JoinOne("");
    assert lines == lines[..i] + lines[i..] && lines[i..] == [""] + lines[i + 1..];
    assert Join(lines) + CRLF == before + CRLF + (after + CRLF);
    JoinEndsWithCrlf(lines[..i]);
    EndsWithCrlf(before, after + CRLF);
    assert BlankAt(Join(lines) + CRLF, |before| - 2);
  }

  // ---------- trimming ----------

  predicate Blank(c: char) {
    c == ' ' || c == '\t'
  }

  predicate Trimmed(s: string) {
    s == "" || (!Blank(s[0]) && !Blank(s[|s| - 1]))
  }

  function TrimLeft(s: string): string {
    if s != "" && Blank(s[0]) then TrimLeft(s[1..]) else s
  }

  function TrimRight(s: string): string {
    if s != "" && Blank(s[|s| - 1]) then TrimRight(s[..|s| - 1]) else s
  }

  function Trim(s: string): string {
    TrimRight(TrimLeft(s))
  }

  ghost predicate AllBlank(s: string) {
    forall i :: 0 <= i < |s| ==> Blank(s[i])
  }

  /** A trimmed core between blanks is exactly what trimming leaves. */
  lemma {:induction false} TrimPadded(left: string, core: string, right: string)
    requires AllBlank(left) && AllBlank(right) && Trimmed(core)
    ensures Trim(left + core + right) == core
    decreases |left| + |right|
  {
    var s := left + core + right;
    if left != "" {
      assert s[1..] == left[1..] + core + right;
      TrimPadded(left[1..], core, right);
    } else if right != "" {
      TrimPadded("", core, right[..|right| - 1]);
      assert s == core + right;
      if core == "" {
        TrimAllBlank(right);
        assert s == right;
      } else {
        var t := "" + core + right[..|right| - 1];
        assert s[0] == core[0] && t[0] == core[0];
        assert s[..|s| - 1] == t;
      }
    } else {
      assert s == core;
    }
  }

  lemma {:induction false} TrimAllBlank(s: string)
    requires AllBlank(s)
    ensures TrimLeft(s) == ""
  {
    if s != "" {
      TrimAllBlank(s[1..]);
    }
  }

  /** Trimming takes off blanks at both ends and nothing else. */
  lemma {:induction false} TrimSplits(s: string) returns (left: string, right: string)
    ensures AllBlank(left) && AllBlank(right) && s == left + Trim(s) + right
    ensures Trimmed(Trim(s))
    decreases |s|
  {
    if s == "" {
      left, right := "", "";
    } else if Blank(s[0]) {
      left, right := TrimSplits(s[1..]);
      left := [s[0]] + left;
    } else {
      assert TrimLeft(s) == s;
      right := TrimRightSplits(s);
      left := "";
    }
  }

  lemma {:induction false} TrimRightSplits(s: string) returns (right: string)
    ensures AllBlank(right) && s == TrimRight(s) + right
    ensures TrimRight(s) == "" || !Blank(TrimRight(s)[|TrimRight(s)| - 1])
  {
    if s != "" && Blank(s[|s| - 1]) {
      right := TrimRightSplits(s[..|s| - 1]);
      right := right + [s[|s| - 1]];
    } else {
      right := "";
    }
  }

  // ---------- pieces between separators ----------

  /**
   The pieces a `while (!s.empty())` loop over `find(sep)` visits: an empty string has none, and a
   trailing separator is not followed by a last empty piece.
   */
  function Pieces(s: string, sep: char): (pieces: seq<string>)
    decreases |s|
  {
    if s == "" then []
    else match FindChar(s, sep)
      case None => [s]
      case Some(e) => [s[..e]] + Pieces(s[e + 1..], sep)
  }

  /** One turn of such a loop: a piece moves from the text to the pieces already seen. */
  lemma PiecesStep(all: seq<string>, seen: seq<string>, s: string, sep: char)
    requires s != "" && all == seen + Pieces(s, sep)
    ensures FindChar(s, sep).None? ==> all == seen + [s]
    ensures forall e: nat :: FindChar(s, sep) == Some(e) ==> all == seen + [s[..e]] + Pieces(s[e + 1..], sep)
  {
    hide FindChar;
  }

  lemma NoPieces(sep: char)
    ensures Pieces("", sep) == []
  {
  }

  function Glue(pieces: seq<string>, sep: char): string {
    if pieces == [] then ""
    else if |pieces| == 1 then pieces[0]
    else pieces[0] + [sep] + Glue(pieces[1..], sep)
  }

  ghost predicate Without(s: string, c: char) {
    forall i :: 0 <= i < |s| ==> s[i] != c
  }

  /** Splitting undoes gluing, for pieces without separators, except that an empty last piece is not seen again. */
  lemma {:induction false} PiecesOfGlue(pieces: seq<string>, sep: char)
    requires forall i :: 0 <= i < |pieces| ==> Without(pieces[i], sep)
    ensures Pieces(Glue(pieces, sep), sep) ==
            if pieces != [] && pieces[|pieces| - 1] == "" then pieces[..|pieces| - 1] else pieces
    ensures pieces != [] && pieces[|pieces| - 1] != "" ==> Glue(pieces, sep) != ""
  {
    hide Pieces, Without;
    SomePieces("", sep);
    if |pieces| == 1 {
      if pieces[0] != "" {
        LastPiece(pieces[0], sep);
      }
      assert Glue(pieces, sep) == pieces[0] && pieces == [pieces[0]];
    } else if |pieces| > 1 {
      var rest := pieces[1..];
      PiecesOfGlue(rest, sep);
      FirstPiece(pieces[0], Glue(rest, sep), sep);
      assert pieces == [pieces[0]] + rest;
      assert pieces[..|pieces| - 1] == [pieces[0]] + rest[..|rest| - 1];
    }
  }

  lemma LastPiece(piece: string, sep: char)
    requires Without(piece, sep) && piece != ""
    ensures Pieces(piece, sep) == [piece]
  {
    assert FindChar(piece, sep).None?;
  }

  lemma FirstPiece(piece: string, rest: string, sep: char)
    requires Without(piece, sep)
    ensures Pieces(piece + [sep] + rest, sep) == [piece] + Pieces(rest, sep)
  {
    var s := piece + [sep] + rest;
    FirstChar(s, sep, |piece|);
    assert s[..|piece|] == piece && s[|piece| + 1..] == rest;
  }

  lemma {:induction false} PiecesWithout(s: string, sep: char)
    ensures forall i :: 0 <= i < |Pieces(s, sep)| ==> Without(Pieces(s, sep)[i], sep)
    decreases |s|
  {
    if s != "" {
      match FindChar(s, sep)
      case None =>
      case Some(e) => PiecesWithout(s[e + 1..], sep);
    }
  }

  lemma GlueCons(piece: string, pieces: seq<string>, sep: char)
    ensures pieces != [] ==> Glue([piece] + pieces, sep) == piece + [sep] + Glue(pieces, sep)
    ensures Glue([piece], sep) == piece
  {
  }

  lemma SomePieces(s: string, sep: char)
    ensures Pieces(s, sep) == [] <==> s == ""
  {
  }

  /** Gluing undoes splitting, up to one trailing separator. */
  lemma {:induction false} GlueOfPieces(s: string, sep: char)
    ensures var g := Glue(Pieces(s, sep), sep);
            s == g || s == g + [sep]
    ensures forall i :: 0 <= i < |Pieces(s, sep)| ==> Without(Pieces(s, sep)[i], sep)
    decreases |s|
  {
    hide FindChar, Glue, Without;
    PiecesWithout(s, sep);
    SomePieces(s, sep);
    if s == "" {
      NoGlue(sep);
    } else {
      match FindChar(s, sep)
      case None => GlueCons(s, [], sep);
      case Some(e) =>
        var rest := s[e + 1..];
        GlueOfPieces(rest, sep);
        SomePieces(rest, sep);
        GlueCons(s[..e], Pieces(rest, sep), sep);
        assert s == s[..e] + [sep] + rest;
        assert [s[..e]] + [] == [s[..e]];
    }
  }

  lemma NoGlue(sep: char)
    ensures Glue([], sep) == ""
  {
  }
}
