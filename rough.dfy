/**
 * The "rough and fast" XML pretty-printer of both XmlFormatter generations
 * and the prettify entry point that falls back to a verbatim copy.
 *
 * The printer reads its input in chunks of the buffer's size, appends each
 * chunk to the row left over from the previous one, puts a line break after
 * every '>' and before every '<', splits the result into rows at the line
 * breaks, and hands every row but the last (which may be incomplete) to
 * handleRow; the last row is carried over. handleRow writes a non-empty row
 * on a line of its own, indented by the current depth, and moves the depth
 * by the kind of row. The two generations differ only in where an opening
 * tag is indented. Text is a sequence of single-byte characters.
 */
module RoughFormat {
  import opened Common

  /** The package generation: io.github.hoijui.rezipdoc or net.rezipdoc. */
  datatype Generation = Io | Net

  /**
   * How rows are split: as written (String.split("\n"), which drops
   * trailing empty rows) or keeping them (split("\n", -1)).
   */
  datatype Splitting = AsWritten | KeepTrailing

  /** Text written by a row or rows, and the depth afterwards. */
  datatype Emitted = Emitted(text: string, depth: int)

  // -----------------------------------------------------------------------
  // Line breaks around tags

  function ExpandChar(c: char): string {
    if c == '>' then ">\n" else if c == '<' then "\n<" else [c]
  }

  /** replaceAll(">", ">\n") followed by replaceAll("<", "\n<"). */
  function Expand(s: string): string {
    if s == [] then [] else Expand(s[..|s| - 1]) + ExpandChar(s[|s| - 1])
  }

  lemma {:induction false} ExpandAppend(a: string, b: string)
    ensures Expand(a + b) == Expand(a) + Expand(b)
    decreases |b|
  {
    if b == [] {
      assert a + b == a;
    } else {
      var b' := b[..|b| - 1];
      var c := b[|b| - 1];
      assert (a + b)[..|a + b| - 1] == a + b' && (a + b)[|a + b| - 1] == c;
      assert Expand(a + b) == Expand(a + b') + ExpandChar(c);
      assert Expand(b) == Expand(b') + ExpandChar(c);
      ExpandAppend(a, b');
      assert (Expand(a) + Expand(b')) + ExpandChar(c) == Expand(a) + (Expand(b') + ExpandChar(c));
    }
  }

  /** Every '>' the expansion produces is followed by a line break, and every '<' is preceded by one. */
  lemma {:induction false} ExpandBreaksAroundTags(s: string)
    ensures forall i :: 0 <= i < |Expand(s)| && Expand(s)[i] == '>' ==> i + 1 < |Expand(s)| && Expand(s)[i + 1] == '\n'
    ensures forall i :: 0 <= i < |Expand(s)| && Expand(s)[i] == '<' ==> i > 0 && Expand(s)[i - 1] == '\n'
  {
    if s != [] {
      ExpandBreaksAroundTags(s[..|s| - 1]);
    }
  }

  // -----------------------------------------------------------------------
  // Splitting into rows

  /** The pieces after one more character: a new empty piece at a line break, else the last piece grows. */
  function Grow(pieces: seq<string>, c: char): (r: seq<string>)
    requires |pieces| >= 1
    ensures |r| >= 1
  {
    if c == '\n' then pieces + [""] else Init(pieces) + [Last(pieces) + [c]]
  }

  /** The pieces of s between line breaks, keeping empty ones: one more piece than there are breaks. */
  function SplitAll(s: string): (r: seq<string>)
    ensures |r| >= 1
  {
    if s == [] then [""] else Grow(SplitAll(s[..|s| - 1]), s[|s| - 1])
  }

  /** Growing a run of pieces only touches its end. */
  lemma GrowAppend(before: seq<string>, pieces: seq<string>, c: char)
    requires |pieces| >= 1
    ensures Grow(before + pieces, c) == before + Grow(pieces, c)
  {
    if c != '\n' {
      assert Init(before + pieces) == before + Init(pieces);
      assert Last(before + pieces) == Last(pieces);
    }
  }

  /** The pieces joined with line breaks. */
  function JoinRows(rows: seq<string>): string
    requires |rows| >= 1
  {
    if |rows| == 1 then rows[0] else JoinRows(Init(rows)) + "\n" + Last(rows)
  }

  /** No piece holds a line break. */
  lemma {:induction false} SplitAllNoBreak(s: string)
    ensures forall k :: 0 <= k < |SplitAll(s)| ==> '\n' !in SplitAll(s)[k]
  {
    if s != [] {
      var s' := s[..|s| - 1];
      var c := s[|s| - 1];
      assert s == s' + [c];
      SplitAllNoBreak(s');
      SplitAllSnoc(s', c);
      var p := SplitAll(s');
      if c != '\n' {
        assert '\n' !in Last(p) + [c];
      }
    }
  }

  /** Joining the pieces with line breaks gives the text back. */
  lemma {:induction false} SplitAllJoin(s: string)
    ensures JoinRows(SplitAll(s)) == s
  {
    if s != [] {
      var s' := s[..|s| - 1];
      var c := s[|s| - 1];
      assert s == s' + [c];
      SplitAllJoin(s');
      SplitAllSnoc(s', c);
      var p := SplitAll(s');
      if c == '\n' {
        var r := p + [""];
        assert Init(r) == p && Last(r) == "";
        assert JoinRows(r) == JoinRows(p) + "\n" + "";
      } else {
        var r := Init(p) + [Last(p) + [c]];
        if |p| == 1 {
          assert r == [p[0] + [c]];
        } else {
          assert Init(r) == Init(p) && Last(r) == Last(p) + [c];
          assert JoinRows(r) == JoinRows(Init(p)) + "\n" + (Last(p) + [c]);
          assert JoinRows(p) == JoinRows(Init(p)) + "\n" + Last(p);
        }
      }
    }
  }

  lemma {:induction false} SplitAllOfRow(s: string)
    requires '\n' !in s
    ensures SplitAll(s) == [s]
    decreases |s|
  {
    if s != [] {
      var s' := s[..|s| - 1];
      var c := s[|s| - 1];
      assert '\n' !in s' by { assert forall x :: x in s' ==> x in s; }
      assert SplitAll(s) == Grow(SplitAll(s'), c);
      SplitAllOfRow(s');
      assert c != '\n' by { assert c in s; }
      assert Grow([s'], c) == [s' + [c]] by {
        assert Init([s']) == [] && Last([s']) == s';
      }
      assert s' + [c] == s;
    }
  }

  /** Splitting after one more character: a new empty piece at a line break, else the last piece grows. */
  lemma SplitAllSnoc(s: string, c: char)
    ensures SplitAll(s + [c]) == Grow(SplitAll(s), c)
  {
    assert (s + [c])[..|s|] == s;
  }

  /** Splitting a concatenation: the last piece of the first part continues into the second. */
  lemma {:induction false} SplitAllAppend(a: string, b: string)
    ensures SplitAll(a + b) == Init(SplitAll(a)) + SplitAll(Last(SplitAll(a)) + b)
    decreases |b|
  {
    var p := SplitAll(a);
    if b == [] {
      assert a + b == a;
      assert Last(p) + b == Last(p);
      SplitAllNoBreak(a);
      assert '\n' !in p[|p| - 1];
      SplitAllOfRow(Last(p));
      assert Init(p) + [Last(p)] == p;
    } else {
      var b' := b[..|b| - 1];
      var c := b[|b| - 1];
      assert a + b == (a + b') + [c];
      assert Last(p) + b == (Last(p) + b') + [c];
      SplitAllAppend(a, b');
      var q := SplitAll(Last(p) + b');
      SplitAllSnoc(a + b', c);
      SplitAllSnoc(Last(p) + b', c);
      GrowAppend(Init(p), q, c);
    }
  }

  /** A leading line break only adds an empty first piece. */
  lemma {:induction false} SplitAllLeadingBreak(s: string)
    ensures SplitAll("\n" + s) == [""] + SplitAll(s)
  {
    var nl: string := "\n";
    assert nl[..0] == [] && nl[0] == '\n';
    var p := SplitAll(nl);
    assert p == [[], []];
    SplitAllAppend(nl, s);
    assert Init(p) == [[]] && Last(p) + s == s;
  }

  function DropTrailingEmpty(rows: seq<string>): seq<string> {
    if rows == [] then []
    else if Last(rows) == [] then DropTrailingEmpty(Init(rows))
    else rows
  }

  /** Dropping keeps a prefix that is empty or ends in a non-empty row; every row dropped is empty. */
  lemma {:induction false} DropTrailingEmptyMeaning(rows: seq<string>)
    ensures var r := DropTrailingEmpty(rows);
      |r| <= |rows| && r == rows[..|r|] && (r == [] || Last(r) != [])
      && forall k :: |r| <= k < |rows| ==> rows[k] == []
  {
    if rows != [] && Last(rows) == [] {
      DropTrailingEmptyMeaning(Init(rows));
    }
  }

  /**
   * String.split("\n"): the text itself when it has no line break,
   * otherwise its pieces with the trailing empty ones removed (so a text
   * of line breaks only gives no rows at all).
   */
  function JavaSplit(s: string): seq<string> {
    if '\n' !in s then [s] else DropTrailingEmpty(SplitAll(s))
  }

  function Rows(splitting: Splitting, s: string): seq<string> {
    match splitting
    case AsWritten => JavaSplit(s)
    case KeepTrailing => SplitAll(s)
  }

  /** Java's split drops the last row exactly when the text ends in a line break after other text. */
  lemma {:induction false} JavaSplitDropsFinalBreak(s: string)
    requires s != [] && '\n' !in s
    ensures JavaSplit(s + "\n") == [s]
  {
    var t := s + "\n";
    assert t[..|t| - 1] == s && t[|t| - 1] == '\n';
    SplitAllOfRow(s);
    var p := SplitAll(t);
    assert p == [s] + [[]];
    assert '\n' in t;
    assert Init(p) == [s];
    assert DropTrailingEmpty(p) == DropTrailingEmpty([s]);
  }

  // -----------------------------------------------------------------------
  // Rows and depth

  /** The branch of handleRow a (trimmed) row takes. */
  datatype RowKind = Blank | Declaration | Closing | Opening(cdata: bool) | Other

  function KindOf(row: string): RowKind {
    if row == [] then Blank
    else if StartsWith(row, "<?") then Declaration
    else if StartsWith(row, "</") then Closing
    else if StartsWith(row, "<") && !EndsWith(row, "/>") then Opening(EndsWith(row, "]]>"))
    else Other
  }

  /** How a row of the given kind moves the depth: a closing tag -1, an opening tag +1, a CDATA row or anything else 0. */
  function DepthStep(kind: RowKind): int {
    match kind
    case Closing => -1
    case Opening(cdata) => if cdata then 0 else 1
    case _ => 0
  }

  /** appendIndents: the indent string `depth` times, nothing for a depth of 0 or less. */
  function Indentation(indent: string, depth: int): (r: string)
    ensures depth <= 0 ==> r == []
    decreases depth
  {
    if depth <= 0 then [] else Indentation(indent, depth - 1) + indent
  }

  /** The indentation is the indent repeated `depth` times: its length is their product. */
  lemma {:induction false} IndentationLength(indent: string, depth: int)
    ensures depth > 0 ==> |Indentation(indent, depth)| == depth * |indent|
    decreases depth
  {
    if depth > 0 {
      IndentationLength(indent, depth - 1);
      assert (depth - 1) * |indent| + |indent| == depth * |indent|;
    }
  }

  /** The depth at which handleRow indents a row of the given kind. */
  function IndentLevel(gen: Generation, kind: RowKind, depth: int): int {
    match kind
    case Declaration => 0
    case Closing => depth - 1
    case Opening(_) => if gen == Net then depth + 1 else depth
    case _ => depth
  }

  /** What handleRow writes for a row and the depth it returns. */
  function RowEffect(gen: Generation, indent: string, row: string, depth: int): (e: Emitted)
  {
    match KindOf(row)
    case Blank => Emitted([], depth)
    case Declaration => Emitted(row + "\n", depth)
    case Closing => Emitted(Indentation(indent, depth - 1) + row + "\n", depth - 1)
    case Opening(cdata) =>
      var at := if gen == Net then depth + 1 else depth;
      Emitted(Indentation(indent, at) + row + "\n", if cdata then depth else depth + 1)
    case Other => Emitted(Indentation(indent, depth) + row + "\n", depth)
  }

  /** A row moves the depth by its kind; an empty row writes nothing, any other is written indented, on a line of its own. */
  lemma RowEffectShape(gen: Generation, indent: string, row: string, depth: int)
    ensures RowEffect(gen, indent, row, depth).depth == depth + DepthStep(KindOf(row))
    ensures row == [] ==> RowEffect(gen, indent, row, depth).text == []
    ensures row != [] ==>
      RowEffect(gen, indent, row, depth).text == Indentation(indent, IndentLevel(gen, KindOf(row), depth)) + row + "\n"
  {
  }

  /** handleRow on each row in turn, threading the depth. */
  function EmitRows(gen: Generation, indent: string, rows: seq<string>, depth: int): (e: Emitted)
  {
    if rows == [] then Emitted([], depth)
    else
      var before := EmitRows(gen, indent, Init(rows), depth);
      var last := RowEffect(gen, indent, Last(rows), before.depth);
      Emitted(before.text + last.text, last.depth)
  }

  /** Every row trimmed, as the printer does before handing it to handleRow. */
  function TrimRows(rows: seq<string>): (r: seq<string>)
    ensures |r| == |rows|
  {
    if rows == [] then [] else TrimRows(Init(rows)) + [Trim(Last(rows))]
  }

  lemma {:induction false} TrimRowsAll(rows: seq<string>)
    ensures forall k :: 0 <= k < |rows| ==> TrimRows(rows)[k] == Trim(rows[k])
  {
    if rows != [] {
      TrimRowsAll(Init(rows));
    }
  }

  lemma EmitRowsExtend(gen: Generation, indent: string, rows: seq<string>, k: nat, depth: int)
    requires k < |rows|
    ensures var before := EmitRows(gen, indent, rows[..k], depth);
      var row := RowEffect(gen, indent, rows[k], before.depth);
      EmitRows(gen, indent, rows[..k + 1], depth) == Emitted(before.text + row.text, row.depth)
  {
    assert Init(rows[..k + 1]) == rows[..k];
  }

  /** The net change of depth over some rows. */
  function DepthChange(rows: seq<string>): int {
    if rows == [] then 0 else DepthChange(Init(rows)) + DepthStep(KindOf(Last(rows)))
  }

  /** The depth after some rows is the starting depth plus their opening tags minus their closing tags. */
  lemma {:induction false} EmitRowsDepth(gen: Generation, indent: string, rows: seq<string>, depth: int)
    ensures EmitRows(gen, indent, rows, depth).depth == depth + DepthChange(rows)
  {
    if rows != [] {
      EmitRowsDepth(gen, indent, Init(rows), depth);
    }
  }

  /** The two generations track the depth identically. */
  lemma {:induction false} GenerationsAgreeOnDepth(indent: string, rows: seq<string>, depth: int)
    ensures EmitRows(Io, indent, rows, depth).depth == EmitRows(Net, indent, rows, depth).depth
  {
    EmitRowsDepth(Io, indent, rows, depth);
    EmitRowsDepth(Net, indent, rows, depth);
  }

  /** The generations differ only in opening tags, which the older one writes one indent deeper. */
  lemma {:induction false} OpeningTagIndents(indent: string, row: string, depth: int)
    requires KindOf(row).Opening?
    ensures RowEffect(Io, indent, row, depth).text == Indentation(indent, depth) + row + "\n"
    ensures RowEffect(Net, indent, row, depth).text == Indentation(indent, depth + 1) + row + "\n"
    ensures depth >= 0 ==> RowEffect(Net, indent, row, depth).text == Indentation(indent, depth) + indent + row + "\n"
  {
  }

  /** Any other row is written the same way by both generations. */
  lemma {:induction false} OtherRowsAgree(indent: string, row: string, depth: int)
    requires !KindOf(row).Opening?
    ensures RowEffect(Io, indent, row, depth) == RowEffect(Net, indent, row, depth)
  {
  }

  function RemoveEmpty(rows: seq<string>): seq<string> {
    if rows == [] then []
    else if Last(rows) == [] then RemoveEmpty(Init(rows))
    else RemoveEmpty(Init(rows)) + [Last(rows)]
  }

  /** No row left is empty, and every non-empty row is kept. */
  lemma {:induction false} RemoveEmptyMeaning(rows: seq<string>)
    ensures forall k :: 0 <= k < |RemoveEmpty(rows)| ==> RemoveEmpty(rows)[k] != []
    ensures |RemoveEmpty(rows)| <= |rows|
  {
    if rows != [] {
      RemoveEmptyMeaning(Init(rows));
    }
  }

  lemma {:induction false} RemoveEmptyAppend(a: seq<string>, b: seq<string>)
    ensures RemoveEmpty(a + b) == RemoveEmpty(a) + RemoveEmpty(b)
    decreases |b|
  {
    if b == [] {
      assert a + b == a;
    } else {
      assert Init(a + b) == a + Init(b);
      RemoveEmptyAppend(a, Init(b));
    }
  }

  /** One more row: its effect, at the depth the rows before it leave. */
  lemma EmitRowsSnoc(gen: Generation, indent: string, rows: seq<string>, row: string, depth: int)
    ensures var before := EmitRows(gen, indent, rows, depth);
      var last := RowEffect(gen, indent, row, before.depth);
      EmitRows(gen, indent, rows + [row], depth) == Emitted(before.text + last.text, last.depth)
  {
    assert Init(rows + [row]) == rows && Last(rows + [row]) == row;
  }

  /** handleRow threaded over rows, for any effect of a row. */
  function FoldRows(effect: (string, int) -> Emitted, rows: seq<string>, depth: int): Emitted {
    if rows == [] then Emitted([], depth)
    else
      var before := FoldRows(effect, Init(rows), depth);
      var last := effect(Last(rows), before.depth);
      Emitted(before.text + last.text, last.depth)
  }

  function RowEffects(gen: Generation, indent: string): (string, int) -> Emitted {
    (row, depth) => RowEffect(gen, indent, row, depth)
  }

  lemma {:induction false} EmitRowsIsFold(gen: Generation, indent: string, rows: seq<string>, depth: int)
    ensures EmitRows(gen, indent, rows, depth) == FoldRows(RowEffects(gen, indent), rows, depth)
  {
    if rows != [] {
      EmitRowsIsFold(gen, indent, Init(rows), depth);
    }
  }

  lemma {:induction false} FoldRowsAppend(effect: (string, int) -> Emitted, a: seq<string>, b: seq<string>, depth: int)
    ensures var mid := FoldRows(effect, a, depth);
      FoldRows(effect, a + b, depth) == Emitted(mid.text + FoldRows(effect, b, mid.depth).text, FoldRows(effect, b, mid.depth).depth)
    decreases |b|
  {
    if b == [] {
      assert a + b == a;
    } else {
      assert Init(a + b) == a + Init(b) && Last(a + b) == Last(b);
      FoldRowsAppend(effect, a, Init(b), depth);
    }
  }

  lemma EmitRowsAppend(gen: Generation, indent: string, a: seq<string>, b: seq<string>, depth: int)
    ensures EmitRows(gen, indent, a + b, depth).depth == EmitRows(gen, indent, b, EmitRows(gen, indent, a, depth).depth).depth
    ensures EmitRows(gen, indent, a + b, depth).text
      == EmitRows(gen, indent, a, depth).text + EmitRows(gen, indent, b, EmitRows(gen, indent, a, depth).depth).text
  {
    var mid := EmitRows(gen, indent, a, depth);
    EmitRowsIsFold(gen, indent, a + b, depth);
    EmitRowsIsFold(gen, indent, a, depth);
    EmitRowsIsFold(gen, indent, b, mid.depth);
    FoldRowsAppend(RowEffects(gen, indent), a, b, depth);
  }

  /** Empty rows write nothing and leave the depth alone, so they can be dropped. */
  lemma {:induction false} EmitRowsSkipsEmpty(gen: Generation, indent: string, rows: seq<string>, depth: int)
    ensures EmitRows(gen, indent, rows, depth) == EmitRows(gen, indent, RemoveEmpty(rows), depth)
  {
    if rows != [] {
      EmitRowsSkipsEmpty(gen, indent, Init(rows), depth);
      if Last(rows) != [] {
        var r := RemoveEmpty(Init(rows)) + [Last(rows)];
        assert Init(r) == RemoveEmpty(Init(rows));
      }
    }
  }

  lemma {:induction false} RowsAlike(gen: Generation, indent: string, a: seq<string>, b: seq<string>, depth: int)
    requires RemoveEmpty(a) == RemoveEmpty(b)
    ensures EmitRows(gen, indent, a, depth) == EmitRows(gen, indent, b, depth)
  {
    EmitRowsSkipsEmpty(gen, indent, a, depth);
    EmitRowsSkipsEmpty(gen, indent, b, depth);
  }

  // -----------------------------------------------------------------------
  // The chunk loop

  /** What the rough printer ends with: its output, or the failure point (input consumed, output written). */
  datatype RoughResult = RoughDone(out: string) | RoughFailed(consumed: nat, out: string)

  function Min(a: int, b: int): int {
    if a < b then a else b
  }

  /** InputStream.read(buffer) on the remaining input: -1 at the end, else as much as fits. */
  function ReadCount(input: string, pos: nat, bufferSize: nat): int {
    if pos >= |input| then -1 else Min(bufferSize, |input| - pos)
  }

  /** What one chunk does: nothing when it splits into no rows, else the complete rows written out and the row carried over. */
  datatype ChunkOutcome = NoRows | Completed(text: string, carry: string, depth: int)

  /**
   * One pass of the loop body: the chunk appended to the carried row, line
   * breaks put around tags, the result split, and every row but the last
   * trimmed and handled. A split that yields no rows at all makes
   * rows[rows.length - 1] throw.
   */
  function ChunkStep(gen: Generation, indent: string, splitting: Splitting, carry: string, chunk: string, depth: int)
    : ChunkOutcome
  {
    var rows := Rows(splitting, Expand(carry + chunk));
    if rows == [] then NoRows
    else
      var e := EmitRows(gen, indent, TrimRows(Init(rows)), depth);
      Completed(e.text, Last(rows), e.depth)
  }

  /** The loop body and the final handling of the carried row, as values. */
  type Chunker = (string, string, int) -> ChunkOutcome
  type Finisher = (string, int) -> string

  function Chunking(gen: Generation, indent: string, splitting: Splitting): Chunker {
    (carry, chunk, depth) => ChunkStep(gen, indent, splitting, carry, chunk, depth)
  }

  function Finishing(gen: Generation, indent: string): Finisher {
    (carry, depth) => RowEffect(gen, indent, Trim(carry), depth).text
  }

  /**
   * The chunk loop from the given point on: `pos` characters consumed,
   * `carry` the row carried over, `depth` and `out` so far.
   */
  function RoughFrom(step: Chunker, finish: Finisher, input: string, bufferSize: nat,
                     pos: nat, carry: string, depth: int, out: string): RoughResult
    requires pos <= |input|
    decreases |input| - pos
  {
    var n := ReadCount(input, pos, bufferSize);
    if n <= 0 then RoughDone(out + finish(carry, depth))
    else
      match step(carry, input[pos..pos + n], depth)
      case NoRows => RoughFailed(pos + n, out)
      case Completed(text, rest, after) => RoughFrom(step, finish, input, bufferSize, pos + n, rest, after, out + text)
  }

  /** The end of the input: the carried row goes through the final handleRow. */
  lemma RoughFromEnd(step: Chunker, finish: Finisher, input: string, bufferSize: nat,
                     pos: nat, carry: string, depth: int, out: string)
    requires pos <= |input| && ReadCount(input, pos, bufferSize) <= 0
    ensures RoughFrom(step, finish, input, bufferSize, pos, carry, depth, out) == RoughDone(out + finish(carry, depth))
  {
  }

  /** One turn of the chunk loop. */
  lemma RoughFromStep(step: Chunker, finish: Finisher, input: string, bufferSize: nat,
                      pos: nat, carry: string, depth: int, out: string)
    requires pos <= |input| && ReadCount(input, pos, bufferSize) > 0
    requires step(carry, input[pos..pos + ReadCount(input, pos, bufferSize)], depth).Completed?
    ensures var n := ReadCount(input, pos, bufferSize);
      var c := step(carry, input[pos..pos + n], depth);
      RoughFrom(step, finish, input, bufferSize, pos, carry, depth, out)
        == RoughFrom(step, finish, input, bufferSize, pos + n, c.carry, c.depth, out + c.text)
  {
  }

  /** One turn of the chunk loop, with the read count and the body's outcome named. */
  lemma RoughFromTurn(step: Chunker, finish: Finisher, input: string, bufferSize: nat,
                      pos: nat, carry: string, depth: int, out: string, n: int, c: ChunkOutcome)
    requires pos <= |input| && n == ReadCount(input, pos, bufferSize) && n > 0
    requires c.Completed? && step(carry, input[pos..pos + n], depth) == c
    ensures RoughFrom(step, finish, input, bufferSize, pos, carry, depth, out)
      == RoughFrom(step, finish, input, bufferSize, pos + n, c.carry, c.depth, out + c.text)
  {
  }

  /** A chunk that splits into no rows ends the loop with the failure. */
  lemma RoughFromStop(step: Chunker, finish: Finisher, input: string, bufferSize: nat,
                      pos: nat, carry: string, depth: int, out: string, n: int, c: ChunkOutcome)
    requires pos <= |input| && n == ReadCount(input, pos, bufferSize) && n > 0
    requires c.NoRows? && step(carry, input[pos..pos + n], depth) == c
    ensures RoughFrom(step, finish, input, bufferSize, pos, carry, depth, out) == RoughFailed(pos + n, out)
  {
  }

  /** prettifyRoughAndFast on a whole input. */
  function Rough(gen: Generation, indent: string, splitting: Splitting, input: string, bufferSize: nat): RoughResult {
    RoughFrom(Chunking(gen, indent, splitting), Finishing(gen, indent), input, bufferSize, 0, [], 0, [])
  }

  /** appendIndents: appends the indent `depth` times. */
  method AppendIndents(out: string, depth: int, indent: string) returns (r: string)
    ensures r == out + Indentation(indent, depth)
  {
    r := out;
    var ii := 0;
    while ii < depth
      invariant depth <= 0 ==> ii == 0
      invariant depth > 0 ==> 0 <= ii <= depth
      invariant r == out + Indentation(indent, ii)
    {
      r := r + indent;
      ii := ii + 1;
    }
  }

  /** appendIndents followed by the row and a line break. */
  method AppendIndentedRow(out: string, depth: int, indent: string, row: string) returns (r: string)
    ensures r == out + (Indentation(indent, depth) + row + "\n")
  {
    r := AppendIndents(out, depth, indent);
    r := r + row + "\n";
  }

  /** handleRow: writes a row at the depth its kind calls for and returns the new depth. */
  method HandleRow(gen: Generation, indent: string, out: string, row: string, numIndents: int)
    returns (written: string, depth: int)
    ensures Emitted(written, depth) == Emitted(out + RowEffect(gen, indent, row, numIndents).text,
                                               RowEffect(gen, indent, row, numIndents).depth)
  {
    written := out;
    depth := numIndents;
    ghost var kind := KindOf(row);
    if row != [] {
      if StartsWith(row, "<?") {
        assert kind == Declaration;
        written := written + row + "\n";
      } else if StartsWith(row, "</") {
        assert kind == Closing;
        depth := depth - 1;
        written := AppendIndentedRow(written, depth, indent, row);
      } else if StartsWith(row, "<") && !EndsWith(row, "/>") {
        assert kind == Opening(EndsWith(row, "]]>"));
        if gen == Net {
          depth := depth + 1;
          written := AppendIndentedRow(written, depth, indent, row);
        } else {
          written := AppendIndentedRow(written, depth, indent, row);
          depth := depth + 1;
        }
        if EndsWith(row, "]]>") {
          depth := depth - 1;
        }
      } else {
        assert kind == Other;
        written := AppendIndentedRow(written, depth, indent, row);
      }
    } else {
      assert kind == Blank;
    }
  }

  /** One more trimmed row handled: its effect at the depth the rows before it leave. */
  /** One more row through handleRow extends the emitted rows by that row's effect. */
  lemma EmitRowsStep(gen: Generation, indent: string, rows: seq<string>, i: nat, depth: int)
    requires i < |rows|
    ensures var before := EmitRows(gen, indent, TrimRows(rows[..i]), depth);
      var next := RowEffect(gen, indent, Trim(rows[i]), before.depth);
      EmitRows(gen, indent, TrimRows(rows[..i + 1]), depth) == Emitted(before.text + next.text, next.depth)
  {
    assert Init(rows[..i + 1]) == rows[..i] && Last(rows[..i + 1]) == rows[i];
    var t := TrimRows(rows[..i]) + [Trim(rows[i])];
    assert TrimRows(rows[..i + 1]) == t;
    assert Init(t) == TrimRows(rows[..i]) && Last(t) == Trim(rows[i]);
  }

  /** The inner loop: every row but the last, trimmed, through handleRow. */
  method HandleRows(gen: Generation, indent: string, out: string, rows: seq<string>, numIndents: int)
    returns (written: string, depth: int)
    requires |rows| >= 1
    ensures written == out + EmitRows(gen, indent, TrimRows(Init(rows)), numIndents).text
    ensures depth == EmitRows(gen, indent, TrimRows(Init(rows)), numIndents).depth
  {
    written := out;
    depth := numIndents;
    var ir := 0;
    ghost var done := Emitted([], numIndents);
    assert rows[..0] == [];
    while ir < |rows| - 1
      invariant 0 <= ir <= |rows| - 1
      invariant done == EmitRows(gen, indent, TrimRows(rows[..ir]), numIndents)
      invariant written == out + done.text && depth == done.depth
    {
      written, depth, done := HandleRowsTurn(gen, indent, out, rows, ir, numIndents, written, depth, done);
      ir := ir + 1;
    }
    assert rows[..ir] == Init(rows);
  }

  /** One turn of the inner loop: the next row, trimmed, through handleRow. */
  method HandleRowsTurn(gen: Generation, indent: string, out: string, rows: seq<string>, ir: nat, numIndents: int,
                        written: string, depth: int, ghost done: Emitted)
    returns (written': string, depth': int, ghost done': Emitted)
    requires ir < |rows|
    requires done == EmitRows(gen, indent, TrimRows(rows[..ir]), numIndents)
    requires written == out + done.text && depth == done.depth
    ensures done' == EmitRows(gen, indent, TrimRows(rows[..ir + 1]), numIndents)
    ensures written' == out + done'.text && depth' == done'.depth
  {
    var row := Trim(rows[ir]);
    EmitRowsStep(gen, indent, rows, ir, numIndents);
    written', depth' := HandleRow(gen, indent, written, row, depth);
    ghost var next := RowEffect(gen, indent, row, depth);
    done' := Emitted(done.text + next.text, next.depth);
    AppendAfter(out, done.text, next.text, written, written');
  }

  /** Text appended after a prefix that already follows `out`. */
  lemma AppendAfter(out: string, before: string, after: string, written: string, written': string)
    requires written == out + before && written' == written + after
    ensures written' == out + (before + after)
  {
  }

  /** `step` computes what one turn of the chunk loop does. */
  ghost predicate StepsAs(gen: Generation, indent: string, splitting: Splitting, step: Chunker) {
    forall carry, chunk, depth {:trigger ChunkStep(gen, indent, splitting, carry, chunk, depth)} ::
      step(carry, chunk, depth) == ChunkStep(gen, indent, splitting, carry, chunk, depth)
  }

  /** `finish` computes what the final handleRow writes. */
  ghost predicate FinishesAs(gen: Generation, indent: string, finish: Finisher) {
    forall carry, depth {:trigger RowEffect(gen, indent, Trim(carry), depth)} ::
      finish(carry, depth) == RowEffect(gen, indent, Trim(carry), depth).text
  }

  /**
   * The body of the chunk loop: the chunk appended to the carried row,
   * split, every row but the last handled, the last one kept. Reports
   * whether there was a last row to keep.
   */
  method HandleChunk(gen: Generation, indent: string, splitting: Splitting, inBuffer: string, chunk: string,
                     out: string, numIndents: int, ghost step: Chunker)
    returns (completed: bool, written: string, depth: int, carry: string)
    requires StepsAs(gen, indent, splitting, step)
    ensures var c := step(inBuffer, chunk, numIndents);
      completed == c.Completed? && (completed ==> written == out + c.text && depth == c.depth && carry == c.carry)
  {
    ghost var c := ChunkStep(gen, indent, splitting, inBuffer, chunk, numIndents);
    var rows := Rows(splitting, Expand(inBuffer + chunk));
    if rows == [] {
      return false, out, numIndents, inBuffer;
    }
    written, depth := HandleRows(gen, indent, out, rows, numIndents);
    completed := true;
    carry := Last(rows);
  }

  /** One turn of the chunk loop: the chunk read at `pos` handled, and where the loop goes from there. */
  method ChunkTurn(gen: Generation, indent: string, splitting: Splitting, input: string, bufferSize: nat,
                   ghost step: Chunker, ghost finish: Finisher,
                   pos: nat, readBytes: int, inBuffer: string, out: string, numIndents: int)
    returns (completed: bool, written: string, depth: int, carry: string)
    requires StepsAs(gen, indent, splitting, step)
    requires pos <= |input| && readBytes == ReadCount(input, pos, bufferSize) && readBytes > 0
    ensures completed ==>
      (RoughFrom(step, finish, input, bufferSize, pos, inBuffer, numIndents, out)
       == RoughFrom(step, finish, input, bufferSize, pos + readBytes, carry, depth, written))
    ensures !completed ==>
      (RoughFrom(step, finish, input, bufferSize, pos, inBuffer, numIndents, out) == RoughFailed(pos + readBytes, out))
  {
    var chunk := input[pos..pos + readBytes];
    completed, written, depth, carry := HandleChunk(gen, indent, splitting, inBuffer, chunk, out, numIndents, step);
    ghost var c := step(inBuffer, chunk, numIndents);
    if completed {
      RoughFromTurn(step, finish, input, bufferSize, pos, inBuffer, numIndents, out, readBytes, c);
    } else {
      RoughFromStop(step, finish, input, bufferSize, pos, inBuffer, numIndents, out, readBytes, c);
    }
  }

  /**
   * The loop of prettifyRoughAndFast, stated over any `step` and `finish`
   * that agree with the loop body and with the final handleRow.
   */
  method ChunkLoop(gen: Generation, indent: string, splitting: Splitting, input: string, bufferSize: nat,
                   ghost step: Chunker, ghost finish: Finisher)
    returns (result: RoughResult)
    requires StepsAs(gen, indent, splitting, step)
    requires FinishesAs(gen, indent, finish)
    ensures result == RoughFrom(step, finish, input, bufferSize, 0, [], 0, [])
  {
    var numIndents := 0;
    var inBuffer: string := [];
    var out: string := [];
    var pos := 0;
    var readBytes := ReadCount(input, pos, bufferSize);
    ghost var whole := RoughFrom(step, finish, input, bufferSize, 0, [], 0, []);
    while readBytes > 0
      invariant pos <= |input| && readBytes == ReadCount(input, pos, bufferSize)
      invariant whole == RoughFrom(step, finish, input, bufferSize, pos, inBuffer, numIndents, out)
      decreases |input| - pos
    {
      var completed, written, depth, carry := ChunkTurn(gen, indent, splitting, input, bufferSize, step, finish,
                                                        pos, readBytes, inBuffer, out, numIndents);
      if !completed {
        return RoughFailed(pos + readBytes, out);
      }
      var next := pos + readBytes;
      assert next <= |input|;
      assert whole == RoughFrom(step, finish, input, bufferSize, next, carry, depth, written);
      out, numIndents, inBuffer := written, depth, carry;
      pos := next;
      readBytes := ReadCount(input, pos, bufferSize);
    }
    result := FinishRough(gen, indent, input, bufferSize, step, finish, pos, inBuffer, out, numIndents);
  }

  /** After the loop: the carried row, trimmed, through handleRow. */
  method FinishRough(gen: Generation, indent: string, input: string, bufferSize: nat,
                     ghost step: Chunker, ghost finish: Finisher,
                     pos: nat, inBuffer: string, out: string, numIndents: int)
    returns (result: RoughResult)
    requires FinishesAs(gen, indent, finish)
    requires pos <= |input| && ReadCount(input, pos, bufferSize) <= 0
    ensures result == RoughFrom(step, finish, input, bufferSize, pos, inBuffer, numIndents, out)
  {
    var tail, _ := HandleRow(gen, indent, out, Trim(inBuffer), numIndents);
    assert finish(inBuffer, numIndents) == RowEffect(gen, indent, Trim(inBuffer), numIndents).text;
    RoughFromEnd(step, finish, input, bufferSize, pos, inBuffer, numIndents, out);
    result := RoughDone(tail);
  }

  /**
   * prettifyRoughAndFast: the chunk loop over the input, carrying the last
   * row of each chunk, then the carried row once the input ends.
   */
  method PrettifyRoughAndFast(gen: Generation, indent: string, splitting: Splitting, input: string, bufferSize: nat)
    returns (result: RoughResult)
    ensures result == Rough(gen, indent, splitting, input, bufferSize)
  {
    result := ChunkLoop(gen, indent, splitting, input, bufferSize, Chunking(gen, indent, splitting), Finishing(gen, indent));
  }

  // -----------------------------------------------------------------------
  // prettify with its fallback

  /** The formatter's settings: indent width for the exact mode, indent string for the rough mode, the mode. */
  datatype XmlFormatter = XmlFormatter(indentSpaces: int, indent: string, correct: bool)

  /** Both generations' no-argument constructor: two spaces, exact mode. */
  const DEFAULT_FORMATTER := XmlFormatter(2, "  ", true)

  /** The exact (DOM) printer's outcome: formatted text, or a failure after consuming some input and writing some output. */
  datatype ExactOutcome = Formatted(text: string) | ExactFailed(consumed: nat, written: string)

  /** The exact printer with the given indent width, supplied by the caller. */
  type ExactPrinter = (int, string) -> ExactOutcome

  /** Whether a failed mode leaves input that a zero-sized transfer buffer would spin on. */
  predicate FallbackTerminates(fmt: XmlFormatter, exact: ExactPrinter, input: string, bufferSize: nat) {
    bufferSize > 0
    || !fmt.correct
    || exact(fmt.indentSpaces, input).Formatted?
    || exact(fmt.indentSpaces, input).consumed >= |input|
  }

  /** transferTo of the rest of the input, in chunks of the buffer's size. */
  method CopyRest(input: string, from: nat, bufferSize: nat) returns (copied: string)
    requires bufferSize > 0 || from >= |input|
    ensures from <= |input| ==> copied == input[from..]
    ensures from > |input| ==> copied == []
  {
    copied := [];
    var pos := from;
    var n := ReadCount(input, pos, bufferSize);
    while n >= 0
      invariant from <= |input| ==> from <= pos <= |input| && copied == input[from..pos]
      invariant from > |input| ==> pos == from && copied == []
      invariant n == ReadCount(input, pos, bufferSize)
      decreases |input| - pos + (if n >= 0 then 1 else 0)
    {
      copied := copied + input[pos..pos + n];
      pos := pos + n;
      n := ReadCount(input, pos, bufferSize);
    }
  }

  /** What prettify writes: the printer's output, or on failure its partial output and then the unread rest verbatim. */
  function PrettifyOutput(fmt: XmlFormatter, exact: ExactPrinter, splitting: Splitting, gen: Generation,
                          input: string, bufferSize: nat): string
  {
    if fmt.correct then
      match exact(fmt.indentSpaces, input)
      case Formatted(text) => text
      case ExactFailed(consumed, written) => written + (if consumed <= |input| then input[consumed..] else [])
    else
      match Rough(gen, fmt.indent, splitting, input, bufferSize)
      case RoughDone(out) => out
      case RoughFailed(consumed, out) => out + (if consumed <= |input| then input[consumed..] else [])
  }

  /** A rough failure always happens after reading a chunk, so it never spins on a zero-sized buffer. */
  lemma {:induction false} RoughFailsOnlyAfterReading(step: Chunker, finish: Finisher, input: string, bufferSize: nat,
                                                      pos: nat, carry: string, depth: int, out: string)
    requires pos <= |input|
    ensures var r := RoughFrom(step, finish, input, bufferSize, pos, carry, depth, out);
      r.RoughFailed? ==> bufferSize > 0 && pos < r.consumed <= |input|
    decreases |input| - pos
  {
    var n := ReadCount(input, pos, bufferSize);
    if n > 0 {
      match step(carry, input[pos..pos + n], depth)
      case NoRows =>
      case Completed(text, rest, after) =>
        RoughFailsOnlyAfterReading(step, finish, input, bufferSize, pos + n, rest, after, out + text);
    }
  }

  /**
   * prettify: either mode, and on failure the carbon copy of what is left;
   * nothing escapes. `exact` stands for the DOM parser and serializer.
   */
  method Prettify(fmt: XmlFormatter, exact: ExactPrinter, splitting: Splitting, gen: Generation,
                  input: string, bufferSize: nat) returns (output: string)
    requires FallbackTerminates(fmt, exact, input, bufferSize)
    ensures output == PrettifyOutput(fmt, exact, splitting, gen, input, bufferSize)
  {
    if fmt.correct {
      match exact(fmt.indentSpaces, input) {
        case Formatted(text) =>
          output := text;
        case ExactFailed(consumed, written) =>
          var rest := CopyRest(input, consumed, bufferSize);
          output := written + rest;
      }
    } else {
      var result := PrettifyRoughAndFast(gen, fmt.indent, splitting, input, bufferSize);
      match result {
        case RoughDone(out) =>
          output := out;
        case RoughFailed(consumed, out) =>
          RoughFailsOnlyAfterReading(Chunking(gen, fmt.indent, splitting), Finishing(gen, fmt.indent), input, bufferSize, 0, [], 0, []);
          var rest := CopyRest(input, consumed, bufferSize);
          output := out + rest;
      }
    }
  }

  /**
   * Nothing escapes prettify: when a mode fails, the output is what that
   * mode wrote followed by every character it had not read, the rough mode
   * fails only after reading at least one chunk, and a printer that fails
   * before reading or writing anything leaves a carbon copy of the input.
   */
  lemma PrettifyNothingEscapes(fmt: XmlFormatter, exact: ExactPrinter, splitting: Splitting, gen: Generation,
                               input: string, bufferSize: nat)
    ensures var output := PrettifyOutput(fmt, exact, splitting, gen, input, bufferSize);
      var e := exact(fmt.indentSpaces, input);
      fmt.correct && e.ExactFailed? && e.consumed <= |input| ==>
        StartsWith(output, e.written) && EndsWith(output, input[e.consumed..])
    ensures fmt.correct && exact(fmt.indentSpaces, input) == ExactFailed(0, []) ==>
      PrettifyOutput(fmt, exact, splitting, gen, input, bufferSize) == input
    ensures var output := PrettifyOutput(fmt, exact, splitting, gen, input, bufferSize);
      var r := Rough(gen, fmt.indent, splitting, input, bufferSize);
      !fmt.correct && r.RoughFailed? ==>
        bufferSize > 0 && 0 < r.consumed <= |input|
        && StartsWith(output, r.out) && EndsWith(output, input[r.consumed..])
  {
    var output := PrettifyOutput(fmt, exact, splitting, gen, input, bufferSize);
    var e := exact(fmt.indentSpaces, input);
    if fmt.correct && e.ExactFailed? && e.consumed <= |input| {
      assert output == e.written + input[e.consumed..];
      assert output[..|e.written|] == e.written;
      assert output[|output| - |input[e.consumed..]|..] == input[e.consumed..];
      if e == ExactFailed(0, []) {
        assert output == [] + input[0..];
        assert input[0..] == input;
      }
    }
    var r := Rough(gen, fmt.indent, splitting, input, bufferSize);
    if !fmt.correct && r.RoughFailed? {
      RoughFailsOnlyAfterReading(Chunking(gen, fmt.indent, splitting), Finishing(gen, fmt.indent), input, bufferSize, 0, [], 0, []);
      assert output == r.out + input[r.consumed..];
      assert output[..|r.out|] == r.out;
      assert output[|output| - |input[r.consumed..]|..] == input[r.consumed..];
    }
  }

  /**
   * prettify(String) of the newer generation: the text's own bytes serve
   * as the transfer buffer, so the whole input is read in one chunk.
   */
  method PrettifyText(fmt: XmlFormatter, exact: ExactPrinter, input: string) returns (output: string)
    requires FallbackTerminates(fmt, exact, input, |input|)
    ensures output == PrettifyOutput(fmt, exact, AsWritten, Io, input, |input|)
  {
    output := Prettify(fmt, exact, AsWritten, Io, input, |input|);
  }

  // -----------------------------------------------------------------------
  // A line break that ends a chunk

  /** A character of plain text: no tag bracket, no line break, not stripped by trim. */
  predicate PlainChar(c: char) {
    c != '<' && c != '>' && c != '\n' && !IsTrimmed(c)
  }

  lemma {:induction false} ExpandPlain(x: char, y: char)
    requires PlainChar(x) && PlainChar(y)
    ensures Expand([x, y]) == [x, y]
    ensures Expand([x, '\n']) == [x, '\n']
    ensures Expand([x, '\n', y]) == [x, '\n', y]
  {
    var e: string := [];
    assert Expand([x]) == [x] by {
      assert [x][..0] == e;
    }
    assert Expand([x, y]) == [x, y] by {
      assert [x, y][..1] == [x];
    }
    assert Expand([x, '\n']) == [x, '\n'] by {
      assert [x, '\n'][..1] == [x];
    }
    assert Expand([x, '\n', y]) == [x, '\n', y] by {
      assert [x, '\n', y][..2] == [x, '\n'];
    }
  }

  lemma {:induction false} SplitPlain(x: char, y: char)
    requires PlainChar(x) && PlainChar(y)
    ensures SplitAll([x, '\n']) == [[x], []]
    ensures SplitAll([x, '\n', y]) == [[x], [y]]
    ensures JavaSplit([x, y]) == [[x, y]]
  {
    var e: string := [];
    assert SplitAll([x]) == [[x]] by {
      assert [x][..0] == e;
      assert SplitAll(e) == [e];
      assert Init([e]) == [] && Last([e]) + [x] == [x];
    }
    var p := [[x], e];
    assert SplitAll([x, '\n']) == p by {
      assert [x, '\n'][..1] == [x];
      assert [[x]] + [e] == p;
    }
    assert SplitAll([x, '\n', y]) == [[x], [y]] by {
      assert [x, '\n', y][..2] == [x, '\n'];
      assert Init(p) == [[x]] && Last(p) + [y] == [y];
    }
    assert '\n' !in [x, y];
  }

  /** The row written for a plain-text row at depth 0. */
  lemma {:induction false} PlainRow(gen: Generation, indent: string, row: string)
    requires row != [] && row[0] != '<' && !IsTrimmed(row[0]) && !IsTrimmed(row[|row| - 1])
    ensures RowEffect(gen, indent, Trim(row), 0) == Emitted(row + "\n", 0)
  {
    TrimKeeps(row);
    assert !StartsWith(row, "<?") && !StartsWith(row, "</") && !StartsWith(row, "<");
  }

  /** A chunk step whose rows are known: the complete rows written out, the last one carried. */
  lemma ChunkStepOf(gen: Generation, indent: string, splitting: Splitting, carry: string, chunk: string, depth: int,
                    rows: seq<string>)
    requires Rows(splitting, Expand(carry + chunk)) == rows && rows != []
    ensures var e := EmitRows(gen, indent, TrimRows(Init(rows)), depth);
      ChunkStep(gen, indent, splitting, carry, chunk, depth) == Completed(e.text, Last(rows), e.depth)
  {
  }

  /** A single plain row at depth 0 is written on a line of its own. */
  lemma {:induction false} EmitPlainRow(gen: Generation, indent: string, x: char)
    requires PlainChar(x)
    ensures EmitRows(gen, indent, TrimRows([[x]]), 0) == Emitted([x, '\n'], 0)
  {
    var e: seq<string> := [];
    assert Init([[x]]) == e && Last([[x]]) == [x];
    assert TrimRows([[x]]) == [Trim([x])];
    TrimKeeps([x]);
    assert TrimRows([[x]]) == [[x]];
    PlainRow(gen, indent, [x]);
    assert [x] + "\n" == [x, '\n'];
  }

  lemma {:induction false} RowsEndingInBreak(x: char, y: char)
    requires PlainChar(x) && PlainChar(y)
    ensures Rows(AsWritten, Expand([] + [x, '\n'])) == [[x]]
  {
    ExpandPlain(x, y);
    SplitPlain(x, y);
    assert [] + [x, '\n'] == [x, '\n'];
    var p: seq<string> := [[x], []];
    assert [x, '\n'][1] == '\n';
    assert Init(p) == [[x]] && Last(p) == [];
    assert DropTrailingEmpty(p) == DropTrailingEmpty([[x]]);
    assert Last([[x]]) != [];
  }

  lemma {:induction false} ChunkEndingInBreak(gen: Generation, indent: string, x: char, y: char)
    requires PlainChar(x) && PlainChar(y)
    ensures ChunkStep(gen, indent, AsWritten, [], [x, '\n'], 0) == Completed([], [x], 0)
  {
    RowsEndingInBreak(x, y);
    ChunkStepOf(gen, indent, AsWritten, [], [x, '\n'], 0, [[x]]);
    var e: seq<string> := [];
    assert Init([[x]]) == e && Last([[x]]) == [x];
    assert TrimRows(e) == e;
  }

  lemma {:induction false} RowsJoiningCarry(x: char, y: char)
    requires PlainChar(x) && PlainChar(y)
    ensures Rows(AsWritten, Expand([x] + [y])) == [[x, y]]
  {
    ExpandPlain(x, y);
    SplitPlain(x, y);
    assert [x] + [y] == [x, y];
  }

  lemma {:induction false} ChunkJoiningCarry(gen: Generation, indent: string, x: char, y: char)
    requires PlainChar(x) && PlainChar(y)
    ensures ChunkStep(gen, indent, AsWritten, [x], [y], 0) == Completed([], [x, y], 0)
  {
    RowsJoiningCarry(x, y);
    ChunkStepOf(gen, indent, AsWritten, [x], [y], 0, [[x, y]]);
    var e: seq<string> := [];
    assert Init([[x, y]]) == e && Last([[x, y]]) == [x, y];
    assert TrimRows(e) == e;
  }

  lemma {:induction false} RowsWithBreakInside(x: char, y: char)
    requires PlainChar(x) && PlainChar(y)
    ensures Rows(AsWritten, Expand([] + [x, '\n', y])) == [[x], [y]]
  {
    var input := [x, '\n', y];
    var rows: seq<string> := [[x], [y]];
    assert Expand([] + input) == input by {
      assert [] + input == input;
      ExpandPlain(x, y);
    }
    assert JavaSplit(input) == DropTrailingEmpty(SplitAll(input)) by {
      assert input[1] == '\n';
    }
    assert SplitAll(input) == rows by {
      SplitPlain(x, y);
    }
    assert DropTrailingEmpty(rows) == rows by {
      assert Last(rows) == [y];
    }
  }

  lemma {:induction false} ChunkWithBreakInside(gen: Generation, indent: string, x: char, y: char)
    requires PlainChar(x) && PlainChar(y)
    ensures ChunkStep(gen, indent, AsWritten, [], [x, '\n', y], 0) == Completed([x, '\n'], [y], 0)
  {
    var rows: seq<string> := [[x], [y]];
    RowsWithBreakInside(x, y);
    ChunkStepOf(gen, indent, AsWritten, [], [x, '\n', y], 0, rows);
    assert Init(rows) == [[x]] && Last(rows) == [y];
    EmitPlainRow(gen, indent, x);
  }

  /** The loop over an input read in two chunks. */
  lemma TwoChunks(step: Chunker, finish: Finisher, input: string, bufferSize: nat, first: nat, second: nat,
                  one: ChunkOutcome, two: ChunkOutcome)
    requires ReadCount(input, 0, bufferSize) == first > 0 && ReadCount(input, first, bufferSize) == second > 0
    requires ReadCount(input, first + second, bufferSize) == -1
    requires one.Completed? && step([], input[0..first], 0) == one
    requires two.Completed? && step(one.carry, input[first..first + second], one.depth) == two
    ensures RoughFrom(step, finish, input, bufferSize, 0, [], 0, [])
      == RoughDone(one.text + two.text + finish(two.carry, two.depth))
  {
    RoughFromStep(step, finish, input, bufferSize, 0, [], 0, []);
    RoughFromStep(step, finish, input, bufferSize, first, one.carry, one.depth, one.text);
    assert [] + one.text == one.text;
  }

  /** The loop over an input read in one chunk. */
  lemma OneChunk(step: Chunker, finish: Finisher, input: string, bufferSize: nat, one: ChunkOutcome)
    requires ReadCount(input, 0, bufferSize) == |input| > 0
    requires one.Completed? && step([], input, 0) == one
    ensures RoughFrom(step, finish, input, bufferSize, 0, [], 0, []) == RoughDone(one.text + finish(one.carry, one.depth))
  {
    assert input[0..|input|] == input;
    RoughFromStep(step, finish, input, bufferSize, 0, [], 0, []);
    assert [] + one.text == one.text;
  }

  /** The two-chunk run of "x\ny" with a buffer of two, for a loop body that drops the break and joins the rows. */
  lemma {:induction false} BreakAtChunkEnd(step: Chunker, finish: Finisher, x: char, y: char)
    requires step([], [x, '\n'], 0) == Completed([], [x], 0)
    requires step([x], [y], 0) == Completed([], [x, y], 0)
    requires finish([x, y], 0) == [x, y, '\n']
    ensures RoughFrom(step, finish, [x, '\n', y], 2, 0, [], 0, []) == RoughDone([x, y, '\n'])
  {
    var input := [x, '\n', y];
    assert ReadCount(input, 0, 2) == 2 && ReadCount(input, 2, 2) == 1 && ReadCount(input, 3, 2) == -1;
    assert input[0..2] == [x, '\n'] && input[2..3] == [y];
    TwoChunks(step, finish, input, 2, 2, 1, Completed([], [x], 0), Completed([], [x, y], 0));
    assert [] + [] + [x, y, '\n'] == [x, y, '\n'];
  }

  /**
   * As written, a line break that ends a chunk is dropped by the split, so
   * text on both sides of it runs together: with a buffer of two, "x\ny"
   * comes out as the single row "xy".
   */
  lemma {:induction false} AsWrittenLosesBreakAtChunkEnd(gen: Generation, indent: string, x: char, y: char)
    requires PlainChar(x) && PlainChar(y)
    ensures Rough(gen, indent, AsWritten, [x, '\n', y], 2) == RoughDone([x, y, '\n'])
  {
    var step := Chunking(gen, indent, AsWritten);
    var finish := Finishing(gen, indent);
    assert step([], [x, '\n'], 0) == Completed([], [x], 0) by {
      ChunkEndingInBreak(gen, indent, x, y);
    }
    assert step([x], [y], 0) == Completed([], [x, y], 0) by {
      ChunkJoiningCarry(gen, indent, x, y);
    }
    assert finish([x, y], 0) == [x, y, '\n'] by {
      PlainRow(gen, indent, [x, y]);
    }
    BreakAtChunkEnd(step, finish, x, y);
  }

  /** With a buffer that holds the whole text the same input keeps its two rows. */
  lemma {:induction false} AsWrittenKeepsBreakInsideChunk(gen: Generation, indent: string, x: char, y: char)
    requires PlainChar(x) && PlainChar(y)
    ensures Rough(gen, indent, AsWritten, [x, '\n', y], 3) == RoughDone([x, '\n', y, '\n'])
  {
    var input := [x, '\n', y];
    var one := Completed([x, '\n'], [y], 0);
    var last := RowEffect(gen, indent, Trim([y]), 0).text;
    assert Rough(gen, indent, AsWritten, input, 3) == RoughDone([x, '\n'] + last) by {
      ChunkWithBreakInside(gen, indent, x, y);
      assert ReadCount(input, 0, 3) == 3;
      RoughInOneChunk(gen, indent, AsWritten, input, 3, one);
    }
    assert last == [y, '\n'] by {
      PlainRow(gen, indent, [y]);
      assert [y] + "\n" == [y, '\n'];
    }
    assert [x, '\n'] + [y, '\n'] == [x, '\n', y, '\n'];
  }

  /** The printer over an input read in one chunk: the chunk's rows, then the carried row. */
  lemma RoughInOneChunk(gen: Generation, indent: string, splitting: Splitting, input: string, bufferSize: nat,
                        one: ChunkOutcome)
    requires ReadCount(input, 0, bufferSize) == |input| > 0
    requires one.Completed? && ChunkStep(gen, indent, splitting, [], input, 0) == one
    ensures Rough(gen, indent, splitting, input, bufferSize)
      == RoughDone(one.text + RowEffect(gen, indent, Trim(one.carry), one.depth).text)
  {
    OneChunk(Chunking(gen, indent, splitting), Finishing(gen, indent), input, bufferSize, one);
  }

  /** Text without tags or line breaks is left as it is by the replacements. */
  lemma {:induction false} ExpandPlainText(s: string)
    requires forall i :: 0 <= i < |s| ==> PlainChar(s[i])
    ensures Expand(s) == s
    decreases |s|
  {
    if s != [] {
      ExpandPlainText(s[..|s| - 1]);
      assert s[..|s| - 1] + [s[|s| - 1]] == s;
    }
  }

  /** A tag whose inside is plain text gets a line break on either side. */
  lemma ExpandTag(inside: string)
    requires forall i :: 0 <= i < |inside| ==> PlainChar(inside[i])
    ensures Expand("<" + inside + ">") == "\n<" + inside + ">\n"
  {
    ExpandPlainText(inside);
    ExpandAppend("<", inside);
    ExpandAppend("<" + inside, ">");
    assert Expand("<") == "\n<" by {
      assert "<"[..0] == [];
    }
    assert Expand(">") == ">\n" by {
      assert ">"[..0] == [];
    }
  }

  /** A row followed by a line break is split off as a row of its own. */
  lemma RowThenBreak(row: string, rest: string)
    requires '\n' !in row
    ensures SplitAll(row + "\n" + rest) == [row] + SplitAll(rest)
  {
    SplitAllOfRow(row);
    SplitAllSnoc(row, '\n');
    assert row + "\n" == row + ['\n'];
    SplitAllAppend(row + "\n", rest);
    assert SplitAll(row + "\n") == [row, ""];
    assert [] + rest == rest;
  }

  /** A character of a plain tag name: a letter, a digit or '-'. */
  predicate NameChar(c: char) {
    ('a' <= c <= 'z') || ('A' <= c <= 'Z') || ('0' <= c <= '9') || c == '-'
  }

  predicate TagName(name: string) {
    name != [] && forall i :: 0 <= i < |name| ==> NameChar(name[i])
  }

  /** An opening tag around a plain name gets a line break on either side. */
  lemma ExpandOpening(name: string)
    requires TagName(name)
    ensures Expand("<" + name + ">") == "\n" + ("<" + name + ">") + "\n"
  {
    ExpandTag(name);
    assert "\n<" + name + ">\n" == "\n" + ("<" + name + ">") + "\n";
  }

  /** So does a closing tag. */
  lemma ExpandClosing(name: string)
    requires TagName(name)
    ensures Expand("</" + name + ">") == "\n" + ("</" + name + ">") + "\n"
  {
    var slashed := "/" + name;
    assert forall i :: 0 <= i < |slashed| ==> PlainChar(slashed[i]) by {
      forall i | 0 <= i < |slashed|
        ensures PlainChar(slashed[i])
      {
        if i > 0 {
          assert slashed[i] == name[i - 1];
        }
      }
    }
    SlashedTag(name);
    ExpandTag(slashed);
  }

  /** A closing tag is an opening tag whose inside starts with '/'. */
  lemma SlashedTag(name: string)
    ensures "</" + name + ">" == "<" + ("/" + name) + ">"
    ensures "\n<" + ("/" + name) + ">\n" == "\n" + ("</" + name + ">") + "\n"
  {
    assert "</" + name + ">" == "<" + ("/" + name) + ">";
  }

  /** The tags of an empty element, each with a line break before and after it. */
  lemma EmptyElementExpanded(name: string, open: string, close: string)
    requires TagName(name) && open == "<" + name + ">" && close == "</" + name + ">"
    ensures Expand(open + close) == "\n" + open + "\n" + "\n" + close + "\n"
  {
    ExpandAppend(open, close);
    assert Expand(open) == "\n" + open + "\n" by {
      ExpandOpening(name);
    }
    assert Expand(close) == "\n" + close + "\n" by {
      ExpandClosing(name);
    }
    FramedPair(open, close);
  }

  /** Two framed rows, written one after the other. */
  lemma FramedPair(a: string, b: string)
    ensures ("\n" + a + "\n") + ("\n" + b + "\n") == "\n" + a + "\n" + "\n" + b + "\n"
  {
  }

  /** A tag around a plain name holds no line break. */
  lemma TagHasNoBreak(name: string, prefix: string)
    requires TagName(name) && '\n' !in prefix
    ensures '\n' !in prefix + name + ">"
  {
    assert forall i :: 0 <= i < |name| ==> name[i] != '\n';
  }

  /** Two break-free rows, each with a line break before and after it, split into five pieces. */
  lemma FramedRowsSplit(open: string, close: string)
    requires '\n' !in open && '\n' !in close
    ensures SplitAll("\n" + open + "\n" + "\n" + close + "\n") == ["", open, "", close, ""]
  {
    var r3 := close + "\n" + "";
    var r2 := "" + "\n" + r3;
    var r1 := open + "\n" + r2;
    var r0 := "" + "\n" + r1;
    assert "\n" + open + "\n" + "\n" + close + "\n" == r0;
    RowThenBreak(close, "");
    RowThenBreak("", r3);
    RowThenBreak(open, r2);
    RowThenBreak("", r1);
    assert SplitAll("") == [""];
  }

  /** The expanded element splits into an empty row, the opening tag, an empty row and the closing tag. */
  lemma EmptyElementRows(name: string, open: string, close: string)
    requires TagName(name) && open == "<" + name + ">" && close == "</" + name + ">"
    ensures Rows(AsWritten, Expand(open + close)) == ["", open, "", close]
  {
    TagHasNoBreak(name, "<");
    TagHasNoBreak(name, "</");
    var rows: seq<string> := ["", open, "", close];
    var e := "\n" + open + "\n" + "\n" + close + "\n";
    EmptyElementExpanded(name, open, close);
    FramedRowsSplit(open, close);
    assert SplitAll(e) == rows + [""];
    assert '\n' in e by {
      assert e[0] == '\n';
    }
    assert JavaSplit(e) == DropTrailingEmpty(rows + [""]);
    assert DropTrailingEmpty(rows + [""]) == DropTrailingEmpty(rows) by {
      assert Init(rows + [""]) == rows && Last(rows + [""]) == [];
    }
    assert Last(rows) == close && close != [];
  }

  /** An opening tag around a plain name opens a level and is not a CDATA end. */
  lemma OpeningKind(name: string)
    requires TagName(name)
    ensures KindOf("<" + name + ">") == Opening(false)
  {
    var open := "<" + name + ">";
    assert open[1] == name[0] && open[|open| - 2] == name[|name| - 1];
    assert open[..2][1] != '?' && open[..2][1] != '/';
    assert open[|open| - 2..][0] != '/';
    assert open[|open| - 3..][1] != ']';
  }

  /** A closing tag around a plain name closes a level. */
  lemma ClosingKind(name: string)
    requires TagName(name)
    ensures KindOf("</" + name + ">") == Closing
  {
    var close := "</" + name + ">";
    assert close[..2] == "</";
    assert close[..2][1] != '?';
  }

  /** An opening tag around a plain name, at depth 0, is written at its generation's depth and opens a level. */
  lemma OpeningEffect(gen: Generation, indent: string, name: string, open: string)
    requires TagName(name) && open == "<" + name + ">"
    ensures RowEffect(gen, indent, open, 0) == Emitted(Indentation(indent, if gen == Net then 1 else 0) + open + "\n", 1)
  {
    OpeningKind(name);
  }

  /** Trimming leaves an empty row and an opening tag as they are. */
  lemma HeadsTrimmed(name: string, open: string)
    requires TagName(name) && open == "<" + name + ">"
    ensures TrimRows([[], open, []]) == [[], open, []]
  {
    var heads: seq<string> := [[], open, []];
    TrimKeeps(open);
    TrimKeeps([]);
    TrimRowsAll(heads);
  }

  /** The rows before the closing tag: only the opening tag writes, and it opens a level. */
  lemma {:induction false} EmptyElementHeads(gen: Generation, indent: string, name: string, open: string)
    requires TagName(name) && open == "<" + name + ">"
    ensures EmitRows(gen, indent, TrimRows([[], open, []]), 0)
      == Emitted(Indentation(indent, if gen == Net then 1 else 0) + open + "\n", 1)
  {
    var e: seq<string> := [];
    HeadsTrimmed(name, open);
    EmitRowsSnoc(gen, indent, e, [], 0);
    assert e + [[]] == [[]];
    assert EmitRows(gen, indent, [[]], 0) == Emitted([], 0);
    EmitRowsSnoc(gen, indent, [[]], open, 0);
    assert [[]] + [open] == [[], open];
    OpeningEffect(gen, indent, name, open);
    var first := Indentation(indent, if gen == Net then 1 else 0) + open + "\n";
    assert EmitRows(gen, indent, [[], open], 0) == Emitted(first, 1) by {
      assert [] + first == first;
    }
    assert RowEffect(gen, indent, [], 1) == Emitted([], 1);
    EmitRowsSnoc(gen, indent, [[], open], [], 0);
    assert [[], open] + [[]] == [[], open, []];
    assert first + [] == first;
  }

  /** The closing tag, one level in, closes that level and is written unindented. */
  lemma EmptyElementClose(gen: Generation, indent: string, name: string)
    requires TagName(name)
    ensures RowEffect(gen, indent, Trim("</" + name + ">"), 1).text == ("</" + name + ">") + "\n"
  {
    TrimKeeps("</" + name + ">");
    ClosingKind(name);
  }

  /** The whole element in one chunk: the opening tag is written, the closing tag is carried at depth 1. */
  lemma EmptyElementChunk(gen: Generation, indent: string, name: string, open: string, close: string)
    requires TagName(name) && open == "<" + name + ">" && close == "</" + name + ">"
    ensures ChunkStep(gen, indent, AsWritten, [], open + close, 0)
      == Completed(Indentation(indent, if gen == Net then 1 else 0) + open + "\n", close, 1)
  {
    var input := open + close;
    var rows: seq<string> := [[], open, [], close];
    EmptyElementRows(name, open, close);
    assert [] + input == input;
    assert Init(rows) == [[], open, []] && Last(rows) == close;
    EmptyElementHeads(gen, indent, name, open);
    ChunkStepOf(gen, indent, AsWritten, [], input, 0, rows);
  }

  /**
   * The rough printer does not fold an empty element: its opening and its
   * closing tag come out as two rows, for any buffer that holds the
   * element. The newer generation writes the opening tag at depth 0, and
   * the older one at depth 1.
   */
  lemma {:induction false} EmptyElementTwoRows(gen: Generation, indent: string, name: string, open: string, close: string,
                                               bufferSize: nat)
    requires TagName(name) && open == "<" + name + ">" && close == "</" + name + ">"
    requires bufferSize >= |open + close|
    ensures Rough(gen, indent, AsWritten, open + close, bufferSize)
      == RoughDone(Indentation(indent, if gen == Net then 1 else 0) + open + "\n" + close + "\n")
  {
    var first := Indentation(indent, if gen == Net then 1 else 0) + open + "\n";
    EmptyElementChunk(gen, indent, name, open, close);
    assert ReadCount(open + close, 0, bufferSize) == |open + close|;
    RoughInOneChunk(gen, indent, AsWritten, open + close, bufferSize, Completed(first, close, 1));
    EmptyElementClose(gen, indent, name);
    assert first + (close + "\n") == first + close + "\n";
  }

  // -----------------------------------------------------------------------
  // Keeping trailing rows makes the output independent of the buffer size

  /** The shape of a row carried over: no line break, no '>', and a '<' only at its start. */
  predicate CarryShape(row: string) {
    forall i :: 0 <= i < |row| ==> row[i] != '\n' && row[i] != '>' && (i > 0 ==> row[i] != '<')
  }

  /** The last piece after appending one character. */
  lemma {:induction false} LastPieceSnoc(s: string, c: char)
    ensures Last(SplitAll(s + [c])) == if c == '\n' then [] else Last(SplitAll(s)) + [c]
  {
    assert (s + [c])[..|s + [c]| - 1] == s;
  }

  /** The last piece after appending an expanded character. */
  lemma {:induction false} LastPieceExpandChar(s: string, c: char)
    ensures Last(SplitAll(s + ExpandChar(c)))
      == if c == '>' || c == '\n' then [] else if c == '<' then ['<'] else Last(SplitAll(s)) + [c]
  {
    if c == '>' {
      assert s + ExpandChar(c) == (s + ['>']) + ['\n'];
      LastPieceSnoc(s + ['>'], '\n');
    } else if c == '<' {
      assert s + ExpandChar(c) == (s + ['\n']) + ['<'];
      LastPieceSnoc(s + ['\n'], '<');
      LastPieceSnoc(s, '\n');
    } else {
      LastPieceSnoc(s, c);
    }
  }

  lemma {:induction false} CarryShapeSnoc(row: string, c: char)
    requires CarryShape(row) && c != '\n' && c != '>' && c != '<'
    ensures CarryShape(row + [c])
  {
  }

  /** The last piece of an expanded text is a row of carry shape. */
  lemma {:induction false} ExpandedCarry(s: string)
    ensures CarryShape(Last(SplitAll(Expand(s))))
  {
    if s == [] {
      assert SplitAll(Expand(s)) == [[]];
    } else {
      var s' := s[..|s| - 1];
      var c := s[|s| - 1];
      var e := Expand(s');
      ExpandedCarry(s');
      assert Expand(s) == e + ExpandChar(c);
      LastPieceExpandChar(e, c);
      if c != '>' && c != '\n' && c != '<' {
        CarryShapeSnoc(Last(SplitAll(e)), c);
      }
    }
  }

  lemma ExpandSnoc(s: string, c: char)
    ensures Expand(s + [c]) == Expand(s) + ExpandChar(c)
  {
    assert (s + [c])[..|s|] == s;
  }

  /** Expanding a carried row again only puts a line break before its opening '<'. */
  lemma {:induction false} ExpandCarry(row: string)
    requires CarryShape(row)
    ensures Expand(row) == if row != [] && row[0] == '<' then "\n" + row else row
    decreases |row|
  {
    if row != [] {
      var r' := row[..|row| - 1];
      var c := row[|row| - 1];
      assert row == r' + [c];
      assert CarryShape(r') by {
        assert forall i :: 0 <= i < |r'| ==> r'[i] == row[i];
      }
      var before := Expand(r');
      assert before == if r' != [] && r'[0] == '<' then "\n" + r' else r' by {
        ExpandCarry(r');
      }
      assert Expand(row) == before + ExpandChar(c) by {
        ExpandSnoc(r', c);
      }
      if |row| == 1 {
        assert r' == [] && before == [];
        assert row == [c];
      } else {
        assert c != '<' && c != '>' && c != '\n' && r'[0] == row[0];
        assert ExpandChar(c) == [c];
        if row[0] == '<' {
          assert Expand(row) == ("\n" + r') + [c];
          assert ("\n" + r') + [c] == "\n" + row;
        } else {
          assert Expand(row) == r' + [c];
        }
      }
    }
  }

  lemma {:induction false} TrimRowsAppend(a: seq<string>, b: seq<string>)
    ensures TrimRows(a + b) == TrimRows(a) + TrimRows(b)
    decreases |b|
  {
    if b == [] {
      assert a + b == a;
    } else {
      assert Init(a + b) == a + Init(b);
      TrimRowsAppend(a, Init(b));
    }
  }

  /**
   * One chunk with trailing rows kept: the rows it completes and the row it
   * carries are those of the carried row followed by the expanded chunk.
   */
  lemma {:induction false} KeepChunk(gen: Generation, indent: string, carry: string, chunk: string, depth: int)
    requires CarryShape(carry)
    ensures var rows := SplitAll(carry + Expand(chunk));
      var e := EmitRows(gen, indent, TrimRows(Init(rows)), depth);
      ChunkStep(gen, indent, KeepTrailing, carry, chunk, depth) == Completed(e.text, Last(rows), e.depth)
  {
    var rows := SplitAll(carry + Expand(chunk));
    KeepRows(carry, chunk);
    if carry != [] && carry[0] == '<' {
      LeadingBlankRow(gen, indent, rows, depth);
    }
  }

  /** The rows of a carried row and a chunk: those of the row and the expanded chunk, after an empty one when the row opens a tag. */
  lemma {:induction false} KeepRows(carry: string, chunk: string)
    requires CarryShape(carry)
    ensures SplitAll(Expand(carry + chunk))
      == if carry != [] && carry[0] == '<' then [[]] + SplitAll(carry + Expand(chunk)) else SplitAll(carry + Expand(chunk))
  {
    if carry != [] && carry[0] == '<' {
      calc {
        SplitAll(Expand(carry + chunk));
      == { ExpandAppend(carry, chunk); ExpandCarry(carry); }
        SplitAll(("\n" + carry) + Expand(chunk));
      == { assert ("\n" + carry) + Expand(chunk) == "\n" + (carry + Expand(chunk)); }
        SplitAll("\n" + (carry + Expand(chunk)));
      == { SplitAllLeadingBreak(carry + Expand(chunk)); }
        [[]] + SplitAll(carry + Expand(chunk));
      }
    } else {
      calc {
        SplitAll(Expand(carry + chunk));
      == { ExpandAppend(carry, chunk); ExpandCarry(carry); }
        SplitAll(carry + Expand(chunk));
      }
    }
  }

  /** A leading empty row changes neither the complete rows' output nor the carried row. */
  lemma {:induction false} LeadingBlankRow(gen: Generation, indent: string, rows: seq<string>, depth: int)
    requires |rows| >= 1
    ensures Last([[]] + rows) == Last(rows)
    ensures EmitRows(gen, indent, TrimRows(Init([[]] + rows)), depth) == EmitRows(gen, indent, TrimRows(Init(rows)), depth)
  {
    var blank: seq<string> := [[]];
    var none: seq<string> := [];
    assert Init(blank + rows) == blank + Init(rows);
    TrimRowsAppend(blank, Init(rows));
    assert TrimRows(blank) == blank by {
      assert Init(blank) == none;
      assert Trim([]) == [];
    }
    RemoveEmptyAppend(blank, TrimRows(Init(rows)));
    assert RemoveEmpty(blank) == none by {
      assert Init(blank) == none;
    }
    RowsAlike(gen, indent, TrimRows(Init(blank + rows)), TrimRows(Init(rows)), depth);
  }

  /** FoldRows over the complete rows, when the last piece is replaced by the pieces it continues into. */
  lemma {:induction false} FoldSplice(effect: (string, int) -> Emitted, p: seq<string>, rows: seq<string>, depth: int, out: string)
    requires |p| >= 1 && |rows| >= 1
    requires FoldRows(effect, TrimRows(Init(p)), 0) == Emitted(out, depth)
    ensures var e := FoldRows(effect, TrimRows(Init(rows)), depth);
      FoldRows(effect, TrimRows(Init(Init(p) + rows)), 0) == Emitted(out + e.text, e.depth)
  {
    assert Init(Init(p) + rows) == Init(p) + Init(rows);
    TrimRowsAppend(Init(p), Init(rows));
    FoldRowsAppend(effect, TrimRows(Init(p)), TrimRows(Init(rows)), 0);
  }

  /** Replacing the last piece by the pieces it continues into: the output grows by theirs, all but the last. */
  lemma {:induction false} EmitSplice(gen: Generation, indent: string, p: seq<string>, rows: seq<string>, depth: int, out: string)
    requires |p| >= 1 && |rows| >= 1
    requires EmitRows(gen, indent, TrimRows(Init(p)), 0) == Emitted(out, depth)
    ensures var e := EmitRows(gen, indent, TrimRows(Init(rows)), depth);
      Last(Init(p) + rows) == Last(rows)
      && EmitRows(gen, indent, TrimRows(Init(Init(p) + rows)), 0) == Emitted(out + e.text, e.depth)
  {
    var effect := RowEffects(gen, indent);
    EmitRowsIsFold(gen, indent, TrimRows(Init(p)), 0);
    EmitRowsIsFold(gen, indent, TrimRows(Init(rows)), depth);
    EmitRowsIsFold(gen, indent, TrimRows(Init(Init(p) + rows)), 0);
    FoldSplice(effect, p, rows, depth, out);
  }

  /** The pieces of a text read further: those before the last piece, then the last piece continued. */
  lemma {:induction false} KeepPieces(read: string, chunk: string)
    ensures SplitAll(Expand(read + chunk))
      == Init(SplitAll(Expand(read))) + SplitAll(Last(SplitAll(Expand(read))) + Expand(chunk))
  {
    ExpandAppend(read, chunk);
    SplitAllAppend(Expand(read), Expand(chunk));
  }

  /** The corrected loop body keeps its invariant: output for all complete rows read so far, the last piece carried. */
  lemma {:induction false} KeepAdvance(gen: Generation, indent: string, read: string, chunk: string, depth: int, out: string)
    requires EmitRows(gen, indent, TrimRows(Init(SplitAll(Expand(read)))), 0) == Emitted(out, depth)
    ensures var c := ChunkStep(gen, indent, KeepTrailing, Last(SplitAll(Expand(read))), chunk, depth);
      var p := SplitAll(Expand(read + chunk));
      c.Completed? && c.carry == Last(p) && EmitRows(gen, indent, TrimRows(Init(p)), 0) == Emitted(out + c.text, c.depth)
  {
    var p := SplitAll(Expand(read));
    var carry := Last(p);
    ExpandedCarry(read);
    KeepChunk(gen, indent, carry, chunk, depth);
    KeepPieces(read, chunk);
    EmitSplice(gen, indent, p, SplitAll(carry + Expand(chunk)), depth, out);
  }

  /** The final handleRow of the carried row completes the output for all the rows. */
  lemma {:induction false} KeepFinish(gen: Generation, indent: string, read: string, depth: int, out: string)
    requires EmitRows(gen, indent, TrimRows(Init(SplitAll(Expand(read)))), 0) == Emitted(out, depth)
    ensures out + RowEffect(gen, indent, Trim(Last(SplitAll(Expand(read)))), depth).text
      == EmitRows(gen, indent, TrimRows(SplitAll(Expand(read))), 0).text
  {
    var p := SplitAll(Expand(read));
    var t := TrimRows(p);
    assert Init(t) == TrimRows(Init(p)) && Last(t) == Trim(Last(p));
  }

  /** The invariant of the corrected loop: the output is every complete row read so far, the carried row the last piece. */
  predicate KeepInv(gen: Generation, indent: string, read: string, carry: string, depth: int, out: string) {
    carry == Last(SplitAll(Expand(read)))
    && EmitRows(gen, indent, TrimRows(Init(SplitAll(Expand(read)))), 0) == Emitted(out, depth)
  }

  /** A turn of the corrected loop keeps its invariant. */
  lemma {:induction false} KeepTurn(gen: Generation, indent: string, read: string, chunk: string,
                                    carry: string, depth: int, out: string)
    requires KeepInv(gen, indent, read, carry, depth, out)
    ensures var c := ChunkStep(gen, indent, KeepTrailing, carry, chunk, depth);
      c.Completed? && KeepInv(gen, indent, read + chunk, c.carry, c.depth, out + c.text)
  {
    KeepAdvance(gen, indent, read, chunk, depth, out);
  }

  /** The input read so far, after one more chunk. */
  lemma PrefixGrows(input: string, pos: nat, n: nat)
    requires pos + n <= |input|
    ensures input[..pos] + input[pos..pos + n] == input[..pos + n]
  {
  }

  /**
   * A turn of the corrected loop keeps its invariant, with the loop body
   * `step` and the invariant `keep` on what is read so far as values.
   */
  lemma KeepStep(gen: Generation, indent: string, step: Chunker, keep: (string, string, int, string) -> bool,
                 read: string, chunk: string, carry: string, depth: int, out: string)
    requires forall carry, chunk, depth {:trigger ChunkStep(gen, indent, KeepTrailing, carry, chunk, depth)} ::
      step(carry, chunk, depth) == ChunkStep(gen, indent, KeepTrailing, carry, chunk, depth)
    requires forall r: string, ca: string, d: int, o: string {:trigger keep(r, ca, d, o)} ::
      keep(r, ca, d, o) <==> KeepInv(gen, indent, r, ca, d, o)
    requires keep(read, carry, depth, out)
    ensures var c := step(carry, chunk, depth);
      c.Completed? && keep(read + chunk, c.carry, c.depth, out + c.text)
  {
    KeepTurn(gen, indent, read, chunk, carry, depth, out);
    var c := ChunkStep(gen, indent, KeepTrailing, carry, chunk, depth);
    assert step(carry, chunk, depth) == c;
  }

  /** A turn at a position of `input`, for the invariant `inv` there, from a turn on what is read. */
  lemma KeepNextAt(step: Chunker, input: string, bufferSize: nat, keep: (string, string, int, string) -> bool,
                   inv: (nat, string, int, string) -> bool, pos: nat, carry: string, depth: int, out: string)
    requires forall r: string, ch: string, ca: string, d: int, o: string {:trigger keep(r, ca, d, o), step(ca, ch, d)} ::
      keep(r, ca, d, o) ==>
        var c := step(ca, ch, d);
        c.Completed? && keep(r + ch, c.carry, c.depth, o + c.text)
    requires forall p: nat, ca: string, d: int, o: string {:trigger inv(p, ca, d, o)} ::
      inv(p, ca, d, o) <==> p <= |input| && keep(input[..p], ca, d, o)
    requires bufferSize > 0 && pos < |input| && inv(pos, carry, depth, out)
    ensures var n := ReadCount(input, pos, bufferSize);
      0 < n && pos + n <= |input|
      && var c := step(carry, input[pos..pos + n], depth);
         c.Completed? && inv(pos + n, c.carry, c.depth, out + c.text)
  {
    var n := ReadCount(input, pos, bufferSize);
    var chunk := input[pos..pos + n];
    var c := step(carry, chunk, depth);
    assert keep(input[..pos], carry, depth, out);
    assert keep(input[..pos] + chunk, c.carry, c.depth, out + c.text);
    PrefixGrows(input, pos, n);
    assert keep(input[..pos + n], c.carry, c.depth, out + c.text);
  }

  /** At the end of the input the final handleRow completes the output. */
  lemma KeepEnd(gen: Generation, indent: string, finish: Finisher, input: string,
                keep: (string, string, int, string) -> bool, carry: string, depth: int, out: string)
    requires forall r: string, ca: string, d: int, o: string {:trigger keep(r, ca, d, o)} ::
      keep(r, ca, d, o) <==> KeepInv(gen, indent, r, ca, d, o)
    requires forall carry, depth {:trigger RowEffect(gen, indent, Trim(carry), depth)} ::
      finish(carry, depth) == RowEffect(gen, indent, Trim(carry), depth).text
    requires keep(input, carry, depth, out)
    ensures out + finish(carry, depth) == EmitRows(gen, indent, TrimRows(SplitAll(Expand(input))), 0).text
  {
    KeepFinish(gen, indent, input, depth, out);
    assert finish(carry, depth) == RowEffect(gen, indent, Trim(carry), depth).text;
  }

  /** Before anything is read the invariant holds with nothing carried and nothing written. */
  lemma KeepStart(gen: Generation, indent: string, keep: (string, string, int, string) -> bool)
    requires forall r: string, ca: string, d: int, o: string {:trigger keep(r, ca, d, o)} ::
      keep(r, ca, d, o) <==> KeepInv(gen, indent, r, ca, d, o)
    ensures keep([], [], 0, [])
  {
    var e: string := [];
    assert Expand(e) == e && SplitAll(e) == [e];
    var none: seq<string> := [];
    assert Init([e]) == none;
    assert KeepInv(gen, indent, e, e, 0, e);
  }

  /**
   * Induction over the chunk loop: from a point where `inv` holds on the
   * position, the carried row, the depth and the output, the loop ends with
   * `final`, provided every turn keeps `inv` and `inv` at the end of the
   * input makes the final handleRow write `final`.
   */
  lemma {:induction false} RoughFromKeeps(step: Chunker, finish: Finisher, input: string, bufferSize: nat,
                                          inv: (nat, string, int, string) -> bool, final: string,
                                          pos: nat, carry: string, depth: int, out: string)
    requires bufferSize > 0 && pos <= |input| && inv(pos, carry, depth, out)
    requires forall p: nat, ca: string, d: int, o: string {:trigger inv(p, ca, d, o), ReadCount(input, p, bufferSize)} ::
      inv(p, ca, d, o) && p < |input| ==>
        var n := ReadCount(input, p, bufferSize);
        0 < n && p + n <= |input|
        && var c := step(ca, input[p..p + n], d);
           c.Completed? && inv(p + n, c.carry, c.depth, o + c.text)
    requires forall p: nat, ca: string, d: int, o: string {:trigger inv(p, ca, d, o)} ::
      inv(p, ca, d, o) && p == |input| ==> o + finish(ca, d) == final
    ensures RoughFrom(step, finish, input, bufferSize, pos, carry, depth, out) == RoughDone(final)
    decreases |input| - pos
  {
    if pos < |input| {
      var n := ReadCount(input, pos, bufferSize);
      var c := step(carry, input[pos..pos + n], depth);
      assert c.Completed? && inv(pos + n, c.carry, c.depth, out + c.text);
      RoughFromKeeps(step, finish, input, bufferSize, inv, final, pos + n, c.carry, c.depth, out + c.text);
      RoughFromTurn(step, finish, input, bufferSize, pos, carry, depth, out, n, c);
    } else {
      RoughFromEnd(step, finish, input, bufferSize, pos, carry, depth, out);
    }
  }

  /** Every turn of the corrected loop keeps `keep`. */
  lemma KeepSteps(gen: Generation, indent: string, step: Chunker, keep: (string, string, int, string) -> bool)
    requires forall carry, chunk, depth {:trigger ChunkStep(gen, indent, KeepTrailing, carry, chunk, depth)} ::
      step(carry, chunk, depth) == ChunkStep(gen, indent, KeepTrailing, carry, chunk, depth)
    requires forall r: string, ca: string, d: int, o: string {:trigger keep(r, ca, d, o)} ::
      keep(r, ca, d, o) <==> KeepInv(gen, indent, r, ca, d, o)
    ensures forall r: string, ch: string, ca: string, d: int, o: string {:trigger keep(r, ca, d, o), step(ca, ch, d)} ::
      keep(r, ca, d, o) ==>
        var c := step(ca, ch, d);
        c.Completed? && keep(r + ch, c.carry, c.depth, o + c.text)
  {
    forall r: string, ch: string, ca: string, d: int, o: string {:trigger keep(r, ca, d, o), step(ca, ch, d)}
      | keep(r, ca, d, o)
      ensures var c := step(ca, ch, d);
        c.Completed? && keep(r + ch, c.carry, c.depth, o + c.text)
    {
      KeepStep(gen, indent, step, keep, r, ch, ca, d, o);
    }
  }

  /** Every turn at a position of `input` keeps `inv`. */
  lemma KeepTurnsAt(step: Chunker, input: string, bufferSize: nat, keep: (string, string, int, string) -> bool,
                    inv: (nat, string, int, string) -> bool)
    requires forall r: string, ch: string, ca: string, d: int, o: string {:trigger keep(r, ca, d, o), step(ca, ch, d)} ::
      keep(r, ca, d, o) ==>
        var c := step(ca, ch, d);
        c.Completed? && keep(r + ch, c.carry, c.depth, o + c.text)
    requires forall p: nat, ca: string, d: int, o: string {:trigger inv(p, ca, d, o)} ::
      inv(p, ca, d, o) <==> p <= |input| && keep(input[..p], ca, d, o)
    requires bufferSize > 0
    ensures forall p: nat, ca: string, d: int, o: string {:trigger inv(p, ca, d, o), ReadCount(input, p, bufferSize)} ::
      inv(p, ca, d, o) && p < |input| ==>
        var n := ReadCount(input, p, bufferSize);
        0 < n && p + n <= |input|
        && var c := step(ca, input[p..p + n], d);
           c.Completed? && inv(p + n, c.carry, c.depth, o + c.text)
  {
    forall p: nat, ca: string, d: int, o: string {:trigger inv(p, ca, d, o), ReadCount(input, p, bufferSize)}
      | inv(p, ca, d, o) && p < |input|
      ensures var n := ReadCount(input, p, bufferSize);
        0 < n && p + n <= |input|
        && var c := step(ca, input[p..p + n], d);
           c.Completed? && inv(p + n, c.carry, c.depth, o + c.text)
    {
      KeepNextAt(step, input, bufferSize, keep, inv, p, ca, d, o);
    }
  }

  /** Wherever `inv` holds at the end of `input`, the final handleRow completes the output. */
  lemma KeepEnds(gen: Generation, indent: string, finish: Finisher, input: string,
                 keep: (string, string, int, string) -> bool, inv: (nat, string, int, string) -> bool)
    requires forall carry, depth {:trigger RowEffect(gen, indent, Trim(carry), depth)} ::
      finish(carry, depth) == RowEffect(gen, indent, Trim(carry), depth).text
    requires forall r: string, ca: string, d: int, o: string {:trigger keep(r, ca, d, o)} ::
      keep(r, ca, d, o) <==> KeepInv(gen, indent, r, ca, d, o)
    requires forall p: nat, ca: string, d: int, o: string {:trigger inv(p, ca, d, o)} ::
      inv(p, ca, d, o) <==> p <= |input| && keep(input[..p], ca, d, o)
    ensures forall p: nat, ca: string, d: int, o: string {:trigger inv(p, ca, d, o)} ::
      inv(p, ca, d, o) && p == |input|
      ==> o + finish(ca, d) == EmitRows(gen, indent, TrimRows(SplitAll(Expand(input))), 0).text
  {
    forall p: nat, ca: string, d: int, o: string | inv(p, ca, d, o) && p == |input|
      ensures o + finish(ca, d) == EmitRows(gen, indent, TrimRows(SplitAll(Expand(input))), 0).text
    {
      assert input[..p] == input;
      KeepEnd(gen, indent, finish, input, keep, ca, d, o);
    }
  }

  /** The invariant at position 0. */
  lemma KeepStartAt(gen: Generation, indent: string, input: string,
                    keep: (string, string, int, string) -> bool, inv: (nat, string, int, string) -> bool)
    requires forall r: string, ca: string, d: int, o: string {:trigger keep(r, ca, d, o)} ::
      keep(r, ca, d, o) <==> KeepInv(gen, indent, r, ca, d, o)
    requires forall p: nat, ca: string, d: int, o: string {:trigger inv(p, ca, d, o)} ::
      inv(p, ca, d, o) <==> p <= |input| && keep(input[..p], ca, d, o)
    ensures inv(0, [], 0, [])
  {
    KeepStart(gen, indent, keep);
    assert input[..0] == [];
  }

  /**
   * The corrected loop, its body `step` and final handleRow `finish` given
   * by what they compute, `keep` the invariant on what is read and `inv`
   * the same at a position of `input`.
   */
  lemma KeepLoop(gen: Generation, indent: string, step: Chunker, finish: Finisher, input: string, bufferSize: nat,
                 keep: (string, string, int, string) -> bool, inv: (nat, string, int, string) -> bool)
    requires forall carry, chunk, depth {:trigger ChunkStep(gen, indent, KeepTrailing, carry, chunk, depth)} ::
      step(carry, chunk, depth) == ChunkStep(gen, indent, KeepTrailing, carry, chunk, depth)
    requires forall carry, depth {:trigger RowEffect(gen, indent, Trim(carry), depth)} ::
      finish(carry, depth) == RowEffect(gen, indent, Trim(carry), depth).text
    requires forall r: string, ca: string, d: int, o: string {:trigger keep(r, ca, d, o)} ::
      keep(r, ca, d, o) <==> KeepInv(gen, indent, r, ca, d, o)
    requires forall p: nat, ca: string, d: int, o: string {:trigger inv(p, ca, d, o)} ::
      inv(p, ca, d, o) <==> p <= |input| && keep(input[..p], ca, d, o)
    requires bufferSize > 0
    ensures RoughFrom(step, finish, input, bufferSize, 0, [], 0, [])
      == RoughDone(EmitRows(gen, indent, TrimRows(SplitAll(Expand(input))), 0).text)
  {
    KeepSteps(gen, indent, step, keep);
    KeepTurnsAt(step, input, bufferSize, keep, inv);
    KeepEnds(gen, indent, finish, input, keep, inv);
    KeepStartAt(gen, indent, input, keep, inv);
    RoughFromKeeps(step, finish, input, bufferSize, inv, EmitRows(gen, indent, TrimRows(SplitAll(Expand(input))), 0).text,
                   0, [], 0, []);
  }

  /**
   * With trailing rows kept, the rough printer writes every row of the
   * expanded input, trimmed, whatever the buffer size.
   */
  lemma KeepTrailingIgnoresBufferSize(gen: Generation, indent: string, input: string, bufferSize: nat)
    requires bufferSize > 0
    ensures Rough(gen, indent, KeepTrailing, input, bufferSize)
      == RoughDone(EmitRows(gen, indent, TrimRows(SplitAll(Expand(input))), 0).text)
  {
    var step := Chunking(gen, indent, KeepTrailing);
    var finish := Finishing(gen, indent);
    var keep := (r: string, ca: string, d: int, o: string) => KeepInv(gen, indent, r, ca, d, o);
    var inv := (p: nat, ca: string, d: int, o: string) => p <= |input| && keep(input[..p], ca, d, o);
    forall carry, chunk, depth
      ensures step(carry, chunk, depth) == ChunkStep(gen, indent, KeepTrailing, carry, chunk, depth)
    {
    }
    forall carry, depth
      ensures finish(carry, depth) == RowEffect(gen, indent, Trim(carry), depth).text
    {
    }
    KeepLoop(gen, indent, step, finish, input, bufferSize, keep, inv);
  }

  /** Corollary: any two buffer sizes give the same output. */
  lemma {:induction false} KeepTrailingSameForAnyBuffer(gen: Generation, indent: string, input: string, b1: nat, b2: nat)
    requires b1 > 0 && b2 > 0
    ensures Rough(gen, indent, KeepTrailing, input, b1) == Rough(gen, indent, KeepTrailing, input, b2)
  {
    KeepTrailingIgnoresBufferSize(gen, indent, input, b1);
    KeepTrailingIgnoresBufferSize(gen, indent, input, b2);
  }
}
