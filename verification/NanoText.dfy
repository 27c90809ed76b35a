/** The text that src/kernel/nano.c edits: a list of lines, a cursor and the first line on
    the screen. */
module NanoText {
  import opened Bytes

  const MAX_LINES := 200
  const MAX_LEN := 79
  const ROWS := 22
  const NEWLINE: byte := 10
  const TAB: byte := 9

  type Line = seq<byte>

  datatype Text = Text(lines: seq<Line>, line: nat, col: nat, top: nat)

  predicate LineOk(l: Line) { |l| <= MAX_LEN && NEWLINE !in l }

  predicate LinesOk(lines: seq<Line>) {
    1 <= |lines| <= MAX_LINES && forall i :: 0 <= i < |lines| ==> LineOk(lines[i])
  }

  /** 1 to 200 lines of at most 79 bytes, the cursor in range and on the screen. */
  predicate Ok(t: Text) {
    LinesOk(t.lines) && t.line < |t.lines| && t.col <= |t.lines[t.line]| && t.top <= t.line < t.top + ROWS
  }

  /** ensure_cursor_visible */
  function Shown(t: Text): Text {
    if t.line < t.top then Text(t.lines, t.line, t.col, t.line)
    else if t.line >= t.top + ROWS then Text(t.lines, t.line, t.col, t.line - ROWS + 1)
    else t
  }

  function Show(lines: seq<Line>, line: nat, col: nat, top: nat): Text { Shown(Text(lines, line, col, top)) }

  // ----- keys -----

  datatype Key = Char(c: byte) | Enter | Backspace | Delete | Left | Right | Up | Down | Home | End

  /** A plain char is signed, so bytes from 128 on are below 32 and refused. */
  predicate Accepted(c: byte) { 32 <= c < 128 || c == TAB }

  /** Line i without its last neighbour: lines i and i + 1 joined. */
  function Joined(lines: seq<Line>, i: nat): (r: seq<Line>)
    requires i + 1 < |lines|
    ensures |r| == |lines| - 1
  {
    lines[..i] + [lines[i] + lines[i + 1]] + lines[i + 2..]
  }

  /** Line i cut in two at col. */
  function Split(lines: seq<Line>, i: nat, col: nat): (r: seq<Line>)
    requires i < |lines| && col <= |lines[i]|
    ensures |r| == |lines| + 1
  {
    lines[..i] + [lines[i][..col], lines[i][col..]] + lines[i + 1..]
  }

  function Without(l: Line, col: nat): (r: Line)
    requires col < |l|
    ensures |r| == |l| - 1
  {
    l[..col] + l[col + 1..]
  }

  function With(l: Line, col: nat, c: byte): (r: Line)
    requires col <= |l|
    ensures |r| == |l| + 1
  {
    l[..col] + [c] + l[col..]
  }

  function PressChar(t: Text, c: byte): Text
    requires Ok(t)
  {
    var l := t.lines[t.line];
    if !Accepted(c) || |l| >= MAX_LEN then t
    else Show(t.lines[t.line := With(l, t.col, c)], t.line, t.col + 1, t.top)
  }

  function PressEnter(t: Text): Text
    requires Ok(t)
  {
    if |t.lines| >= MAX_LINES then Shown(t)
    else Show(Split(t.lines, t.line, t.col), t.line + 1, 0, t.top)
  }

  function PressBackspace(t: Text): Text
    requires Ok(t)
  {
    if t.col > 0 then Show(t.lines[t.line := Without(t.lines[t.line], t.col - 1)], t.line, t.col - 1, t.top)
    else if t.line == 0 || |t.lines[t.line - 1]| + |t.lines[t.line]| > MAX_LEN then t
    else Show(Joined(t.lines, t.line - 1), t.line - 1, |t.lines[t.line - 1]|, t.top)
  }

  function PressDelete(t: Text): Text
    requires Ok(t)
  {
    var l := t.lines[t.line];
    if t.col < |l| then Show(t.lines[t.line := Without(l, t.col)], t.line, t.col, t.top)
    else if t.line + 1 >= |t.lines| || |l| + |t.lines[t.line + 1]| > MAX_LEN then t
    else Show(Joined(t.lines, t.line), t.line, t.col, t.top)
  }

  function PressLeft(t: Text): Text
    requires Ok(t)
  {
    if t.col > 0 then Show(t.lines, t.line, t.col - 1, t.top)
    else if t.line > 0 then Show(t.lines, t.line - 1, |t.lines[t.line - 1]|, t.top)
    else Shown(t)
  }

  function PressRight(t: Text): Text
    requires Ok(t)
  {
    if t.col < |t.lines[t.line]| then Show(t.lines, t.line, t.col + 1, t.top)
    else if t.line + 1 < |t.lines| then Show(t.lines, t.line + 1, 0, t.top)
    else Shown(t)
  }

  function PressUp(t: Text): Text
    requires Ok(t)
  {
    if t.line == 0 then t else Show(t.lines, t.line - 1, Min(t.col, |t.lines[t.line - 1]|), t.top)
  }

  function PressDown(t: Text): Text
    requires Ok(t)
  {
    if t.line + 1 >= |t.lines| then t else Show(t.lines, t.line + 1, Min(t.col, |t.lines[t.line + 1]|), t.top)
  }

  function Press(t: Text, k: Key): Text
    requires Ok(t)
  {
    match k
    case Char(c) => PressChar(t, c)
    case Enter => PressEnter(t)
    case Backspace => PressBackspace(t)
    case Delete => PressDelete(t)
    case Left => PressLeft(t)
    case Right => PressRight(t)
    case Up => PressUp(t)
    case Down => PressDown(t)
    case Home => Show(t.lines, t.line, 0, t.top)
    case End => Show(t.lines, t.line, |t.lines[t.line]|, t.top)
  }

  // ----- every key keeps the bounds -----

  lemma JoinedOk(lines: seq<Line>, i: nat)
    requires LinesOk(lines) && i + 1 < |lines| && |lines[i]| + |lines[i + 1]| <= MAX_LEN
    ensures LinesOk(Joined(lines, i))
  {
    assert LineOk(lines[i]) && LineOk(lines[i + 1]);
    assert NEWLINE !in lines[i] + lines[i + 1];
  }

  lemma SplitOk(lines: seq<Line>, i: nat, col: nat)
    requires LinesOk(lines) && |lines| < MAX_LINES && i < |lines| && col <= |lines[i]|
    ensures LinesOk(Split(lines, i, col))
  {
    assert LineOk(lines[i]);
    var r := Split(lines, i, col);
    forall j | 0 <= j < |r| ensures LineOk(r[j]) {
      if j < i {
        assert r[j] == lines[j];
      } else if j > i + 1 {
        assert r[j] == lines[j - 1];
      }
    }
  }

  lemma ReplacedOk(lines: seq<Line>, i: nat, l: Line)
    requires LinesOk(lines) && i < |lines| && LineOk(l)
    ensures LinesOk(lines[i := l])
  {
  }

  lemma WithOk(l: Line, col: nat, c: byte)
    requires LineOk(l) && col <= |l|
    ensures Accepted(c) && |l| < MAX_LEN ==> LineOk(With(l, col, c))
    ensures col < |l| ==> LineOk(Without(l, col))
  {
  }

  lemma EditOk(t: Text, k: Key)
    requires Ok(t) && (k.Char? || k.Enter? || k.Backspace? || k.Delete?)
    ensures Ok(Press(t, k))
  {
    hide With, Without, Joined, Split, LinesOk;
    var l := t.lines[t.line];
    LineAt(t.lines, t.line);
    match k
    case Char(c) =>
      if Accepted(c) && |l| < MAX_LEN {
        WithOk(l, t.col, c);
        ReplacedOk(t.lines, t.line, With(l, t.col, c));
      }
    case Enter =>
      if |t.lines| < MAX_LINES {
        SplitOk(t.lines, t.line, t.col);
      }
    case Backspace =>
      if t.col > 0 {
        WithOk(l, t.col - 1, TAB);
        ReplacedOk(t.lines, t.line, Without(l, t.col - 1));
      } else if t.line > 0 && |t.lines[t.line - 1]| + |l| <= MAX_LEN {
        JoinedOk(t.lines, t.line - 1);
        JoinedAt(t.lines, t.line - 1);
      }
    case Delete =>
      if t.col < |l| {
        WithOk(l, t.col, TAB);
        ReplacedOk(t.lines, t.line, Without(l, t.col));
      } else if t.line + 1 < |t.lines| && |l| + |t.lines[t.line + 1]| <= MAX_LEN {
        JoinedOk(t.lines, t.line);
        JoinedAt(t.lines, t.line);
      }
  }

  lemma LineAt(lines: seq<Line>, i: nat)
    requires LinesOk(lines) && i < |lines|
    ensures LineOk(lines[i])
  {
  }

  lemma JoinedAt(lines: seq<Line>, i: nat)
    requires i + 1 < |lines|
    ensures Joined(lines, i)[i] == lines[i] + lines[i + 1]
  {
  }

  lemma PressOk(t: Text, k: Key)
    requires Ok(t)
    ensures Ok(Press(t, k))
  {
    if k.Char? || k.Enter? || k.Backspace? || k.Delete? {
      EditOk(t, k);
    }
    hide LinesOk, PressChar, PressEnter, PressBackspace, PressDelete;
  }

  function PressAll(t: Text, keys: seq<Key>): (r: Text)
    requires Ok(t)
    ensures Ok(r)
    decreases |keys|
  {
    if keys == [] then t else PressOk(t, keys[0]); PressAll(Press(t, keys[0]), keys[1..])
  }

  // ----- keys that undo and keys that agree -----

  /** The same text and cursor; the screen may have scrolled. */
  predicate Same(s: Text, t: Text) { s.lines == t.lines && s.line == t.line && s.col == t.col }

  /** Enter, then backspace, when there is room for a line. */
  lemma EnterThenBackspace(t: Text)
    requires Ok(t) && |t.lines| < MAX_LINES
    ensures Ok(PressEnter(t)) && Same(PressBackspace(PressEnter(t)), t)
  {
    PressOk(t, Enter);
    assert LineOk(t.lines[t.line]);
    var l := t.lines[t.line];
    assert l[..t.col] + l[t.col..] == l;
    assert Joined(Split(t.lines, t.line, t.col), t.line) == t.lines;
  }

  lemma TypeThenBackspace(t: Text, c: byte)
    requires Ok(t) && Accepted(c) && |t.lines[t.line]| < MAX_LEN
    ensures Ok(PressChar(t, c)) && Same(PressBackspace(PressChar(t, c)), t)
  {
    PressOk(t, Char(c));
    assert Without(With(t.lines[t.line], t.col, c), t.col) == t.lines[t.line];
  }

  predicate AtEnd(t: Text)
    requires Ok(t)
  {
    t.line + 1 == |t.lines| && t.col == |t.lines[t.line]|
  }

  /** Delete leaves the text that right and then backspace leave, except at the very end of a
      text that is not empty; where it changes the text it leaves the cursor there too. */
  lemma DeleteIsRightBackspace(t: Text)
    requires Ok(t)
    ensures Ok(PressRight(t))
    ensures PressBackspace(PressRight(t)).lines == PressDelete(t).lines <==> !AtEnd(t) || t.lines == [[]]
    ensures PressDelete(t).lines != t.lines ==> Same(PressBackspace(PressRight(t)), PressDelete(t))
    ensures AtEnd(t) ==> PressDelete(t) == t && PressRight(t) == t
  {
    PressOk(t, Right);
    hide Joined, Without;
  }

  // ----- saving and loading -----

  function Serialized(lines: seq<Line>): (s: seq<byte>)
    decreases |lines|
  {
    if lines == [] then [] else lines[0] + [NEWLINE] + Serialized(lines[1..])
  }

  /** The loop of buffer_load from byte i on, with `done` lines closed and `open` being read. */
  function Parse(raw: seq<byte>, i: nat, done: seq<Line>, open: Line): (r: seq<Line>)
    requires i <= |raw| && |done| < MAX_LINES
    decreases |raw| - i
  {
    if i == |raw| then if |open| > 0 || |done| == 0 then done + [open] else done
    else if raw[i] == NEWLINE then
      if |done| + 1 >= MAX_LINES then done + [open] else Parse(raw, i + 1, done + [open], [])
    else Parse(raw, i + 1, done, if |open| < MAX_LEN then open + [raw[i]] else open)
  }

  function Loaded(raw: seq<byte>): seq<Line> { Parse(raw, 0, [], []) }

  lemma {:induction false} ParseOk(raw: seq<byte>, i: nat, done: seq<Line>, open: Line)
    requires i <= |raw| && |done| < MAX_LINES && LineOk(open) && forall k :: 0 <= k < |done| ==> LineOk(done[k])
    ensures LinesOk(Parse(raw, i, done, open))
    decreases |raw| - i
  {
    if i < |raw| {
      if raw[i] != NEWLINE {
        ParseOk(raw, i + 1, done, if |open| < MAX_LEN then open + [raw[i]] else open);
      } else if |done| + 1 < MAX_LINES {
        ParseOk(raw, i + 1, done + [open], []);
      }
    }
  }

  /** Whatever a file holds, loading it gives a text in bounds. */
  lemma LoadedOk(raw: seq<byte>)
    ensures LinesOk(Loaded(raw))
  {
    ParseOk(raw, 0, [], []);
  }

  /** Reading one line and its newline. */
  lemma {:induction false} ParseLine(raw: seq<byte>, i: nat, done: seq<Line>, open: Line, rest: Line)
    requires LineOk(open + rest) && |done| < MAX_LINES && i + |rest| < |raw|
    requires raw[i..i + |rest|] == rest && raw[i + |rest|] == NEWLINE
    ensures Parse(raw, i, done, open) ==
            if |done| + 1 >= MAX_LINES then done + [open + rest]
                else Parse(raw, i + |rest| + 1, done + [open + rest], [])
    decreases |rest|
  {
    if rest == [] {
      assert open + rest == open;
    } else {
      assert raw[i] == rest[0] && rest[0] in open + rest;
      assert open + [rest[0]] + rest[1..] == open + rest;
      assert raw[i + 1..i + 1 + |rest[1..]|] == rest[1..];
      ParseLine(raw, i + 1, done, open + [rest[0]], rest[1..]);
    }
  }

  lemma {:induction false} ParseSerialized(raw: seq<byte>, i: nat, done: seq<Line>, lines: seq<Line>)
    requires i <= |raw| && raw[i..] == Serialized(lines) && |done| + |lines| <= MAX_LINES && |done| < MAX_LINES
    requires forall k :: 0 <= k < |lines| ==> LineOk(lines[k])
    requires |done| + |lines| > 0
    ensures Parse(raw, i, done, []) == done + lines
    decreases |lines|
  {
    if lines == [] {
      assert i == |raw|;
      assert done + lines == done;
    } else {
      var l, rest := lines[0], Serialized(lines[1..]);
      assert LineOk(l);
      SerializedStep(raw, i, l, rest);
      assert [] + l == l;
      ParseLine(raw, i, done, [], l);
      assert done + [l] + lines[1..] == done + lines;
      if |done| + 1 < MAX_LINES {
        ParseSerialized(raw, i + |l| + 1, done + [l], lines[1..]);
      }
    }
  }

  lemma SerializedStep(raw: seq<byte>, i: nat, l: Line, rest: seq<byte>)
    requires i <= |raw| && raw[i..] == l + [NEWLINE] + rest
    ensures i + |l| < |raw| && raw[i..i + |l|] == l && raw[i + |l|] == NEWLINE && raw[i + |l| + 1..] == rest
  {
    var t := raw[i..];
    assert t[..|l|] == l && t[|l|] == NEWLINE && t[|l| + 1..] == rest;
  }

  /** Loading what was saved gives back the same lines. */
  lemma LoadAfterSave(lines: seq<Line>)
    requires LinesOk(lines)
    ensures Loaded(Serialized(lines)) == lines
  {
    var raw := Serialized(lines);
    assert raw[0..] == raw;
    ParseSerialized(raw, 0, [], lines);
  }

  /** And the saved bytes always fit in a file. */
  lemma {:induction false} SerializedFits(lines: seq<Line>)
    requires forall i :: 0 <= i < |lines| ==> LineOk(lines[i])
    ensures |Serialized(lines)| <= (MAX_LEN + 1) * |lines|
    decreases |lines|
  {
    if lines != [] {
      assert LineOk(lines[0]);
      SerializedFits(lines[1..]);
    }
  }
}
