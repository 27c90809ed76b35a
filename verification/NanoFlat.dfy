/** The editor as a typist sees it: one string of bytes with a cursor in it. Each key does to
    the string what its name says, and loading cuts a file into that string's lines. */
module NanoFlat {
  import opened Bytes
  import opened NanoText

  // ----- a list of lines as one string -----

  predicate Place(lines: seq<Line>, i: nat, col: nat) { i < |lines| && col <= |lines[i]| }

  /** The bytes before a place in the text and those from it on, each line with its newline. */
  function Front(lines: seq<Line>, i: nat, col: nat): seq<byte>
    requires Place(lines, i, col)
  {
    Serialized(lines[..i]) + lines[i][..col]
  }

  function Back(lines: seq<Line>, i: nat, col: nat): (s: seq<byte>)
    requires Place(lines, i, col)
    ensures s != []
  {
    lines[i][col..] + [NEWLINE] + Serialized(lines[i + 1..])
  }

  lemma {:induction false} SerializedAppends(a: seq<Line>, b: seq<Line>)
    ensures Serialized(a + b) == Serialized(a) + Serialized(b)
    decreases |a|
  {
    if a == [] {
      assert a + b == b;
    } else {
      SerializedAppends(a[1..], b);
      assert (a + b)[1..] == a[1..] + b;
    }
  }

  lemma SerializedOne(l: Line)
    ensures Serialized([l]) == l + [NEWLINE]
  {
    assert Serialized([l][1..]) == [];
  }

  lemma PlaceSplits(lines: seq<Line>, i: nat, col: nat)
    requires Place(lines, i, col)
    ensures Front(lines, i, col) + Back(lines, i, col) == Serialized(lines)
  {
    hide Serialized;
    var a, l, b := lines[..i], lines[i], lines[i + 1..];
    SerializedAppends(a, [l] + b);
    SerializedAppends([l], b);
    SerializedOne(l);
    assert lines == a + ([l] + b);
    assert l == l[..col] + l[col..];
  }

  lemma LaterLine(lines: seq<Line>, i: nat, j: nat)
    requires i < j <= |lines|
    ensures |Serialized(lines[..j])| > |Serialized(lines[..i])| + |lines[i]|
  {
    SerializedAppends(lines[..i], [lines[i]] + lines[i + 1..j]);
    SerializedAppends([lines[i]], lines[i + 1..j]);
    SerializedOne(lines[i]);
    assert lines[..j] == lines[..i] + ([lines[i]] + lines[i + 1..j]);
    hide Serialized;
  }

  // ----- places and edits -----

  /** One byte on within a line, and over a line's end. */
  lemma NextByte(lines: seq<Line>, i: nat, col: nat)
    requires Place(lines, i, col + 1)
    ensures Front(lines, i, col + 1) == Front(lines, i, col) + [lines[i][col]]
    ensures Back(lines, i, col) == [lines[i][col]] + Back(lines, i, col + 1)
  {
    hide Serialized;
    assert lines[i][..col + 1] == lines[i][..col] + [lines[i][col]];
  }

  lemma NextLine(lines: seq<Line>, i: nat)
    requires i + 1 < |lines|
    ensures Front(lines, i + 1, 0) == Front(lines, i, |lines[i]|) + [10]
    ensures Back(lines, i, |lines[i]|) == [10] + Back(lines, i + 1, 0)
  {
    SerializedAppends(lines[..i], [lines[i]]);
    SerializedOne(lines[i]);
    assert lines[..i + 1] == lines[..i] + [lines[i]];
    var b := lines[i + 1..];
    assert Serialized(b) == b[0] + [NEWLINE] + Serialized(b[1..]);
    assert b[1..] == lines[i + 2..];
    hide Serialized;
  }

  lemma Inserted(lines: seq<Line>, i: nat, col: nat, c: byte)
    requires Place(lines, i, col)
    ensures var r := lines[i := With(lines[i], col, c)];
      Front(r, i, col + 1) == Front(lines, i, col) + [c] && Back(r, i, col + 1) == Back(lines, i, col)
  {
    hide Serialized;
    var l := lines[i];
    var r := lines[i := With(l, col, c)];
    assert r[..i] == lines[..i] && r[i + 1..] == lines[i + 1..];
    assert With(l, col, c)[..col + 1] == l[..col] + [c] && With(l, col, c)[col + 1..] == l[col..];
  }

  lemma Removed(lines: seq<Line>, i: nat, col: nat)
    requires Place(lines, i, col + 1)
    ensures var r := lines[i := Without(lines[i], col)];
      Front(r, i, col) == Front(lines, i, col) && Back(r, i, col) == Back(lines, i, col)[1..]
  {
    hide Serialized;
    var l := lines[i];
    var r := lines[i := Without(l, col)];
    assert r[..i] == lines[..i] && r[i + 1..] == lines[i + 1..];
    assert Without(l, col)[..col] == l[..col] && Without(l, col)[col..] == l[col..][1..];
  }

  lemma Cut(lines: seq<Line>, i: nat, col: nat)
    requires Place(lines, i, col)
    ensures var r := Split(lines, i, col);
      Front(r, i + 1, 0) == Front(lines, i, col) + [10] && Back(r, i + 1, 0) == Back(lines, i, col)
  {
    hide Serialized;
    var r := Split(lines, i, col);
    NextLine(r, i);
    assert r[..i] == lines[..i] && r[i + 2..] == lines[i + 1..];
    assert r[i][..|r[i]|] == lines[i][..col] && r[i + 1][0..] == lines[i][col..];
  }

  lemma Closed(lines: seq<Line>, i: nat)
    requires i + 1 < |lines|
    ensures var r := Joined(lines, i); var n := |lines[i]|;
      && r[i] == lines[i] + lines[i + 1]
      && Front(r, i, n) == Front(lines, i, n) && Back(r, i, n) == Back(lines, i, n)[1..]
  {
    NextLine(lines, i);
    hide Serialized;
    var r := Joined(lines, i);
    assert r[..i] == lines[..i] && r[i + 1..] == lines[i + 2..];
    assert r[i] == lines[i] + lines[i + 1];
    assert r[i][..|lines[i]|] == lines[i][..|lines[i]|] && r[i][|lines[i]|..] == lines[i + 1][0..];
  }

  // ----- the keys -----

  function Before(t: Text): seq<byte>
    requires Ok(t)
  {
    Front(t.lines, t.line, t.col)
  }

  function After(t: Text): (s: seq<byte>)
    requires Ok(t)
    ensures s != []
  {
    Back(t.lines, t.line, t.col)
  }

  /** The two parts make up what buffer_save writes, and they determine text and cursor. */
  lemma PartsOfSaved(t: Text)
    requires Ok(t)
    ensures Before(t) + After(t) == Serialized(t.lines)
  {
    PlaceSplits(t.lines, t.line, t.col);
  }

  lemma PartsDetermine(s: Text, t: Text)
    requires Ok(s) && Ok(t) && Before(s) == Before(t) && After(s) == After(t)
    ensures Same(s, t)
  {
    PartsOfSaved(s);
    PartsOfSaved(t);
    LoadAfterSave(s.lines);
    LoadAfterSave(t.lines);
    if s.line < t.line {
      LaterLine(s.lines, s.line, t.line);
    } else if t.line < s.line {
      LaterLine(s.lines, t.line, s.line);
    }
    hide Serialized, Loaded;
  }

  /** What a key leaves: text before and after the cursor. */
  predicate Leaves(t: Text, k: Key, before: seq<byte>, after: seq<byte>)
    requires Ok(t)
  {
    Ok(Press(t, k)) && Before(Press(t, k)) == before && After(Press(t, k)) == after
  }

  /** A printable character or a tab goes in at the cursor if its line has fewer than 79 bytes, and a newline if
      the text has fewer than 200 lines; the bytes on both sides are as they were. */
  lemma CharInserts(t: Text, c: byte)
    requires Ok(t)
    ensures if (32 <= c < 128 || c == 9) && |t.lines[t.line]| < 79
            then Leaves(t, Char(c), Before(t) + [c], After(t))
            else Press(t, Char(c)) == t
  {
    PressOk(t, Char(c));
    Inserted(t.lines, t.line, t.col, c);
    hide Front, Back, With, LinesOk;
  }

  lemma EnterInserts(t: Text)
    requires Ok(t)
    ensures if |t.lines| < 200 then Leaves(t, Enter, Before(t) + [10], After(t)) else Press(t, Enter) == t
  {
    PressOk(t, Enter);
    Cut(t.lines, t.line, t.col);
    hide Front, Back, Split, LinesOk;
  }

  /** Backspace takes the byte before the cursor away and delete the one at it, unless there is none (the last
      newline stays) or two lines would make one of more than 79 bytes. */
  lemma BackspaceRemoves(t: Text)
    requires Ok(t)
    ensures if t.col > 0 || (t.line > 0 && |t.lines[t.line - 1]| + |t.lines[t.line]| <= 79)
            then Before(t) != [] && Leaves(t, Backspace, Before(t)[..|Before(t)| - 1], After(t))
            else Press(t, Backspace) == t
  {
    PressOk(t, Backspace);
    if t.col > 0 {
      NextByte(t.lines, t.line, t.col - 1);
      Removed(t.lines, t.line, t.col - 1);
    } else if t.line > 0 {
      NextLine(t.lines, t.line - 1);
      Closed(t.lines, t.line - 1);
    }
    hide Front, Back, Joined, Without, LinesOk;
  }

  lemma DeleteRemoves(t: Text)
    requires Ok(t)
    ensures var l := |t.lines[t.line]|;
      if t.col < l || (t.line + 1 < |t.lines| && l + |t.lines[t.line + 1]| <= 79)
      then Leaves(t, Delete, Before(t), After(t)[1..])
      else Press(t, Delete) == t
  {
    PressOk(t, Delete);
    if t.col < |t.lines[t.line]| {
      Removed(t.lines, t.line, t.col);
    } else if t.line + 1 < |t.lines| {
      Closed(t.lines, t.line);
    }
    hide Front, Back, Joined, Without, LinesOk;
  }

  /** Left and right move the cursor over one byte, a newline included, up to the ends of the text. */
  lemma LeftMoves(t: Text)
    requires Ok(t)
    ensures if Before(t) == [] then Press(t, Left) == t
            else Leaves(t, Left, Before(t)[..|Before(t)| - 1], [Before(t)[|Before(t)| - 1]] + After(t))
  {
    PressOk(t, Left);
    if t.col > 0 {
      NextByte(t.lines, t.line, t.col - 1);
    } else if t.line > 0 {
      NextLine(t.lines, t.line - 1);
    }
    NothingBefore(t);
    hide Front, Back, LinesOk;
  }

  lemma NothingBefore(t: Text)
    requires Ok(t)
    ensures Before(t) == [] <==> t.line == 0 && t.col == 0
    ensures After(t) == [10] <==> AtEnd(t)
  {
    if t.line > 0 {
      LaterLine(t.lines, 0, t.line);
    }
    if t.line + 1 < |t.lines| {
      assert |Serialized(t.lines[t.line + 1..])| > 0;
    }
  }

  lemma RightMoves(t: Text)
    requires Ok(t)
    ensures if After(t) == [10] then Press(t, Right) == t
            else Leaves(t, Right, Before(t) + [After(t)[0]], After(t)[1..])
  {
    PressOk(t, Right);
    if t.col < |t.lines[t.line]| {
      NextByte(t.lines, t.line, t.col);
    } else if t.line + 1 < |t.lines| {
      NextLine(t.lines, t.line);
    }
    NothingBefore(t);
    hide Front, Back, LinesOk;
  }

  /** The other four move the cursor alone: up and down by a line, to the same column or the line's end if that
      comes first, home and end within the line. */
  lemma MovesWithin(t: Text, k: Key)
    requires Ok(t) && k in {Up, Down, Home, End}
    ensures var r := Press(t, k);
      && Ok(r) && r.lines == t.lines
      && r.line == (if k == Up && t.line > 0 then t.line - 1
                    else if k == Down && t.line + 1 < |t.lines| then t.line + 1
                    else t.line)
      && r.col == (if k == Home then 0 else if k == End then |t.lines[t.line]|
                   else if r.line == t.line || t.col <= |t.lines[r.line]| then t.col
                   else |t.lines[r.line]|)
  {
    PressOk(t, k);
    hide LinesOk;
  }

  /** No key scrolls further than it must: any other first line that shows the new cursor is at least as far
      from the old one. */
  lemma ScrollsLeast(t: Text, k: Key, top: nat)
    requires Ok(t) && Ok(Press(t, k)) && top <= Press(t, k).line < top + 22
    ensures var r := Press(t, k).top;
      (if r < t.top then t.top - r else r - t.top) <= (if top < t.top then t.top - top else top - t.top)
  {
    hide Joined, Split, With, Without, LinesOk;
  }

  // ----- typing -----

  function Keys(s: seq<byte>): (k: seq<Key>)
    ensures |k| == |s| && forall i :: 0 <= i < |s| ==> k[i] == Char(s[i])
  {
    seq(|s|, i requires 0 <= i < |s| => Char(s[i]))
  }

  /** Typing a string that fits the line puts that string in at the cursor. */
  lemma {:induction false} TypingInserts(t: Text, s: seq<byte>)
    requires Ok(t) && |t.lines[t.line]| + |s| <= 79 && forall i :: 0 <= i < |s| ==> 32 <= s[i] < 128 || s[i] == 9
    ensures var r := PressAll(t, Keys(s)); Before(r) == Before(t) + s && After(r) == After(t)
    decreases |s|
  {
    hide Front, Back;
    if s == [] {
      assert Before(t) + s == Before(t);
    } else {
      PressOk(t, Char(s[0]));
      CharInserts(t, s[0]);
      OneLonger(t, s[0]);
      assert Keys(s)[1..] == Keys(s[1..]);
      TypingInserts(Press(t, Char(s[0])), s[1..]);
      Regroup(Before(t), [s[0]], s[1..]);
      assert [s[0]] + s[1..] == s;
    }
  }

  lemma OneLonger(t: Text, c: byte)
    requires Ok(t) && Accepted(c) && |t.lines[t.line]| < MAX_LEN
    ensures var r := PressChar(t, c); Ok(r) && |r.lines[r.line]| == |t.lines[t.line]| + 1
  {
    PressOk(t, Char(c));
    hide LinesOk;
  }

  // ----- loading -----

  /** Where the first newline from byte i on is, or the end. */
  function LineEnd(raw: seq<byte>, i: nat): (e: nat)
    requires i <= |raw|
    ensures i <= e <= |raw| && NEWLINE !in raw[i..e] && (e < |raw| ==> raw[e] == NEWLINE)
    decreases |raw| - i
  {
    if i == |raw| || raw[i] == NEWLINE then i else LineEnd(raw, i + 1)
  }

  /** The lines of a file from byte i on: what lies between newlines, and what follows the last if anything does. */
  function FileLines(raw: seq<byte>, i: nat): seq<Line>
    requires i <= |raw|
    decreases |raw| - i
  {
    if i == |raw| then []
    else if LineEnd(raw, i) == |raw| then [raw[i..]]
    else [raw[i..LineEnd(raw, i)]] + FileLines(raw, LineEnd(raw, i) + 1)
  }

  function CutTo(l: Line): Line { l[..Min(|l|, MAX_LEN)] }

  function CutAll(lines: seq<Line>): (r: seq<Line>)
    ensures |r| == |lines| && forall i :: 0 <= i < |lines| ==> r[i] == CutTo(lines[i])
  {
    seq(|lines|, i requires 0 <= i < |lines| => CutTo(lines[i]))
  }

  lemma CutGrows(l: Line, c: byte)
    ensures CutTo(l + [c]) == if |CutTo(l)| < MAX_LEN then CutTo(l) + [c] else CutTo(l)
  {
  }

  /** Reading on to the end of a line: its first 79 bytes are kept. */
  lemma {:induction false} ParseToEnd(raw: seq<byte>, i: nat, done: seq<Line>, start: nat)
    requires start <= i <= |raw| && i <= LineEnd(raw, start) && |done| < MAX_LINES
    ensures Parse(raw, i, done, CutTo(raw[start..i]))
         == Parse(raw, LineEnd(raw, start), done, CutTo(raw[start..LineEnd(raw, start)]))
    decreases |raw| - i
  {
    var e := LineEnd(raw, start);
    if i < e {
      assert raw[start..e][i - start] == raw[i];
      CutGrows(raw[start..i], raw[i]);
      assert raw[start..i + 1] == raw[start..i] + [raw[i]];
      ParseToEnd(raw, i + 1, done, start);
    }
  }

  lemma {:induction false} ParseLines(raw: seq<byte>, i: nat, done: seq<Line>)
    requires i <= |raw| && |done| < MAX_LINES
    ensures var lines := CutAll(FileLines(raw, i));
      Parse(raw, i, done, []) == if done == [] && lines == [] then [[]]
                                 else done + lines[..Min(|lines|, MAX_LINES - |done|)]
    decreases |raw| - i
  {
    var e := LineEnd(raw, i);
    var lines := CutAll(FileLines(raw, i));
    assert CutTo(raw[i..i]) == [];
    ParseToEnd(raw, i, done, i);
    if i < |raw| {
      var l := CutTo(raw[i..e]);
      if e == |raw| {
        assert raw[i..e] == raw[i..];
        assert lines == [l];
      } else {
        var rest := CutAll(FileLines(raw, e + 1));
        assert lines == [l] + rest;
        if |done| + 1 < MAX_LINES {
          ParseLines(raw, e + 1, done + [l]);
          FirstLines(done, l, rest, Min(|rest|, MAX_LINES - |done| - 1));
        }
      }
    }
  }

  lemma FirstLines(done: seq<Line>, l: Line, rest: seq<Line>, n: nat)
    requires n <= |rest|
    ensures done + [l] + rest[..n] == done + ([l] + rest)[..n + 1]
  {
  }

  /** Whatever a file holds, loading it gives the first 79 bytes of each of its first 200 lines, and one empty
      line for an empty file. */
  lemma LoadedExactly(raw: seq<byte>)
    ensures if raw == [] then Loaded(raw) == [[]]
            else && |Loaded(raw)| == Min(|FileLines(raw, 0)|, 200)
                 && forall i :: 0 <= i < |Loaded(raw)| ==>
                      var l := FileLines(raw, 0)[i]; Loaded(raw)[i] == l[..Min(|l|, 79)]
  {
    ParseLines(raw, 0, []);
    hide Parse, LineEnd;
  }
}
