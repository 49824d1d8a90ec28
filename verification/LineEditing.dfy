/**
 The incremental command line: characters go in one at a time, completed non-empty lines are invoked
 and kept as history.
 */
module LineEditing {

  const BACKSPACE := 8 as char
  const DELETE := 127 as char

  // ----- the stream as a fold

  datatype Line = Line(buffer: string, history: seq<string>)

  function FeedOne(s: Line, c: char): Line {
    if c == '\r' then s
    else if c == BACKSPACE || c == DELETE then
      if s.buffer == "" then s else s.(buffer := s.buffer[..|s.buffer|-1])
    else if c != '\n' then s.(buffer := s.buffer + [c])
    else if s.buffer == "" then s
    else Line("", s.history + [s.buffer])
  }

  function FeedAll(s: Line, data: string): Line
    decreases |data|
  {
    if data == "" then s else FeedAll(FeedOne(s, data[0]), data[1..])
  }

  // ----- the object

  class CommandLine {
    var buffer: string
    var history: seq<string>
    var invoked: seq<string>   // what the registry has been asked to run, in order

    constructor ()
      ensures buffer == "" && history == [] && invoked == []
    {
      buffer, history, invoked := "", [], [];
    }

    method Clear()
      modifies this`buffer
      ensures buffer == ""
    {
      buffer := "";
    }

    method FeedChar(value: char)
      modifies this
      ensures Line(buffer, history) == FeedOne(Line(old(buffer), old(history)), value)
      ensures old(invoked == history) ==> invoked == history
    {
      if value == '\r' {
        return;
      }
      if value == BACKSPACE || value == DELETE {
        if buffer != "" {
          buffer := buffer[..|buffer|-1];
        }
        return;
      }
      if value != '\n' {
        buffer := buffer + [value];
        return;
      }
      var line := buffer;
      buffer := "";
      if line == "" {
        return;
      }
      invoked := invoked + [line];
      history := history + [line];
    }

    method Feed(data: string)
      modifies this
      ensures Line(buffer, history) == FeedAll(Line(old(buffer), old(history)), data)
      ensures old(invoked == history) ==> invoked == history
    {
      for i := 0 to |data|
        invariant FeedAll(Line(buffer, history), data[i..]) == FeedAll(Line(old(buffer), old(history)), data)
        invariant old(invoked == history) ==> invoked == history
      {
        assert data[i..][0] == data[i] && data[i..][1..] == data[i+1..];
        FeedChar(data[i]);
      }
    }
  }

  // ----- split first, then edit

  /** The pieces between newlines; never empty. */
  function Split(data: string): (pieces: seq<string>)
    ensures pieces != []
  {
    if data == "" then [""]
    else
      var front := Split(data[..|data|-1]);
      var last := data[|data|-1];
      if last == '\n' then front + [""]
      else front[..|front|-1] + [front[|front|-1] + [last]]
  }

  function WithoutReturns(piece: string): string {
    if piece == "" then ""
    else WithoutReturns(piece[..|piece|-1]) + if piece[|piece|-1] == '\r' then "" else [piece[|piece|-1]]
  }

  /** The text a piece leaves behind: a rubout takes back the last character that is still there. */
  function Rubbed(piece: string): string {
    if piece == "" then ""
    else
      var front, last := Rubbed(piece[..|piece|-1]), piece[|piece|-1];
      if last == BACKSPACE || last == DELETE then if front == "" then "" else front[..|front|-1]
      else front + [last]
  }

  function Edited(piece: string): string {
    Rubbed(WithoutReturns(piece))
  }

  function NonEmptyEdited(pieces: seq<string>): seq<string> {
    if pieces == [] then []
    else
      var line := Edited(pieces[|pieces|-1]);
      NonEmptyEdited(pieces[..|pieces|-1]) + if line == "" then [] else [line]
  }

  // ----- they agree

  lemma {:induction false} FeedConcat(s: Line, a: string, b: string)
    ensures FeedAll(s, a + b) == FeedAll(FeedAll(s, a), b)
    decreases |a|
  {
    if a == "" {
      assert a + b == b;
    } else {
      assert (a + b)[1..] == a[1..] + b;
      FeedConcat(FeedOne(s, a[0]), a[1..], b);
    }
  }

  lemma {:induction false} FeedLast(s: Line, data: string)
    requires data != ""
    ensures FeedAll(s, data) == FeedOne(FeedAll(s, data[..|data|-1]), data[|data|-1])
  {
    var front, last := data[..|data|-1], data[|data|-1];
    assert data == front + [last];
    FeedConcat(s, front, [last]);
    assert [last][1..] == "";
  }

  lemma {:induction false} EditedSnoc(piece: string, c: char)
    ensures Edited(piece + [c]) ==
            if c == '\r' then Edited(piece)
            else if c == BACKSPACE || c == DELETE then
              if Edited(piece) == "" then "" else Edited(piece)[..|Edited(piece)|-1]
            else Edited(piece) + [c]
  {
    assert (piece + [c])[..|piece|] == piece;
    var kept := WithoutReturns(piece);
    if c == '\r' {
      assert WithoutReturns(piece + [c]) == kept + "" == kept;
    } else {
      assert WithoutReturns(piece + [c]) == kept + [c];
      assert (kept + [c])[..|kept|] == kept;
    }
  }

  /** The stream fold computes: split at newlines, drop carriage returns, apply rubouts within each piece,
      drop what is left empty; the last piece is the buffer. */
  lemma {:induction false} FoldIsSplitThenEdit(data: string)
    ensures var pieces := Split(data);
            FeedAll(Line("", []), data) ==
            Line(Edited(pieces[|pieces|-1]), NonEmptyEdited(pieces[..|pieces|-1]))
  {
    var pieces := Split(data);
    if data == "" {
      assert pieces[..0] == [];
    } else {
      var front, last := data[..|data|-1], data[|data|-1];
      var before := Split(front);
      FoldIsSplitThenEdit(front);
      FeedLast(Line("", []), data);
      if last == '\n' {
        assert pieces == before + [""];
        assert pieces[..|pieces|-1] == before;
        assert Edited("") == "";
      } else {
        EditedSnoc(before[|before|-1], last);
        assert pieces[..|pieces|-1] == before[..|before|-1];
      }
    }
  }

  // ----- what typing does

  predicate Printable(c: char) {
    c != '\r' && c != '\n' && c != BACKSPACE && c != DELETE
  }

  lemma {:induction false} Typing(s: Line, text: string)
    requires forall k :: 0 <= k < |text| ==> Printable(text[k])
    ensures FeedAll(s, text) == s.(buffer := s.buffer + text)
    decreases |text|
  {
    if text == "" {
      assert s.buffer + text == s.buffer;
    } else {
      assert Printable(text[0]);
      Typing(FeedOne(s, text[0]), text[1..]);
      assert (s.buffer + [text[0]]) + text[1..] == s.buffer + text;
    }
  }

  /** A line typed and ended goes to the history as it was typed, an empty one nowhere. */
  lemma {:induction false} LineTyped(s: Line, text: string)
    requires s.buffer == "" && forall k :: 0 <= k < |text| ==> Printable(text[k])
    ensures FeedAll(s, text + "\n") == Line("", if text == "" then s.history else s.history + [text])
  {
    FeedConcat(s, text, "\n");
    Typing(s, text);
    assert "" + text == text && "\n"[1..] == "";
  }

  /** Typing a character and rubbing it out, with either of two keys, is as if nothing had been typed; rubbing
      out where there is nothing, or a carriage return, does nothing at all. */
  lemma {:induction false} RuboutUndoesTyping(s: Line, c: char, rubout: char)
    requires Printable(c) && (rubout as int == 8 || rubout as int == 127)
    ensures FeedAll(s, [c, rubout]) == s
    ensures s.buffer == "" ==> FeedAll(s, [rubout]) == s
    ensures FeedAll(s, "\r") == s
  {
    FeedConcat(s, [c], [rubout]);
    assert [c] + [rubout] == [c, rubout] && [c][1..] == "" && [rubout][1..] == "" && "\r"[1..] == "";
    assert (s.buffer + [c])[..|s.buffer|] == s.buffer;
  }

  function Joined(chunks: seq<string>): string {
    if chunks == [] then "" else chunks[0] + Joined(chunks[1..])
  }

  function FeedChunks(s: Line, chunks: seq<string>): Line
    decreases |chunks|
  {
    if chunks == [] then s else FeedChunks(FeedAll(s, chunks[0]), chunks[1..])
  }

  lemma {:induction false} ChunksConcat(s: Line, chunks: seq<string>)
    ensures FeedChunks(s, chunks) == FeedAll(s, Joined(chunks))
    decreases |chunks|
  {
    if chunks != [] {
      FeedConcat(s, chunks[0], Joined(chunks[1..]));
      ChunksConcat(FeedAll(s, chunks[0]), chunks[1..]);
    }
  }

  /** However a stream is cut into chunks, history and buffer are those of the whole text. */
  lemma {:induction false} ChunkingIrrelevant(chunks: seq<string>)
    ensures var pieces := Split(Joined(chunks));
            FeedChunks(Line("", []), chunks) ==
            Line(Edited(pieces[|pieces|-1]), NonEmptyEdited(pieces[..|pieces|-1]))
  {
    ChunksConcat(Line("", []), chunks);
    FoldIsSplitThenEdit(Joined(chunks));
  }

  function JoinLines(pieces: seq<string>): string
    requires pieces != []
  {
    if |pieces| == 1 then pieces[0]
    else JoinLines(pieces[..|pieces|-1]) + "\n" + pieces[|pieces|-1]
  }

  /** Splitting loses nothing: the pieces hold no newline and joined by newlines are the text again. */
  lemma {:induction false} SplitShape(data: string)
    ensures forall k :: 0 <= k < |Split(data)| ==> '\n' !in Split(data)[k]
    ensures JoinLines(Split(data)) == data
  {
    if data != "" {
      var front, last := data[..|data|-1], data[|data|-1];
      var before := Split(front);
      SplitShape(front);
      assert data == front + [last];
      if last == '\n' {
        assert Split(data)[..|before|] == before;
      } else {
        var pieces := Split(data);
        assert pieces[..|pieces|-1] == before[..|before|-1];
        assert JoinLines(before) + [last] == JoinLines(pieces) by {
          if |before| > 1 {
            var head := JoinLines(before[..|before|-1]) + "\n";
            assert (head + before[|before|-1]) + [last] == head + (before[|before|-1] + [last]);
          }
        }
      }
    }
  }
}
