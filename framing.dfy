/**
 * Line framing of the serial stream read in `ConnectArduino`
 * (frontend/src/pages/Dashboard.jsx): text chunks are appended to a buffer, every
 * complete `'\n'`-terminated line is split out, the unterminated tail stays in the
 * buffer, and each line is trimmed, with blank lines dropped, before it is parsed.
 */
module SerialFraming {
  import opened Text

  /** No line holds a newline. */
  predicate NoNewline(lines: seq<string>) {
    forall k :: 0 <= k < |lines| ==> '\n' !in lines[k]
  }

  /** The complete lines of a text: every stretch that a newline closes, in order. */
  function CompleteLines(s: string): (lines: seq<string>)
    ensures lines == [] <==> '\n' !in s
    ensures |lines| <= |s|
    decreases |s|
  {
    if '\n' !in s then []
    else
      var i := IndexOf(s, '\n');
      [s[..i]] + CompleteLines(s[i + 1..])
  }

  /** No complete line holds a newline. */
  lemma {:induction false} CompleteLinesNoNewline(s: string)
    ensures NoNewline(CompleteLines(s))
    decreases |s|
  {
    if '\n' in s {
      var i := IndexOf(s, '\n');
      IndexOfFirst(s, '\n');
      CompleteLinesNoNewline(s[i + 1..]);
      var lines := CompleteLines(s);
      assert lines[1..] == CompleteLines(s[i + 1..]);
      forall k | 0 <= k < |lines| ensures '\n' !in lines[k] {
        if k > 0 { assert lines[k] == lines[1..][k - 1]; }
      }
    }
  }

  /** The unterminated tail of a text: what follows its last newline. */
  function Residual(s: string): (rest: string)
    ensures '\n' !in rest
    decreases |s|
  {
    if '\n' !in s then s else Residual(s[IndexOf(s, '\n') + 1..])
  }

  /** Searching a text that already holds `c` finds the same position when more text follows. */
  lemma {:induction false} IndexOfPrefix(s: string, t: string, c: char)
    requires c in s
    ensures c in s + t && IndexOf(s + t, c) == IndexOf(s, c)
  {
    assert (s + t)[0] == s[0];
    if s[0] != c {
      assert (s + t)[1..] == s[1..] + t;
      IndexOfPrefix(s[1..], t, c);
    }
  }

  /** Concatenation of sequences is associative. */
  lemma ConcatAssoc<T>(a: seq<T>, b: seq<T>, c: seq<T>)
    ensures a + (b + c) == (a + b) + c
  {
  }

  /** When `s` holds a newline, reading `s + t` releases the first line of `s` and goes on after it. */
  lemma FeedUnfold(s: string, t: string)
    requires '\n' in s
    ensures var i := IndexOf(s, '\n');
      && CompleteLines(s + t) == [s[..i]] + CompleteLines(s[i + 1..] + t)
      && Residual(s + t) == Residual(s[i + 1..] + t)
  {
    var i := IndexOf(s, '\n');
    IndexOfPrefix(s, t, '\n');
    assert (s + t)[i + 1..] == s[i + 1..] + t;
    assert (s + t)[..i] == s[..i];
  }

  /** The lines released by reading `s + t`: those of `s`, then those its tail completes with `t`. */
  lemma {:induction false} FeedLines(s: string, t: string)
    ensures CompleteLines(s + t) == CompleteLines(s) + CompleteLines(Residual(s) + t)
    decreases |s|
  {
    if '\n' in s {
      var i := IndexOf(s, '\n');
      var line, rest := s[..i], s[i + 1..];
      FeedUnfold(s, t);
      FeedLines(rest, t);
      assert CompleteLines(s) == [line] + CompleteLines(rest);
      assert Residual(s) == Residual(rest);
      ConcatAssoc([line], CompleteLines(rest), CompleteLines(Residual(rest) + t));
    } else {
      NoNewlineNoLines(s);
    }
  }

  /** The tail left by reading `s + t` is the tail left by reading the tail of `s`, then `t`. */
  lemma {:induction false} FeedTail(s: string, t: string)
    ensures Residual(s + t) == Residual(Residual(s) + t)
    decreases |s|
  {
    if '\n' in s {
      var rest := s[IndexOf(s, '\n') + 1..];
      FeedUnfold(s, t);
      FeedTail(rest, t);
      assert Residual(s) == Residual(rest);
    }
  }

  /**
   * Fragmentation does not matter: reading `s` and then `t` yields the lines of `s`,
   * then the lines that the tail of `s` completes with `t`, and that is exactly what
   * reading `s + t` at once yields; the tails agree as well.
   */
  lemma FeedInTwo(s: string, t: string)
    ensures CompleteLines(s + t) == CompleteLines(s) + CompleteLines(Residual(s) + t)
    ensures Residual(s + t) == Residual(Residual(s) + t)
  {
    FeedLines(s, t);
    FeedTail(s, t);
  }

  /** A text with no newline completes no line and is all tail. */
  lemma NoNewlineNoLines(s: string)
    requires '\n' !in s
    ensures CompleteLines(s) == [] && Residual(s) == s
  {
  }

  /**
   * `s.split('\n')` followed by `pop()`: the popped last piece is the tail and the
   * pieces before it are the complete lines.
   */
  lemma SplitLines(s: string)
    ensures var parts := Split(s, '\n');
      parts[..|parts| - 1] == CompleteLines(s) && parts[|parts| - 1] == Residual(s)
  {
    SplitInit(s);
    SplitLast(s);
  }

  /** The pieces of `s.split('\n')` before the last are the complete lines. */
  lemma {:induction false} SplitInit(s: string)
    ensures var parts := Split(s, '\n'); parts[..|parts| - 1] == CompleteLines(s)
    decreases |s|
  {
    if '\n' in s {
      var i := IndexOf(s, '\n');
      var t := s[i + 1..];
      var parts, rest := Split(s, '\n'), Split(t, '\n');
      SplitInit(t);
      assert parts == [s[..i]] + rest by { SplitUnfold(s, '\n'); }
      assert parts[..|parts| - 1] == [s[..i]] + rest[..|rest| - 1];
    }
  }

  /** The last piece of `s.split('\n')` is the unterminated tail. */
  lemma {:induction false} SplitLast(s: string)
    ensures var parts := Split(s, '\n'); parts[|parts| - 1] == Residual(s)
    decreases |s|
  {
    if '\n' in s {
      var i := IndexOf(s, '\n');
      var t := s[i + 1..];
      var parts, rest := Split(s, '\n'), Split(t, '\n');
      SplitLast(t);
      assert parts == [s[..i]] + rest;
    }
  }

  /** Joining all pieces is joining all but the last, then a separator and the last. */
  lemma {:induction false} JoinSnoc(parts: seq<string>, sep: char)
    requires |parts| >= 2
    ensures Join(parts, sep) == Join(parts[..|parts| - 1], sep) + [sep] + parts[|parts| - 1]
  {
    if |parts| > 2 {
      JoinSnoc(parts[1..], sep);
      assert parts[1..][..|parts| - 2] == parts[..|parts| - 1][1..];
    }
  }

  /** All chunks read so far, in order (the fold `VisionService.Flatten` repeats for boxes). */
  function Concat(chunks: seq<string>): string {
    if chunks == [] then "" else Concat(chunks[..|chunks| - 1]) + chunks[|chunks| - 1]
  }

  /** The lines released read by read: each chunk completes the tail left by the chunks before it. */
  function Emitted(chunks: seq<string>): (lines: seq<string>)
    ensures NoNewline(lines)
  {
    if chunks == [] then []
    else
      var before := chunks[..|chunks| - 1];
      var added := CompleteLines(Residual(Concat(before)) + chunks[|chunks| - 1]);
      CompleteLinesNoNewline(Residual(Concat(before)) + chunks[|chunks| - 1]);
      var lines := Emitted(before) + added;
      assert forall k :: |Emitted(before)| <= k < |lines| ==> lines[k] == added[k - |Emitted(before)|];
      lines
  }

  /** Read by read, the released lines are the complete lines of the whole text. */
  lemma {:induction false} EmittedIsComplete(chunks: seq<string>)
    ensures Emitted(chunks) == CompleteLines(Concat(chunks))
  {
    if chunks != [] {
      var before := chunks[..|chunks| - 1];
      EmittedIsComplete(before);
      FeedInTwo(Concat(before), chunks[|chunks| - 1]);
    }
  }

  /** However the text is cut into chunks, the same lines are released. */
  lemma FragmentationInvariant(a: seq<string>, b: seq<string>)
    requires Concat(a) == Concat(b)
    ensures Emitted(a) == Emitted(b)
  {
    EmittedIsComplete(a);
    EmittedIsComplete(b);
  }

  /** A chunk without a newline, added to a tail without one, releases nothing and is all kept. */
  lemma ChunkWithoutNewline(tail: string, chunk: string)
    requires '\n' !in tail && '\n' !in chunk
    ensures CompleteLines(tail + chunk) == [] && Residual(tail + chunk) == tail + chunk
  {
    NoNewlineNoLines(tail + chunk);
  }

  /** The buffer of the read loop: it holds the text read but not yet terminated. */
  class LineBuffer {
    var buffer: string

    /** A fresh connection starts with `let buffer = ''`. */
    constructor ()
      ensures buffer == ""
    {
      buffer := "";
    }

    /**
     * One `reader.read()` result: append the chunk and, when the buffer holds a
     * newline, split it and keep the last piece. The lines returned, each terminated,
     * followed by the new buffer, are exactly the old buffer followed by the chunk.
     */
    method Push(chunk: string) returns (lines: seq<string>)
      modifies this
      ensures '\n' !in buffer && NoNewline(lines)
      ensures lines != [] ==> Join(lines, '\n') + "\n" + buffer == old(buffer) + chunk
      ensures lines == [] ==> buffer == old(buffer) + chunk
      ensures lines == CompleteLines(old(buffer) + chunk)
      ensures buffer == Residual(old(buffer) + chunk)
    {
      buffer := buffer + chunk;
      ghost var text := buffer;
      assert var parts := Split(text, '\n');
        parts[..|parts| - 1] == CompleteLines(text) && parts[|parts| - 1] == Residual(text)
      by { SplitLines(text); }
      assert NoNewline(CompleteLines(text)) by { CompleteLinesNoNewline(text); }
      lines := [];
      if '\n' in buffer {
        var parts := Split(buffer, '\n');
        lines := parts[..|parts| - 1];
        buffer := parts[|parts| - 1];
        assert Join(lines, '\n') + "\n" + buffer == text by {
          JoinSplit(text, '\n');
          JoinSnoc(parts, '\n');
        }
      } else {
        NoNewlineNoLines(text);
      }
    }
  }

  /** A non-empty line with no white space at either end. */
  predicate IsTrimmed(line: string) {
    line != [] && !IsSpace(line[0]) && !IsSpace(line[|line| - 1])
  }

  /** The lines handed to the parser: every line trimmed, blank ones dropped. */
  function CleanLines(lines: seq<string>): (clean: seq<string>)
    ensures |clean| <= |lines|
    ensures forall l <- clean :: IsTrimmed(l)
  {
    if lines == [] then []
    else
      var t := Trim(lines[0]);
      var rest := CleanLines(lines[1..]);
      (if t == [] then [] else [t]) + rest
  }

  /** Cleaning distributes over concatenation. */
  lemma {:induction false} CleanLinesAppend(a: seq<string>, b: seq<string>)
    ensures CleanLines(a + b) == CleanLines(a) + CleanLines(b)
  {
    if a != [] {
      var t := Trim(a[0]);
      var head := if t == [] then [] else [t];
      assert (a + b)[0] == a[0];
      assert (a + b)[1..] == a[1..] + b;
      assert CleanLines(a + b) == head + CleanLines(a[1..] + b);
      CleanLinesAppend(a[1..], b);
      assert CleanLines(a) == head + CleanLines(a[1..]);
    } else {
      assert a + b == b;
    }
  }

  /** One more line: it is cleaned on its own and added after the lines before it. */
  lemma CleanLinesSnoc(lines: seq<string>, i: nat)
    requires i < |lines|
    ensures CleanLines(lines[..i + 1])
         == CleanLines(lines[..i]) + (if Trim(lines[i]) == [] then [] else [Trim(lines[i])])
  {
    var x := lines[i];
    assert lines[..i + 1] == lines[..i] + [x];
    CleanLinesAppend(lines[..i], [x]);
    assert CleanLines([x]) == (if Trim(x) == [] then [] else [Trim(x)]) by {
      assert [x][1..] == [];
      assert CleanLines([x]) == (if Trim(x) == [] then [] else [Trim(x)]) + CleanLines([]);
    }
  }

  /** A line is dropped exactly when it is white space only, and kept trimmed otherwise. */
  lemma CleanLine(line: string)
    ensures CleanLines([line]) == [] <==> forall k :: 0 <= k < |line| ==> IsSpace(line[k])
    ensures CleanLines([line]) != [] ==> CleanLines([line]) == [Trim(line)]
  {
    assert [line][1..] == [];
    TrimEmptyIff(line);
  }
}
