/**
 * String splitting as `java.lang.String.split` performs it for the two
 * patterns the plugins use: the line-break pattern `\r?\n|\r` and
 * single-character separators (`" "`, `"\\s"`).
 *
 * Each splitter is given twice: a raw form that keeps every piece (one more
 * piece than there are separators) and the Java form, which returns the input
 * unchanged when no separator occurs and otherwise drops trailing empty pieces.
 */
module Text {

  // ---------------------------------------------------------------------------
  // Joining and the Java trailing-empty rule
  // ---------------------------------------------------------------------------

  /** The pieces glued together with `sep` between consecutive ones. */
  function Join(pieces: seq<string>, sep: string): string
    requires |pieces| >= 1
  {
    if |pieces| == 1 then pieces[0] else pieces[0] + sep + Join(pieces[1..], sep)
  }

  /** The longest prefix of `pieces` that does not end in an empty string. */
  function DropTrailingEmpty(pieces: seq<string>): (r: seq<string>)
    ensures r <= pieces
    ensures |r| > 0 ==> r[|r| - 1] != ""
    ensures forall i :: |r| <= i < |pieces| ==> pieces[i] == ""
  {
    if |pieces| == 0 then []
    else if pieces[|pieces| - 1] == "" then DropTrailingEmpty(pieces[..|pieces| - 1])
    else pieces
  }

  /**
   * Java's limit-0 post-processing of the raw pieces of a split: a text with
   * no separator comes back whole (even when it is empty); otherwise the
   * trailing empty pieces are dropped and nothing else.
   */
  function JavaPieces(raw: seq<string>): (r: seq<string>)
    ensures r <= raw
    ensures forall i :: |r| <= i < |raw| ==> raw[i] == ""
    ensures |raw| == 1 ==> r == raw
    ensures |raw| != 1 && |r| > 0 ==> r[|r| - 1] != ""
  {
    if |raw| == 1 then raw else DropTrailingEmpty(raw)
  }

  /**
   * The trailing-empty rule pins the result down: the only prefix of `raw`
   * that ends in a non-empty piece (or is empty) and is followed only by empty
   * pieces is the one `DropTrailingEmpty` returns.
   */
  lemma DropTrailingEmptyUnique(raw: seq<string>, r: seq<string>)
    requires r <= raw
    requires forall i :: |r| <= i < |raw| ==> raw[i] == ""
    requires |r| > 0 ==> r[|r| - 1] != ""
    ensures r == DropTrailingEmpty(raw)
  {
    var d := DropTrailingEmpty(raw);
    assert |d| > 0 ==> raw[|d| - 1] != "";
    assert |r| > 0 ==> raw[|r| - 1] != "";
    assert |r| == |d|;
    assert r == raw[..|r|] && d == raw[..|d|];
  }

  /** A text that starts with `p` is `p` followed by the rest. */
  lemma PrefixRest(p: string, s: string)
    requires p <= s
    ensures p + s[|p|..] == s
  {
  }

  /** A text that starts with `p` is `p`, a middle part and its last `n` characters. */
  lemma PrefixMiddleSuffix(p: string, s: string, n: nat)
    requires p <= s && |p| + n <= |s|
    ensures p + s[|p|..|s| - n] + s[|s| - n..] == s
  {
  }

  // ---------------------------------------------------------------------------
  // Line splitting on \r\n, \n and \r
  // ---------------------------------------------------------------------------

  predicate IsLineBreak(c: char) { c == '\r' || c == '\n' }

  predicate NoLineBreak(s: string)
  {
    forall i :: 0 <= i < |s| ==> !IsLineBreak(s[i])
  }

  /** The three line separators the pattern `\r?\n|\r` recognises. */
  predicate IsLineSeparator(sep: string)
  {
    sep == "\n" || sep == "\r\n" || sep == "\r"
  }

  /**
   * The raw pieces of `s` between line separators, scanning left to right and
   * preferring `\r\n` over a lone `\r`, as the regular expression does.
   */
  function RawLines(s: string): (lines: seq<string>)
    ensures |lines| >= 1
    ensures forall i :: 0 <= i < |lines| ==> NoLineBreak(lines[i])
    decreases |s|
  {
    if |s| == 0 then [""]
    else if s[0] == '\r' && |s| >= 2 && s[1] == '\n' then [""] + RawLines(s[2..])
    else if IsLineBreak(s[0]) then [""] + RawLines(s[1..])
    else
      var rest := RawLines(s[1..]);
      [[s[0]] + rest[0]] + rest[1..]
  }

  /** A text splits into one line exactly when it has no break, and that line is the text. */
  lemma {:induction false} RawLinesSingle(s: string)
    ensures |RawLines(s)| == 1 <==> NoLineBreak(s)
    ensures NoLineBreak(s) ==> RawLines(s) == [s]
    decreases |s|
  {
    if |s| > 0 && !IsLineBreak(s[0]) {
      RawLinesSingle(s[1..]);
      assert [s[0]] + s[1..] == s;
      assert NoLineBreak(s) <==> NoLineBreak(s[1..]);
    }
  }

  /** `text.split("\\r?\\n|\\r")`. */
  function SplitLines(text: string): (lines: seq<string>)
    ensures forall i :: 0 <= i < |lines| ==> NoLineBreak(lines[i])
    ensures lines <= RawLines(text)
    ensures forall i :: |lines| <= i < |RawLines(text)| ==> RawLines(text)[i] == ""
    ensures |RawLines(text)| == 1 ==> lines == RawLines(text)
    ensures |RawLines(text)| > 1 && |lines| > 0 ==> lines[|lines| - 1] != ""
  {
    JavaPieces(RawLines(text))
  }

  /** `s` with every line separator replaced by a single `\n`. */
  function NormalizeBreaks(s: string): (r: string)
    decreases |s|
  {
    if |s| == 0 then ""
    else if s[0] == '\r' && |s| >= 2 && s[1] == '\n' then "\n" + NormalizeBreaks(s[2..])
    else if s[0] == '\r' then "\n" + NormalizeBreaks(s[1..])
    else [s[0]] + NormalizeBreaks(s[1..])
  }

  /** Splitting a text that starts with a line free of breaks extends that line's piece. */
  lemma {:induction false} RawLinesPrefix(line: string, rest: string)
    requires NoLineBreak(line)
    ensures RawLines(line + rest)
         == [line + RawLines(rest)[0]] + RawLines(rest)[1..]
    decreases |line|
  {
    if |line| == 0 {
      var r := RawLines(rest);
      assert line + rest == rest;
      assert line + r[0] == r[0];
      assert [r[0]] + r[1..] == r;
    } else {
      var s := line + rest;
      assert s[0] == line[0];
      assert s[1..] == line[1..] + rest;
      RawLinesPrefix(line[1..], rest);
      assert [line[0]] + (line[1..] + RawLines(rest)[0]) == line + RawLines(rest)[0];
    }
  }

  /** With the pattern's own separators, joined text never starts with `\n` after a `\r`. */
  lemma {:induction false} JoinStartsClean(lines: seq<string>, sep: string)
    requires |lines| >= 1
    requires IsLineSeparator(sep)
    requires forall i :: 0 <= i < |lines| ==> NoLineBreak(lines[i])
    ensures |Join(lines, sep)| > 0 ==> Join(lines, sep)[0] != '\n' || sep != "\r"
  {
    if |lines| > 1 && sep == "\r" {
      var j := Join(lines, sep);
      if |lines[0]| > 0 {
        assert j[0] == lines[0][0];
      } else {
        assert j == sep + Join(lines[1..], sep);
        assert j[0] == '\r';
      }
    }
  }

  /** A separator in front of a text that does not start a `\r\n` pair adds one empty line. */
  lemma SeparatorThenText(sep: string, tail: string)
    requires IsLineSeparator(sep)
    requires |tail| > 0 ==> tail[0] != '\n' || sep != "\r"
    ensures RawLines(sep + tail) == [""] + RawLines(tail)
  {
    var after := sep + tail;
    if sep == "\r\n" {
      assert after[0] == '\r' && after[1] == '\n' && after[2..] == tail;
    } else if sep == "\n" {
      assert after[0] == '\n' && after[1..] == tail;
    } else {
      assert after[0] == '\r' && after[1..] == tail;
      assert |after| >= 2 ==> after[1] == tail[0];
    }
  }

  /** A separator followed by joined lines contributes one empty line in front of them. */
  lemma SeparatorThenLines(sep: string, others: seq<string>)
    requires |others| >= 1
    requires IsLineSeparator(sep)
    requires forall i :: 0 <= i < |others| ==> NoLineBreak(others[i])
    requires RawLines(Join(others, sep)) == others
    ensures RawLines(sep + Join(others, sep)) == [""] + others
  {
    JoinStartsClean(others, sep);
    SeparatorThenText(sep, Join(others, sep));
  }

  /** Joining one more piece in front. */
  lemma JoinCons(p: string, rest: seq<string>, sep: string)
    requires |rest| >= 1
    ensures Join([p] + rest, sep) == p + sep + Join(rest, sep)
  {
    assert ([p] + rest)[1..] == rest;
  }

  /** Gluing `first` onto the empty leading piece of `[""] + others`. */
  lemma GlueFirst(first: string, r: seq<string>, others: seq<string>)
    requires r == [""] + others
    ensures [first + r[0]] + r[1..] == [first] + others
  {
    assert first + r[0] == first;
  }

  lemma Assoc(a: string, b: string, c: string)
    ensures a + b + c == a + (b + c)
  {
  }

  /** One more line in front of lines that already round-trip. */
  lemma RawLinesJoinStep(first: string, others: seq<string>, sep: string)
    requires |others| >= 1
    requires IsLineSeparator(sep) && NoLineBreak(first)
    requires forall i :: 0 <= i < |others| ==> NoLineBreak(others[i])
    requires RawLines(Join(others, sep)) == others
    ensures RawLines(Join([first] + others, sep)) == [first] + others
  {
    var after := sep + Join(others, sep);
    SeparatorThenLines(sep, others);
    RawLinesPrefix(first, after);
    GlueFirst(first, RawLines(after), others);
    JoinCons(first, others, sep);
    Assoc(first, sep, Join(others, sep));
  }

  /**
   * Round trip: lines free of breaks, joined with any one of the three
   * separators, split back into exactly those lines.
   */
  lemma {:induction false} RawLinesJoin(lines: seq<string>, sep: string)
    requires |lines| >= 1
    requires IsLineSeparator(sep)
    requires forall i :: 0 <= i < |lines| ==> NoLineBreak(lines[i])
    ensures RawLines(Join(lines, sep)) == lines
  {
    if |lines| == 1 {
      RawLinesSingle(lines[0]);
    } else {
      RawLinesJoin(lines[1..], sep);
      RawLinesJoinCons(lines, sep);
    }
  }

  /** The step of the round trip, on the lines as given. */
  lemma RawLinesJoinCons(lines: seq<string>, sep: string)
    requires |lines| >= 2
    requires IsLineSeparator(sep)
    requires forall i :: 0 <= i < |lines| ==> NoLineBreak(lines[i])
    requires RawLines(Join(lines[1..], sep)) == lines[1..]
    ensures RawLines(Join(lines, sep)) == lines
  {
    var others := lines[1..];
    assert lines == [lines[0]] + others;
    RawLinesJoinStep(lines[0], others, sep);
  }

  /** Java form of the round trip: it holds whenever the last line is not empty. */
  lemma SplitLinesJoin(lines: seq<string>, sep: string)
    requires |lines| >= 1 && lines[|lines| - 1] != ""
    requires IsLineSeparator(sep)
    requires forall i :: 0 <= i < |lines| ==> NoLineBreak(lines[i])
    ensures SplitLines(Join(lines, sep)) == lines
  {
    RawLinesJoin(lines, sep);
  }

  /** A character put in front of the first piece is put in front of the joined text. */
  lemma JoinExtendFirst(c: char, pieces: seq<string>, sep: string)
    requires |pieces| >= 1
    ensures Join([[c] + pieces[0]] + pieces[1..], sep) == [c] + Join(pieces, sep)
  {
    if |pieces| > 1 {
      JoinCons([c] + pieces[0], pieces[1..], sep);
      assert pieces == [pieces[0]] + pieces[1..];
      JoinCons(pieces[0], pieces[1..], sep);
    }
  }

  /**
   * The other direction: rejoining the raw lines with `\n` loses nothing but
   * the kind of separator each break used.
   */
  lemma {:induction false} JoinRawLines(s: string)
    ensures Join(RawLines(s), "\n") == NormalizeBreaks(s)
    decreases |s|
  {
    if |s| == 0 {
    } else if s[0] == '\r' && |s| >= 2 && s[1] == '\n' {
      JoinRawLines(s[2..]);
      JoinCons("", RawLines(s[2..]), "\n");
    } else if IsLineBreak(s[0]) {
      JoinRawLines(s[1..]);
      JoinCons("", RawLines(s[1..]), "\n");
    } else {
      JoinRawLines(s[1..]);
      JoinExtendFirst(s[0], RawLines(s[1..]), "\n");
    }
  }

  // ---------------------------------------------------------------------------
  // Splitting on a set of single-character separators
  // ---------------------------------------------------------------------------

  predicate Avoids(s: string, seps: set<char>)
  {
    forall i :: 0 <= i < |s| ==> s[i] !in seps
  }

  /** The raw pieces of `s` between occurrences of characters in `seps`. */
  function SplitOn(s: string, seps: set<char>): (pieces: seq<string>)
    ensures |pieces| >= 1
    ensures forall i :: 0 <= i < |pieces| ==> Avoids(pieces[i], seps)
    ensures |pieces| == 1 <==> Avoids(s, seps)
    ensures Avoids(s, seps) ==> pieces == [s]
    decreases |s|
  {
    if |s| == 0 then [""]
    else if s[0] in seps then [""] + SplitOn(s[1..], seps)
    else
      var rest := SplitOn(s[1..], seps);
      assert [s[0]] + s[1..] == s;
      [[s[0]] + rest[0]] + rest[1..]
  }

  /** `s.split(regex)` for a regex matching exactly one character of `seps`. */
  function JavaSplit(s: string, seps: set<char>): (tokens: seq<string>)
    ensures forall i :: 0 <= i < |tokens| ==> Avoids(tokens[i], seps)
    ensures tokens <= SplitOn(s, seps)
    ensures forall i :: |tokens| <= i < |SplitOn(s, seps)| ==> SplitOn(s, seps)[i] == ""
    ensures |SplitOn(s, seps)| == 1 ==> tokens == SplitOn(s, seps)
    ensures |SplitOn(s, seps)| > 1 && |tokens| > 0 ==> tokens[|tokens| - 1] != ""
  {
    JavaPieces(SplitOn(s, seps))
  }

  /** A text starting with a separator-free piece and a separator splits there. */
  lemma {:induction false} SplitOnPrefix(piece: string, c: char, rest: string, seps: set<char>)
    requires Avoids(piece, seps) && c in seps
    ensures SplitOn(piece + [c] + rest, seps) == [piece] + SplitOn(rest, seps)
    decreases |piece|
  {
    var s := piece + [c] + rest;
    if |piece| == 0 {
      assert s[0] == c && s[1..] == rest;
    } else {
      assert s[0] == piece[0];
      assert s[1..] == piece[1..] + [c] + rest;
      SplitOnPrefix(piece[1..], c, rest, seps);
      assert [piece[0]] + piece[1..] == piece;
    }
  }

  /** Splitting then joining with the single separator gives the text back. */
  lemma {:induction false} JoinSplitOn(s: string, c: char)
    ensures Join(SplitOn(s, {c}), [c]) == s
    decreases |s|
  {
    if |s| == 0 {
    } else if s[0] == c {
      JoinSplitOn(s[1..], c);
      assert SplitOn(s, {c})[1..] == SplitOn(s[1..], {c});
    } else {
      JoinSplitOn(s[1..], c);
      var rest := SplitOn(s[1..], {c});
      var pieces := SplitOn(s, {c});
      if |rest| > 1 {
        assert pieces[1..] == rest[1..];
        assert Join(pieces, [c]) == pieces[0] + [c] + Join(rest[1..], [c]);
      }
    }
  }

  /** Joining separator-free pieces with a separator and splitting gives the pieces back. */
  lemma {:induction false} SplitOnJoin(pieces: seq<string>, c: char, seps: set<char>)
    requires |pieces| >= 1 && c in seps
    requires forall i :: 0 <= i < |pieces| ==> Avoids(pieces[i], seps)
    ensures SplitOn(Join(pieces, [c]), seps) == pieces
  {
    if |pieces| > 1 {
      SplitOnJoin(pieces[1..], c, seps);
      assert Join(pieces, [c]) == pieces[0] + [c] + Join(pieces[1..], [c]);
      SplitOnPrefix(pieces[0], c, Join(pieces[1..], [c]), seps);
    }
  }
}
