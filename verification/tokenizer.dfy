/** The line tokenizer: cutting the loaded text into physical lines, and the
    word-level scanning every record handler uses (`skipWord`, `skipSpaces`,
    `getWord`, `getTwoWords`) together with the C library's `atoi` that reads a
    line's level number. Positions are indices into the line; the end of the
    string plays the role of the terminating NUL. */
module Tokenizer {
  import opened Common

  /** `isspace` in the C locale. */
  predicate IsSpace(c: char)
  {
    c == ' ' || c == '\t' || c == '\n' || c == '\r' || c as int == 11 || c as int == 12
  }

  predicate IsNewline(c: char)
  {
    c == '\n' || c == '\r'
  }

  predicate IsDigit(c: char)
  {
    '0' <= c <= '9'
  }

  predicate NoSpace(w: string)
  {
    forall i :: 0 <= i < |w| ==> !IsSpace(w[i])
  }

  predicate NoNewline(w: string)
  {
    forall i :: 0 <= i < |w| ==> !IsNewline(w[i])
  }

  // ---------------------------------------------------------------------
  // Lines

  /** The loaded buffer as the C code sees it: everything before the first NUL. */
  function CString(text: string): (s: string)
    ensures |s| <= |text| && s == text[..|s|]
    ensures forall i :: 0 <= i < |s| ==> s[i] != '\0'
    ensures |s| < |text| ==> text[|s|] == '\0'
  {
    if |text| == 0 || text[0] == '\0' then "" else [text[0]] + CString(text[1..])
  }

  /** The end of the line starting at `pos`: the first CR or LF, or the end of the text. */
  function LineEnd(s: string, pos: nat): (n: nat)
    requires pos <= |s|
    ensures pos <= n <= |s|
    ensures forall i :: pos <= i < n ==> !IsNewline(s[i])
    ensures n < |s| ==> IsNewline(s[n])
    decreases |s| - pos
  {
    if pos == |s| || IsNewline(s[pos]) then pos else LineEnd(s, pos + 1)
  }

  /** The end of the run of CR/LF characters starting at `pos`. */
  function NewlineEnd(s: string, pos: nat): (n: nat)
    requires pos <= |s|
    ensures pos <= n <= |s|
    ensures forall i :: pos <= i < n ==> IsNewline(s[i])
    ensures n < |s| ==> !IsNewline(s[n])
    decreases |s| - pos
  {
    if pos < |s| && IsNewline(s[pos]) then NewlineEnd(s, pos + 1) else pos
  }

  /** readLine: the line at the start of `content` without its terminator, and the
      text after the whole run of CR/LF characters that ends it. */
  function ReadLine(content: string): (r: (string, string))
    ensures |r.0| + |r.1| <= |content|
    ensures r.0 == content[..|r.0|] && r.1 == content[|content| - |r.1|..]
    ensures NoNewline(r.0)
    ensures |r.0| < |content| ==> IsNewline(content[|r.0|])
    ensures forall i :: |r.0| <= i < |content| - |r.1| ==> IsNewline(content[i])
    ensures |r.1| > 0 ==> !IsNewline(r.1[0])
    ensures |r.0| == 0 && |r.1| == |content| ==> |content| == 0
  {
    var len := LineEnd(content, 0);
    var next := NewlineEnd(content, len);
    (content[..len], content[next..])
  }

  /** The driver's `while (*position) position = readLine(position, &line);`. */
  function SplitLines(content: string): seq<string>
    decreases |content|
  {
    if |content| == 0 then []
    else
      var r := ReadLine(content);
      [r.0] + SplitLines(r.1)
  }

  /** The text with every CR and LF removed. */
  function DropNewlines(s: string): string
  {
    if |s| == 0 then "" else (if IsNewline(s[0]) then "" else [s[0]]) + DropNewlines(s[1..])
  }

  function ConcatLines(lines: seq<string>): string
  {
    if |lines| == 0 then "" else lines[0] + ConcatLines(lines[1..])
  }

  lemma {:induction false} DropNewlinesAppend(a: string, b: string)
    ensures DropNewlines(a + b) == DropNewlines(a) + DropNewlines(b)
  {
    if |a| > 0 {
      assert (a + b)[1..] == a[1..] + b;
      DropNewlinesAppend(a[1..], b);
    } else {
      assert a + b == b;
    }
  }

  lemma {:induction false} DropNewlinesOfLine(s: string)
    requires NoNewline(s)
    ensures DropNewlines(s) == s
  {
    if |s| > 0 {
      DropNewlinesOfLine(s[1..]);
      assert s == [s[0]] + s[1..];
    }
  }

  lemma {:induction false} DropNewlinesOfRun(s: string)
    requires forall i :: 0 <= i < |s| ==> IsNewline(s[i])
    ensures DropNewlines(s) == ""
  {
    if |s| > 0 {
      DropNewlinesOfRun(s[1..]);
    }
  }

  /** One line of text: terminators removed from it add nothing. */
  lemma {:induction false} DropNewlinesOfReadLine(content: string)
    ensures DropNewlines(content) == ReadLine(content).0 + DropNewlines(ReadLine(content).1)
  {
    var r := ReadLine(content);
    var sep := content[|r.0|..|content| - |r.1|];
    assert forall i :: 0 <= i < |sep| ==> sep[i] == content[|r.0| + i];
    assert content == r.0 + sep + r.1;
    var head := r.0 + sep;
    DropNewlinesAppend(head, r.1);
    DropNewlinesAppend(r.0, sep);
    DropNewlinesOfLine(r.0);
    DropNewlinesOfRun(sep);
    calc {
      DropNewlines(content);
      DropNewlines(head + r.1);
      DropNewlines(head) + DropNewlines(r.1);
      DropNewlines(r.0) + DropNewlines(sep) + DropNewlines(r.1);
      r.0 + "" + DropNewlines(r.1);
    }
    assert r.0 + "" == r.0;
  }

  /** Splitting into lines strips every CR/LF and nothing else: the lines carry no
      line terminators, and their concatenation is the text with CR and LF removed. */
  lemma {:induction false} SplitLinesStripsTerminators(content: string)
    ensures forall k :: 0 <= k < |SplitLines(content)| ==> NoNewline(SplitLines(content)[k])
    ensures ConcatLines(SplitLines(content)) == DropNewlines(content)
    decreases |content|
  {
    if |content| > 0 {
      var r := ReadLine(content);
      var tail := SplitLines(r.1);
      SplitLinesStripsTerminators(r.1);
      DropNewlinesOfReadLine(content);
      assert SplitLines(content) == [r.0] + tail;
      assert ([r.0] + tail)[1..] == tail;
    }
  }

  /** Only the first line can be empty: later lines start right after a run of
      terminators, at a character that is not one. */
  lemma {:induction false} SplitLinesLaterLinesNonEmpty(content: string)
    ensures forall k :: 1 <= k < |SplitLines(content)| ==> |SplitLines(content)[k]| > 0
    decreases |content|
  {
    if |content| > 0 {
      var r := ReadLine(content);
      var tail := SplitLines(r.1);
      SplitLinesLaterLinesNonEmpty(r.1);
      assert SplitLines(content) == [r.0] + tail;
      if |r.1| > 0 {
        var r2 := ReadLine(r.1);
        assert tail == [r2.0] + SplitLines(r2.1);
        assert !IsNewline(r.1[0]);
        assert |r2.0| > 0;
      }
    }
  }

  /** The text of a file holding `lines`, each line followed by a line feed. */
  function JoinLines(lines: seq<string>): string
  {
    if |lines| == 0 then "" else lines[0] + "\n" + JoinLines(lines[1..])
  }

  /** Reading one line off a line, a line feed and the rest of a file whose next line
      does not start with a terminator gives back the line and that rest. */
  lemma ReadLineOfLine(line: string, rest: string)
    requires NoNewline(line)
    requires |rest| > 0 ==> !IsNewline(rest[0])
    ensures ReadLine(line + "\n" + rest) == (line, rest)
  {
    var content := line + "\n" + rest;
    assert content[|line|] == '\n';
    forall i | 0 <= i < |line| ensures content[i] == line[i] && !IsNewline(content[i]) { }
    if |rest| > 0 {
      assert content[|line| + 1] == rest[0];
    }
    var len := LineEnd(content, 0);
    assert len == |line|;
    assert NewlineEnd(content, len) == |line| + 1;
    assert content[..|line|] == line;
    assert content[|line| + 1..] == rest;
  }

  /** A line, a line feed and the rest of a file split as that line, then the rest. */
  lemma SplitLinesOfLine(line: string, rest: string)
    requires NoNewline(line)
    requires |rest| > 0 ==> !IsNewline(rest[0])
    ensures SplitLines(line + "\n" + rest) == [line] + SplitLines(rest)
  {
    ReadLineOfLine(line, rest);
  }

  /** A file whose first line is non-empty and terminator-free starts with no terminator. */
  lemma JoinLinesStart(lines: seq<string>)
    requires |lines| > 0 ==> |lines[0]| > 0 && NoNewline(lines[0])
    ensures |JoinLines(lines)| > 0 ==> !IsNewline(JoinLines(lines)[0])
  {
    if |lines| > 0 {
      assert JoinLines(lines)[0] == lines[0][0];
    }
  }

  /** Splitting the text of a file written from non-empty, terminator-free lines gives
      those lines back. */
  lemma {:induction false} SplitLinesOfJoinLines(lines: seq<string>)
    requires forall k :: 0 <= k < |lines| ==> |lines[k]| > 0 && NoNewline(lines[k])
    ensures SplitLines(JoinLines(lines)) == lines
    decreases |lines|
  {
    if |lines| > 0 {
      var tail := lines[1..];
      var rest := JoinLines(tail);
      JoinLinesStart(tail);
      SplitLinesOfLine(lines[0], rest);
      SplitLinesOfJoinLines(tail);
      assert lines == [lines[0]] + tail;
    }
  }

  // ---------------------------------------------------------------------
  // Words

  /** skipWord: the first position at or after `pos` holding whitespace, or the end. */
  function SkipWord(line: string, pos: nat): (r: nat)
    requires pos <= |line|
    ensures pos <= r <= |line|
    ensures forall i :: pos <= i < r ==> !IsSpace(line[i])
    ensures r < |line| ==> IsSpace(line[r])
    decreases |line| - pos
  {
    if pos == |line| || IsSpace(line[pos]) then pos else SkipWord(line, pos + 1)
  }

  /** skipSpaces: the first position at or after `pos` not holding whitespace, or the end. */
  function SkipSpaces(line: string, pos: nat): (r: nat)
    requires pos <= |line|
    ensures pos <= r <= |line|
    ensures forall i :: pos <= i < r ==> IsSpace(line[i])
    ensures r < |line| ==> !IsSpace(line[r])
    decreases |line| - pos
  {
    if pos == |line| || !IsSpace(line[pos]) then pos else SkipSpaces(line, pos + 1)
  }

  /** The position `getWord` reaches after `n` rounds of skipping a word and the spaces after it. */
  function SkipWords(line: string, pos: nat, n: nat): (r: nat)
    requires pos <= |line|
    ensures pos <= r <= |line|
    decreases n
  {
    if n == 0 || pos == |line| then pos
    else SkipWords(line, SkipSpaces(line, SkipWord(line, pos)), n - 1)
  }

  /** getWord: the word number `index` (word 0 is the level) and the position just after it;
      NULL, with the end of the line as position, when the line runs out first. */
  function GetWord(line: string, index: nat): (r: (Option<string>, nat))
    ensures r.1 <= |line|
    ensures r.0.None? ==> r.1 == |line|
    ensures r.0.Some? ==> NoSpace(r.0.value) && r.1 >= |r.0.value|
                          && line[r.1 - |r.0.value|..r.1] == r.0.value
  {
    var pos := SkipWords(line, 0, index);
    if pos == |line| then (None, pos)
    else
      var end := SkipWord(line, pos);
      (Some(line[pos..end]), end)
  }

  /** The text after word number `index` (what `getWord` leaves for free-text values). */
  function Remainder(line: string, index: nat): string
  {
    line[GetWord(line, index).1..]
  }

  /** getTwoWords: word 1 and word 2 of the line, or a failure when either is missing. */
  function GetTwoWords(line: string): (r: Option<(string, string)>)
    ensures r.Some? <==> GetWord(line, 1).0.Some? && GetWord(line, 2).0.Some?
    ensures r.Some? ==> Some(r.value.0) == GetWord(line, 1).0 && Some(r.value.1) == GetWord(line, 2).0
  {
    match GetWord(line, 1).0
    case None => None
    case Some(w1) =>
      match GetWord(line, 2).0
      case None => None
      case Some(w2) => Some((w1, w2))
  }

  /** Reference definition of the words of a line: its maximal runs of
      non-whitespace characters, from `pos` on. */
  function WordsFrom(line: string, pos: nat): seq<string>
    requires pos <= |line|
    decreases |line| - pos
  {
    var start := SkipSpaces(line, pos);
    if start == |line| then []
    else
      var end := SkipWord(line, start);
      [line[start..end]] + WordsFrom(line, end)
  }

  function Words(line: string): seq<string>
  {
    WordsFrom(line, 0)
  }

  function Nth(ws: seq<string>, i: nat): Option<string>
  {
    if i < |ws| then Some(ws[i]) else None
  }

  /** Every word of the reference splitting is a non-empty run without whitespace. */
  lemma {:induction false} WordsFromProper(line: string, pos: nat)
    requires pos <= |line|
    ensures ProperWords(WordsFrom(line, pos))
    decreases |line| - pos
  {
    var start := SkipSpaces(line, pos);
    if start < |line| {
      var end := SkipWord(line, start);
      WordsFromProper(line, end);
      var w := line[start..end];
      assert |w| > 0 && NoSpace(w) by {
        assert w[0] == line[start];
        forall i | 0 <= i < |w| ensures !IsSpace(w[i]) { assert w[i] == line[start + i]; }
      }
      var ws := WordsFrom(line, pos);
      assert ws == [w] + WordsFrom(line, end);
      forall i | 0 <= i < |ws| ensures |ws[i]| > 0 && NoSpace(ws[i]) {
        if i > 0 { assert ws[i] == WordsFrom(line, end)[i - 1]; }
      }
    }
  }

  lemma {:induction false} SkipWordsFromWordStart(line: string, pos: nat, n: nat)
    requires pos <= |line|
    requires pos == |line| || !IsSpace(line[pos])
    ensures var p := SkipWords(line, pos, n);
            (p == |line| <==> Nth(WordsFrom(line, pos), n).None?) &&
            (p < |line| ==> Some(line[p..SkipWord(line, p)]) == Nth(WordsFrom(line, pos), n))
    decreases n
  {
    if pos < |line| {
      var next := SkipSpaces(line, SkipWord(line, pos));
      WordsFromAtWord(line, pos);
      if n > 0 {
        SkipWordsFromWordStart(line, next, n - 1);
        assert SkipWords(line, pos, n) == SkipWords(line, next, n - 1);
      }
    }
  }

  /** Leading spaces do not change the word list. */
  lemma WordsFromSkipsSpaces(line: string, pos: nat)
    requires pos <= |line|
    ensures WordsFrom(line, pos) == WordsFrom(line, SkipSpaces(line, pos))
  {
    var s := SkipSpaces(line, pos);
    assert SkipSpaces(line, s) == s;
  }

  /** From the start of a word, the word list is that word followed by the words after it. */
  lemma WordsFromAtWord(line: string, pos: nat)
    requires pos < |line| && !IsSpace(line[pos])
    ensures WordsFrom(line, pos)
            == [line[pos..SkipWord(line, pos)]] + WordsFrom(line, SkipSpaces(line, SkipWord(line, pos)))
  {
    assert SkipSpaces(line, pos) == pos;
    WordsFromSkipsSpaces(line, SkipWord(line, pos));
  }

  /** getWord agrees with the reference splitting of a line into words. When the line
      does not start with whitespace, word `i` is the `i`-th maximal non-space run;
      when it does, `getWord(line, 0)` is the empty word and word `i + 1` is the `i`-th run. */
  lemma GetWordMatchesWords(line: string, i: nat)
    ensures (|line| == 0 || !IsSpace(line[0])) ==> GetWord(line, i).0 == Nth(Words(line), i)
    ensures |line| > 0 && IsSpace(line[0]) ==>
              GetWord(line, 0).0 == Some("") && GetWord(line, i + 1).0 == Nth(Words(line), i)
  {
    if |line| == 0 || !IsSpace(line[0]) {
      SkipWordsFromWordStart(line, 0, i);
    } else {
      var start := SkipSpaces(line, 0);
      assert SkipWord(line, 0) == 0;
      assert SkipWords(line, 0, i + 1) == SkipWords(line, start, i);
      SkipWordsFromWordStart(line, start, i);
      assert SkipSpaces(line, start) == start;
    }
  }

  /** Words written out with single spaces between them, as a GEDCOM line is. */
  function Join(ws: seq<string>): string
  {
    if |ws| == 0 then "" else if |ws| == 1 then ws[0] else ws[0] + " " + Join(ws[1..])
  }

  predicate ProperWords(ws: seq<string>)
  {
    forall i :: 0 <= i < |ws| ==> |ws[i]| > 0 && NoSpace(ws[i])
  }

  lemma {:induction false} JoinStartsWithFirstWord(ws: seq<string>)
    requires |ws| > 0 && ProperWords(ws)
    ensures |Join(ws)| > 0 && Join(ws)[0] == ws[0][0]
  {
  }

  /** Skipping spaces depends only on the text from the starting position on. */
  lemma {:induction false} SkipSpacesSuffix(l1: string, p1: nat, l2: string, p2: nat)
    requires p1 <= |l1| && p2 <= |l2| && l1[p1..] == l2[p2..]
    ensures SkipSpaces(l1, p1) - p1 == SkipSpaces(l2, p2) - p2
    decreases |l1| - p1
  {
    if p1 < |l1| {
      assert l1[p1] == l1[p1..][0] == l2[p2..][0] == l2[p2];
      if IsSpace(l1[p1]) {
        assert l1[p1 + 1..] == l1[p1..][1..];
        assert l2[p2 + 1..] == l2[p2..][1..];
        SkipSpacesSuffix(l1, p1 + 1, l2, p2 + 1);
      }
    }
  }

  /** Skipping a word depends only on the text from the starting position on. */
  lemma {:induction false} SkipWordSuffix(l1: string, p1: nat, l2: string, p2: nat)
    requires p1 <= |l1| && p2 <= |l2| && l1[p1..] == l2[p2..]
    ensures SkipWord(l1, p1) - p1 == SkipWord(l2, p2) - p2
    decreases |l1| - p1
  {
    if p1 < |l1| {
      assert l1[p1] == l1[p1..][0] == l2[p2..][0] == l2[p2];
      if !IsSpace(l1[p1]) {
        assert l1[p1 + 1..] == l1[p1..][1..];
        assert l2[p2 + 1..] == l2[p2..][1..];
        SkipWordSuffix(l1, p1 + 1, l2, p2 + 1);
      }
    }
  }

  /** Equal suffixes agree on every later slice and suffix at matching offsets. */
  lemma SuffixSplit(l1: string, p1: nat, e1: nat, l2: string, p2: nat, e2: nat)
    requires p1 <= e1 <= |l1| && p2 <= e2 <= |l2| && e1 - p1 == e2 - p2 && l1[p1..] == l2[p2..]
    ensures l1[p1..e1] == l2[p2..e2] && l1[e1..] == l2[e2..]
  {
    var n := e1 - p1;
    assert l1[p1..e1] == l1[p1..][..n];
    assert l2[p2..e2] == l2[p2..][..n];
    assert l1[e1..] == l1[p1..][n..];
    assert l2[e2..] == l2[p2..][n..];
  }

  /** One step of the word list: the word at the next non-space, then the rest. */
  lemma WordsFromUnfold(line: string, pos: nat)
    requires pos <= |line| && SkipSpaces(line, pos) < |line|
    ensures WordsFrom(line, pos) == [line[SkipSpaces(line, pos)..SkipWord(line, SkipSpaces(line, pos))]]
                                    + WordsFrom(line, SkipWord(line, SkipSpaces(line, pos)))
  {
  }

  /** The word list from a position depends only on the text from that position on. */
  lemma {:induction false} WordsFromSuffix(l1: string, p1: nat, l2: string, p2: nat)
    requires p1 <= |l1| && p2 <= |l2| && l1[p1..] == l2[p2..]
    ensures WordsFrom(l1, p1) == WordsFrom(l2, p2)
    decreases |l1| - p1
  {
    var s1 := SkipSpaces(l1, p1);
    var s2 := SkipSpaces(l2, p2);
    SkipSpacesSuffix(l1, p1, l2, p2);
    if s1 < |l1| {
      SuffixSplit(l1, p1, s1, l2, p2, s2);
      var e1 := SkipWord(l1, s1);
      var e2 := SkipWord(l2, s2);
      SkipWordSuffix(l1, s1, l2, s2);
      SuffixSplit(l1, s1, e1, l2, s2, e2);
      WordsFromSuffix(l1, e1, l2, e2);
      WordsFromUnfold(l1, p1);
      WordsFromUnfold(l2, p2);
    } else {
      assert |l1[p1..]| == |l2[p2..]|;
      assert WordsFrom(l1, p1) == [] == WordsFrom(l2, p2);
    }
  }

  /** The first word of `w + " " + j` is `w`, and the next word starts right after the space. */
  lemma WordThenSpace(w: string, j: string)
    requires |w| > 0 && NoSpace(w) && |j| > 0 && !IsSpace(j[0])
    ensures var line := w + " " + j;
            && SkipWord(line, 0) == |w| && SkipSpaces(line, |w|) == |w| + 1
            && line[0..|w|] == w && line[|w| + 1..] == j
  {
    var line := w + " " + j;
    assert forall i :: 0 <= i < |w| ==> line[i] == w[i];
    assert line[|w|] == ' ' && line[|w| + 1] == j[0];
    assert line[0..|w|] == w;
    assert line[|w| + 1..] == j;
  }

  /** A word, a space and a joined tail split into the word followed by the tail's words. */
  lemma JoinConsWords(w: string, rest: seq<string>)
    requires |w| > 0 && NoSpace(w) && |rest| > 0 && ProperWords(rest)
    ensures Words(w + " " + Join(rest)) == [w] + Words(Join(rest))
  {
    var j := Join(rest);
    var line := w + " " + j;
    JoinStartsWithFirstWord(rest);
    WordThenSpace(w, j);
    WordsFromAtWord(line, 0);
    WordsFromSuffix(line, |w| + 1, j, 0);
  }

  /** Splitting a line written from proper words gives those words back. */
  lemma {:induction false} WordsOfJoin(ws: seq<string>)
    requires ProperWords(ws)
    ensures Words(Join(ws)) == ws
  {
    if |ws| == 1 {
      var w := ws[0];
      assert SkipSpaces(w, 0) == 0;
      assert SkipWord(w, 0) == |w|;
      assert w[0..|w|] == w;
      assert WordsFrom(w, |w|) == [];
    } else if |ws| > 1 {
      assert ProperWords(ws[1..]);
      JoinConsWords(ws[0], ws[1..]);
      WordsOfJoin(ws[1..]);
    }
  }

  /** getWord on a line written from proper words yields word `i`, or NULL past the last. */
  lemma GetWordOfJoin(ws: seq<string>, i: nat)
    requires ProperWords(ws)
    ensures GetWord(Join(ws), i).0 == Nth(ws, i)
  {
    WordsOfJoin(ws);
    if |ws| > 0 {
      JoinStartsWithFirstWord(ws);
    }
    GetWordMatchesWords(Join(ws), i);
  }

  // ---------------------------------------------------------------------
  // Numbers

  function DigitValue(c: char): nat
    requires IsDigit(c)
  {
    (c as int) - ('0' as int)
  }

  /** Value of the leading decimal digits of `s` (up to its first non-digit),
      read left to right into `acc`. */
  function ReadDigits(s: string, acc: nat): nat
  {
    if |s| > 0 && IsDigit(s[0]) then ReadDigits(s[1..], acc * 10 + DigitValue(s[0])) else acc
  }

  /** atoi: optional leading whitespace, an optional sign, then decimal digits;
      0 when no digit follows. */
  function Atoi(line: string): int
  {
    var p := SkipSpaces(line, 0);
    if p < |line| && line[p] == '-' then -(ReadDigits(line[p + 1..], 0) as int)
    else if p < |line| && line[p] == '+' then ReadDigits(line[p + 1..], 0)
    else ReadDigits(line[p..], 0)
  }

  predicate AllDigits(s: string)
  {
    forall i :: 0 <= i < |s| ==> IsDigit(s[i])
  }

  /** Decimal rendering of a natural number, as a level number is written in a file. */
  function NatToString(n: nat): (s: string)
    ensures |s| > 0 && AllDigits(s)
  {
    var d := ['0', '1', '2', '3', '4', '5', '6', '7', '8', '9'][n % 10];
    if n < 10 then [d] else NatToString(n / 10) + [d]
  }

  lemma {:induction false} ReadDigitsStops(d: string, rest: string, acc: nat)
    requires AllDigits(d)
    requires |rest| == 0 || !IsDigit(rest[0])
    ensures ReadDigits(d + rest, acc) == ReadDigits(d, acc)
  {
    if |d| > 0 {
      assert (d + rest)[1..] == d[1..] + rest;
      ReadDigitsStops(d[1..], rest, acc * 10 + DigitValue(d[0]));
    } else {
      assert d + rest == rest;
    }
  }

  lemma {:induction false} ReadDigitsSnoc(a: string, c: char, acc: nat)
    requires AllDigits(a) && IsDigit(c)
    ensures ReadDigits(a + [c], acc) == ReadDigits(a, acc) * 10 + DigitValue(c)
  {
    if |a| > 0 {
      assert (a + [c])[1..] == a[1..] + [c];
      ReadDigitsSnoc(a[1..], c, acc * 10 + DigitValue(a[0]));
    } else {
      assert a + [c] == [c];
      assert ([c])[1..] == [];
    }
  }

  lemma {:induction false} ReadDigitsOfNumeral(n: nat)
    ensures ReadDigits(NatToString(n), 0) == n
    decreases n
  {
    var d := ['0', '1', '2', '3', '4', '5', '6', '7', '8', '9'][n % 10];
    assert DigitValue(d) == n % 10;
    if n >= 10 {
      ReadDigitsOfNumeral(n / 10);
      ReadDigitsSnoc(NatToString(n / 10), d, 0);
    } else {
      assert ([d])[1..] == [];
    }
  }

  /** atoi reads back the level number a line starts with: a line that begins with
      the decimal rendering of `n`, followed by a non-digit or nothing, has level `n`. */
  lemma AtoiReadsLevel(n: nat, rest: string)
    requires |rest| == 0 || !IsDigit(rest[0])
    ensures Atoi(NatToString(n) + rest) == n
  {
    var line := NatToString(n) + rest;
    assert line[0] == NatToString(n)[0];
    assert SkipSpaces(line, 0) == 0;
    assert line[0..] == line;
    ReadDigitsStops(NatToString(n), rest, 0);
    ReadDigitsOfNumeral(n);
  }
}
