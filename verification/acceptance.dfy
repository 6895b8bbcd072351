/** The parser accepts a well-formed file: the smallest complete GEDCOM text (a header
    with source, version, character set and submitter link, one submitter record, the
    trailer) is parsed line by line into a document with that header, one submitter,
    and no individuals or families. */
module Acceptance {
  import opened Common
  import opened Tokenizer
  import opened GedcomModel
  import opened Classifiers
  import opened Handlers
  import opened Resolver
  import opened Parser

  // ---------------------------------------------------------------------
  // Writing lines

  /** A GEDCOM line: the level number, then the words, with single spaces between them. */
  function Line(level: nat, words: seq<string>): string
  {
    Join([NatToString(level)] + words)
  }

  /** Text the C string functions read through: no NUL and no line terminator. */
  predicate Plain(s: string)
  {
    forall i :: 0 <= i < |s| ==> s[i] != '\0' && !IsNewline(s[i])
  }

  lemma {:induction false} JoinPlain(ws: seq<string>)
    requires forall k :: 0 <= k < |ws| ==> Plain(ws[k])
    ensures Plain(Join(ws))
    decreases |ws|
  {
    if |ws| > 1 {
      JoinPlain(ws[1..]);
      var tail := Join(ws[1..]);
      var all := ws[0] + " " + tail;
      forall i | 0 <= i < |all| ensures all[i] != '\0' && !IsNewline(all[i]) {
        if i < |ws[0]| {
          assert all[i] == ws[0][i];
        } else if i > |ws[0]| {
          assert all[i] == tail[i - |ws[0]| - 1];
        }
      }
    }
  }

  lemma {:induction false} JoinLength(ws: seq<string>, m: nat)
    requires forall k :: 0 <= k < |ws| ==> |ws[k]| <= m
    ensures |Join(ws)| <= |ws| * (m + 1)
    decreases |ws|
  {
    if |ws| > 1 {
      JoinLength(ws[1..], m);
      assert |Join(ws)| == |ws[0]| + 1 + |Join(ws[1..])|;
      assert (|ws| - 1) * (m + 1) + (m + 1) == |ws| * (m + 1);
    }
  }

  /** The words a line is written from: one to three short words without whitespace,
      NUL or line terminator. */
  predicate Writable(level: nat, words: seq<string>)
  {
    && 0 < |words| <= 3 && level < 10
    && forall k :: 0 <= k < |words| ==> 0 < |words[k]| <= 10 && NoSpace(words[k]) && Plain(words[k])
  }

  lemma LineSplits(level: nat, words: seq<string>)
    requires Writable(level, words)
    ensures Line(level, words) == NatToString(level) + (" " + Join(words))
    ensures NatToString(level) == [['0', '1', '2', '3', '4', '5', '6', '7', '8', '9'][level]]
  {
    var all := [NatToString(level)] + words;
    assert all[1..] == words;
  }

  /** What the parser reads from a written line: its level, its words after the level,
      its first characters, and that it fits the line buffer and holds no terminator. */
  lemma LineReads(level: nat, words: seq<string>)
    requires Writable(level, words)
    ensures var line := Line(level, words);
            && Atoi(line) == level
            && (forall i :: 1 <= i ==> GetWord(line, i).0 == Nth(words, i - 1))
            && |line| > 2 && line[0] == NatToString(level)[0] && line[2] == words[0][0]
            && |line| <= MaxLineLength && Plain(line)
  {
    LineSplits(level, words);
    LineLevel(level, words);
    LineWords(level, words);
    LineShape(level, words);
  }

  lemma LineLevel(level: nat, words: seq<string>)
    requires Writable(level, words)
    ensures Atoi(Line(level, words)) == level
    ensures |Line(level, words)| > 2 && Line(level, words)[0] == NatToString(level)[0]
            && Line(level, words)[2] == words[0][0]
  {
    LineSplits(level, words);
    JoinStartsWithFirstWord(words);
    AtoiReadsLevel(level, " " + Join(words));
  }

  lemma LineWords(level: nat, words: seq<string>)
    requires Writable(level, words)
    ensures forall i :: 1 <= i ==> GetWord(Line(level, words), i).0 == Nth(words, i - 1)
  {
    var all := [NatToString(level)] + words;
    LineSplits(level, words);
    assert ProperWords(all) by {
      forall k | 0 <= k < |all| ensures |all[k]| > 0 && NoSpace(all[k]) {
        if k > 0 { assert all[k] == words[k - 1]; }
      }
    }
    forall i | 1 <= i ensures GetWord(Line(level, words), i).0 == Nth(words, i - 1) {
      GetWordOfJoin(all, i);
    }
  }

  lemma LineShape(level: nat, words: seq<string>)
    requires Writable(level, words)
    ensures |Line(level, words)| <= MaxLineLength && Plain(Line(level, words))
  {
    var all := [NatToString(level)] + words;
    LineSplits(level, words);
    JoinLength(all, 10);
    assert forall k :: 0 <= k < |all| ==> Plain(all[k]);
    JoinPlain(all);
  }

  /** A text written as terminated lines without NUL is read whole and split back into
      those lines. */
  lemma {:induction false} JoinLinesPlain(lines: seq<string>)
    requires forall k :: 0 <= k < |lines| ==> Plain(lines[k])
    ensures forall i :: 0 <= i < |JoinLines(lines)| ==> JoinLines(lines)[i] != '\0'
    decreases |lines|
  {
    if |lines| > 0 {
      JoinLinesPlain(lines[1..]);
      var tail := JoinLines(lines[1..]);
      var all := lines[0] + "\n" + tail;
      assert JoinLines(lines) == all;
      forall i | 0 <= i < |all| ensures all[i] != '\0' {
        if i < |lines[0]| {
          assert all[i] == lines[0][i];
        } else if i > |lines[0]| {
          assert all[i] == tail[i - |lines[0]| - 1];
        }
      }
    }
  }

  lemma CStringWhole(text: string)
    requires forall i :: 0 <= i < |text| ==> text[i] != '\0'
    ensures CString(text) == text
  {
  }

  lemma ReadsBack(lines: seq<string>)
    requires forall k :: 0 <= k < |lines| ==> |lines[k]| > 0 && Plain(lines[k])
    ensures SplitLines(CString(JoinLines(lines))) == lines
  {
    JoinLinesPlain(lines);
    CStringWhole(JoinLines(lines));
    SplitLinesOfJoinLines(lines);
  }

  // ---------------------------------------------------------------------
  // The file

  /** The smallest file the parser accepts: a header with source, version, character set
      and submitter id, one named submitter record, and the trailer. */
  function MinimalLines(): seq<string>
  {
    [ Line(0, ["HEAD"]),
      Line(1, ["SOUR", "X"]),
      Line(1, ["GEDC"]),
      Line(2, ["VERS", "1"]),
      Line(1, ["CHAR", "ASCII"]),
      Line(1, ["SUBM", "@U@"]),
      Line(0, ["@U@", "SUBM"]),
      Line(1, ["NAME", "N"]),
      TrailerLine ]
  }

  /** The file text: every line ends with a line feed. */
  function MinimalText(): string
  {
    JoinLines(MinimalLines())
  }

  // ---------------------------------------------------------------------
  // The states between the lines

  const Unused := Scope(None, None)
  const SkipSlot := Scope(None, Some(SkipAll))
  const HeaderSlot := Scope(Some(HeaderRx), Some(HeaderEnter))
  const VersionSlot := Scope(Some(HeaderRx), Some(HeaderGedcEnter))
  const HeaderSkipSlot := Scope(Some(HeaderRx), Some(SkipAll))
  const SubmitterSlot := Scope(Some(DocumentRx), Some(SubmitterEnter))

  function Slots(s1: Scope, s2: Scope, s3: Scope): seq<Scope>
  {
    [DocumentScope, s1, s2, s3, Unused, Unused, Unused, Unused]
  }

  function HeaderOnly(h: Header): Document
  {
    Document(Some(h), [], [], [])
  }

  const Sourced := NewHeader().(source := "X")
  const Versioned := Sourced.(versionNonzero := true)
  const Encoded := Versioned.(encoding := Some(Ascii))
  const Identified := Encoded.(submitterId := "@U@")
  const Linked := Identified.(submitter := Some(0))

  /** The document once the submitter record is open, before its name. */
  const Opened := Document(Some(Linked), [NewSubmitter()], [], [])

  /** The document the file describes. */
  function MinimalDocument(): Document
  {
    Document(Some(Linked), [NewSubmitter().(name := "N")], [], [])
  }

  /** The states between the lines: the state before line `k` of the file is `State<k>`. */
  function State0(): ParserState { InitialState() }
  function State1(): ParserState { ParserState(HeaderOnly(NewHeader()), Slots(HeaderSlot, Unused, Unused), 0, true, 2) }
  function State2(): ParserState { ParserState(HeaderOnly(Sourced), Slots(HeaderSlot, SkipSlot, Unused), 1, true, 3) }
  function State3(): ParserState { ParserState(HeaderOnly(Sourced), Slots(HeaderSlot, VersionSlot, Unused), 1, true, 4) }
  function State4(): ParserState { ParserState(HeaderOnly(Versioned), Slots(HeaderSlot, VersionSlot, SkipSlot), 2, true, 5) }
  function State5(): ParserState { ParserState(HeaderOnly(Encoded), Slots(HeaderSlot, HeaderSkipSlot, SkipSlot), 1, true, 6) }
  function State6(): ParserState { ParserState(HeaderOnly(Identified), Slots(HeaderSlot, HeaderSkipSlot, SkipSlot), 1, true, 7) }
  function State7(): ParserState { ParserState(Opened, Slots(SubmitterSlot, HeaderSkipSlot, SkipSlot), 0, true, 8) }
  function State8(): ParserState { ParserState(MinimalDocument(), Slots(SubmitterSlot, HeaderSkipSlot, SkipSlot), 1, true, 9) }

  function MinimalStates(): seq<ParserState>
  {
    [State0(), State1(), State2(), State3(), State4(), State5(), State6(), State7(), State8()]
  }

  lemma InitialSlots()
    ensures InitialState().slots == Slots(Unused, Unused, Unused)
  {
  }

  lemma SetSlot(a: Scope, b: Scope, c: Scope, x: Scope)
    ensures Slots(a, b, c)[1 := x] == Slots(x, b, c)
    ensures Slots(a, b, c)[2 := x] == Slots(a, x, c)
    ensures Slots(a, b, c)[3 := x] == Slots(a, b, x)
  {
  }

  // ---------------------------------------------------------------------
  // One lemma per line: what the loop does with it, from the state before it

  /** The loop's guards admit a line: not the trailer, short enough, at this level. */
  predicate Admitted(line: string, level: int)
  {
    !StartsWith(line, TrailerLine) && |line| <= MaxLineLength && Atoi(line) == level
  }

  /** Which handler each slot of the file's states calls. */
  lemma DispatchDocument(doc: Document, line: string, next: Scope)
    requires doc.header.Some? ==> Installable(next, doc)
    ensures Dispatch(DocumentScope, doc, line, next) == ObjectEnterH(doc, line, next)
  {
  }

  lemma DispatchHeader(doc: Document, line: string, next: Scope)
    requires doc.header.Some?
    ensures Dispatch(HeaderSlot, doc, line, next) == HeaderEnterH(doc, line, next)
  {
  }

  lemma DispatchVersion(doc: Document, line: string, next: Scope)
    requires doc.header.Some?
    ensures Dispatch(VersionSlot, doc, line, next) == HeaderGedcEnterH(doc, line, next)
  {
  }

  lemma DispatchSubmitter(doc: Document, line: string, next: Scope)
    requires |doc.submitters| > 0
    ensures Dispatch(SubmitterSlot, doc, line, next) == SubmitterEnterH(doc, line, next)
  {
    assert Dispatch(SubmitterSlot, doc, line, next) == RecordDispatch(SubmitterSlot, doc, line, next);
  }

  /** A line the guards admit continues the loop with the handler's outcome: the
      document it returns and the slot it installs below the line's level. */
  lemma StepTo(st: ParserState, line: string, level: nat, scope: Scope, below: Scope, o: Outcome, st': ParserState)
    requires Inv(st) && Admitted(line, level) && (level == 0 || st.init) && LevelAllowed(level, st.prevLevel)
    requires level + 1 < |st.slots| && st.slots[level] == scope && st.slots[level + 1] == below
    requires Dispatch(scope, st.doc, line, below) == Success(o)
    requires st' == ParserState(o.doc, st.slots[level + 1 := o.next], level, true, st.lineNum + 1)
    ensures StepLine(st, line) == Continue(st')
  {
    StepLineDispatches(st, line);
  }

  /** `0 HEAD` starts the header and opens slot 1 for its fields. */
  lemma Step0(line: string)
    requires Admitted(line, 0) && GetWord(line, 1).0 == Some("HEAD")
    ensures StepLine(State0(), line) == Continue(State1())
  {
    InitialStateInv();
    InitialSlots();
    StepLineDispatches(State0(), line);
    SetSlot(Unused, Unused, Unused, HeaderSlot);
  }

  /** `1 SOUR X` sets the source; its sub-lines would be skipped. */
  lemma Source(line: string)
    requires GetWord(line, 1).0 == Some("SOUR") && GetWord(line, 2).0 == Some("X")
    ensures HeaderEnterH(HeaderOnly(NewHeader()), line, Unused) == Success(Outcome(HeaderOnly(Sourced), SkipSlot))
  {
    HeaderEnterEffects(HeaderOnly(NewHeader()), line, Unused);
  }

  lemma Moves1(line: string)
    requires GetWord(line, 1).0 == Some("SOUR") && GetWord(line, 2).0 == Some("X")
    ensures Dispatch(HeaderSlot, State1().doc, line, Unused) == Success(Outcome(HeaderOnly(Sourced), SkipSlot))
  {
    DispatchHeader(State1().doc, line, Unused);
    Source(line);
  }

  lemma Next1()
    ensures State1().slots[1] == HeaderSlot && State1().slots[2] == Unused
    ensures State2() == ParserState(HeaderOnly(Sourced), State1().slots[2 := SkipSlot], 1, true, State1().lineNum + 1)
  {
    SetSlot(HeaderSlot, Unused, Unused, SkipSlot);
  }

  lemma Step1(line: string)
    requires Inv(State1()) && Admitted(line, 1)
    requires GetWord(line, 1).0 == Some("SOUR") && GetWord(line, 2).0 == Some("X")
    ensures StepLine(State1(), line) == Continue(State2())
  {
    Moves1(line);
    Next1();
    StepTo(State1(), line, 1, HeaderSlot, Unused, Outcome(HeaderOnly(Sourced), SkipSlot), State2());
  }

  /** `1 GEDC` changes nothing and opens slot 2 for the version. */
  lemma Gedc(line: string)
    requires GetWord(line, 1).0 == Some("GEDC")
    ensures HeaderEnterH(HeaderOnly(Sourced), line, SkipSlot) == Success(Outcome(HeaderOnly(Sourced), VersionSlot))
  {
    HeaderEnterEffects(HeaderOnly(Sourced), line, SkipSlot);
  }

  lemma Moves2(line: string)
    requires GetWord(line, 1).0 == Some("GEDC")
    ensures Dispatch(HeaderSlot, State2().doc, line, SkipSlot) == Success(Outcome(HeaderOnly(Sourced), VersionSlot))
  {
    DispatchHeader(State2().doc, line, SkipSlot);
    Gedc(line);
  }

  lemma Next2()
    ensures State2().slots[1] == HeaderSlot && State2().slots[2] == SkipSlot
    ensures State3() == ParserState(HeaderOnly(Sourced), State2().slots[2 := VersionSlot], 1, true, State2().lineNum + 1)
  {
    SetSlot(HeaderSlot, SkipSlot, Unused, VersionSlot);
  }

  lemma Step2(line: string)
    requires Inv(State2()) && Admitted(line, 1)
    requires GetWord(line, 1).0 == Some("GEDC")
    ensures StepLine(State2(), line) == Continue(State3())
  {
    Moves2(line);
    Next2();
    StepTo(State2(), line, 1, HeaderSlot, SkipSlot, Outcome(HeaderOnly(Sourced), VersionSlot), State3());
  }

  /** `2 VERS 1` records a nonzero version. */
  lemma Version(line: string)
    requires GetWord(line, 1).0 == Some("VERS") && GetWord(line, 2).0 == Some("1")
    ensures HeaderGedcEnterH(HeaderOnly(Sourced), line, Unused) == Success(Outcome(HeaderOnly(Versioned), SkipSlot))
  {
    LeadingDigitsOfNumeral(1);
    assert NonzeroDecimal("1");
  }

  lemma Moves3(line: string)
    requires GetWord(line, 1).0 == Some("VERS") && GetWord(line, 2).0 == Some("1")
    ensures Dispatch(VersionSlot, State3().doc, line, Unused) == Success(Outcome(HeaderOnly(Versioned), SkipSlot))
  {
    DispatchVersion(State3().doc, line, Unused);
    Version(line);
  }

  lemma Next3()
    ensures State3().slots[2] == VersionSlot && State3().slots[3] == Unused
    ensures State4() == ParserState(HeaderOnly(Versioned), State3().slots[3 := SkipSlot], 2, true, State3().lineNum + 1)
  {
    SetSlot(HeaderSlot, VersionSlot, Unused, SkipSlot);
  }

  lemma Step3(line: string)
    requires Inv(State3()) && Admitted(line, 2)
    requires GetWord(line, 1).0 == Some("VERS") && GetWord(line, 2).0 == Some("1")
    ensures StepLine(State3(), line) == Continue(State4())
  {
    Moves3(line);
    Next3();
    StepTo(State3(), line, 2, VersionSlot, Unused, Outcome(HeaderOnly(Versioned), SkipSlot), State4());
  }

  /** `1 CHAR ASCII` sets the encoding. */
  lemma Charset(line: string)
    requires GetWord(line, 1).0 == Some("CHAR") && GetWord(line, 2).0 == Some("ASCII")
    ensures HeaderEnterH(HeaderOnly(Versioned), line, VersionSlot) == Success(Outcome(HeaderOnly(Encoded), HeaderSkipSlot))
  {
    HeaderEnterEffects(HeaderOnly(Versioned), line, VersionSlot);
  }

  lemma Moves4(line: string)
    requires GetWord(line, 1).0 == Some("CHAR") && GetWord(line, 2).0 == Some("ASCII")
    ensures Dispatch(HeaderSlot, State4().doc, line, VersionSlot) == Success(Outcome(HeaderOnly(Encoded), HeaderSkipSlot))
  {
    DispatchHeader(State4().doc, line, VersionSlot);
    Charset(line);
  }

  lemma Next4()
    ensures State4().slots[1] == HeaderSlot && State4().slots[2] == VersionSlot
    ensures State5() == ParserState(HeaderOnly(Encoded), State4().slots[2 := HeaderSkipSlot], 1, true, State4().lineNum + 1)
  {
    SetSlot(HeaderSlot, VersionSlot, SkipSlot, HeaderSkipSlot);
  }

  lemma Step4(line: string)
    requires Inv(State4()) && Admitted(line, 1)
    requires GetWord(line, 1).0 == Some("CHAR") && GetWord(line, 2).0 == Some("ASCII")
    ensures StepLine(State4(), line) == Continue(State5())
  {
    Moves4(line);
    Next4();
    StepTo(State4(), line, 1, HeaderSlot, VersionSlot, Outcome(HeaderOnly(Encoded), HeaderSkipSlot), State5());
  }

  /** `1 SUBM @U@` names the submitter record the header links to. */
  lemma SubmitterId(line: string)
    requires GetWord(line, 1).0 == Some("SUBM") && GetWord(line, 2).0 == Some("@U@")
    ensures HeaderEnterH(HeaderOnly(Encoded), line, HeaderSkipSlot) == Success(Outcome(HeaderOnly(Identified), HeaderSkipSlot))
  {
    HeaderEnterEffects(HeaderOnly(Encoded), line, HeaderSkipSlot);
  }

  lemma Moves5(line: string)
    requires GetWord(line, 1).0 == Some("SUBM") && GetWord(line, 2).0 == Some("@U@")
    ensures Dispatch(HeaderSlot, State5().doc, line, HeaderSkipSlot) == Success(Outcome(HeaderOnly(Identified), HeaderSkipSlot))
  {
    DispatchHeader(State5().doc, line, HeaderSkipSlot);
    SubmitterId(line);
  }

  lemma Next5()
    ensures State5().slots[1] == HeaderSlot && State5().slots[2] == HeaderSkipSlot
    ensures State6() == ParserState(HeaderOnly(Identified), State5().slots[2 := HeaderSkipSlot], 1, true, State5().lineNum + 1)
  {
    SetSlot(HeaderSlot, HeaderSkipSlot, SkipSlot, HeaderSkipSlot);
  }

  lemma Step5(line: string)
    requires Inv(State5()) && Admitted(line, 1)
    requires GetWord(line, 1).0 == Some("SUBM") && GetWord(line, 2).0 == Some("@U@")
    ensures StepLine(State5(), line) == Continue(State6())
  {
    Moves5(line);
    Next5();
    StepTo(State5(), line, 1, HeaderSlot, HeaderSkipSlot, Outcome(HeaderOnly(Identified), HeaderSkipSlot), State6());
  }

  /** `0 @U@ SUBM` opens the submitter record; its id is the header's submitter id, so the
      header is linked to it. */
  lemma SubmitterRecord(line: string)
    requires GetWord(line, 1).0 == Some("@U@") && GetWord(line, 2).0 == Some("SUBM")
    ensures ObjectEnterH(HeaderOnly(Identified), line, HeaderSlot)
            == Success(Outcome(Opened, SubmitterSlot))
  {
    var doc := HeaderOnly(Identified);
    assert HeaderComplete(Identified);
    assert OpenRecord(doc, "@U@", "SUBM", HeaderSlot) == Outcome(Opened, SubmitterSlot) by {
      assert doc.submitters + [NewSubmitter()] == [NewSubmitter()];
      assert Identified.(submitter := Some(0)) == Linked;
    }
  }

  lemma Moves6(line: string)
    requires GetWord(line, 1).0 == Some("@U@") && GetWord(line, 2).0 == Some("SUBM")
    ensures Dispatch(DocumentScope, State6().doc, line, HeaderSlot) == Success(Outcome(Opened, SubmitterSlot))
  {
    DispatchDocument(State6().doc, line, HeaderSlot);
    SubmitterRecord(line);
  }

  lemma Next6()
    ensures State6().slots[0] == DocumentScope && State6().slots[1] == HeaderSlot
    ensures State7() == ParserState(Opened, State6().slots[1 := SubmitterSlot], 0, true, State6().lineNum + 1)
  {
    SetSlot(HeaderSlot, HeaderSkipSlot, SkipSlot, SubmitterSlot);
  }

  lemma Step6(line: string)
    requires Inv(State6()) && Admitted(line, 0)
    requires GetWord(line, 1).0 == Some("@U@") && GetWord(line, 2).0 == Some("SUBM")
    ensures StepLine(State6(), line) == Continue(State7())
  {
    Moves6(line);
    Next6();
    var st := State6();
    assert st.init && st.prevLevel == 1 && |st.slots| == 8;
    StepTo(st, line, 0, DocumentScope, HeaderSlot, Outcome(Opened, SubmitterSlot), State7());
  }

  /** `1 NAME N` names the submitter. */
  lemma SubmitterName(line: string)
    requires GetWord(line, 1).0 == Some("NAME") && GetWord(line, 2).0 == Some("N")
    ensures SubmitterEnterH(Opened, line, HeaderSkipSlot) == Success(Outcome(MinimalDocument(), HeaderSkipSlot))
  {
    var doc := Opened;
    var named := NewSubmitter().(name := "N");
    assert CurrentSubmitter(doc) == Some(NewSubmitter());
    assert UpdateSubmitter(NewSubmitter(), "NAME", line) == Some(named);
    assert PutSubmitter(doc, named) == MinimalDocument();
    assert SkipBelow(HeaderSkipSlot) == HeaderSkipSlot;
  }

  lemma Moves7(line: string)
    requires GetWord(line, 1).0 == Some("NAME") && GetWord(line, 2).0 == Some("N")
    ensures Dispatch(SubmitterSlot, Opened, line, HeaderSkipSlot) == Success(Outcome(MinimalDocument(), HeaderSkipSlot))
  {
    DispatchSubmitter(Opened, line, HeaderSkipSlot);
    SubmitterName(line);
  }

  lemma Next7()
    ensures State7().slots[1] == SubmitterSlot && State7().slots[2] == HeaderSkipSlot
    ensures State8() == ParserState(MinimalDocument(), State7().slots[2 := HeaderSkipSlot], 1, true, State7().lineNum + 1)
  {
    SetSlot(SubmitterSlot, HeaderSkipSlot, SkipSlot, HeaderSkipSlot);
  }

  lemma Step7(line: string)
    requires Inv(State7()) && Admitted(line, 1)
    requires GetWord(line, 1).0 == Some("NAME") && GetWord(line, 2).0 == Some("N")
    ensures StepLine(State7(), line) == Continue(State8())
  {
    Moves7(line);
    Next7();
    StepTo(State7(), line, 1, SubmitterSlot, HeaderSkipSlot, Outcome(MinimalDocument(), HeaderSkipSlot), State8());
  }

  // ---------------------------------------------------------------------
  // The run through the file

  /** A text that differs from a prefix in one of its positions does not start with it. */
  lemma NotStartsWith(s: string, prefix: string, i: nat)
    requires i < |prefix| && i < |s| && s[i] != prefix[i]
    ensures !StartsWith(s, prefix)
  {
    if |prefix| <= |s| {
      assert s[..|prefix|][i] == s[i];
    }
  }

  /** A written line is not the trailer when its level is not 0 or its first word does
      not start with `T`; the guards then admit it at its level. */
  lemma NotTrailer(level: nat, words: seq<string>)
    requires Writable(level, words) && (level != 0 || words[0][0] != 'T')
    ensures Admitted(Line(level, words), level)
  {
    LineReads(level, words);
    LineSplits(level, words);
    if level != 0 {
      NotStartsWith(Line(level, words), TrailerLine, 0);
    } else {
      NotStartsWith(Line(level, words), TrailerLine, 2);
    }
  }

  lemma Read0()
    ensures Admitted(MinimalLines()[0], 0)
    ensures GetWord(MinimalLines()[0], 1).0 == Some("HEAD")
    ensures 0 < |MinimalLines()[0]| && Plain(MinimalLines()[0])
  {
    var words := ["HEAD"];
    var line := Line(0, words);
    assert MinimalLines()[0] == line;
    LineReads(0, words);
    NotTrailer(0, words);
    assert GetWord(line, 1).0 == Nth(words, 0) == Some("HEAD");
  }

  lemma Read1()
    ensures Admitted(MinimalLines()[1], 1)
    ensures GetWord(MinimalLines()[1], 1).0 == Some("SOUR") && GetWord(MinimalLines()[1], 2).0 == Some("X")
    ensures 0 < |MinimalLines()[1]| && Plain(MinimalLines()[1])
  {
    var words := ["SOUR", "X"];
    var line := Line(1, words);
    assert MinimalLines()[1] == line;
    LineReads(1, words);
    NotTrailer(1, words);
    assert GetWord(line, 1).0 == Nth(words, 0) == Some("SOUR");
    assert GetWord(line, 2).0 == Nth(words, 1) == Some("X");
  }

  lemma Read2()
    ensures Admitted(MinimalLines()[2], 1)
    ensures GetWord(MinimalLines()[2], 1).0 == Some("GEDC")
    ensures 0 < |MinimalLines()[2]| && Plain(MinimalLines()[2])
  {
    var words := ["GEDC"];
    var line := Line(1, words);
    assert MinimalLines()[2] == line;
    LineReads(1, words);
    NotTrailer(1, words);
    assert GetWord(line, 1).0 == Nth(words, 0) == Some("GEDC");
  }

  lemma Read3()
    ensures Admitted(MinimalLines()[3], 2)
    ensures GetWord(MinimalLines()[3], 1).0 == Some("VERS") && GetWord(MinimalLines()[3], 2).0 == Some("1")
    ensures 0 < |MinimalLines()[3]| && Plain(MinimalLines()[3])
  {
    var words := ["VERS", "1"];
    var line := Line(2, words);
    assert MinimalLines()[3] == line;
    LineReads(2, words);
    NotTrailer(2, words);
    assert GetWord(line, 1).0 == Nth(words, 0) == Some("VERS");
    assert GetWord(line, 2).0 == Nth(words, 1) == Some("1");
  }

  lemma Read4()
    ensures Admitted(MinimalLines()[4], 1)
    ensures GetWord(MinimalLines()[4], 1).0 == Some("CHAR") && GetWord(MinimalLines()[4], 2).0 == Some("ASCII")
    ensures 0 < |MinimalLines()[4]| && Plain(MinimalLines()[4])
  {
    var words := ["CHAR", "ASCII"];
    var line := Line(1, words);
    assert MinimalLines()[4] == line;
    LineReads(1, words);
    NotTrailer(1, words);
    assert GetWord(line, 1).0 == Nth(words, 0) == Some("CHAR");
    assert GetWord(line, 2).0 == Nth(words, 1) == Some("ASCII");
  }

  lemma Read5()
    ensures Admitted(MinimalLines()[5], 1)
    ensures GetWord(MinimalLines()[5], 1).0 == Some("SUBM") && GetWord(MinimalLines()[5], 2).0 == Some("@U@")
    ensures 0 < |MinimalLines()[5]| && Plain(MinimalLines()[5])
  {
    var words := ["SUBM", "@U@"];
    var line := Line(1, words);
    assert MinimalLines()[5] == line;
    LineReads(1, words);
    NotTrailer(1, words);
    assert GetWord(line, 1).0 == Nth(words, 0) == Some("SUBM");
    assert GetWord(line, 2).0 == Nth(words, 1) == Some("@U@");
  }

  lemma Read6()
    ensures Admitted(MinimalLines()[6], 0)
    ensures GetWord(MinimalLines()[6], 1).0 == Some("@U@") && GetWord(MinimalLines()[6], 2).0 == Some("SUBM")
    ensures 0 < |MinimalLines()[6]| && Plain(MinimalLines()[6])
  {
    var words := ["@U@", "SUBM"];
    var line := Line(0, words);
    assert MinimalLines()[6] == line;
    LineReads(0, words);
    NotTrailer(0, words);
    assert GetWord(line, 1).0 == Nth(words, 0) == Some("@U@");
    assert GetWord(line, 2).0 == Nth(words, 1) == Some("SUBM");
  }

  lemma Read7()
    ensures Admitted(MinimalLines()[7], 1)
    ensures GetWord(MinimalLines()[7], 1).0 == Some("NAME") && GetWord(MinimalLines()[7], 2).0 == Some("N")
    ensures 0 < |MinimalLines()[7]| && Plain(MinimalLines()[7])
  {
    var words := ["NAME", "N"];
    var line := Line(1, words);
    assert MinimalLines()[7] == line;
    LineReads(1, words);
    NotTrailer(1, words);
    assert GetWord(line, 1).0 == Nth(words, 0) == Some("NAME");
    assert GetWord(line, 2).0 == Nth(words, 1) == Some("N");
  }

  /** What the parser reads from the file's lines: each line before the trailer is
      admitted at its level and has the words its step needs; the last is the trailer. */
  predicate LinesRead(lines: seq<string>)
  {
    |lines| == 9 && HeaderLinesRead(lines) && RecordLinesRead(lines)
  }

  predicate HeaderLinesRead(lines: seq<string>)
    requires |lines| == 9
  {
    && Admitted(lines[0], 0) && GetWord(lines[0], 1).0 == Some("HEAD")
    && Admitted(lines[1], 1) && GetWord(lines[1], 1).0 == Some("SOUR") && GetWord(lines[1], 2).0 == Some("X")
    && Admitted(lines[2], 1) && GetWord(lines[2], 1).0 == Some("GEDC")
    && Admitted(lines[3], 2) && GetWord(lines[3], 1).0 == Some("VERS") && GetWord(lines[3], 2).0 == Some("1")
    && Admitted(lines[4], 1) && GetWord(lines[4], 1).0 == Some("CHAR") && GetWord(lines[4], 2).0 == Some("ASCII")
    && Admitted(lines[5], 1) && GetWord(lines[5], 1).0 == Some("SUBM") && GetWord(lines[5], 2).0 == Some("@U@")
  }

  predicate RecordLinesRead(lines: seq<string>)
    requires |lines| == 9
  {
    && Admitted(lines[6], 0) && GetWord(lines[6], 1).0 == Some("@U@") && GetWord(lines[6], 2).0 == Some("SUBM")
    && Admitted(lines[7], 1) && GetWord(lines[7], 1).0 == Some("NAME") && GetWord(lines[7], 2).0 == Some("N")
    && StartsWith(lines[8], TrailerLine)
  }

  lemma MinimalHeaderRead()
    ensures |MinimalLines()| == 9 && HeaderLinesRead(MinimalLines())
  {
    Read0(); Read1(); Read2(); Read3(); Read4(); Read5();
  }

  lemma MinimalRecordRead()
    ensures |MinimalLines()| == 9 && RecordLinesRead(MinimalLines())
  {
    Read6(); Read7();
    assert MinimalLines()[8] == TrailerLine;
  }

  /** One line of the file: the loop goes on from the state after it with the rest of
      the lines. */
  lemma Advance0(lines: seq<string>)
    requires LinesRead(lines) && Inv(State0())
    ensures Inv(State1())
    ensures ParseLines(lines[0..], State0()) == ParseLines(lines[1..], State1())
  {
    Step0(lines[0]);
    assert lines[0..][0] == lines[0] && lines[0..][1..] == lines[1..];
  }

  lemma Advance1(lines: seq<string>)
    requires LinesRead(lines) && Inv(State1())
    ensures Inv(State2())
    ensures ParseLines(lines[1..], State1()) == ParseLines(lines[2..], State2())
  {
    Step1(lines[1]);
    assert lines[1..][0] == lines[1] && lines[1..][1..] == lines[2..];
  }

  lemma Advance2(lines: seq<string>)
    requires LinesRead(lines) && Inv(State2())
    ensures Inv(State3())
    ensures ParseLines(lines[2..], State2()) == ParseLines(lines[3..], State3())
  {
    Step2(lines[2]);
    assert lines[2..][0] == lines[2] && lines[2..][1..] == lines[3..];
  }

  lemma Advance3(lines: seq<string>)
    requires LinesRead(lines) && Inv(State3())
    ensures Inv(State4())
    ensures ParseLines(lines[3..], State3()) == ParseLines(lines[4..], State4())
  {
    Step3(lines[3]);
    assert lines[3..][0] == lines[3] && lines[3..][1..] == lines[4..];
  }

  lemma Advance4(lines: seq<string>)
    requires LinesRead(lines) && Inv(State4())
    ensures Inv(State5())
    ensures ParseLines(lines[4..], State4()) == ParseLines(lines[5..], State5())
  {
    Step4(lines[4]);
    assert lines[4..][0] == lines[4] && lines[4..][1..] == lines[5..];
  }

  lemma Advance5(lines: seq<string>)
    requires LinesRead(lines) && Inv(State5())
    ensures Inv(State6())
    ensures ParseLines(lines[5..], State5()) == ParseLines(lines[6..], State6())
  {
    Step5(lines[5]);
    assert lines[5..][0] == lines[5] && lines[5..][1..] == lines[6..];
  }

  lemma Advance6(lines: seq<string>)
    requires LinesRead(lines) && Inv(State6())
    ensures Inv(State7())
    ensures ParseLines(lines[6..], State6()) == ParseLines(lines[7..], State7())
  {
    Step6(lines[6]);
    assert lines[6..][0] == lines[6] && lines[6..][1..] == lines[7..];
  }

  lemma Advance7(lines: seq<string>)
    requires LinesRead(lines) && Inv(State7())
    ensures Inv(State8())
    ensures ParseLines(lines[7..], State7()) == ParseLines(lines[8..], State8())
  {
    Step7(lines[7]);
    assert lines[7..][0] == lines[7] && lines[7..][1..] == lines[8..];
  }

  /** The loop runs through every line before the trailer and stops at it with the
      document the file describes. */
  lemma MinimalLoop()
    ensures ParseLines(MinimalLines(), InitialState()) == TrailerReached(MinimalDocument())
  {
    var lines := MinimalLines();
    MinimalHeaderRead();
    MinimalRecordRead();
    InitialStateInv();
    Advance0(lines);
    Advance1(lines);
    Advance2(lines);
    Advance3(lines);
    Advance4(lines);
    Advance5(lines);
    Advance6(lines);
    Advance7(lines);
    assert lines[0..] == lines && lines[8..][0] == lines[8];
  }

  /** The text is read back as the file's lines. */
  lemma TrailerPlain()
    ensures 0 < |TrailerLine| && Plain(TrailerLine)
  {
  }

  lemma MinimalRead()
    ensures SplitLines(CString(MinimalText())) == MinimalLines()
  {
    forall k | 0 <= k < |MinimalLines()| ensures 0 < |MinimalLines()[k]| && Plain(MinimalLines()[k]) {
      if k == 0 { Read0(); }
      else if k == 1 { Read1(); }
      else if k == 2 { Read2(); }
      else if k == 3 { Read3(); }
      else if k == 4 { Read4(); }
      else if k == 5 { Read5(); }
      else if k == 6 { Read6(); }
      else if k == 7 { Read7(); }
      else { TrailerPlain(); }
    }
    ReadsBack(MinimalLines());
  }

  /** The loop's document passes the checks after the loop: it has a submitter, the
      header is linked to it, and there is nothing to resolve. */
  lemma MinimalFinish()
    ensures Finish(MinimalDocument(), true) == Success(MinimalDocument())
  {
    var doc := MinimalDocument();
    assert NoDangling(doc);
  }

  /** The parser accepts the smallest complete file and builds the document it describes:
      the header with its source, version, character set and submitter link, the one
      submitter with its name, and no individuals or families. */
  lemma MinimalDocumentAccepted()
    ensures CreateGedcom(MinimalText()) == Success(MinimalDocument())
  {
    MinimalRead();
    MinimalLoop();
    MinimalFinish();
  }

}
