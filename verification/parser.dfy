/** createGEDCOM: the file text is cut into lines, each line is dispatched to the
    handler in the scope slot of its level, and after the trailer the recorded ids are
    resolved. The parser keeps MAX_PARSER_DEEP scope slots; a line at level L runs the
    handler of slot L and lets it install a handler in slot L + 1. */
module Parser {
  import opened Common
  import opened LinkedList
  import opened Tokenizer
  import opened GedcomModel
  import opened Handlers
  import opened Resolver

  const MaxParserDeep: nat := 8
  const MaxLineLength: nat := 255
  const TrailerLine: string := "0 TRLR"

  datatype ParserState = ParserState(doc: Document, slots: seq<Scope>, prevLevel: int, init: bool, lineNum: int)

  /** How the line loop ends: an error, the trailer line, or the end of the text. */
  datatype LoopEnd = Failed(error: GedcomError) | TrailerReached(doc: Document) | Exhausted(doc: Document)

  datatype Step = Continue(st: ParserState) | Stop(end: LoopEnd)

  /** Slot 0 holds the document and the top-level handler; no other slot is written yet. */
  function InitialState(): ParserState
  {
    ParserState(EmptyDocument(), [DocumentScope] + seq(MaxParserDeep - 1, _ => Scope(None, None)), -1, false, 1)
  }

  /** What holds between two lines: slot 0 is fixed, every slot a line may reach next
      (levels 1 to prevLevel + 1) is usable, slot 1 is usable once a header exists, the
      header's submitter link is in range, and nothing is linked before resolution. */
  predicate Inv(st: ParserState)
  {
    && |st.slots| == MaxParserDeep
    && st.slots[0] == DocumentScope
    && -1 <= st.prevLevel && st.prevLevel + 1 < MaxParserDeep
    && (st.init <==> st.prevLevel >= 0)
    && (forall l :: 1 <= l <= st.prevLevel + 1 ==> Installable(st.slots[l], st.doc))
    && (st.doc.header.Some? ==> Installable(st.slots[1], st.doc))
    && (!st.init ==> st.doc == EmptyDocument())
    && HeaderLinkValid(st.doc)
    && Unlinked(st.doc)
    && (SubmitterLinked(st.doc) ==> HeaderSettled(st))
  }

  /** Once the header is linked to a submitter it is complete, and no line can reach a
      header handler any more: the header's fields are final. */
  predicate HeaderSettled(st: ParserState)
    requires |st.slots| == MaxParserDeep && st.prevLevel + 1 < MaxParserDeep
    requires SubmitterLinked(st.doc)
  {
    && HeaderComplete(st.doc.header.value)
    && forall l :: 1 <= l <= st.prevLevel + 1 ==> !IsHeaderHandler(st.slots[l])
  }

  lemma InitialStateInv()
    ensures Inv(InitialState())
  {
  }

  /** The level guard, with the depth bound the scope stack needs: the handler of a line
      at level L writes slot L + 1, which must exist. */
  predicate LevelAllowed(level: int, prevLevel: int)
  {
    0 <= level <= prevLevel + 1 && level + 1 < MaxParserDeep
  }

  /** The level guard as written in createGEDCOM: no bound from the scope stack. */
  predicate LevelAllowedAsWritten(level: int, prevLevel: int)
  {
    !(level < 0 || level > prevLevel + 1)
  }

  /** The guard as written lets a level-7 line follow a level-6 line, whose handler
      then writes slot 8 of an 8-slot stack; the corrected guard refuses that line, and
      whatever it admits keeps the handler's slot inside the stack. */
  lemma LevelGuardOverflow()
    ensures LevelAllowedAsWritten(7, 6) && 7 + 1 >= MaxParserDeep
    ensures !LevelAllowed(7, 6)
    ensures forall level, prev :: LevelAllowed(level, prev) ==> 0 <= level && level + 1 < MaxParserDeep
    ensures forall level, prev :: LevelAllowed(level, prev) ==> LevelAllowedAsWritten(level, prev)
  {
  }

  /** One pass of the loop body of createGEDCOM. */
  function StepLine(st: ParserState, line: string): (r: Step)
    requires Inv(st)
    ensures StartsWith(line, TrailerLine) ==> r == Stop(TrailerReached(st.doc))
    ensures !StartsWith(line, TrailerLine) && |line| > MaxLineLength ==>
              r == Stop(Failed(GedcomError(InvRecord, st.lineNum)))
    ensures !StartsWith(line, TrailerLine) && |line| <= MaxLineLength && Atoi(line) != 0 && !st.init ==>
              r == Stop(Failed(GedcomError(InvHeader, -1)))
    ensures !StartsWith(line, TrailerLine) && |line| <= MaxLineLength && (st.init || Atoi(line) == 0)
            && !LevelAllowed(Atoi(line), st.prevLevel) ==>
              r == Stop(Failed(GedcomError(InvRecord, st.lineNum)))
    ensures r.Continue? ==>
              && Inv(r.st) && Grows(st.doc, r.st.doc)
              && !StartsWith(line, TrailerLine) && |line| <= MaxLineLength
              && LevelAllowed(Atoi(line), st.prevLevel)
              && r.st.prevLevel == Atoi(line) && r.st.lineNum == st.lineNum + 1
    ensures r.Stop? && !r.end.Failed? ==> StartsWith(line, TrailerLine) && r.end == TrailerReached(st.doc)
    ensures r.Stop? && r.end.Failed? ==> r.end.error.kind != Ok
  {
    if StartsWith(line, TrailerLine) then Stop(TrailerReached(st.doc))
    else if |line| > MaxLineLength then Stop(Failed(GedcomError(InvRecord, st.lineNum)))
    else
      var level := Atoi(line);
      if level != 0 && !st.init then Stop(Failed(GedcomError(InvHeader, -1)))
      else if !LevelAllowed(level, st.prevLevel) then Stop(Failed(GedcomError(InvRecord, st.lineNum)))
      else RunHandler(st, line, level)
  }

  /** The handler call of the loop body, for a line whose level the guard admitted. */
  function RunHandler(st: ParserState, line: string, level: int): (r: Step)
    requires Inv(st) && LevelAllowed(level, st.prevLevel)
    ensures r.Continue? ==> Inv(r.st) && Grows(st.doc, r.st.doc) && r.st.prevLevel == level
                            && r.st.lineNum == st.lineNum + 1
    ensures r.Stop? ==> r.end.Failed? && r.end.error.kind != Ok
  {
    match Dispatch(st.slots[level], st.doc, line, st.slots[level + 1])
    case Failure(e) => Stop(Failed(e))
    case Success(o) =>
      StepKeepsInv(st, line, level, o);
      Continue(ParserState(o.doc, st.slots[level + 1 := o.next], level, true, st.lineNum + 1))
  }

  /** A line that passes the trailer, length and level checks is handed to the handler
      of its level's slot, with the slot below to install into: a handler error stops
      the loop with that error, and a success moves to the next line with the handler's
      document, the slot it installed, and the line's level as the previous level. */
  lemma StepLineDispatches(st: ParserState, line: string)
    requires Inv(st)
    requires !StartsWith(line, TrailerLine) && |line| <= MaxLineLength && LevelAllowed(Atoi(line), st.prevLevel)
    ensures var d := Dispatch(st.slots[Atoi(line)], st.doc, line, st.slots[Atoi(line) + 1]);
            && (d.Failure? ==> StepLine(st, line) == Stop(Failed(d.error)))
            && (d.Success? ==> StepLine(st, line) == Continue(ParserState(d.value.doc, st.slots[Atoi(line) + 1 := d.value.next],
                                                                          Atoi(line), true, st.lineNum + 1)))
  {
    assert StepLine(st, line) == RunHandler(st, line, Atoi(line));
  }

  /** Running the handler of a reachable slot keeps the invariant: the slots above the
      line stay usable as the document grows, and the handler leaves the slot below usable. */
  lemma StepKeepsInv(st: ParserState, line: string, level: int, o: Outcome)
    requires Inv(st)
    requires LevelAllowed(level, st.prevLevel)
    requires Dispatch(st.slots[level], st.doc, line, st.slots[level + 1]) == Success(o)
    ensures Inv(ParserState(o.doc, st.slots[level + 1 := o.next], level, true, st.lineNum + 1))
  {
    var slots' := st.slots[level + 1 := o.next];
    forall l | 1 <= l <= level + 1
      ensures Installable(slots'[l], o.doc)
    {
      if l <= level {
        CoherentKept(st.slots[l], st.doc, o.doc);
      }
    }
  }

  /** The line loop: lines are handled in order until the trailer, an error, or the
      end of the text. */
  function ParseLines(lines: seq<string>, st: ParserState): (r: LoopEnd)
    requires Inv(st)
    ensures !r.Failed? ==> Unlinked(r.doc) && HeaderLinkValid(r.doc)
    ensures !r.Failed? && SubmitterLinked(r.doc) ==> HeaderComplete(r.doc.header.value)
    ensures r.Failed? ==> r.error.kind != Ok
    decreases |lines|
  {
    if |lines| == 0 then Exhausted(st.doc)
    else
      match StepLine(st, lines[0])
      case Stop(e) => e
      case Continue(st') => ParseLines(lines[1..], st')
  }

  /** The index of the first trailer line. */
  function FirstTrailer(lines: seq<string>): (r: Option<nat>)
    ensures r.Some? ==> r.value < |lines| && StartsWith(lines[r.value], TrailerLine)
                        && forall k :: 0 <= k < r.value ==> !StartsWith(lines[k], TrailerLine)
    ensures r.None? ==> forall k :: 0 <= k < |lines| ==> !StartsWith(lines[k], TrailerLine)
  {
    FirstIndex(lines, (l: string) => StartsWith(l, TrailerLine))
  }

  /** Reference definition of the line structure the loop accepts: every line fits the
      line buffer, and each level is at most one deeper than the line before (the first
      line being measured against `prev`) and leaves room in the scope stack. */
  predicate WellNested(lines: seq<string>, prev: int)
  {
    forall k :: 0 <= k < |lines| ==>
      |lines[k]| <= MaxLineLength && LevelAllowed(Atoi(lines[k]), if k == 0 then prev else Atoi(lines[k - 1]))
  }

  lemma WellNestedCons(line: string, rest: seq<string>, prev: int)
    requires |line| <= MaxLineLength && LevelAllowed(Atoi(line), prev)
    requires WellNested(rest, Atoi(line))
    ensures WellNested([line] + rest, prev)
  {
    var all := [line] + rest;
    forall k | 1 <= k < |all|
      ensures |all[k]| <= MaxLineLength && LevelAllowed(Atoi(all[k]), Atoi(all[k - 1]))
    {
      var j := k - 1;
      assert all[k] == rest[j];
      assert |rest[j]| <= MaxLineLength && LevelAllowed(Atoi(rest[j]), if j == 0 then Atoi(line) else Atoi(rest[j - 1]));
      if j > 0 {
        assert all[k - 1] == rest[j - 1];
      }
    }
  }

  /** A run of the loop over a prefix of `lines`: `states[k]` is the state before line
      `k`, and each line before the last state continued the loop into the next one. */
  predicate Trace(lines: seq<string>, states: seq<ParserState>)
  {
    && 0 < |states| <= |lines| + 1
    && (forall k :: 0 <= k < |states| ==> Inv(states[k]))
    && forall k :: 0 <= k < |states| - 1 ==> StepLine(states[k], lines[k]) == Continue(states[k + 1])
  }

  /** A run extends by one line that continues the loop. */
  lemma TraceExtend(lines: seq<string>, states: seq<ParserState>, next: ParserState)
    requires Trace(lines, states) && |states| <= |lines|
    requires StepLine(states[|states| - 1], lines[|states| - 1]) == Continue(next)
    ensures Trace(lines, states + [next])
  {
    var all := states + [next];
    forall k | 0 <= k < |all| - 1
      ensures StepLine(all[k], lines[k]) == Continue(all[k + 1])
    {
      assert all[k] == states[k];
      if k + 1 < |states| { assert all[k + 1] == states[k + 1]; }
    }
  }

  /** The first line of a longer run continued the loop, and the rest is a run from there. */
  lemma TraceTail(lines: seq<string>, states: seq<ParserState>)
    requires Trace(lines, states) && |states| > 1
    ensures StepLine(states[0], lines[0]) == Continue(states[1])
    ensures Trace(lines[1..], states[1..])
  {
    var tl := states[1..];
    forall k | 0 <= k < |tl| - 1
      ensures StepLine(tl[k], lines[1..][k]) == Continue(tl[k + 1])
    {
      assert StepLine(states[k + 1], lines[k + 1]) == Continue(states[k + 2]);
    }
  }

  /** After the lines of a run the loop goes on from the run's last state. */
  lemma {:induction false} ParseLinesAfterTrace(lines: seq<string>, states: seq<ParserState>)
    requires Trace(lines, states)
    ensures ParseLines(lines, states[0]) == ParseLines(lines[|states| - 1..], states[|states| - 1])
    decreases |states|
  {
    if |states| > 1 {
      TraceTail(lines, states);
      ParseLinesAfterTrace(lines[1..], states[1..]);
      assert lines[1..][|states| - 2..] == lines[|states| - 1..];
    }
  }

  /** A trailer line reached by a run ends the loop with the document the run built:
      the loop accepts every text whose lines up to the trailer are all accepted. */
  lemma ParseLinesReachesTrailer(lines: seq<string>, states: seq<ParserState>)
    requires Trace(lines, states) && |states| <= |lines|
    requires StartsWith(lines[|states| - 1], TrailerLine)
    ensures ParseLines(lines, states[0]) == TrailerReached(states[|states| - 1].doc)
  {
    ParseLinesAfterTrace(lines, states);
    assert lines[|states| - 1..][0] == lines[|states| - 1];
  }

  /** A run through every line, none of them a trailer, exhausts the text. */
  lemma ParseLinesExhausts(lines: seq<string>, states: seq<ParserState>)
    requires Trace(lines, states) && |states| == |lines| + 1
    ensures ParseLines(lines, states[0]) == Exhausted(states[|lines|].doc)
  {
    ParseLinesAfterTrace(lines, states);
    var last := states[|lines|];
    assert lines[|states| - 1..] == [];
    assert ParseLines([], last) == Exhausted(last.doc);
  }

  /** A loop that did not run out of lines stopped at the line after some run, and that
      line's step gave the loop's result: in particular an error comes from a failing line. */
  lemma {:induction false} ParseLinesStopsAt(lines: seq<string>, st: ParserState)
    requires Inv(st)
    ensures !ParseLines(lines, st).Exhausted? ==>
              exists states :: Trace(lines, states) && states[0] == st && |states| <= |lines|
                               && StepLine(states[|states| - 1], lines[|states| - 1]) == Stop(ParseLines(lines, st))
    decreases |lines|
  {
    if |lines| > 0 && !ParseLines(lines, st).Exhausted? {
      match StepLine(st, lines[0])
      case Stop(e) =>
        var run := [st];
        assert Trace(lines, run) && run[0] == st && StepLine(run[0], lines[0]) == Stop(ParseLines(lines, st));
      case Continue(st') =>
        var rest := lines[1..];
        ParseLinesStopsAt(rest, st');
        var tail :| Trace(rest, tail) && tail[0] == st' && |tail| <= |rest|
                    && StepLine(tail[|tail| - 1], rest[|tail| - 1]) == Stop(ParseLines(rest, st'));
        assert ParseLines(lines, st) == ParseLines(rest, st');
        StopsAtCons(lines, st, tail);
    }
  }

  /** The run found for the remaining lines, with the current state in front. */
  lemma StopsAtCons(lines: seq<string>, st: ParserState, tail: seq<ParserState>)
    requires Inv(st) && |lines| > 0 && Trace(lines[1..], tail) && |tail| <= |lines| - 1
    requires StepLine(st, lines[0]) == Continue(tail[0])
    ensures var run := [st] + tail;
            && Trace(lines, run) && run[0] == st && |run| <= |lines|
            && StepLine(run[|run| - 1], lines[|run| - 1]) == StepLine(tail[|tail| - 1], lines[1..][|tail| - 1])
  {
    TraceCons(lines, st, tail);
    LastAfterCons(st, tail, lines);
  }

  lemma LastAfterCons<T, U>(x: T, tail: seq<T>, lines: seq<U>)
    requires 0 < |tail| < |lines|
    ensures ([x] + tail)[|tail|] == tail[|tail| - 1] && lines[|tail|] == lines[1..][|tail| - 1]
  {
  }

  /** A line that continues the loop into the start of a run on the remaining lines
      makes a run on all of them. */
  lemma TraceCons(lines: seq<string>, st: ParserState, tail: seq<ParserState>)
    requires Inv(st) && |lines| > 0 && Trace(lines[1..], tail)
    requires StepLine(st, lines[0]) == Continue(tail[0])
    ensures Trace(lines, [st] + tail)
  {
    var all := [st] + tail;
    forall k | 0 <= k < |all| - 1
      ensures StepLine(all[k], lines[k]) == Continue(all[k + 1])
    {
      if k > 0 {
        assert all[k] == tail[k - 1] && all[k + 1] == tail[k] && lines[k] == lines[1..][k - 1];
      }
    }
  }

  /** Line `k` of a run passed the loop's checks, and its level became the previous level. */
  lemma TraceLineAccepted(lines: seq<string>, states: seq<ParserState>, k: nat)
    requires Trace(lines, states) && k < |states| - 1
    ensures !StartsWith(lines[k], TrailerLine) && |lines[k]| <= MaxLineLength
    ensures LevelAllowed(Atoi(lines[k]), states[k].prevLevel) && states[k + 1].prevLevel == Atoi(lines[k])
  {
    assert StepLine(states[k], lines[k]) == Continue(states[k + 1]);
  }

  /** The lines of a run were no trailer lines, fit the line buffer and were well nested. */
  lemma TraceAccepted(lines: seq<string>, states: seq<ParserState>)
    requires Trace(lines, states)
    ensures forall k :: 0 <= k < |states| - 1 ==> !StartsWith(lines[k], TrailerLine)
    ensures WellNested(lines[..|states| - 1], states[0].prevLevel)
  {
    var n := |states| - 1;
    var levels := seq(|states|, k requires 0 <= k < |states| => states[k].prevLevel);
    forall k | 0 <= k < n
      ensures !StartsWith(lines[k], TrailerLine) && |lines[k]| <= MaxLineLength
      ensures LevelAllowed(Atoi(lines[k]), levels[k]) && levels[k + 1] == Atoi(lines[k])
    {
      TraceLineAccepted(lines, states, k);
    }
    WellNestedOfLevels(lines, n, levels);
  }

  /** Lines whose levels each follow the previous one, as a sequence of levels records
      them, are well nested. */
  lemma WellNestedOfLevels(lines: seq<string>, n: nat, levels: seq<int>)
    requires n <= |lines| && |levels| == n + 1
    requires forall k :: 0 <= k < n ==>
               |lines[k]| <= MaxLineLength && LevelAllowed(Atoi(lines[k]), levels[k]) && levels[k + 1] == Atoi(lines[k])
    ensures WellNested(lines[..n], levels[0])
  {
    var accepted := lines[..n];
    forall k | 0 <= k < n
      ensures |accepted[k]| <= MaxLineLength
      ensures LevelAllowed(Atoi(accepted[k]), if k == 0 then levels[0] else Atoi(accepted[k - 1]))
    {
      if k > 0 { assert levels[k] == Atoi(lines[k - 1]); }
    }
  }

  /** Reaching the trailer means every line before the first trailer line was accepted:
      it fit the line buffer and its level was well nested. */
  lemma ParseLinesTrailerSound(lines: seq<string>, st: ParserState)
    requires Inv(st)
    ensures ParseLines(lines, st).TrailerReached? ==>
              FirstTrailer(lines).Some? && WellNested(lines[..FirstTrailer(lines).value], st.prevLevel)
  {
    if ParseLines(lines, st).TrailerReached? {
      ParseLinesStopsAt(lines, st);
      var states :| Trace(lines, states) && states[0] == st && |states| <= |lines|
                    && StepLine(states[|states| - 1], lines[|states| - 1]) == Stop(ParseLines(lines, st));
      TraceAccepted(lines, states);
      FirstIndexAt(lines, (l: string) => StartsWith(l, TrailerLine), |states| - 1);
    }
  }

  // ---------------------------------------------------------------------
  // After the loop

  /** The document has a header linked to an existing submitter. */
  predicate HeaderLinked(doc: Document)
  {
    doc.header.Some? && doc.header.value.submitter.Some? && doc.header.value.submitter.value < |doc.submitters|
  }

  /** The checks after the line loop, then resolution: a submitter record is required
      (else INV_GEDCOM), the header must be linked to one (else INV_HEADER), every
      recorded id must resolve (else INV_GEDCOM), and the loop must have ended at the
      trailer (else the loop's INV_GEDCOM stands). */
  function Finish(doc: Document, trailer: bool): (r: Result<Document, GedcomError>)
    requires Unlinked(doc) && HeaderLinkValid(doc)
    requires SubmitterLinked(doc) ==> HeaderComplete(doc.header.value)
    ensures r.Success? <==> trailer && |doc.submitters| > 0 && doc.header.Some?
                            && doc.header.value.submitter.Some? && NoDangling(doc)
    ensures |doc.submitters| == 0 ==> r == Failure(GedcomError(InvGedcom, -1))
    ensures r.Failure? ==> r.error.kind != Ok
    ensures r.Success? ==> HeaderLinked(r.value) && ReferencesInRange(r.value)
    ensures r.Success? ==> HeaderComplete(r.value.header.value)
  {
    if |doc.submitters| == 0 then Failure(GedcomError(InvGedcom, -1))
    else if doc.header.None? || doc.header.value.submitter.None? then Failure(GedcomError(InvHeader, -1))
    else
      match Resolve(doc)
      case Failure(e) => Failure(e)
      case Success(d) =>
        ResolveClosesGraph(doc);
        if trailer then Success(d) else Failure(GedcomError(InvGedcom, -1))
  }

  /** createGEDCOM on the text of a file (up to its first NUL). */
  function CreateGedcom(text: string): (r: Result<Document, GedcomError>)
    ensures r.Failure? ==> r.error.kind != Ok
    ensures r.Success? ==>
              var lines := SplitLines(CString(text));
              FirstTrailer(lines).Some? && WellNested(lines[..FirstTrailer(lines).value], -1)
    ensures r.Success? ==> HeaderLinked(r.value) && ReferencesInRange(r.value)
    ensures r.Success? ==> HeaderComplete(r.value.header.value)
  {
    var lines := SplitLines(CString(text));
    InitialStateInv();
    ParseLinesTrailerSound(lines, InitialState());
    match ParseLines(lines, InitialState())
    case Failed(e) => Failure(e)
    case TrailerReached(doc) => Finish(doc, true)
    case Exhausted(doc) => Finish(doc, false)
  }
}
