/** The record handlers of the scope-stack parser. A scope slot pairs a receiver
    (the record that lines at the slot's level change) with a handler (the function
    that interprets one such line). Called for a line at level L, a handler gets
    the slot for level L + 1 and may install a receiver and handler there for the
    lines nested below.

    As in the C code, receiver and handler are separate fields: a handler may set
    one and leave the other as it was. A slot that was never written holds neither. */
module Handlers {
  import opened Common
  import opened Tokenizer
  import opened GedcomModel
  import opened Classifiers

  datatype Owner = OfIndividual(ind: nat) | OfFamily(fam: nat)

  datatype Receiver =
    | DocumentRx
    | HeaderRx
    | IndividualRx(i: nat)
    | FamilyRx(f: nat)
    | EventRx(owner: Owner, e: nat)
      /** The address of `SkipAllReceiver` itself, which that function stores as a receiver. */
    | SkipAllAddress

  datatype Handler =
    | ObjectEnter | HeaderEnter | HeaderGedcEnter | IndiEnter | FamilyEnter
    | EventEnter | SubmitterEnter | AddressEnter | SkipAll

  datatype Scope = Scope(receiver: Option<Receiver>, enter: Option<Handler>)

  /** What a handler leaves behind: the changed document and the next-level slot. */
  datatype Outcome = Outcome(doc: Document, next: Scope)

  function Fail(kind: ErrorCode, line: int): Result<Outcome, GedcomError>
  {
    Failure(GedcomError(kind, line))
  }

  /** The slot 0 scope the driver starts from. */
  const DocumentScope: Scope := Scope(Some(DocumentRx), Some(ObjectEnter))

  // ---------------------------------------------------------------------
  // Well-formed slots

  predicate EventExists(doc: Document, owner: Owner, e: nat)
  {
    match owner
    case OfIndividual(i) => i < |doc.individuals| && e < |doc.individuals[i].events|
    case OfFamily(f) => f < |doc.families| && e < |doc.families[f].events|
  }

  /** The slot has a handler, and that handler can be called with the slot's receiver:
      the record the receiver names exists in the document. */
  predicate Coherent(s: Scope, doc: Document)
  {
    && s.enter.Some?
    && match s.enter.value
       case SkipAll => true
       case ObjectEnter => s.receiver == Some(DocumentRx)
       case HeaderEnter => s.receiver == Some(HeaderRx) && doc.header.Some?
       case HeaderGedcEnter => s.receiver == Some(HeaderRx) && doc.header.Some?
       case IndiEnter => s.receiver.Some? && s.receiver.value.IndividualRx? && s.receiver.value.i < |doc.individuals|
       case FamilyEnter => s.receiver.Some? && s.receiver.value.FamilyRx? && s.receiver.value.f < |doc.families|
       case EventEnter => s.receiver.Some? && s.receiver.value.EventRx?
                          && EventExists(doc, s.receiver.value.owner, s.receiver.value.e)
       case SubmitterEnter => s.receiver == Some(DocumentRx) && |doc.submitters| > 0
       case AddressEnter => s.receiver == Some(DocumentRx) && |doc.submitters| > 0
  }

  /** A coherent slot a handler may install below a line: any handler but the top-level one. */
  predicate Installable(s: Scope, doc: Document)
  {
    Coherent(s, doc) && s.enter != Some(ObjectEnter)
  }

  /** The slot holds one of the two header handlers. */
  predicate IsHeaderHandler(s: Scope)
  {
    s.enter == Some(HeaderEnter) || s.enter == Some(HeaderGedcEnter)
  }

  /** The header exists and has been linked to a submitter record. */
  predicate SubmitterLinked(doc: Document)
  {
    doc.header.Some? && doc.header.value.submitter.Some?
  }

  /** Parsing only adds: the header never disappears, and no record or event list shrinks. */
  predicate Grows(d: Document, d': Document)
  {
    && (d.header.Some? ==> d'.header.Some?)
    && |d.submitters| <= |d'.submitters|
    && |d.individuals| <= |d'.individuals|
    && |d.families| <= |d'.families|
    && (forall i :: 0 <= i < |d.individuals| ==> |d.individuals[i].events| <= |d'.individuals[i].events|)
    && (forall f :: 0 <= f < |d.families| ==> |d.families[f].events| <= |d'.families[f].events|)
  }

  /** A slot stays usable while the document grows. */
  lemma CoherentKept(s: Scope, d: Document, d': Document)
    requires Coherent(s, d) && Grows(d, d')
    ensures Coherent(s, d')
  {
    if s.enter.value == EventEnter {
      match s.receiver.value.owner
      case OfIndividual(i) => assert |d.individuals[i].events| <= |d'.individuals[i].events|;
      case OfFamily(f) => assert |d.families[f].events| <= |d'.families[f].events|;
    }
  }

  lemma GrowsTransitive(d1: Document, d2: Document, d3: Document)
    requires Grows(d1, d2) && Grows(d2, d3)
    ensures Grows(d1, d3)
  {
  }

  /** What a handler below the top level and the header promises about its outcome: the
      document only grows, the header is untouched, unresolved links stay unresolved, and
      the slot it leaves below is installable and holds no header handler. */
  predicate RecordStep(doc: Document, o: Outcome)
  {
    && Grows(doc, o.doc) && Installable(o.next, o.doc)
    && o.doc.header == doc.header && !IsHeaderHandler(o.next)
    && (Unlinked(doc) ==> Unlinked(o.doc))
    && (HeaderLinkValid(doc) ==> HeaderLinkValid(o.doc))
  }

  /** Marks the rest of the next slot as skip-all: what every record handler does first. */
  function SkipBelow(next: Scope): Scope
  {
    next.(enter := Some(SkipAll))
  }

  // ---------------------------------------------------------------------
  // Skip-all

  /** SkipAllReceiver, as the code is evidently meant to behave: the line is consumed
      and the next slot gets the skip-all handler, so a whole unknown subtree is skipped. */
  function SkipAllEnter(doc: Document, next: Scope): (r: Result<Outcome, GedcomError>)
    ensures r.Success? && r.value.doc == doc
    ensures r.value.next.enter == Some(SkipAll) && RecordStep(doc, r.value)
  {
    Success(Outcome(doc, SkipBelow(next)))
  }

  /** SkipAllReceiver as written: it stores its own address as the next slot's receiver
      and leaves the next slot's handler as it was. */
  function SkipAllAsWritten(next: Scope): (r: Scope)
    ensures r.enter == next.enter && r.receiver == Some(SkipAllAddress)
  {
    next.(receiver := Some(SkipAllAddress))
  }

  /** What the as-written SkipAllReceiver leaves in the next slot is no usable slot
      unless that slot already held the skip-all handler: a slot never written stays
      without handler, and a slot left over from an earlier record pairs its handler
      with a receiver that is a function address. The evident intent always yields a
      usable skip-all slot. */
  lemma SkipAllAsWrittenBreaksNextSlot(doc: Document, next: Scope)
    ensures next.enter != Some(SkipAll) ==> !Coherent(SkipAllAsWritten(next), doc)
    ensures Coherent(SkipAllEnter(doc, next).value.next, doc)
  {
  }

  // ---------------------------------------------------------------------
  // Fields

  /** parseAsField: an opaque field whose tag is word 1 and whose value is the rest
      of the line after it, verbatim; no field when the line has no word 1. */
  function ParseAsField(line: string): (r: Option<Field>)
    ensures r.Some? <==> GetWord(line, 1).0.Some?
    ensures r.Some? ==> Some(r.value.tag) == GetWord(line, 1).0
    ensures r.Some? ==> r.value.value == Remainder(line, 1)
  {
    var (w, end) := GetWord(line, 1);
    match w
    case None => None
    case Some(tag) => Some(Field(tag, line[end..]))
  }

  // ---------------------------------------------------------------------
  // Header

  /** HeaderGEDCEnter (level 2 under GEDC): a line needs a tag and a value, or it is a
      header error; `VERS` sets whether the version is nonzero; nothing else changes. */
  function HeaderGedcEnterH(doc: Document, line: string, next: Scope): (r: Result<Outcome, GedcomError>)
    requires doc.header.Some?
    ensures r.Failure? <==> GetTwoWords(line).None?
    ensures r.Failure? ==> r.error == GedcomError(InvHeader, 0)
    ensures r.Success? ==> r.value.doc.header.Some?
                           && r.value.doc.header.value.(versionNonzero := doc.header.value.versionNonzero) == doc.header.value
                           && r.value.doc.(header := doc.header) == doc
    ensures r.Success? && GetTwoWords(line).value.0 == "VERS" ==>
              r.value.doc.header.value.versionNonzero == NonzeroDecimal(GetTwoWords(line).value.1)
    ensures r.Success? ==> Installable(r.value.next, r.value.doc)
    ensures r.Success? ==> r.value.doc.header.value.submitter == doc.header.value.submitter
  {
    match GetTwoWords(line)
    case None => Fail(InvHeader, 0)
    case Some((tag, value)) =>
      var h := doc.header.value;
      var h' := if tag == "VERS" then h.(versionNonzero := NonzeroDecimal(value)) else h;
      Success(Outcome(doc.(header := Some(h')), SkipBelow(next)))
  }

  /** HeaderEnter (level 1 under HEAD): GEDC descends into the version handler; SOUR,
      SUBM and CHAR need a value (else a header error) and set the source, the
      submitter id and the encoding; an unknown CHAR value is a header error; any other
      tag becomes an opaque header field. A line without tag is a header error. */
  function HeaderEnterH(doc: Document, line: string, next: Scope): (r: Result<Outcome, GedcomError>)
    requires doc.header.Some?
    ensures GetWord(line, 1).0.None? ==> r == Fail(InvHeader, 0)
    ensures r.Failure? ==> r.error == GedcomError(InvHeader, 0)
    ensures r.Success? ==> r.value.doc.header.Some? && r.value.doc.(header := doc.header) == doc
    ensures r.Success? && GetWord(line, 1).0 == Some("CHAR") ==>
              r.value.doc.header.value.encoding.Some?
              && Some(EncodingName(r.value.doc.header.value.encoding.value)) == GetWord(line, 2).0
    ensures r.Success? && GetWord(line, 1).0 == Some("GEDC") ==>
              r.value.next == Scope(Some(HeaderRx), Some(HeaderGedcEnter))
    ensures r.Success? ==> Installable(r.value.next, r.value.doc)
    ensures r.Success? ==> r.value.doc.header.value.submitter == doc.header.value.submitter
  {
    var h := doc.header.value;
    match GetWord(line, 1).0
    case None => Fail(InvHeader, 0)
    case Some(tag) =>
      if tag == "GEDC" then Success(Outcome(doc, Scope(Some(HeaderRx), Some(HeaderGedcEnter))))
      else if tag == "SUBM" || tag == "SOUR" || tag == "CHAR" then
        match GetWord(line, 2).0
        case None => Fail(InvHeader, 0)
        case Some(value) =>
          if tag == "SUBM" then
            Success(Outcome(doc.(header := Some(h.(submitterId := value))), SkipBelow(next)))
          else if tag == "SOUR" then
            Success(Outcome(doc.(header := Some(h.(source := value))), SkipBelow(next)))
          else
            match ParseEncoding(value)
            case Failure(_) => Fail(InvHeader, 0)
            case Success(c) => Success(Outcome(doc.(header := Some(h.(encoding := Some(c)))), SkipBelow(next)))
      else
        var field := ParseAsField(line).value;
        Success(Outcome(doc.(header := Some(h.(otherFields := h.otherFields + [field]))), SkipBelow(next)))
  }

  /** What each header line does: a line fails exactly when it has no tag, when SUBM,
      SOUR or CHAR has no value, or when the CHAR value names no character set. GEDC
      descends into the version handler; SUBM sets the submitter id and SOUR the
      source to word 2; CHAR sets the encoding to the character set word 2 names; any
      other tag appends word 1 as a field tag with the rest of the line as its value.
      The lines that do not descend mark the next slot skip-all. */
  lemma HeaderEnterEffects(doc: Document, line: string, next: Scope)
    requires doc.header.Some?
    ensures var r := HeaderEnterH(doc, line, next);
            var tag := GetWord(line, 1).0;
            var value := GetWord(line, 2).0;
            var h := doc.header.value;
            && (r.Failure? <==> tag.None? || (tag.value in {"SUBM", "SOUR", "CHAR"} && value.None?)
                                || (tag == Some("CHAR") && value.Some? && ParseEncoding(value.value).Failure?))
            && (tag == Some("GEDC") ==> r == Success(Outcome(doc, Scope(Some(HeaderRx), Some(HeaderGedcEnter)))))
            && (tag == Some("SUBM") && value.Some? ==>
                  r == Success(Outcome(doc.(header := Some(h.(submitterId := value.value))), SkipBelow(next))))
            && (tag == Some("SOUR") && value.Some? ==>
                  r == Success(Outcome(doc.(header := Some(h.(source := value.value))), SkipBelow(next))))
            && (tag == Some("CHAR") && value.Some? && ParseEncoding(value.value).Success? ==>
                  r == Success(Outcome(doc.(header := Some(h.(encoding := Some(ParseEncoding(value.value).value)))),
                                       SkipBelow(next))))
            && (tag.Some? && tag.value !in {"GEDC", "SUBM", "SOUR", "CHAR"} ==>
                  r == Success(Outcome(doc.(header := Some(h.(otherFields := h.otherFields + [Field(tag.value, Remainder(line, 1))]))),
                                       SkipBelow(next))))
  {
  }

  // ---------------------------------------------------------------------
  // Events

  function GetEvent(doc: Document, owner: Owner, e: nat): Event
    requires EventExists(doc, owner, e)
  {
    match owner
    case OfIndividual(i) => doc.individuals[i].events[e]
    case OfFamily(f) => doc.families[f].events[e]
  }

  /** The document with one event replaced, and nothing else changed. */
  function PutEvent(doc: Document, owner: Owner, e: nat, ev: Event): (d: Document)
    requires EventExists(doc, owner, e)
    ensures Grows(doc, d) && Grows(d, doc)
    ensures EventExists(d, owner, e) && GetEvent(d, owner, e) == ev
    ensures d.header == doc.header && d.submitters == doc.submitters
    ensures Unlinked(doc) ==> Unlinked(d)
  {
    match owner
    case OfIndividual(i) =>
      var ind := doc.individuals[i];
      PutIndividual(doc, i, ind.(events := ind.events[e := ev]))
    case OfFamily(f) =>
      var fam := doc.families[f];
      PutFamily(doc, f, fam.(events := fam.events[e := ev]))
  }

  predicate OwnerExists(doc: Document, owner: Owner)
  {
    match owner
    case OfIndividual(i) => i < |doc.individuals|
    case OfFamily(f) => f < |doc.families|
  }

  function EventsOf(doc: Document, owner: Owner): seq<Event>
    requires OwnerExists(doc, owner)
  {
    match owner
    case OfIndividual(i) => doc.individuals[i].events
    case OfFamily(f) => doc.families[f].events
  }

  /** `d` differs from `doc` at most in event `e` of `owner`: the header, the submitters,
      every other record, the owner's other fields and its other events are the same. */
  predicate OnlyEventChanged(doc: Document, d: Document, owner: Owner, e: nat)
  {
    && d.header == doc.header && d.submitters == doc.submitters
    && |d.individuals| == |doc.individuals| && |d.families| == |doc.families|
    && (forall i :: 0 <= i < |doc.individuals| && owner != OfIndividual(i) ==> d.individuals[i] == doc.individuals[i])
    && (forall f :: 0 <= f < |doc.families| && owner != OfFamily(f) ==> d.families[f] == doc.families[f])
    && OwnerExists(doc, owner)
    && (match owner
        case OfIndividual(i) => d.individuals[i].(events := doc.individuals[i].events) == doc.individuals[i]
        case OfFamily(f) => d.families[f].(events := doc.families[f].events) == doc.families[f])
    && |EventsOf(d, owner)| == |EventsOf(doc, owner)|
    && forall k :: 0 <= k < |EventsOf(doc, owner)| && k != e ==> EventsOf(d, owner)[k] == EventsOf(doc, owner)[k]
  }

  /** Replacing one event leaves everything else in the document as it was. */
  lemma PutEventFrame(doc: Document, owner: Owner, e: nat, ev: Event)
    requires EventExists(doc, owner, e)
    ensures OnlyEventChanged(doc, PutEvent(doc, owner, e, ev), owner, e)
  {
  }

  /** The value text of an event subline: the rest after the tag, leading whitespace
      skipped and trailing CR/LF removed. */
  function EventValue(line: string): string
  {
    var end := GetWord(line, 1).1;
    DropTrailingNewlines(line[SkipSpaces(line, end)..])
  }

  function DropTrailingNewlines(s: string): (r: string)
    ensures |r| <= |s| && r == s[..|r|]
    ensures |r| > 0 ==> !IsNewline(r[|r| - 1])
  {
    if |s| > 0 && IsNewline(s[|s| - 1]) then DropTrailingNewlines(s[..|s| - 1]) else s
  }

  /** EnterEvent (one level below an event tag): DATE and PLAC set the date and place to
      the line's value; TYPE sets the event type to the literal tag `TYPE`; any other tag
      becomes an opaque field; a line without tag is a record error. Only this event changes. */
  function EnterEventH(doc: Document, owner: Owner, e: nat, line: string, next: Scope): (r: Result<Outcome, GedcomError>)
    requires EventExists(doc, owner, e)
    ensures r.Failure? <==> GetWord(line, 1).0.None?
    ensures r.Failure? ==> r.error == GedcomError(InvRecord, 0)
    ensures r.Success? ==> Grows(doc, r.value.doc) && Grows(r.value.doc, doc)
                           && EventExists(r.value.doc, owner, e)
    ensures r.Success? && GetWord(line, 1).0 == Some("DATE") ==>
              GetEvent(r.value.doc, owner, e) == GetEvent(doc, owner, e).(date := Some(EventValue(line)))
    ensures r.Success? && GetWord(line, 1).0 == Some("PLAC") ==>
              GetEvent(r.value.doc, owner, e) == GetEvent(doc, owner, e).(place := Some(EventValue(line)))
    ensures r.Success? && GetWord(line, 1).0 == Some("TYPE") ==>
              GetEvent(r.value.doc, owner, e).eventType == "TYPE"
    ensures r.Success? ==> RecordStep(doc, r.value)
  {
    var ev := GetEvent(doc, owner, e);
    var value := EventValue(line);
    match GetWord(line, 1).0
    case None => Fail(InvRecord, 0)
    case Some(tag) =>
      var ev' :=
        if tag == "TYPE" then ev.(eventType := tag)
        else if tag == "PLAC" then ev.(place := Some(value))
        else if tag == "DATE" then ev.(date := Some(value))
        else ev.(otherFields := ev.otherFields + [Field(tag, value)]);
      Success(Outcome(PutEvent(doc, owner, e, ev'), SkipBelow(next)))
  }

  /** The tags that open an event: `EVEN` and the five standard event tags. */
  predicate IsEventTag(tag: string)
  {
    tag == "EVEN" || IsStandardEvent(tag)
  }

  /** How the individual and family handlers treat a level-1 tag, in the order they test them. */
  datatype TagKind = NameTag | LinkTag | EventTag | PlainTag

  function IndiTagKind(tag: string): (k: TagKind)
    ensures k == NameTag <==> tag == "NAME"
    ensures k == LinkTag <==> tag == "FAMS" || tag == "FAMC"
    ensures k == EventTag <==> IsEventTag(tag)
  {
    if tag == "NAME" then NameTag
    else if tag == "FAMS" || tag == "FAMC" then LinkTag
    else if IsEventTag(tag) then EventTag
    else PlainTag
  }

  datatype FamilyTag = MemberTag | FamilyEventTag | FamilyPlainTag

  function FamilyTagKind(tag: string): (k: FamilyTag)
    ensures k == MemberTag <==> tag == "HUSB" || tag == "WIFE" || tag == "CHIL"
    ensures k == FamilyEventTag <==> IsEventTag(tag)
  {
    if tag == "HUSB" || tag == "WIFE" || tag == "CHIL" then MemberTag
    else if IsEventTag(tag) then FamilyEventTag
    else FamilyPlainTag
  }

  /** What a successful event line does: only this event changes, and the next slot is
      marked skip-all. TYPE sets the event type to `TYPE` and leaves the rest of the
      event; a tag other than DATE, PLAC and TYPE appends a field with that tag and the
      line's value text. */
  lemma EnterEventEffects(doc: Document, owner: Owner, e: nat, line: string, next: Scope)
    requires EventExists(doc, owner, e) && EnterEventH(doc, owner, e, line, next).Success?
    ensures var o := EnterEventH(doc, owner, e, line, next).value;
            var ev := GetEvent(doc, owner, e);
            var tag := GetWord(line, 1).0.value;
            && EventExists(o.doc, owner, e)
            && o.doc == PutEvent(doc, owner, e, GetEvent(o.doc, owner, e))
            && OnlyEventChanged(doc, o.doc, owner, e)
            && o.next == SkipBelow(next)
            && (tag == "TYPE" ==> GetEvent(o.doc, owner, e) == ev.(eventType := "TYPE"))
            && (tag !in {"DATE", "PLAC", "TYPE"} ==>
                  GetEvent(o.doc, owner, e) == ev.(otherFields := ev.otherFields + [Field(tag, EventValue(line))]))
  {
    var o := EnterEventH(doc, owner, e, line, next).value;
    var tag := GetWord(line, 1).0.value;
    var ev := GetEvent(doc, owner, e);
    var value := EventValue(line);
    var ev' :=
      if tag == "TYPE" then ev.(eventType := tag)
      else if tag == "PLAC" then ev.(place := Some(value))
      else if tag == "DATE" then ev.(date := Some(value))
      else ev.(otherFields := ev.otherFields + [Field(tag, value)]);
    assert o.doc == PutEvent(doc, owner, e, ev');
    PutEventFrame(doc, owner, e, ev');
  }

  // ---------------------------------------------------------------------
  // Individuals

  /** The document with individual `i` replaced, and nothing else changed. */
  function PutIndividual(doc: Document, i: nat, ind: Individual): (d: Document)
    requires i < |doc.individuals|
    ensures |d.individuals| == |doc.individuals| && d.(individuals := doc.individuals) == doc
    ensures d.individuals[i] == ind
    ensures forall j :: 0 <= j < |doc.individuals| && j != i ==> d.individuals[j] == doc.individuals[j]
    ensures |doc.individuals[i].events| <= |ind.events| ==> Grows(doc, d)
    ensures Unlinked(doc) && ind.families == [] ==> Unlinked(d)
  {
    doc.(individuals := doc.individuals[i := ind])
  }

  /** IndiEnter (level 1 under INDI): NAME sets given name and surname; FAMS and FAMC
      record the family id for later resolution (a missing id is a record error); an
      event tag appends a new event of that type and descends into it; any other tag
      becomes an opaque field. Only this individual changes. */
  function IndiEnterH(doc: Document, i: nat, line: string, next: Scope): (r: Result<Outcome, GedcomError>)
    requires i < |doc.individuals|
    ensures r.Failure? <==> GetWord(line, 1).0.None?
                            || (GetWord(line, 1).0 in {Some("FAMS"), Some("FAMC")} && GetWord(line, 2).0.None?)
    ensures r.Failure? ==> r.error == GedcomError(InvRecord, 0)
    ensures r.Success? ==> RecordStep(doc, r.value)
  {
    var ind := doc.individuals[i];
    match GetWord(line, 1).0
    case None => Fail(InvRecord, 0)
    case Some(tag) =>
      match UpdateIndividual(ind, tag, line)
      case None => Fail(InvRecord, 0)
      case Some(ind') =>
        var next' := if IsEventTag(tag) then Scope(Some(EventRx(OfIndividual(i), |ind.events|)), Some(EventEnter))
                     else SkipBelow(next);
        IndividualStep(doc, i, ind', next');
        Success(Outcome(PutIndividual(doc, i, ind'), next'))
  }

  /** Replacing an individual by one with the same family links and no fewer events is a
      record step, whatever installable non-header slot it leaves below. */
  lemma IndividualStep(doc: Document, i: nat, ind: Individual, next: Scope)
    requires i < |doc.individuals|
    requires ind.families == doc.individuals[i].families && |doc.individuals[i].events| <= |ind.events|
    requires Installable(next, PutIndividual(doc, i, ind)) && !IsHeaderHandler(next)
    ensures RecordStep(doc, Outcome(PutIndividual(doc, i, ind), next))
  {
  }

  /** What a successful IndiEnter line does to the document: only individual `i` changes;
      NAME sets its names, FAMS and FAMC append the family id, and an event tag appends a
      new event of that type and descends into it. */
  lemma IndiEnterEffects(doc: Document, i: nat, line: string, next: Scope)
    requires i < |doc.individuals| && IndiEnterH(doc, i, line, next).Success?
    ensures var o := IndiEnterH(doc, i, line, next).value;
            && |o.doc.individuals| == |doc.individuals|
            && o.doc.(individuals := doc.individuals) == doc
            && (forall j :: 0 <= j < |doc.individuals| && j != i ==> o.doc.individuals[j] == doc.individuals[j])
            && (GetWord(line, 1).0 == Some("NAME") ==>
                  (o.doc.individuals[i].givenName, o.doc.individuals[i].surname) == ParseNames(line))
            && (GetWord(line, 1).0 in {Some("FAMS"), Some("FAMC")} ==>
                  o.doc.individuals[i].familyIds == doc.individuals[i].familyIds + [GetWord(line, 2).0.value])
            && (IsEventTag(GetWord(line, 1).0.value) ==>
                  o.doc.individuals[i].events == doc.individuals[i].events + [NewEvent(GetWord(line, 1).0.value)]
                  && o.next == Scope(Some(EventRx(OfIndividual(i), |doc.individuals[i].events|)), Some(EventEnter)))
  {
  }

  /** The individual after one of its level-1 lines with tag `tag`; None when a FAMS or
      FAMC line has no id. Resolved family links and, except for an event tag, the
      events are left alone. */
  function UpdateIndividual(ind: Individual, tag: string, line: string): (r: Option<Individual>)
    requires GetWord(line, 1).0 == Some(tag)
    ensures r.None? <==> IndiTagKind(tag) == LinkTag && GetWord(line, 2).0.None?
    ensures r.Some? ==> r.value.families == ind.families
    ensures r.Some? && tag == "NAME" ==> (r.value.givenName, r.value.surname) == ParseNames(line)
    ensures r.Some? && (tag == "FAMS" || tag == "FAMC") ==>
              GetWord(line, 2).0.Some? && r.value.familyIds == ind.familyIds + [GetWord(line, 2).0.value]
    ensures r.Some? && IsEventTag(tag) ==> r.value.events == ind.events + [NewEvent(tag)]
    ensures r.Some? && !IsEventTag(tag) ==> r.value.events == ind.events
  {
    match IndiTagKind(tag)
    case NameTag =>
      var (given, surname) := ParseNames(line);
      Some(ind.(givenName := given, surname := surname))
    case LinkTag =>
      match GetWord(line, 2).0 {
        case None => None
        case Some(id) => Some(ind.(familyIds := ind.familyIds + [id]))
      }
    case EventTag => Some(ind.(events := ind.events + [NewEvent(tag)]))
    case PlainTag => Some(ind.(otherFields := ind.otherFields + [ParseAsField(line).value]))
  }

  // ---------------------------------------------------------------------
  // Families

  /** The document with family `f` replaced, and nothing else changed. */
  function PutFamily(doc: Document, f: nat, fam: Family): (d: Document)
    requires f < |doc.families|
    ensures |d.families| == |doc.families| && d.(families := doc.families) == doc
    ensures d.families[f] == fam
    ensures forall j :: 0 <= j < |doc.families| && j != f ==> d.families[j] == doc.families[j]
    ensures |doc.families[f].events| <= |fam.events| ==> Grows(doc, d)
    ensures Unlinked(doc) && fam.husband.None? && fam.wife.None? && fam.children == [] ==> Unlinked(d)
  {
    doc.(families := doc.families[f := fam])
  }

  /** FamilyEnter (level 1 under FAM): HUSB and WIFE record the spouse id (replacing an
      earlier one), CHIL appends a child id, each needing an id or it is a record error;
      an event tag appends a new event and descends into it; any other tag becomes an
      opaque field. Only this family changes. */
  function FamilyEnterH(doc: Document, f: nat, line: string, next: Scope): (r: Result<Outcome, GedcomError>)
    requires f < |doc.families|
    ensures r.Failure? <==> GetWord(line, 1).0.None?
                            || (GetWord(line, 1).0 in {Some("HUSB"), Some("WIFE"), Some("CHIL")}
                                && GetWord(line, 2).0.None?)
    ensures r.Failure? ==> r.error == GedcomError(InvRecord, 0)
    ensures r.Success? ==> RecordStep(doc, r.value)
  {
    var fam := doc.families[f];
    match GetWord(line, 1).0
    case None => Fail(InvRecord, 0)
    case Some(tag) =>
      match UpdateFamily(fam, tag, line)
      case None => Fail(InvRecord, 0)
      case Some(fam') =>
        var next' := if IsEventTag(tag) then Scope(Some(EventRx(OfFamily(f), |fam.events|)), Some(EventEnter))
                     else SkipBelow(next);
        FamilyStep(doc, f, fam', next');
        Success(Outcome(PutFamily(doc, f, fam'), next'))
  }

  /** Replacing a family by one with the same resolved links and no fewer events is a
      record step, whatever installable non-header slot it leaves below. */
  lemma FamilyStep(doc: Document, f: nat, fam: Family, next: Scope)
    requires f < |doc.families|
    requires fam.husband == doc.families[f].husband && fam.wife == doc.families[f].wife
    requires fam.children == doc.families[f].children && |doc.families[f].events| <= |fam.events|
    requires Installable(next, PutFamily(doc, f, fam)) && !IsHeaderHandler(next)
    ensures RecordStep(doc, Outcome(PutFamily(doc, f, fam), next))
  {
  }

  /** What a successful FamilyEnter line does to the document: only family `f` changes;
      HUSB and WIFE set the spouse id, CHIL appends a child id, and an event tag appends a
      new event of that type and descends into it. */
  lemma FamilyEnterEffects(doc: Document, f: nat, line: string, next: Scope)
    requires f < |doc.families| && FamilyEnterH(doc, f, line, next).Success?
    ensures var o := FamilyEnterH(doc, f, line, next).value;
            && |o.doc.families| == |doc.families|
            && o.doc.(families := doc.families) == doc
            && (forall j :: 0 <= j < |doc.families| && j != f ==> o.doc.families[j] == doc.families[j])
            && (GetWord(line, 1).0 == Some("HUSB") ==> o.doc.families[f].husbandId == GetWord(line, 2).0)
            && (GetWord(line, 1).0 == Some("WIFE") ==> o.doc.families[f].wifeId == GetWord(line, 2).0)
            && (GetWord(line, 1).0 == Some("CHIL") ==>
                  o.doc.families[f].childIds == doc.families[f].childIds + [GetWord(line, 2).0.value])
            && (IsEventTag(GetWord(line, 1).0.value) ==>
                  o.doc.families[f].events == doc.families[f].events + [NewEvent(GetWord(line, 1).0.value)]
                  && o.next == Scope(Some(EventRx(OfFamily(f), |doc.families[f].events|)), Some(EventEnter)))
  {
  }

  /** The family after one of its level-1 lines with tag `tag`; None when a HUSB, WIFE or
      CHIL line has no id. Resolved links and, except for an event tag, the events are
      left alone. */
  function UpdateFamily(fam: Family, tag: string, line: string): (r: Option<Family>)
    requires GetWord(line, 1).0 == Some(tag)
    ensures r.None? <==> FamilyTagKind(tag) == MemberTag && GetWord(line, 2).0.None?
    ensures r.Some? ==> r.value.husband == fam.husband && r.value.wife == fam.wife
                        && r.value.children == fam.children
    ensures r.Some? && tag == "HUSB" ==> r.value.husbandId == GetWord(line, 2).0
    ensures r.Some? && tag == "WIFE" ==> r.value.wifeId == GetWord(line, 2).0
    ensures r.Some? && tag == "CHIL" ==>
              GetWord(line, 2).0.Some? && r.value.childIds == fam.childIds + [GetWord(line, 2).0.value]
    ensures r.Some? && IsEventTag(tag) ==> r.value.events == fam.events + [NewEvent(tag)]
    ensures r.Some? && !IsEventTag(tag) ==> r.value.events == fam.events
  {
    match FamilyTagKind(tag)
    case MemberTag =>
      match GetWord(line, 2).0 {
        case None => None
        case Some(id) =>
          if tag == "HUSB" then Some(fam.(husbandId := Some(id)))
          else if tag == "WIFE" then Some(fam.(wifeId := Some(id)))
          else Some(fam.(childIds := fam.childIds + [id]))
      }
    case FamilyEventTag => Some(fam.(events := fam.events + [NewEvent(tag)]))
    case FamilyPlainTag => Some(fam.(otherFields := fam.otherFields + [ParseAsField(line).value]))
  }

  // ---------------------------------------------------------------------
  // Submitter

  /** The document with its current (last) submitter replaced. */
  function PutSubmitter(doc: Document, s: Submitter): (d: Document)
    requires |doc.submitters| > 0
    ensures Grows(doc, d) && Grows(d, doc)
    ensures CurrentSubmitter(d) == Some(s)
    ensures d.header == doc.header && d.(submitters := doc.submitters) == doc
    ensures d.submitters[..|doc.submitters| - 1] == doc.submitters[..|doc.submitters| - 1]
    ensures Unlinked(doc) ==> Unlinked(d)
  {
    doc.(submitters := doc.submitters[|doc.submitters| - 1 := s])
  }

  /** SubmitterAddressReceiver (below ADDR): every line, whatever its tag, appends a new
      address line `tag = value`; a line without tag is a record error. */
  function AddressEnterH(doc: Document, line: string, next: Scope): (r: Result<Outcome, GedcomError>)
    requires |doc.submitters| > 0
    ensures r.Failure? <==> GetWord(line, 1).0.None?
    ensures r.Failure? ==> r.error == GedcomError(InvRecord, 0)
    ensures r.Success? ==>
              var sub := CurrentSubmitter(doc).value;
              CurrentSubmitter(r.value.doc) == Some(sub.(address :=
                sub.address + "\n" + GetWord(line, 1).0.value + " = " + Remainder(line, 1)))
    ensures r.Success? ==> RecordStep(doc, r.value)
  {
    var sub := CurrentSubmitter(doc).value;
    match GetWord(line, 1).0
    case None => Fail(InvRecord, 0)
    case Some(tag) =>
      var sub' := sub.(address := sub.address + "\n" + tag + " = " + Remainder(line, 1));
      Success(Outcome(PutSubmitter(doc, sub'), SkipBelow(next)))
  }

  /** EnterSubmitter (level 1 under SUBM): NAME sets the name to word 2 (a missing word is
      a record error); ADDR appends `ADDR = value` to the address and descends into the
      address continuation handler; any other tag becomes an opaque field. */
  function SubmitterEnterH(doc: Document, line: string, next: Scope): (r: Result<Outcome, GedcomError>)
    requires |doc.submitters| > 0
    ensures r.Failure? <==> GetWord(line, 1).0.None? || (GetWord(line, 1).0 == Some("NAME") && GetWord(line, 2).0.None?)
    ensures r.Failure? ==> r.error == GedcomError(InvRecord, 0)
    ensures r.Success? ==> RecordStep(doc, r.value)
  {
    var sub := CurrentSubmitter(doc).value;
    match GetWord(line, 1).0
    case None => Fail(InvRecord, 0)
    case Some(tag) =>
      match UpdateSubmitter(sub, tag, line)
      case None => Fail(InvRecord, 0)
      case Some(sub') =>
        var next' := if tag == "ADDR" then Scope(Some(DocumentRx), Some(AddressEnter)) else SkipBelow(next);
        Success(Outcome(PutSubmitter(doc, sub'), next'))
  }

  /** What a successful EnterSubmitter line does: the current submitter is the only thing
      that changes; NAME sets its name to word 2, and ADDR appends `ADDR = value` to its
      address and descends into the address continuation handler. */
  lemma SubmitterEnterEffects(doc: Document, line: string, next: Scope)
    requires |doc.submitters| > 0 && SubmitterEnterH(doc, line, next).Success?
    ensures var o := SubmitterEnterH(doc, line, next).value;
            && |o.doc.submitters| == |doc.submitters|
            && o.doc.(submitters := doc.submitters) == doc
            && o.doc.submitters[..|doc.submitters| - 1] == doc.submitters[..|doc.submitters| - 1]
            && (GetWord(line, 1).0 == Some("NAME") ==>
                  CurrentSubmitter(o.doc).value.name == GetWord(line, 2).0.value)
            && (GetWord(line, 1).0 == Some("ADDR") ==>
                  o.next == Scope(Some(DocumentRx), Some(AddressEnter))
                  && CurrentSubmitter(o.doc).value.address
                     == CurrentSubmitter(doc).value.address + "ADDR = " + Remainder(line, 1))
  {
  }

  /** The submitter after one of its level-1 lines with tag `tag`; None when a NAME line
      has no word 2. */
  function UpdateSubmitter(sub: Submitter, tag: string, line: string): (r: Option<Submitter>)
    requires GetWord(line, 1).0 == Some(tag)
    ensures r.None? <==> tag == "NAME" && GetWord(line, 2).0.None?
    ensures r.Some? && tag == "NAME" ==> r.value == sub.(name := GetWord(line, 2).0.value)
    ensures r.Some? && tag == "ADDR" ==> r.value == sub.(address := sub.address + "ADDR = " + Remainder(line, 1))
    ensures r.Some? && tag != "NAME" && tag != "ADDR" ==>
              r.value.name == sub.name && r.value.address == sub.address
              && r.value.otherFields == sub.otherFields + [ParseAsField(line).value]
  {
    if tag == "NAME" then
      match GetWord(line, 2).0
      case None => None
      case Some(name) => Some(sub.(name := name))
    else if tag == "ADDR" then
      Some(sub.(address := sub.address + tag + " = " + Remainder(line, 1)))
    else
      Some(sub.(otherFields := sub.otherFields + [ParseAsField(line).value]))
  }

  // ---------------------------------------------------------------------
  // Top level

  /** GEDCOMobjectEnter (level 0). `HEAD` starts a fresh header and descends into it.
      Every other record needs a header (else INV_GEDCOM) that is complete (else
      INV_HEADER) and a record type as word 2 (else INV_GEDCOM); INDI, FAM and SUBM
      append a new record with word 1 as its id and descend into it, a SUBM whose id is
      the header's submitter id becoming the header's submitter; any other record type
      leaves document and next slot alone. */
  function ObjectEnterH(doc: Document, line: string, next: Scope): (r: Result<Outcome, GedcomError>)
    requires doc.header.Some? ==> Installable(next, doc)
    ensures GetWord(line, 1).0.None? ==> r == Fail(InvGedcom, 0)
    ensures r.Failure? ==> r.error.kind in {InvGedcom, InvHeader}
    ensures r.Success? && GetWord(line, 1).0 != Some("HEAD") ==>
              doc.header.Some? && HeaderComplete(doc.header.value) && GetWord(line, 2).0.Some?
    ensures GetWord(line, 1).0.Some? && GetWord(line, 1).0 != Some("HEAD") && doc.header.None? ==>
              r == Fail(InvGedcom, -1)
    ensures (GetWord(line, 1).0.Some? && GetWord(line, 1).0 != Some("HEAD") && doc.header.Some?
             && !HeaderComplete(doc.header.value)) ==> r == Fail(InvHeader, -1)
    ensures r.Success? && GetWord(line, 1).0 == Some("HEAD") ==>
              r.value.doc == doc.(header := Some(NewHeader()))
              && r.value.next == Scope(Some(HeaderRx), Some(HeaderEnter))
    ensures r.Success? && GetWord(line, 1).0 != Some("HEAD") && GetWord(line, 2).0 == Some("INDI") ==>
              r.value.doc == doc.(individuals := doc.individuals + [NewIndividual(GetWord(line, 1).0.value)])
    ensures r.Success? && GetWord(line, 1).0 != Some("HEAD") && GetWord(line, 2).0 == Some("FAM") ==>
              r.value.doc == doc.(families := doc.families + [NewFamily(GetWord(line, 1).0.value)])
    ensures r.Success? && GetWord(line, 1).0 != Some("HEAD") && GetWord(line, 2).0 == Some("SUBM") ==>
              CurrentSubmitter(r.value.doc) == Some(NewSubmitter()) && r.value.doc.header.Some?
              && (if GetWord(line, 1).0.value == doc.header.value.submitterId
                  then r.value.doc.header.value.submitter == Some(|doc.submitters|)
                  else r.value.doc.header == doc.header)
    ensures r.Success? ==> Grows(doc, r.value.doc) && Installable(r.value.next, r.value.doc)
    ensures r.Success? && Unlinked(doc) ==> Unlinked(r.value.doc)
    ensures r.Success? && HeaderLinkValid(doc) ==> HeaderLinkValid(r.value.doc)
    ensures r.Success? && SubmitterLinked(r.value.doc) ==>
              HeaderComplete(r.value.doc.header.value)
              && (!IsHeaderHandler(r.value.next) || (r.value.next == next && SubmitterLinked(doc)))
  {
    match GetWord(line, 1).0
    case None => Fail(InvGedcom, 0)
    case Some(word) =>
      if word == "HEAD" then
        Success(Outcome(doc.(header := Some(NewHeader())), Scope(Some(HeaderRx), Some(HeaderEnter))))
      else if doc.header.None? then Fail(InvGedcom, -1)
      else if !HeaderComplete(doc.header.value) then Fail(InvHeader, -1)
      else
        match GetWord(line, 2).0
        case None => Fail(InvGedcom, 0)
        case Some(kind) => Success(OpenRecord(doc, word, kind, next))
  }

  /** A level-0 record line past the header checks: INDI, FAM and SUBM open a new record
      with the given id and descend into it; any other record type changes nothing. */
  function OpenRecord(doc: Document, id: string, kind: string, next: Scope): (o: Outcome)
    requires doc.header.Some? && HeaderComplete(doc.header.value) && Installable(next, doc)
    ensures kind == "INDI" ==> o.doc == doc.(individuals := doc.individuals + [NewIndividual(id)])
                               && o.next == Scope(Some(IndividualRx(|doc.individuals|)), Some(IndiEnter))
    ensures kind == "FAM" ==> o.doc == doc.(families := doc.families + [NewFamily(id)])
                              && o.next == Scope(Some(FamilyRx(|doc.families|)), Some(FamilyEnter))
    ensures kind == "SUBM" ==>
              CurrentSubmitter(o.doc) == Some(NewSubmitter()) && o.doc.header.Some?
              && (if id == doc.header.value.submitterId
                  then o.doc.header.value.submitter == Some(|doc.submitters|)
                  else o.doc.header == doc.header)
    ensures kind !in {"INDI", "FAM", "SUBM"} ==> o == Outcome(doc, next)
    ensures o.doc.header.Some? && o.doc.header.value.(submitter := doc.header.value.submitter) == doc.header.value
    ensures Grows(doc, o.doc) && Installable(o.next, o.doc)
    ensures Unlinked(doc) ==> Unlinked(o.doc)
    ensures HeaderLinkValid(doc) ==> HeaderLinkValid(o.doc)
    ensures !IsHeaderHandler(o.next) || o.next == next
    ensures SubmitterLinked(o.doc) && !SubmitterLinked(doc) ==> !IsHeaderHandler(o.next)
  {
    if kind == "INDI" then
      Outcome(doc.(individuals := doc.individuals + [NewIndividual(id)]),
              Scope(Some(IndividualRx(|doc.individuals|)), Some(IndiEnter)))
    else if kind == "FAM" then
      Outcome(doc.(families := doc.families + [NewFamily(id)]),
              Scope(Some(FamilyRx(|doc.families|)), Some(FamilyEnter)))
    else if kind == "SUBM" then
      var h := doc.header.value;
      var h' := if id == h.submitterId then h.(submitter := Some(|doc.submitters|)) else h;
      Outcome(doc.(submitters := doc.submitters + [NewSubmitter()], header := Some(h')),
              Scope(Some(DocumentRx), Some(SubmitterEnter)))
    else
      Outcome(doc, next)
  }

  // ---------------------------------------------------------------------
  // Dispatch

  /** Calls the slot's handler on a line, with the slot below as the place to install
      the next handler. A coherent slot is all it takes: the document only grows, no
      reference gets resolved, and the slot below is left usable. */
  function Dispatch(scope: Scope, doc: Document, line: string, next: Scope): (r: Result<Outcome, GedcomError>)
    requires Coherent(scope, doc)
    requires scope.enter == Some(ObjectEnter) && doc.header.Some? ==> Installable(next, doc)
    ensures r.Success? ==> Grows(doc, r.value.doc) && Installable(r.value.next, r.value.doc)
    ensures r.Success? && Unlinked(doc) ==> Unlinked(r.value.doc)
    ensures r.Success? && HeaderLinkValid(doc) ==> HeaderLinkValid(r.value.doc)
    ensures r.Failure? ==> r.error.kind != Ok
    ensures r.Success? && IsHeaderHandler(scope) ==>
              r.value.doc.header.Some? && r.value.doc.header.value.submitter == doc.header.value.submitter
    ensures r.Success? && !IsHeaderHandler(scope) && scope.enter != Some(ObjectEnter) ==>
              r.value.doc.header == doc.header && !IsHeaderHandler(r.value.next)
    ensures r.Success? && scope.enter == Some(ObjectEnter) && SubmitterLinked(r.value.doc) ==>
              HeaderComplete(r.value.doc.header.value)
              && (!IsHeaderHandler(r.value.next) || (r.value.next == next && SubmitterLinked(doc)))
  {
    match scope.enter.value
    case ObjectEnter => ObjectEnterH(doc, line, next)
    case HeaderEnter => HeaderEnterH(doc, line, next)
    case HeaderGedcEnter => HeaderGedcEnterH(doc, line, next)
    case _ => RecordDispatch(scope, doc, line, next)
  }

  /** Dispatch to a handler below the top level and the header: every such line is a
      record step or a record error. */
  function RecordDispatch(scope: Scope, doc: Document, line: string, next: Scope): (r: Result<Outcome, GedcomError>)
    requires Coherent(scope, doc) && !IsHeaderHandler(scope) && scope.enter != Some(ObjectEnter)
    ensures r.Success? ==> RecordStep(doc, r.value)
    ensures r.Failure? ==> r.error == GedcomError(InvRecord, 0)
  {
    match scope.enter.value
    case IndiEnter => IndiEnterH(doc, scope.receiver.value.i, line, next)
    case FamilyEnter => FamilyEnterH(doc, scope.receiver.value.f, line, next)
    case EventEnter => EnterEventH(doc, scope.receiver.value.owner, scope.receiver.value.e, line, next)
    case SubmitterEnter => SubmitterEnterH(doc, line, next)
    case AddressEnter => AddressEnterH(doc, line, next)
    case SkipAll => SkipAllEnter(doc, next)
  }
}
