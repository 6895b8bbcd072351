/** The object graph a GEDCOM file is parsed into. Records keep the textual
    cross-reference ids recorded while parsing (`familyIds`, `husbandId`, ...) and,
    after resolution, the references they name as indices into the document's
    `individuals` and `families`. */
module GedcomModel {
  import opened Common

  /** The error codes of the parser, with the line number an error is reported at
      (0 or -1 where the code reports no line). */
  datatype ErrorCode = Ok | InvFile | InvGedcom | InvHeader | InvRecord | Other

  datatype GedcomError = GedcomError(kind: ErrorCode, line: int)

  datatype CharSet = Ansel | Utf8 | Unicode | Ascii

  /** An opaque (tag, value) pair kept for every subtag that is not interpreted. */
  datatype Field = Field(tag: string, value: string)

  datatype Event = Event(eventType: string, date: Option<string>, place: Option<string>,
                         otherFields: seq<Field>)

  /** The header. `versionNonzero` stands for the C float `gedcVersion != 0`;
      `submitterId` is the id recorded by the header's SUBM line, and `submitter`
      the submitter record it links to, as an index into `Document.submitters`. */
  datatype Header = Header(source: string, versionNonzero: bool, encoding: Option<CharSet>,
                           submitterId: string, submitter: Option<nat>, otherFields: seq<Field>)

  datatype Submitter = Submitter(name: string, address: string, otherFields: seq<Field>)

  datatype Individual = Individual(id: string, givenName: string, surname: string,
                                   events: seq<Event>, otherFields: seq<Field>,
                                   familyIds: seq<string>, families: seq<nat>)

  datatype Family = Family(id: string, husbandId: Option<string>, wifeId: Option<string>,
                           childIds: seq<string>, events: seq<Event>, otherFields: seq<Field>,
                           husband: Option<nat>, wife: Option<nat>, children: seq<nat>)

  /** The document. Every SUBM record creates a submitter; the C object keeps only
      the latest one as `obj->submitter`, which is the last element here. */
  datatype Document = Document(header: Option<Header>, submitters: seq<Submitter>,
                               individuals: seq<Individual>, families: seq<Family>)

  function EmptyDocument(): Document
  {
    Document(None, [], [], [])
  }

  function NewHeader(): Header
  {
    Header("", false, None, "", None, [])
  }

  function NewIndividual(id: string): Individual
  {
    Individual(id, "", "", [], [], [], [])
  }

  function NewFamily(id: string): Family
  {
    Family(id, None, None, [], [], [], None, None, [])
  }

  function NewSubmitter(): Submitter
  {
    Submitter("", "", [])
  }

  function NewEvent(eventType: string): Event
  {
    Event(eventType, None, None, [])
  }

  /** The C object's `submitter` pointer. */
  function CurrentSubmitter(doc: Document): Option<Submitter>
  {
    if |doc.submitters| == 0 then None else Some(doc.submitters[|doc.submitters| - 1])
  }

  /** What every body record demands of the header: a source, a nonzero version and
      a recognised encoding. */
  predicate HeaderComplete(h: Header)
  {
    |h.source| > 0 && h.versionNonzero && h.encoding.Some?
  }

  /** No reference has been resolved yet: the parse phase records ids only. */
  predicate Unlinked(doc: Document)
  {
    && (forall i :: 0 <= i < |doc.individuals| ==> doc.individuals[i].families == [])
    && (forall f :: 0 <= f < |doc.families| ==>
          doc.families[f].husband.None? && doc.families[f].wife.None? && doc.families[f].children == [])
  }

  /** The header's link to a submitter, when set, names a submitter record that exists. */
  predicate HeaderLinkValid(doc: Document)
  {
    doc.header.Some? && doc.header.value.submitter.Some? ==> doc.header.value.submitter.value < |doc.submitters|
  }

  /** Every reference in the graph points at a record that exists. */
  ghost predicate ReferencesInRange(doc: Document)
  {
    && (forall i, k :: 0 <= i < |doc.individuals| && 0 <= k < |doc.individuals[i].families| ==>
          doc.individuals[i].families[k] < |doc.families|)
    && (forall f :: 0 <= f < |doc.families| ==>
          && (doc.families[f].husband.Some? ==> doc.families[f].husband.value < |doc.individuals|)
          && (doc.families[f].wife.Some? ==> doc.families[f].wife.value < |doc.individuals|))
    && (forall f, k :: 0 <= f < |doc.families| && 0 <= k < |doc.families[f].children| ==>
          doc.families[f].children[k] < |doc.individuals|)
  }
}
