/** validateGEDCOM: the structural checks on a document, in the order the code makes
    them, and what they report on a document the parser built. */
module Validation {
  import opened Common
  import opened Tokenizer
  import opened GedcomModel
  import opened Parser

  /** Declarative statement of a document that passes validation: a header with a
      nonzero version, linked to a submitter whose name is set, and a current submitter
      whose name is set. */
  predicate Conforms(doc: Document)
  {
    && doc.header.Some?
    && doc.header.value.submitter.Some?
    && doc.header.value.submitter.value < |doc.submitters|
    && |doc.submitters[doc.header.value.submitter.value].name| > 0
    && doc.header.value.versionNonzero
    && CurrentSubmitter(doc).Some?
    && |CurrentSubmitter(doc).value.name| > 0
  }

  /** validateGEDCOM. No object: INV_GEDCOM. No header, no linked submitter, or a zero
      version: INV_HEADER. An empty submitter name: INV_RECORD. The header's submitter
      pointer is a valid pointer in the C object; here it is required to be in range. */
  function ValidateGedcom(obj: Option<Document>): (r: ErrorCode)
    requires obj.Some? ==> HeaderLinkValid(obj.value)
    ensures r == Ok <==> obj.Some? && Conforms(obj.value)
    ensures r == InvGedcom <==> obj.None?
    ensures r == InvHeader ==>
              obj.Some? && (obj.value.header.None? || obj.value.header.value.submitter.None?
                            || !obj.value.header.value.versionNonzero)
    ensures r == InvRecord ==>
              obj.Some? && HeaderLinked(obj.value)
              && (|obj.value.submitters[obj.value.header.value.submitter.value].name| == 0
                  || |CurrentSubmitter(obj.value).value.name| == 0)
    ensures r in {Ok, InvGedcom, InvHeader, InvRecord}
  {
    match obj
    case None => InvGedcom
    case Some(doc) =>
      if doc.header.None? then InvHeader
      else if doc.header.value.submitter.None? then InvHeader
      else if |doc.submitters[doc.header.value.submitter.value].name| == 0 then InvRecord
      else if !doc.header.value.versionNonzero then InvHeader
      else if CurrentSubmitter(doc).None? then InvGedcom
      else if |CurrentSubmitter(doc).value.name| == 0 then InvRecord
      else Ok
  }

  /** A document createGEDCOM accepts never fails validation on its header or its
      structure: the only complaint left is an empty submitter name, and it validates
      exactly when both the linked and the current submitter are named. */
  lemma ParsedDocumentValidates(text: string)
    ensures CreateGedcom(text).Success? ==>
            var doc := CreateGedcom(text).value;
            && ValidateGedcom(Some(doc)) in {Ok, InvRecord}
            && (ValidateGedcom(Some(doc)) == Ok <==>
                  |doc.submitters[doc.header.value.submitter.value].name| > 0
                  && |CurrentSubmitter(doc).value.name| > 0)
  {
  }
}
