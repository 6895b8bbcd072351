# GEDCOM parser core — a Dafny model

This project models the parsing core of a small C library for GEDCOM 5.5
genealogy files. It also models the generic doubly-linked list the library
stores everything in.

- **Linked list** (`LinkedList`). The node chain is a sequence. The header
  fields `head`, `tail` and `length` sit beside it, and `Valid` states how
  they agree. The print, delete and compare capabilities are passed as
  function parameters.
- **Line reader and word splitter** (`Tokenizer`). Covers `readLine`,
  `skipWord`, `skipSpaces`, `getWord`, `getTwoWords` and the `atoi` of a
  line's level number. Each is related to an independent reference
  definition: the list of words of a line, the lines of a text.
- **Value classifiers** (`Classifiers`). Covers `parseEncoding`,
  `isStandardEvent`, `parseNames` and the "version is non-zero" test the
  header makes with `atof`.
- **Document** (`GedcomModel`). Header, submitters, individuals, families,
  events and fields as immutable datatypes. A cross-reference is an index
  into the owning sequence, standing in for the C pointer.
- **Handlers** (`Handlers`). One function per `enter` callback of the parser:
  - `GEDCOMobjectEnter`, `HeaderEnter`, `HeaderGEDCEnter`;
  - `IndiEnter`, `FamilyEnter`, `EnterEvent`;
  - `EnterSubmitter`, `SubmitterAddressReceiver`;
  - `SkipAllReceiver`.

  A handler at level L reads the line and installs the scope for level L+1.
  A scope is a (receiver, enter) pair, as in the C code. `Dispatch` selects
  the handler.
- **Driver** (`Parser`). The line loop of `createGEDCOM`, with the 8-slot
  scope stack. This covers the trailer, the 255-character line limit, the
  "first line must be level 0" check and the level-nesting guard. It also
  covers the checks after the loop.
- **Second pass** (`Resolver`). Turns recorded ids into references
  (`findIndiById`, `findFamilyById`).
- **Validation** (`Validation`). `validateGEDCOM`.
- **Generation lists** (`Traversal`). `getDescendantListN` and
  `getAncestorListN`: a depth-first search that files each relative into a
  per-generation bucket without duplicates. It is proved equal to a
  declarative definition of "the k-th generation".

The handler contracts prove several invariants of the scope stack, kept by
every accepted line:
- every installed slot holds a handler whose receiver exists;
- the document only grows;
- no reference is resolved before the second pass;
- once the header is linked to a submitter it is complete, and no header
  handler remains reachable.

From these, `CreateGedcom` proves what an accepted file satisfies:
- it has a trailer, and every line before it is within the length limit and
  well nested;
- its header is linked and complete;
- every reference in the document is in range.

The submitter address is one string. Each `ADDR`/`CONT` value is appended to
it as `<tag> = <value>` (GEDCOMutilities.c:722, :771), and the model keeps that
string rather than a list of lines.

Going the other way, `Acceptance.MinimalDocumentAccepted` builds a small
file (a header with source, GEDC version, charset and submitter link, one
named submitter, and the trailer) and proves that `CreateGedcom` accepts it
and returns exactly the expected document.

## Model

| member | source | states |
|---|---|---|
| LinkedList.InitializeList | LinkedListAPI.c:16-31 | a new list is valid and empty, with NULL head and tail and length 0 |
| LinkedList.InsertFront | LinkedListAPI.c:52-76 | the new element comes first and the old elements follow in order; the length grows by one and the header stays consistent |
| LinkedList.InsertBack | LinkedListAPI.c:78-102 | the new element comes last and the old elements precede it in order; the length grows by one and the header stays consistent |
| LinkedList.ClearList | LinkedListAPI.c:104-127 | the delete capability is applied to every element exactly once, front to back, and the list is left empty with NULL ends |
| LinkedList.InsertSorted | LinkedListAPI.c:129-165 | the result equals the reference insertion: the element goes before the first element that compares greater, or at the back; the header stays consistent |
| LinkedList.SortedInsertSplits | LinkedListAPI.c:140-160 | the reference insertion splits the list exactly after the prefix of elements that compare `<= 0` with the new one |
| LinkedList.SortedInsertAddsOne | LinkedListAPI.c:129-165 | sorted insertion adds exactly the new element: the multiset grows by it and nothing else |
| LinkedList.SortedInsertKeepsSorted | LinkedListAPI.c:129-165 | under a comparator that is a total preorder, inserting into a sorted list keeps it sorted |
| LinkedList.DeleteDataFromList | LinkedListAPI.c:167-206 | a NULL argument or no match leaves the list unchanged and returns NULL; otherwise the first element comparing 0 is returned and removed, the rest stays in order, and the header stays consistent |
| LinkedList.GetFromFront | LinkedListAPI.c:208-211 | NULL exactly for an empty list, otherwise the first element |
| LinkedList.GetFromBack | LinkedListAPI.c:213-216 | NULL exactly for an empty list, otherwise the last element |
| LinkedList.NextElement | LinkedListAPI.c:226-235 | at the end it yields NULL and does not move; otherwise it yields the current element and advances by one |
| LinkedList.IterationVisitsInOrder | LinkedListAPI.c:218-235 | on a fresh iterator the (k+1)-th call of nextElement yields node k, and every call after the last node yields NULL |
| LinkedList.ToString | LinkedListAPI.c:237-276 | an empty list prints as "empty"; otherwise the output is the in-order concatenation of printData over the elements |
| LinkedList.GetLength | LinkedListAPI.c:278-281 | the stored length equals the number of nodes |
| LinkedList.FindElement | LinkedListAPI.c:283-294 | NULL exactly when no element matches; otherwise the first matching element in iteration order |
| LinkedList.FirstIndex | LinkedListAPI.c:283-294 | the index of the first element satisfying the predicate, or none when no element does |
| Tokenizer.CString | gedApp/parser/GEDCOMutilities.c:183-221 | the text the parser sees is the longest NUL-free prefix of the file contents |
| Tokenizer.ReadLine | gedApp/parser/GEDCOMutilities.c:110-128 | the line is the content up to the first CR or LF (or all of it); everything between the line and the rest is CR/LF; the rest does not start with CR/LF; only empty content yields an empty line and the whole content as rest |
| Tokenizer.SplitLinesOfJoinLines | gedApp/parser/GEDCOMutilities.c:110-128 | non-empty lines without CR/LF, joined with line feeds, are read back by the loop as exactly those lines (round trip) |
| Tokenizer.SplitLinesStripsTerminators | gedApp/parser/GEDCOMutilities.c:930-931 | the loop's lines contain no CR/LF, and joined back together they give the text with every CR/LF removed |
| Tokenizer.SplitLinesLaterLinesNonEmpty | gedApp/parser/GEDCOMutilities.c:110-128 | since a whole CR/LF run is consumed, only the first line of a text can be empty |
| Tokenizer.SkipWord | gedApp/parser/GEDCOMutilities.c:130-133 | stops at the first space or at the end, having passed only non-spaces |
| Tokenizer.SkipSpaces | gedApp/parser/GEDCOMutilities.c:135-138 | stops at the first non-space or at the end, having passed only spaces |
| Tokenizer.GetWord | gedApp/parser/GEDCOMutilities.c:140-156 | a found word is space-free and is the slice of the line ending at the returned position; no word means the position is the end of the line |
| Tokenizer.GetWordMatchesWords | gedApp/parser/GEDCOMutilities.c:140-156 | getWord's index-th word is the index-th entry of the line's word list; on a line that starts with a space, word 0 is empty and the list is shifted by one |
| Tokenizer.GetWordOfJoin | gedApp/parser/GEDCOMutilities.c:140-156 | on a line built by joining words with single spaces, getWord returns exactly the index-th word |
| Tokenizer.WordsOfJoin | gedApp/parser/GEDCOMutilities.c:130-156 | splitting a line built from words gives back those words (round trip) |
| Tokenizer.GetTwoWords | gedApp/parser/GEDCOMutilities.c:165-181 | succeeds exactly when words 1 and 2 both exist, and returns them |
| Tokenizer.AtoiReadsLevel | gedApp/parser/GEDCOMutilities.c:940 | atoi on a line that starts with the decimal numeral of n, followed by a non-digit, gives n |
| Tokenizer.ReadDigitsOfNumeral | gedApp/parser/GEDCOMutilities.c:940 | reading the digits of a numeral gives back the number (round trip) |
| Classifiers.ParseEncoding | gedApp/parser/GEDCOMutilities.c:457-471 | succeeds exactly for UTF-8, ASCII, UNICODE and ANSEL and returns the matching charset; any other text gives INV_HEADER |
| Classifiers.ParseEncodingRoundTrip | gedApp/parser/GEDCOMutilities.c:457-471 | parsing the name of any charset gives that charset back |
| Classifiers.IsStandardEvent | gedApp/parser/GEDCOMutilities.c:561-572 | true exactly for BIRT, DEAT, MARR, CHR and BURI |
| Classifiers.TagFrom | gedApp/parser/GEDCOMutilities.c:565-572 | the scan from position i finds the tag exactly when it occurs at or after i in the table |
| Classifiers.ParseNames | gedApp/parser/GEDCOMutilities.c:524-559 | the given name contains no space, and a line with no third word gives two empty names |
| Classifiers.ParseNamesByWords | gedApp/parser/GEDCOMutilities.c:524-559 | in terms of the line's word list: no value word gives two empty names; a value word starting with `/` is the surname, slashes kept; otherwise it is the given name and the next word, if any, minus its delimiters is the surname |
| Classifiers.ParseNamesOfGivenOnly | gedApp/parser/GEDCOMutilities.c:540-547 | `1 NAME given` gives the given name and an empty surname |
| Classifiers.ParseNamesOfNameLine | gedApp/parser/GEDCOMutilities.c:524-559 | `1 NAME given /surname/` gives (given, surname), with the slashes stripped from the surname |
| Classifiers.ParseNamesOfSurnameOnly | gedApp/parser/GEDCOMutilities.c:536-541 | `1 NAME /surname/` gives an empty given name and the whole token, slashes kept, as surname |
| Classifiers.ParseNamesOfBareName | gedApp/parser/GEDCOMutilities.c:524-535 | `1 NAME` with no value gives two empty names |
| Classifiers.NonzeroDecimalOfVersion | gedApp/parser/GEDCOMutilities.c:427 | a version `major.minor` is treated as non-zero exactly when major or minor is non-zero |
| Handlers.SkipAllEnter | gedApp/parser/GEDCOMutilities.c:406-410 | corrected skip-all handler: it leaves the document alone and installs skip-all below itself, so the next slot is always coherent |
| Handlers.SkipAllAsWritten | gedApp/parser/GEDCOMutilities.c:406-410 | as written: it overwrites the next slot's receiver and keeps whatever enter that slot held |
| Handlers.SkipAllAsWrittenBreaksNextSlot | gedApp/parser/GEDCOMutilities.c:406-410 | unless the next slot already held skip-all, the as-written handler leaves it incoherent, while the corrected one never does |
| Handlers.HeaderGedcEnterH | gedApp/parser/GEDCOMutilities.c:412-432 | fails with INV_HEADER exactly when the line lacks two words; VERS sets the version flag from the value; nothing else in the document changes |
| Handlers.ParseAsField | gedApp/parser/GEDCOMutilities.c:434-455 | a field exists exactly when word 1 exists; its tag is word 1 and its value is the rest of the line after it |
| Handlers.HeaderEnterH | gedApp/parser/GEDCOMutilities.c:473-522 | a missing tag gives INV_HEADER and every error is INV_HEADER; CHAR sets the encoding named by the value; GEDC opens the GEDC scope; only the header changes, its submitter link is left alone, and the slot installed below is usable |
| Handlers.HeaderEnterEffects | gedApp/parser/GEDCOMutilities.c:473-522 | fails exactly for a missing tag, a SUBM, SOUR or CHAR without value, or an unknown charset; otherwise SUBM sets the submitter id, SOUR the source, CHAR the encoding, GEDC opens the GEDC scope, and any other tag appends a field with the rest of the line, each leaving everything else in the document as it was |
| Handlers.EnterEventH | gedApp/parser/GEDCOMutilities.c:574-611 | fails with INV_RECORD exactly when the line has no tag; DATE, PLAC and TYPE set the event's date, place and type, and other tags add a field; no record is added |
| Handlers.PutEventFrame | gedApp/parser/GEDCOMutilities.c:574-611 | replacing one event of a record changes nothing else: header, submitters, other records, the owner's other fields and other events stay as they were |
| Handlers.EnterEventEffects | gedApp/parser/GEDCOMutilities.c:574-611 | only the event itself changes and the slot below is skip-all; TYPE sets the type to `TYPE` and keeps the rest of the event; a tag other than DATE, PLAC and TYPE appends exactly one field with that tag and the line's value |
| Handlers.IndiTagKind | gedApp/parser/GEDCOMutilities.c:613-651 | classifies the INDI sub-tags: NAME, FAMS/FAMC, an event tag, or a plain field |
| Handlers.IndiEnterH | gedApp/parser/GEDCOMutilities.c:613-651 | fails with INV_RECORD exactly when the line has no tag, or is a FAMS or FAMC line without a family id; on success the document only grows, the header and the resolved links are untouched, and the slot left below is usable |
| Handlers.UpdateIndividual | gedApp/parser/GEDCOMutilities.c:627-647 | NAME sets the parsed names; FAMS/FAMC without an id is refused and with one appends it; an event tag appends one new event of that type; no other tag touches the events or the resolved family links |
| Handlers.IndiEnterEffects | gedApp/parser/GEDCOMutilities.c:613-651 | only individual `i` changes; NAME sets its names to those parsed from the line; FAMS/FAMC append word 2 to its family ids; an event tag appends a new event and opens the event scope on it |
| Handlers.FamilyTagKind | gedApp/parser/GEDCOMutilities.c:653-698 | classifies the FAM sub-tags: HUSB/WIFE/CHIL, an event tag, or a plain field |
| Handlers.FamilyEnterH | gedApp/parser/GEDCOMutilities.c:653-698 | fails with INV_RECORD exactly when the line has no tag, or is a HUSB, WIFE or CHIL line without an id; on success the document only grows, the header and the resolved links are untouched, and the slot left below is usable |
| Handlers.UpdateFamily | gedApp/parser/GEDCOMutilities.c:664-694 | HUSB and WIFE set the spouse id, CHIL appends a child id, each refused without an id; an event tag appends one new event; resolved spouse and child links are never touched |
| Handlers.FamilyEnterEffects | gedApp/parser/GEDCOMutilities.c:653-698 | only family `f` changes; HUSB and WIFE set word 2 as the spouse id, CHIL appends it to the child ids, and an event tag appends a new event and opens the event scope on it |
| Handlers.AddressEnterH | gedApp/parser/GEDCOMutilities.c:700-726 | fails with INV_RECORD exactly when the line has no tag; otherwise appends `"<tag> = <value>"` to the current submitter's address |
| Handlers.SubmitterEnterH | gedApp/parser/GEDCOMutilities.c:728-784 | fails with INV_RECORD exactly when the line has no tag, or is a NAME line without a name; on success the document only grows, the header is untouched, and the slot left below is usable |
| Handlers.UpdateSubmitter | gedApp/parser/GEDCOMutilities.c:742-778 | NAME sets the name to word 2 and is refused without it; ADDR appends `ADDR = value` to the address; any other tag keeps name and address and appends the line as a field |
| Handlers.SubmitterEnterEffects | gedApp/parser/GEDCOMutilities.c:728-784 | only the current submitter changes and no submitter is added; NAME sets its name; ADDR extends its address and opens the address continuation scope |
| Handlers.ObjectEnterH | gedApp/parser/GEDCOMutilities.c:786-869 | handles level-0 records. HEAD creates the header. Any other record before a complete header gives INV_HEADER. INDI, FAM and SUBM add the record and scope it, and a SUBM whose id is the header's submitter id links the header. A missing id or tag gives INV_GEDCOM |
| Handlers.OpenRecord | gedApp/parser/GEDCOMutilities.c:820-856 | INDI and FAM append a new record and install its handler; SUBM appends a submitter and links the header when the ids match; any other tag changes nothing |
| Handlers.Dispatch | gedApp/parser/GEDCOMutilities.c:950-954 | calls the slot's handler. On success the document only grows, the installed scope is coherent, and no reference gets resolved; a valid header link stays valid; a header linked to a submitter stays complete; an error never carries OK |
| Handlers.RecordDispatch | gedApp/parser/GEDCOMutilities.c:950-954 | a line given to a record, event, submitter, address or skip-all handler either fails with INV_RECORD or grows the document without touching the header or resolving a link, leaving a usable slot below |
| Handlers.CoherentKept | gedApp/parser/GEDCOMutilities.c:391-394 | a scope whose receiver exists stays usable as the document grows |
| Resolver.FindById | gedApp/parser/GEDCOMutilities.c:871-889 | none exactly when no record has the id; otherwise the first record with that id |
| Resolver.ResolveIds | gedApp/parser/GEDCOMutilities.c:975-1025 | resolves exactly when every id is known, and each reference is the first record with its id |
| Resolver.ResolveIndividual | gedApp/parser/GEDCOMutilities.c:975-995 | resolves exactly when every family id of the individual is known; the families become the matching indices and nothing else changes |
| Resolver.ResolveFamily | gedApp/parser/GEDCOMutilities.c:996-1025 | resolves exactly when the husband, wife and child ids are known; each becomes the first individual with that id |
| Resolver.ResolveSpouse | gedApp/parser/GEDCOMutilities.c:996-1010 | an absent spouse id keeps the spouse as it was; a present one resolves exactly when known |
| Resolver.Resolve | gedApp/parser/GEDCOMutilities.c:975-1025 | succeeds exactly when no id dangles, otherwise INV_GEDCOM; on success only references change, and each one names the first record with its id |
| Resolver.ResolveClosesGraph | gedApp/parser/GEDCOMutilities.c:975-1025 | after resolving a document the parse left unlinked, every reference indexes an existing record |
| Parser.LevelGuardOverflow | gedApp/parser/GEDCOMutilities.c:946-949 | the guard as written admits level 7 after level 6, whose handler would write slot 8 of an 8-slot stack; the corrected guard refuses it and implies the as-written one |
| Parser.StepLine | gedApp/parser/GEDCOMutilities.c:930-960 | one loop step. The trailer stops with the document as it is. A line over 255 characters gives INV_RECORD at the line number. A nonzero level before the first line was taken gives (INV_HEADER, -1). A level the guard refuses gives INV_RECORD at the line number. A continuing step needs an allowed level, records it as the previous level and keeps the stack invariant. A failure never carries OK |
| Parser.RunHandler | gedApp/parser/GEDCOMutilities.c:950-954 | a line the guard admitted either stops with the handler's error, which is never OK, or continues with the invariant kept, the document grown, its level as previous level and the line number advanced |
| Parser.StepLineDispatches | gedApp/parser/GEDCOMutilities.c:950-954 | a line past the trailer, length and level checks goes to its level's slot handler: a handler error stops the loop with that error, a success continues with the handler's document, the installed slot and the line's level |
| Parser.StepKeepsInv | gedApp/parser/GEDCOMutilities.c:950-960 | a successful dispatch at an allowed level keeps the stack invariant |
| Parser.InitialStateInv | gedApp/parser/GEDCOMutilities.c:919-929 | the freshly initialised stack satisfies the invariant |
| Parser.ParseLines | gedApp/parser/GEDCOMutilities.c:930-961 | a loop that does not fail leaves the document unlinked with a valid header link, and with a complete header once linked; failures never carry OK |
| Parser.FirstTrailer | gedApp/parser/GEDCOMutilities.c:932-935 | the index of the first `0 TRLR` line, or none when no line starts with it |
| Parser.ParseLinesTrailerSound | gedApp/parser/GEDCOMutilities.c:930-961 | reaching the trailer means every earlier line is within the length limit and nested at most one level deeper than its predecessor |
| Parser.TraceAccepted | gedApp/parser/GEDCOMutilities.c:932-954 | every line a run steps through was no trailer, fit the line limit and was well nested from the starting level |
| Parser.ParseLinesReachesTrailer | gedApp/parser/GEDCOMutilities.c:929-935 | conversely, when a run of accepted lines arrives at a trailer line, the loop ends there with the document the run built |
| Parser.ParseLinesExhausts | gedApp/parser/GEDCOMutilities.c:929-961 | a run through every line, none a trailer, ends the loop with the text exhausted and the run's document |
| Parser.ParseLinesStopsAt | gedApp/parser/GEDCOMutilities.c:929-961 | a loop that did not run out of lines stopped at the line after some run of accepted lines, and that line's step gave the loop's result |
| Parser.Finish | gedApp/parser/GEDCOMutilities.c:963-1025 | succeeds exactly when the trailer was seen, a submitter exists, the header is linked and no id dangles. No submitter gives INV_GEDCOM. Success yields a linked, complete header and in-range references |
| Parser.CreateGedcom | gedApp/parser/GEDCOMutilities.c:891-1037 | an accepted file has a trailer, its earlier lines are well nested from level 0, and the document has a linked, complete header and in-range references; a failure never carries OK |
| Acceptance.MinimalRead | gedApp/parser/GEDCOMutilities.c:929-931 | the loop reads the minimal file back as its nine lines |
| Acceptance.MinimalLoop | gedApp/parser/GEDCOMutilities.c:929-961 | the loop runs through the minimal file's eight lines and stops at its trailer with the expected document |
| Acceptance.MinimalDocumentAccepted | gedApp/parser/GEDCOMutilities.c:891-1037 | the minimal file (header, one named submitter, trailer) is accepted, and the result is exactly a document with a linked complete header, that submitter, and nothing else |
| Validation.ValidateGedcom | gedApp/parser/GEDCOMutilities.c:1392-1429 | OK exactly for a conforming document; INV_GEDCOM exactly for no object; INV_HEADER only for a missing header, missing link or zero version; INV_RECORD only for an empty submitter name |
| Validation.ParsedDocumentValidates | gedApp/parser/GEDCOMutilities.c:1392-1429 | a parsed document fails validation only on an empty submitter name, and passes exactly when both the linked and the current submitter are named |
| Traversal.KinRelated | gedApp/parser/GEDCOMutilities.c:1431-1509 | the per-family scan of one person yields exactly the people related to it by one family: children for descendants, parents for ancestors |
| Traversal.AddGen | gedApp/parser/GEDCOMutilities.c:1431-1460 | the search from a person at a level adds all its kin to that level's bucket, keeps every bucket duplicate-free, and adds only true members of each generation |
| Traversal.Insert | gedApp/parser/GEDCOMutilities.c:1445-1452 | a person not yet in the bucket is appended and searched from; afterwards it is in the bucket and the buckets are closed under the relation from that level down |
| Traversal.TakeNonEmpty | gedApp/parser/GEDCOMutilities.c:1467-1472 | keeps the longest prefix of non-empty buckets, stopping at the first empty one |
| Traversal.GenerationsExact | gedApp/parser/GEDCOMutilities.c:1462-1474 | the returned buckets are exactly the generations: x is in bucket k iff x is k+1 steps from the person; every later generation within the bound is empty |
| Traversal.GenerationsN | gedApp/parser/GEDCOMutilities.c:1462-1474 | at most maxGen buckets, each non-empty and duplicate-free, each equal to its generation, and no generation within the bound is left out |
| Traversal.GetDescendantListN | gedApp/parser/GEDCOMutilities.c:1431-1474 | the first bucket is exactly the children of the person's families; bucket k is exactly the (k+1)-th generation of descendants |
| Traversal.GetAncestorListN | gedApp/parser/GEDCOMutilities.c:1476-1523 | the first bucket is exactly the husbands and wives of the families the person is a child of; bucket k is exactly the (k+1)-th generation of ancestors |

## Left out

- Reading the file: the `.ged` name check and `readFileToMemory` (GEDCOMutilities.c:891-911) are file I/O. `CreateGedcom` takes the file contents as a string.
- Writing, printing and JSON conversion (`writeGEDCOM`, `print*`, the dynamic buffer) are output formatting, not parsing.
- `descendantsList` and `getDescendants` are the unbounded variant and are not modelled.
- Allocation failure, memory leaks, `deleteGEDCOM`, and the NULL-list branches of the list API are not modelled. The model has no pointers and no allocator.
- Classifiers.NonzeroDecimal: approximates `atof(...) != 0.0f` on plain decimals (digits, one dot, digits). Exponents, hex, `inf` and `nan` are not modelled because they need floating point.
- Tokenizer.Atoi: does not model overflow of C `int`, because levels on real lines are small.
- Handlers.HeaderEnterH: `strncpy` truncation of the submitter id and the source to their fixed buffer sizes is not modelled. Ids and sources are kept whole.
- Handlers.OpenRecord: record ids are `strncpy`'d into `char id[16]` (GEDCOMutilities.c:15, :21, :827, :842), so an id of 16 or more bytes is truncated and left unterminated in C. The model keeps ids whole, so id matching in the second pass can differ for such ids.
- Handlers.SubmitterEnterH: the fixed-size submitter name buffer (:749) is not modelled; the name is kept whole.
- Handlers.EnterEventH: the fixed-size event type buffer (:594, :641) is not modelled; the type is kept whole.
- Parser.StepLine: the 255 limit counts bytes (`strlen`, :936); the model counts characters, which agree for ASCII text.
- Handlers.AddressEnterH: the `realloc` that grows the submitter record is not modelled; only the resulting address string is.
- Classifiers.ParseNames: for a one-character third word the C code reads before the string. The model returns an empty surname there.
- Handlers.EventValue: an empty value makes the C code read `end[-1]`. The model returns the empty value.
- Names that C leaves uninitialised (an individual without NAME, a submitter without NAME) are modelled as "".
- Handlers.ObjectEnterH: a level-0 line with only one word makes the C code dereference a NULL second word at :820. The model applies the :858 check first and returns (INV_GEDCOM, 0).
- Traversal.GetDescendantListN: a `maxGen` of 0 makes the C code write into a zero-length array; the model takes a `nat` and returns no generations. A negative `maxGen` for ancestors is not modelled.
- Traversal.GenerationsExact: bucket contents are stated as membership (which people, no duplicates), not the depth-first order in which :1445-1452 appends them.
- Bucket clearing after a family adds nobody (:1454-1457) is not modelled. The bucket is empty then, and the result is the same.
- Validation.ValidateGedcom: the loops over families and individuals (:1414-1426) can never return, so they are omitted. The precondition that the header's submitter index is in range stands for the C pointer being valid.

## Findings

| source | as written | input that shows it | evidently intended | confidence | as-written member | corrected member |
|---|---|---|---|---|---|---|
| gedApp/parser/GEDCOMutilities.c:946-951 | the level guard only checks `level <= prevLevel + 1`, so a line at level 7 passes, and its handler writes slot `scopeStack[8]` of an 8-slot array (MAX_PARSER_DEEP at :396) | with skip-all corrected as in the next row: `0 HEAD`, `1 X`, `2 X`, ..., `7 X` (levels 0 to 7, each one deeper) | also refuse any level whose next slot is past the stack: `level + 1 < MAX_PARSER_DEEP` | high; not executed | Parser.LevelGuardOverflow | Parser.StepLine |
| gedApp/parser/GEDCOMutilities.c:406-410 | `SkipAllReceiver` stores itself as the next slot's receiver instead of its enter, so the next slot keeps a stale or uninitialised handler | `0 HEAD`, `1 GEDC`, `2 VERS 5.5`, `3 X`, `4 Y`: the level-4 line runs slot 4's handler, which no line ever set | install skip-all as the next slot's enter, so the whole subtree is skipped | high; not executed | Handlers.SkipAllAsWrittenBreaksNextSlot | Handlers.SkipAllEnter |
