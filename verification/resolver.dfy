/** The second pass of createGEDCOM: every cross-reference id recorded while parsing
    is looked up among the records, and the record it names is linked in. An id that
    names no record fails the whole parse with INV_GEDCOM. Individuals are resolved
    first (their family ids), then families (husband, wife, children). */
module Resolver {
  import opened Common
  import opened LinkedList
  import opened GedcomModel

  function FamilyKeys(fams: seq<Family>): (keys: seq<string>)
    ensures |keys| == |fams| && forall j :: 0 <= j < |fams| ==> keys[j] == fams[j].id
  {
    seq(|fams|, j requires 0 <= j < |fams| => fams[j].id)
  }

  function IndividualKeys(inds: seq<Individual>): (keys: seq<string>)
    ensures |keys| == |inds| && forall j :: 0 <= j < |inds| ==> keys[j] == inds[j].id
  {
    seq(|inds|, j requires 0 <= j < |inds| => inds[j].id)
  }

  /** Record `k` is the first one, in list order, whose id is `id`. */
  predicate FirstWith(keys: seq<string>, id: string, k: nat)
  {
    k < |keys| && keys[k] == id && forall j :: 0 <= j < k ==> keys[j] != id
  }

  /** Each reference names the first record carrying the id recorded at the same position. */
  predicate Names(refs: seq<nat>, ids: seq<string>, keys: seq<string>)
  {
    |refs| == |ids| && forall k :: 0 <= k < |ids| ==> FirstWith(keys, ids[k], refs[k])
  }

  predicate IdsKnown(ids: seq<string>, keys: seq<string>)
  {
    forall k :: 0 <= k < |ids| ==> ids[k] in keys
  }

  /** findIndiById / findFamilyById: findElement over the record list with an id match. */
  function FindById(keys: seq<string>, id: string): (r: Option<nat>)
    ensures r.None? <==> id !in keys
    ensures r.Some? ==> FirstWith(keys, id, r.value)
  {
    FirstIndex(keys, (k: string) => k == id)
  }

  /** The references a list of ids resolves to, or none when some id is unknown. */
  function ResolveIds(ids: seq<string>, keys: seq<string>): (r: Option<seq<nat>>)
    ensures r.Some? <==> IdsKnown(ids, keys)
    ensures r.Some? ==> Names(r.value, ids, keys)
  {
    if |ids| == 0 then Some([])
    else
      match FindById(keys, ids[0])
      case None => None
      case Some(k) =>
        match ResolveIds(ids[1..], keys)
        case None =>
          assert !IdsKnown(ids[1..], keys);
          None
        case Some(rest) =>
          assert forall j :: 1 <= j < |ids| ==> ids[j] == ids[1..][j - 1];
          Some([k] + rest)
  }

  // ---------------------------------------------------------------------
  // One record

  /** The individual after resolution: the references to its families (`FAMS`/`FAMC`
      ids, in the order recorded) are appended to its family list; nothing else changes. */
  predicate IndividualResolved(before: Individual, after: Individual, familyKeys: seq<string>)
  {
    && after.(families := before.families) == before
    && |before.families| <= |after.families|
    && after.families[..|before.families|] == before.families
    && Names(after.families[|before.families|..], before.familyIds, familyKeys)
  }

  function ResolveIndividual(ind: Individual, familyKeys: seq<string>): (r: Option<Individual>)
    ensures r.Some? <==> IdsKnown(ind.familyIds, familyKeys)
    ensures r.Some? ==> IndividualResolved(ind, r.value, familyKeys)
  {
    match ResolveIds(ind.familyIds, familyKeys)
    case None => None
    case Some(refs) =>
      var after := ind.(families := ind.families + refs);
      assert after.families[|ind.families|..] == refs;
      Some(after)
  }

  /** A spouse slot after resolution: unchanged without a recorded id, otherwise the
      first individual with that id. */
  predicate SpouseResolved(id: Option<string>, before: Option<nat>, after: Option<nat>, keys: seq<string>)
  {
    match id
    case None => after == before
    case Some(x) => after.Some? && FirstWith(keys, x, after.value)
  }

  function ResolveSpouse(id: Option<string>, before: Option<nat>, keys: seq<string>): (r: Option<Option<nat>>)
    ensures r.Some? <==> (id.Some? ==> id.value in keys)
    ensures r.Some? ==> SpouseResolved(id, before, r.value, keys)
  {
    match id
    case None => Some(before)
    case Some(x) =>
      match FindById(keys, x)
      case None => None
      case Some(k) => Some(Some(k))
  }

  predicate FamilyIdsKnown(fam: Family, keys: seq<string>)
  {
    && (fam.husbandId.Some? ==> fam.husbandId.value in keys)
    && (fam.wifeId.Some? ==> fam.wifeId.value in keys)
    && IdsKnown(fam.childIds, keys)
  }

  /** The family after resolution: husband and wife link to the individuals their ids
      name, the children (in the order recorded) are appended; nothing else changes. */
  predicate FamilyResolved(before: Family, after: Family, individualKeys: seq<string>)
  {
    && after.(husband := before.husband, wife := before.wife, children := before.children) == before
    && SpouseResolved(before.husbandId, before.husband, after.husband, individualKeys)
    && SpouseResolved(before.wifeId, before.wife, after.wife, individualKeys)
    && |before.children| <= |after.children|
    && after.children[..|before.children|] == before.children
    && Names(after.children[|before.children|..], before.childIds, individualKeys)
  }

  function ResolveFamily(fam: Family, individualKeys: seq<string>): (r: Option<Family>)
    ensures r.Some? <==> FamilyIdsKnown(fam, individualKeys)
    ensures r.Some? ==> FamilyResolved(fam, r.value, individualKeys)
  {
    match ResolveSpouse(fam.husbandId, fam.husband, individualKeys)
    case None => None
    case Some(husband) =>
      match ResolveSpouse(fam.wifeId, fam.wife, individualKeys)
      case None => None
      case Some(wife) =>
        match ResolveIds(fam.childIds, individualKeys)
        case None => None
        case Some(refs) =>
          var after := fam.(husband := husband, wife := wife, children := fam.children + refs);
          assert after.children[|fam.children|..] == refs;
          Some(after)
  }

  // ---------------------------------------------------------------------
  // All records

  function ResolveIndividuals(inds: seq<Individual>, familyKeys: seq<string>): (r: Option<seq<Individual>>)
    ensures r.Some? <==> forall i :: 0 <= i < |inds| ==> IdsKnown(inds[i].familyIds, familyKeys)
    ensures r.Some? ==> |r.value| == |inds|
                        && forall i :: 0 <= i < |inds| ==> IndividualResolved(inds[i], r.value[i], familyKeys)
  {
    if |inds| == 0 then Some([])
    else
      match ResolveIndividual(inds[0], familyKeys)
      case None => None
      case Some(first) =>
        match ResolveIndividuals(inds[1..], familyKeys)
        case None =>
          assert exists i :: 1 <= i < |inds| && !IdsKnown(inds[i].familyIds, familyKeys) by {
            var i :| 0 <= i < |inds[1..]| && !IdsKnown(inds[1..][i].familyIds, familyKeys);
            assert inds[1..][i] == inds[i + 1];
          }
          None
        case Some(rest) =>
          assert forall i :: 1 <= i < |inds| ==> inds[i] == inds[1..][i - 1];
          Some([first] + rest)
  }

  function ResolveFamilies(fams: seq<Family>, individualKeys: seq<string>): (r: Option<seq<Family>>)
    ensures r.Some? <==> forall f :: 0 <= f < |fams| ==> FamilyIdsKnown(fams[f], individualKeys)
    ensures r.Some? ==> |r.value| == |fams|
                        && forall f :: 0 <= f < |fams| ==> FamilyResolved(fams[f], r.value[f], individualKeys)
  {
    if |fams| == 0 then Some([])
    else
      match ResolveFamily(fams[0], individualKeys)
      case None => None
      case Some(first) =>
        match ResolveFamilies(fams[1..], individualKeys)
        case None =>
          assert exists f :: 1 <= f < |fams| && !FamilyIdsKnown(fams[f], individualKeys) by {
            var f :| 0 <= f < |fams[1..]| && !FamilyIdsKnown(fams[1..][f], individualKeys);
            assert fams[1..][f] == fams[f + 1];
          }
          None
        case Some(rest) =>
          assert forall f :: 1 <= f < |fams| ==> fams[f] == fams[1..][f - 1];
          Some([first] + rest)
  }

  /** Every recorded id names a record of the right kind. */
  predicate NoDangling(doc: Document)
  {
    && (forall i :: 0 <= i < |doc.individuals| ==> IdsKnown(doc.individuals[i].familyIds, FamilyKeys(doc.families)))
    && (forall f :: 0 <= f < |doc.families| ==> FamilyIdsKnown(doc.families[f], IndividualKeys(doc.individuals)))
  }

  /** The records' ids survive resolution. */
  lemma ResolvedKeepsKeys(inds: seq<Individual>, after: seq<Individual>, familyKeys: seq<string>)
    requires |after| == |inds|
    requires forall i :: 0 <= i < |inds| ==> IndividualResolved(inds[i], after[i], familyKeys)
    ensures IndividualKeys(after) == IndividualKeys(inds)
  {
    forall i | 0 <= i < |inds| ensures after[i].id == inds[i].id {
      assert after[i].(families := inds[i].families) == inds[i];
    }
  }

  /** The resolution pass: the document with every recorded id linked, or INV_GEDCOM
      when some id names no record. Header and submitters are untouched. */
  function Resolve(doc: Document): (r: Result<Document, GedcomError>)
    ensures r.Success? <==> NoDangling(doc)
    ensures r.Failure? ==> r.error == GedcomError(InvGedcom, 0)
    ensures r.Success? ==>
              && r.value.header == doc.header && r.value.submitters == doc.submitters
              && |r.value.individuals| == |doc.individuals| && |r.value.families| == |doc.families|
              && (forall i :: 0 <= i < |doc.individuals| ==>
                    IndividualResolved(doc.individuals[i], r.value.individuals[i], FamilyKeys(doc.families)))
              && (forall f :: 0 <= f < |doc.families| ==>
                    FamilyResolved(doc.families[f], r.value.families[f], IndividualKeys(doc.individuals)))
  {
    match ResolveIndividuals(doc.individuals, FamilyKeys(doc.families))
    case None => Failure(GedcomError(InvGedcom, 0))
    case Some(inds) =>
      ResolvedKeepsKeys(doc.individuals, inds, FamilyKeys(doc.families));
      match ResolveFamilies(doc.families, IndividualKeys(inds))
      case None => Failure(GedcomError(InvGedcom, 0))
      case Some(fams) => Success(Document(doc.header, doc.submitters, inds, fams))
  }

  /** Resolving a freshly parsed document closes the graph: every link points at an
      existing record, and at the first record carrying the id that was recorded. */
  lemma {:induction false} ResolveClosesGraph(doc: Document)
    requires Unlinked(doc)
    ensures Resolve(doc).Success? ==> ReferencesInRange(Resolve(doc).value)
  {
    var r := Resolve(doc);
    if r.Success? {
      var d := r.value;
      forall i, k | 0 <= i < |d.individuals| && 0 <= k < |d.individuals[i].families|
        ensures d.individuals[i].families[k] < |d.families|
      {
        assert IndividualResolved(doc.individuals[i], d.individuals[i], FamilyKeys(doc.families));
        assert doc.individuals[i].families == [];
        assert d.individuals[i].families[0..] == d.individuals[i].families;
        assert FirstWith(FamilyKeys(doc.families), doc.individuals[i].familyIds[k], d.individuals[i].families[k]);
      }
      forall f | 0 <= f < |d.families|
        ensures d.families[f].husband.Some? ==> d.families[f].husband.value < |d.individuals|
        ensures d.families[f].wife.Some? ==> d.families[f].wife.value < |d.individuals|
      {
        assert FamilyResolved(doc.families[f], d.families[f], IndividualKeys(doc.individuals));
      }
      forall f, k | 0 <= f < |d.families| && 0 <= k < |d.families[f].children|
        ensures d.families[f].children[k] < |d.individuals|
      {
        assert FamilyResolved(doc.families[f], d.families[f], IndividualKeys(doc.individuals));
        assert doc.families[f].children == [];
        assert d.families[f].children[0..] == d.families[f].children;
        assert FirstWith(IndividualKeys(doc.individuals), doc.families[f].childIds[k], d.families[f].children[k]);
      }
    }
  }
}
