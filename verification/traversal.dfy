/** getDescendantListN and getAncestorListN: the generations of relatives of a person,
    generation by generation, found by a depth-first walk that fills one shared bucket
    per generation. A person enters a bucket at most once, and is expanded into the
    next generation when it first enters. People are the indices of individuals. */
module Traversal {
  import opened Common
  import opened GedcomModel

  datatype Direction = Descendants | Ancestors

  /** The relatives one family contributes for `p`: for descendants, the children of a
      family in which `p` is husband or wife; for ancestors, the husband and then the wife
      of a family in which `p` is a child. */
  function Contrib(dir: Direction, fam: Family, p: nat): seq<nat>
  {
    match dir
    case Descendants =>
      if fam.husband == Some(p) || fam.wife == Some(p) then fam.children else []
    case Ancestors =>
      if p in fam.children then
        (if fam.husband.Some? then [fam.husband.value] else [])
        + (if fam.wife.Some? then [fam.wife.value] else [])
      else []
  }

  /** The relatives of `p` one generation away, in the order the walk meets them:
      family by family, in family-list order. */
  function Kin(doc: Document, dir: Direction, p: nat): seq<nat>
  {
    KinFrom(doc, dir, p, 0)
  }

  function KinFrom(doc: Document, dir: Direction, p: nat, f: nat): seq<nat>
    requires f <= |doc.families|
    decreases |doc.families| - f
  {
    if f == |doc.families| then [] else Contrib(dir, doc.families[f], p) + KinFrom(doc, dir, p, f + 1)
  }

  /** `x` is one generation away from `p` through some family. */
  ghost predicate Related(doc: Document, dir: Direction, p: nat, x: nat)
  {
    exists f :: 0 <= f < |doc.families| && x in Contrib(dir, doc.families[f], p)
  }

  lemma {:induction false} KinFromRelated(doc: Document, dir: Direction, p: nat, f: nat, x: nat)
    requires f <= |doc.families|
    ensures x in KinFrom(doc, dir, p, f) <==>
              exists g :: f <= g < |doc.families| && x in Contrib(dir, doc.families[g], p)
    decreases |doc.families| - f
  {
    if f < |doc.families| {
      KinFromRelated(doc, dir, p, f + 1, x);
      if x in KinFrom(doc, dir, p, f) && x !in Contrib(dir, doc.families[f], p) {
        assert x in KinFrom(doc, dir, p, f + 1);
      }
    }
  }

  lemma KinRelated(doc: Document, dir: Direction, p: nat, x: nat)
    ensures x in Kin(doc, dir, p) <==> Related(doc, dir, p, x)
  {
    KinFromRelated(doc, dir, p, 0, x);
  }

  /** Reference definition of generation `k` (0 is the first generation away from
      `root`): the relatives of someone in generation k - 1. */
  ghost predicate InGen(doc: Document, dir: Direction, root: nat, k: nat, x: nat)
    decreases k
  {
    if k == 0 then Related(doc, dir, root, x)
    else exists y :: InGen(doc, dir, root, k - 1, y) && Related(doc, dir, y, x)
  }

  // ---------------------------------------------------------------------
  // Buckets

  type Buckets = seq<seq<nat>>

  predicate NoDups(s: seq<nat>)
  {
    forall i, j :: 0 <= i < j < |s| ==> s[i] != s[j]
  }

  predicate AllNoDups(b: Buckets)
  {
    forall l :: 0 <= l < |b| ==> NoDups(b[l])
  }

  /** Buckets only gain members; those below `level` do not change at all. */
  predicate GrowsFrom(b: Buckets, b': Buckets, level: nat)
  {
    && |b'| == |b|
    && (forall l :: 0 <= l < |b| && l < level ==> b'[l] == b[l])
    && (forall l, y :: 0 <= l < |b| && y in b[l] ==> y in b'[l])
  }

  /** All of `p`'s relatives are in the bucket. */
  predicate KinIn(doc: Document, dir: Direction, p: nat, bucket: seq<nat>)
  {
    forall i :: 0 <= i < |Kin(doc, dir, p)| ==> Kin(doc, dir, p)[i] in bucket
  }

  /** Every member of a bucket at `level` or deeper has had its relatives placed in the
      next bucket (the last bucket is not expanded). */
  predicate ClosedFrom(doc: Document, dir: Direction, b: Buckets, level: nat)
  {
    forall l, y :: level <= l && l + 1 < |b| && y in b[l] ==> KinIn(doc, dir, y, b[l + 1])
  }

  /** Every member of bucket `l` is in generation `l`. */
  ghost predicate Sound(doc: Document, dir: Direction, root: nat, b: Buckets)
  {
    forall l, x :: 0 <= l < |b| && x in b[l] ==> InGen(doc, dir, root, l, x)
  }

  /** `p` is the root for the first bucket, and a member of the previous generation otherwise. */
  ghost predicate ParentAt(doc: Document, dir: Direction, root: nat, p: nat, level: nat)
  {
    if level == 0 then p == root else InGen(doc, dir, root, level - 1, p)
  }

  lemma KinInGen(doc: Document, dir: Direction, root: nat, p: nat, level: nat)
    requires ParentAt(doc, dir, root, p, level)
    ensures forall i :: 0 <= i < |Kin(doc, dir, p)| ==> InGen(doc, dir, root, level, Kin(doc, dir, p)[i])
  {
    forall i | 0 <= i < |Kin(doc, dir, p)|
      ensures InGen(doc, dir, root, level, Kin(doc, dir, p)[i])
    {
      KinRelated(doc, dir, p, Kin(doc, dir, p)[i]);
    }
  }

  /** The walk from one person: addDescendant / addAncestor at `level`. */
  function AddGen(doc: Document, dir: Direction, ghost root: nat, p: nat, level: nat, b: Buckets): (r: Buckets)
    requires level < |b|
    requires ClosedFrom(doc, dir, b, level) && AllNoDups(b) && Sound(doc, dir, root, b)
    requires ParentAt(doc, dir, root, p, level)
    ensures GrowsFrom(b, r, level) && AllNoDups(r) && Sound(doc, dir, root, r)
    ensures ClosedFrom(doc, dir, r, level) && KinIn(doc, dir, p, r[level])
    decreases |b| - level, 2, 0
  {
    KinInGen(doc, dir, root, p, level);
    AddAll(doc, dir, root, Kin(doc, dir, p), 0, level, b)
  }

  /** The relatives `xs[k..]` of one person, offered to the bucket at `level` in order. */
  function AddAll(doc: Document, dir: Direction, ghost root: nat, xs: seq<nat>, k: nat, level: nat, b: Buckets): (r: Buckets)
    requires level < |b| && k <= |xs|
    requires ClosedFrom(doc, dir, b, level) && AllNoDups(b) && Sound(doc, dir, root, b)
    requires forall i :: 0 <= i < |xs| ==> InGen(doc, dir, root, level, xs[i])
    requires forall i :: 0 <= i < k ==> xs[i] in b[level]
    ensures GrowsFrom(b, r, level) && AllNoDups(r) && Sound(doc, dir, root, r)
    ensures ClosedFrom(doc, dir, r, level)
    ensures forall i :: 0 <= i < |xs| ==> xs[i] in r[level]
    decreases |b| - level, 1, |xs| - k
  {
    if k == |xs| then b
    else
      var b1 := Insert(doc, dir, root, xs[k], level, b);
      assert forall i :: 0 <= i < k + 1 ==> xs[i] in b1[level] by {
        forall i | 0 <= i < k + 1 ensures xs[i] in b1[level] {
          if i < k { assert xs[i] in b[level]; }
        }
      }
      var r := AddAll(doc, dir, root, xs, k + 1, level, b1);
      GrowsTrans(b, b1, r, level);
      r
  }

  lemma GrowsTrans(b: Buckets, b1: Buckets, b2: Buckets, level: nat)
    requires GrowsFrom(b, b1, level) && GrowsFrom(b1, b2, level)
    ensures GrowsFrom(b, b2, level)
  {
  }

  /** One relative: skipped when already in the bucket, otherwise appended and, unless
      the bucket is the last one, expanded into the next generation. */
  function Insert(doc: Document, dir: Direction, ghost root: nat, x: nat, level: nat, b: Buckets): (r: Buckets)
    requires level < |b|
    requires ClosedFrom(doc, dir, b, level) && AllNoDups(b) && Sound(doc, dir, root, b)
    requires InGen(doc, dir, root, level, x)
    ensures GrowsFrom(b, r, level) && AllNoDups(r) && Sound(doc, dir, root, r)
    ensures ClosedFrom(doc, dir, r, level)
    ensures x in r[level]
    decreases |b| - level, 0, 0
  {
    if x in b[level] then b
    else
      var b1 := b[level := b[level] + [x]];
      AppendKeeps(doc, dir, root, b, x, level);
      if level + 1 < |b| then
        var b2 := AddGen(doc, dir, root, x, level + 1, b1);
        ExpandedClosed(doc, dir, b, b1, b2, x, level);
        b2
      else b1
  }

  lemma AppendKeeps(doc: Document, dir: Direction, root: nat, b: Buckets, x: nat, level: nat)
    requires level < |b| && x !in b[level]
    requires ClosedFrom(doc, dir, b, level) && AllNoDups(b) && Sound(doc, dir, root, b)
    requires InGen(doc, dir, root, level, x)
    ensures var b1 := b[level := b[level] + [x]];
            && GrowsFrom(b, b1, level) && AllNoDups(b1) && Sound(doc, dir, root, b1)
            && ClosedFrom(doc, dir, b1, level + 1)
            && (level + 1 == |b| ==> ClosedFrom(doc, dir, b1, level))
  {
    var b1 := b[level := b[level] + [x]];
    forall l, y | 0 <= l < |b1| && y in b1[l] ensures InGen(doc, dir, root, l, y) {
      if l == level && y !in b[l] {
        assert y == x;
      }
    }
  }

  /** After the walk from a newly appended `x`, every member of its bucket is expanded. */
  lemma ExpandedClosed(doc: Document, dir: Direction, b: Buckets, b1: Buckets, b2: Buckets, x: nat, level: nat)
    requires level + 1 < |b| && b1 == b[level := b[level] + [x]]
    requires ClosedFrom(doc, dir, b, level)
    requires GrowsFrom(b, b1, level) && GrowsFrom(b1, b2, level + 1)
    requires ClosedFrom(doc, dir, b2, level + 1) && KinIn(doc, dir, x, b2[level + 1])
    ensures GrowsFrom(b, b2, level) && ClosedFrom(doc, dir, b2, level)
  {
    forall l, y | level <= l && l + 1 < |b2| && y in b2[l]
      ensures KinIn(doc, dir, y, b2[l + 1])
    {
      if l == level && y != x {
        assert y in b[level];
        assert KinIn(doc, dir, y, b[level + 1]);
      }
    }
  }

  // ---------------------------------------------------------------------
  // The result list

  /** The buckets up to, not including, the first empty one. */
  function TakeNonEmpty(b: Buckets): (r: Buckets)
    ensures |r| <= |b| && r == b[..|r|]
    ensures forall k :: 0 <= k < |r| ==> |r[k]| > 0
    ensures |r| < |b| ==> |b[|r|]| == 0
  {
    if |b| == 0 || |b[0]| == 0 then [] else [b[0]] + TakeNonEmpty(b[1..])
  }

  /** Every generation is inside its bucket, given that the walk expanded every member
      and started from the root. */
  lemma {:induction false} GenInBucket(doc: Document, dir: Direction, root: nat, b: Buckets, k: nat, x: nat)
    requires k < |b| && ClosedFrom(doc, dir, b, 0) && KinIn(doc, dir, root, b[0])
    requires InGen(doc, dir, root, k, x)
    ensures x in b[k]
    decreases k
  {
    if k == 0 {
      KinRelated(doc, dir, root, x);
    } else {
      var y := GenStepBack(doc, dir, root, k, x);
      GenInBucket(doc, dir, root, b, k - 1, y);
      KinRelated(doc, dir, y, x);
      assert KinIn(doc, dir, y, b[k]);
    }
  }

  /** A member of generation `k > 0` has a relative in generation `k - 1` it descends from. */
  lemma GenStepBack(doc: Document, dir: Direction, root: nat, k: nat, x: nat) returns (y: nat)
    requires 0 < k && InGen(doc, dir, root, k, x)
    ensures InGen(doc, dir, root, k - 1, y) && Related(doc, dir, y, x)
  {
    y :| InGen(doc, dir, root, k - 1, y) && Related(doc, dir, y, x);
  }

  /** Once a bucket is empty, no later generation within the buckets has a member:
      each member would descend from a member of the empty one. */
  lemma {:induction false} NoGenAfterEmpty(doc: Document, dir: Direction, root: nat, b: Buckets,
                                           e: nat, k: nat, x: nat)
    requires e <= k < |b| && |b[e]| == 0
    requires ClosedFrom(doc, dir, b, 0) && KinIn(doc, dir, root, b[0])
    ensures !InGen(doc, dir, root, k, x)
    decreases k
  {
    if InGen(doc, dir, root, k, x) {
      if k == e {
        GenInBucket(doc, dir, root, b, k, x);
      } else {
        var z := GenStepBack(doc, dir, root, k, x);
        NoGenAfterEmpty(doc, dir, root, b, e, k - 1, z);
      }
    }
  }

  /** getDescendantListN / getAncestorListN: generation `k` of the result holds exactly
      the people `k + 1` steps from `root`, each once; the list stops at the first empty
      generation or after `maxGen` generations, and every generation it leaves out
      below `maxGen` is empty. */
  function GenerationsN(doc: Document, dir: Direction, root: nat, maxGen: nat): (r: Buckets)
    ensures |r| <= maxGen
    ensures forall k :: 0 <= k < |r| ==> |r[k]| > 0 && NoDups(r[k])
    ensures forall k, x :: 0 <= k < |r| ==> (x in r[k] <==> InGen(doc, dir, root, k, x))
    ensures forall k, x :: |r| <= k < maxGen ==> !InGen(doc, dir, root, k, x)
  {
    if maxGen == 0 then []
    else
      var empty: Buckets := seq(maxGen, _ => []);
      var b := AddGen(doc, dir, root, root, 0, empty);
      var r := TakeNonEmpty(b);
      GenerationsExact(doc, dir, root, b, r);
      r
  }

  lemma GenerationsExact(doc: Document, dir: Direction, root: nat, b: Buckets, r: Buckets)
    requires 0 < |b| && ClosedFrom(doc, dir, b, 0) && KinIn(doc, dir, root, b[0])
    requires Sound(doc, dir, root, b) && AllNoDups(b)
    requires r == TakeNonEmpty(b)
    ensures forall k :: 0 <= k < |r| ==> NoDups(r[k])
    ensures forall k, x :: 0 <= k < |r| ==> (x in r[k] <==> InGen(doc, dir, root, k, x))
    ensures forall k, x :: |r| <= k < |b| ==> !InGen(doc, dir, root, k, x)
  {
    forall k, x | 0 <= k < |r| ensures x in r[k] <==> InGen(doc, dir, root, k, x) {
      assert r[k] == b[k];
      if InGen(doc, dir, root, k, x) {
        GenInBucket(doc, dir, root, b, k, x);
      }
    }
    forall k, x | |r| <= k < |b| ensures !InGen(doc, dir, root, k, x) {
      NoGenAfterEmpty(doc, dir, root, b, |r|, k, x);
    }
  }

  /** getDescendantListN: the first generation is exactly the children of the families
      in which `person` is husband or wife; generation `k` holds exactly the people `k + 1`
      parent-to-child steps below `person`. */
  function GetDescendantListN(doc: Document, person: nat, maxGen: nat): (r: Buckets)
    ensures |r| <= maxGen
    ensures |r| > 0 ==> forall x :: x in r[0] <==>
              exists f :: 0 <= f < |doc.families| && x in doc.families[f].children
                          && (doc.families[f].husband == Some(person) || doc.families[f].wife == Some(person))
    ensures forall k, x :: 0 <= k < |r| ==> (x in r[k] <==> InGen(doc, Descendants, person, k, x))
    ensures forall k, x :: |r| <= k < maxGen ==> !InGen(doc, Descendants, person, k, x)
  {
    GenerationsN(doc, Descendants, person, maxGen)
  }

  /** getAncestorListN: the first generation is exactly the husbands and wives of the
      families in which `person` is a child; generation `k` holds exactly the people
      `k + 1` child-to-parent steps above `person`. */
  function GetAncestorListN(doc: Document, person: nat, maxGen: nat): (r: Buckets)
    ensures |r| <= maxGen
    ensures |r| > 0 ==> forall x :: x in r[0] <==>
              exists f :: 0 <= f < |doc.families| && person in doc.families[f].children
                          && (doc.families[f].husband == Some(x) || doc.families[f].wife == Some(x))
    ensures forall k, x :: 0 <= k < |r| ==> (x in r[k] <==> InGen(doc, Ancestors, person, k, x))
    ensures forall k, x :: |r| <= k < maxGen ==> !InGen(doc, Ancestors, person, k, x)
  {
    GenerationsN(doc, Ancestors, person, maxGen)
  }
}
