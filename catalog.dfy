/**
 * The static catalogs of the dino tracker: regions to servers, categories to
 * dinosaurs, categories to mutations (plus the category-independent "All"
 * pool). A Python dict keeps insertion order, so each catalog is an ordered
 * sequence of (key, labels) groups.
 */
module Catalog {
  import opened Wrappers
  import opened Basics

  /** One entry of an ordered dictionary: a key and its list of labels. */
  type Group = (string, seq<string>)

  const EvrimaServers: seq<Group> := [
    ("Americas", ["NA 2 - West No AI", "NA 3 - West", "NA 4 - East", "NA 5- East", "CA 1 - Central", "SA 1 - East", "SA 2 - East"]),
    ("Europe", ["EU 1 - West", "EU 2 - West", "EU 3 - West", "EU 4 - Central No AI", "EU 5 - North", "EU 6 - South"]),
    ("Asia", ["AS 1 - South East", "AS 2 - South", "AS 3 - East"]),
    ("Australia", ["AU 1 - East"])
  ]

  const Dinosaurs: seq<Group> := [
    ("Carnivores", ["Carnotaurus", "Ceratosaurus", "Deinosuchus", "Dilophosaurus", "Herrerasaurus", "Omniraptor", "Pteranodon", "Troodon"]),
    ("Herbivores", ["Diabloceratops", "Dryosaurus", "Hypsilophodon", "Pachycephalosaurus", "Stegosaurus", "Tenontosaurus"]),
    ("Omnivores", ["Bepiposaurus", "Gallimimus"])
  ]

  /** The key of the mutation pool offered to every dinosaur. */
  const AllPool: string := "All"

  const Mutations: seq<Group> := [
    ("Carnivores", ["Mutation1", "Mutation2", "Mutation3"]),
    ("Herbivores", ["Mutation4", "Mutation5", "Mutation6"]),
    ("Omnivores", ["Mutation7", "Mutation8", "Mutation9"]),
    (AllPool, ["Mutation10", "Mutation11", "Mutation12"])
  ]

  /** The keys of an ordered dictionary, in order (`dict.keys()`). */
  function Keys(groups: seq<Group>): seq<string>
  {
    seq(|groups|, i requires 0 <= i < |groups| => groups[i].0)
  }

  /** `d[key]`: the labels of the first group with that key, or None (a KeyError). */
  function Lookup(groups: seq<Group>, key: string): (r: Option<seq<string>>)
    ensures r.None? <==> key !in Keys(groups)
    ensures r.Some? ==> exists i :: 0 <= i < |groups| && groups[i] == (key, r.value)
  {
    if groups == [] then None
    else
      assert Keys(groups) == [groups[0].0] + Keys(groups[1..]);
      if groups[0].0 == key then Some(groups[0].1)
      else
        var r := Lookup(groups[1..], key);
        assert r.Some? ==> exists i :: 0 <= i < |groups[1..]| && groups[1..][i] == (key, r.value);
        r
  }

  /** In a dictionary whose keys are distinct, looking up a key finds that key's own group. */
  lemma LookupDistinct(groups: seq<Group>, i: nat)
    requires NoDuplicates(Keys(groups)) && i < |groups|
    ensures Lookup(groups, groups[i].0) == Some(groups[i].1)
  {
    var r := Lookup(groups, groups[i].0);
    assert Keys(groups)[i] == groups[i].0;
    var j :| 0 <= j < |groups| && groups[j] == (groups[i].0, r.value);
    assert Keys(groups)[j] == Keys(groups)[i];
  }

  /** Every group's labels, group after group, in catalog order. */
  function Flatten(groups: seq<Group>): seq<string>
  {
    if groups == [] then [] else groups[0].1 + Flatten(groups[1..])
  }

  lemma {:induction false} FlattenAppend(a: seq<Group>, b: seq<Group>)
    ensures Flatten(a + b) == Flatten(a) + Flatten(b)
  {
    if a == [] {
      assert a + b == b;
    } else {
      assert (a + b)[1..] == a[1..] + b;
      FlattenAppend(a[1..], b);
    }
  }

  /** A label is in the flattened list exactly when some group lists it. */
  lemma {:induction false} FlattenMembership(groups: seq<Group>, x: string)
    ensures x in Flatten(groups) <==> exists i :: 0 <= i < |groups| && x in groups[i].1
  {
    if groups != [] {
      FlattenMembership(groups[1..], x);
      if x in Flatten(groups[1..]) {
        var i :| 0 <= i < |groups[1..]| && x in groups[1..][i].1;
        assert x in groups[i + 1].1;
      }
      if exists i :: 0 <= i < |groups| && x in groups[i].1 {
        var i :| 0 <= i < |groups| && x in groups[i].1;
        if i > 0 {
          assert x in groups[1..][i - 1].1;
        }
      }
    }
  }

  /** The length of the flattened list is the sum of the group sizes. */
  function TotalLabels(groups: seq<Group>): nat
  {
    if groups == [] then 0 else |groups[0].1| + TotalLabels(groups[1..])
  }

  /**
   * The nested loops of the option builders: append every label of every
   * group, in catalog order.
   */
  method FlattenOptions(groups: seq<Group>) returns (options: seq<string>)
    ensures options == Flatten(groups)
    ensures |options| == TotalLabels(groups)
    ensures forall x :: x in options <==> exists i :: 0 <= i < |groups| && x in groups[i].1
  {
    options := [];
    var i := 0;
    while i < |groups|
      invariant 0 <= i <= |groups|
      invariant options == Flatten(groups[..i])
      invariant |options| == TotalLabels(groups[..i])
    {
      var labels := groups[i].1;
      var j := 0;
      while j < |labels|
        invariant 0 <= j <= |labels|
        invariant options == Flatten(groups[..i]) + labels[..j]
      {
        options := options + [labels[j]];
        j := j + 1;
      }
      assert labels[..j] == labels;
      assert groups[..i + 1] == groups[..i] + [groups[i]];
      FlattenAppend(groups[..i], [groups[i]]);
      TotalLabelsAppend(groups[..i], [groups[i]]);
      i := i + 1;
    }
    assert groups[..i] == groups;
    forall x
      ensures x in options <==> exists k :: 0 <= k < |groups| && x in groups[k].1
    {
      FlattenMembership(groups, x);
    }
  }

  lemma {:induction false} TotalLabelsAppend(a: seq<Group>, b: seq<Group>)
    ensures TotalLabels(a + b) == TotalLabels(a) + TotalLabels(b)
  {
    if a == [] {
      assert a + b == b;
    } else {
      assert (a + b)[1..] == a[1..] + b;
      TotalLabelsAppend(a[1..], b);
    }
  }

  /**
   * The index of the first group whose labels contain `x`: the generator of
   * `next(...)`. None stands for the StopIteration raised when no group does.
   */
  function FirstGroupContaining(groups: seq<Group>, x: string): (r: Option<nat>)
    ensures r.None? <==> forall i :: 0 <= i < |groups| ==> x !in groups[i].1
    ensures r.Some? ==> r.value < |groups| && x in groups[r.value].1
    ensures r.Some? ==> forall j :: 0 <= j < r.value ==> x !in groups[j].1
  {
    if groups == [] then None
    else if x in groups[0].1 then Some(0)
    else
      match FirstGroupContaining(groups[1..], x)
      case None =>
        assert forall i :: 1 <= i < |groups| ==> groups[i] == groups[1..][i - 1];
        None
      case Some(k) =>
        assert forall j :: 1 <= j < k + 1 ==> groups[j] == groups[1..][j - 1];
        Some(k + 1)
  }

  /** The category of a dinosaur: the first DINOSAURS key whose list holds it. */
  function DinoCategory(dinosaur: string): (r: Option<string>)
    ensures r.None? <==> forall i :: 0 <= i < |Dinosaurs| ==> dinosaur !in Dinosaurs[i].1
    ensures r.Some? ==> exists i :: 0 <= i < |Dinosaurs| && Dinosaurs[i].0 == r.value && dinosaur in Dinosaurs[i].1
  {
    match FirstGroupContaining(Dinosaurs, dinosaur)
    case None => None
    case Some(i) => Some(Dinosaurs[i].0)
  }

  /**
   * The mutations offered for a dinosaur: its category's mutations followed by
   * the "All" pool. None when the dinosaur is in no category (StopIteration) or
   * the category has no mutation list (KeyError); the latter never happens,
   * because MUTATIONS has a list for every category.
   */
  function MutationCandidates(dinosaur: string): (r: Option<seq<string>>)
    ensures r.Some? <==> DinoCategory(dinosaur).Some?
  {
    match DinoCategory(dinosaur)
    case None => None
    case Some(category) =>
      MutationListsExist(category);
      match (Lookup(Mutations, category), Lookup(Mutations, AllPool))
      case (Some(own), Some(shared)) => Some(own + shared)
      case _ => None
  }

  /** Every DINOSAURS category, and the "All" pool, has a MUTATIONS list. */
  lemma MutationListsExist(category: string)
    requires exists i :: 0 <= i < |Dinosaurs| && Dinosaurs[i].0 == category
    ensures Lookup(Mutations, category).Some? && Lookup(Mutations, AllPool).Some?
  {
    MutationCatalogShape();
    var i :| 0 <= i < |Dinosaurs| && Dinosaurs[i].0 == category;
    LookupDistinct(Mutations, i);
    LookupDistinct(Mutations, |Dinosaurs|);
  }

  /** No label is listed under two different keys. */
  predicate GroupsDisjoint(groups: seq<Group>)
  {
    forall i, j, x :: 0 <= i < j < |groups| && x in groups[i].1 ==> x !in groups[j].1
  }

  /** A duplicate-free concatenation is made of two duplicate-free, disjoint parts. */
  lemma NoDuplicatesConcat<T>(a: seq<T>, b: seq<T>)
    requires NoDuplicates(a + b)
    ensures NoDuplicates(a) && NoDuplicates(b)
    ensures forall x :: x in a ==> x !in b
  {
    forall i, j | 0 <= i < j < |a|
      ensures a[i] != a[j]
    {
      assert (a + b)[i] == a[i] && (a + b)[j] == a[j];
    }
    forall i, j | 0 <= i < j < |b|
      ensures b[i] != b[j]
    {
      assert (a + b)[|a| + i] == b[i] && (a + b)[|a| + j] == b[j];
    }
    forall p, q | 0 <= p < |a| && 0 <= q < |b|
      ensures a[p] != b[q]
    {
      assert (a + b)[p] == a[p] && (a + b)[|a| + q] == b[q];
    }
  }

  /** When no label is listed twice in the whole catalog, no label is listed under two keys. */
  lemma {:induction false} DistinctLabelsDisjoint(groups: seq<Group>)
    requires NoDuplicates(Flatten(groups))
    ensures GroupsDisjoint(groups)
  {
    if groups != [] {
      NoDuplicatesConcat(groups[0].1, Flatten(groups[1..]));
      DistinctLabelsDisjoint(groups[1..]);
      forall i, j, x | 0 <= i < j < |groups| && x in groups[i].1
        ensures x !in groups[j].1
      {
        if i == 0 {
          FlattenMembership(groups[1..], x);
          assert groups[j] == groups[1..][j - 1];
        } else {
          assert groups[i] == groups[1..][i - 1] && groups[j] == groups[1..][j - 1];
        }
      }
    }
  }

  /** In a catalog whose groups are disjoint, the first group holding a label is its only group. */
  lemma {:induction false} FirstGroupOfDisjoint(groups: seq<Group>, i: nat, x: string)
    requires GroupsDisjoint(groups)
    requires i < |groups| && x in groups[i].1
    ensures FirstGroupContaining(groups, x) == Some(i)
  {
    assert FirstGroupContaining(groups, x).Some?;
  }

  /**
   * Every server option belongs to exactly one region, and there are 17 of them;
   * every dinosaur option belongs to exactly one category, and there are 16.
   */
  lemma ServerCatalogShape()
    ensures GroupsDisjoint(EvrimaServers) && NoDuplicates(Flatten(EvrimaServers))
    ensures |Flatten(EvrimaServers)| == 17
    ensures NoDuplicates(Keys(EvrimaServers))
  {
    ServerLabelsDistinct();
    DistinctLabelsDisjoint(EvrimaServers);
  }

  lemma DinosaurCatalogShape()
    ensures GroupsDisjoint(Dinosaurs) && NoDuplicates(Flatten(Dinosaurs))
    ensures |Flatten(Dinosaurs)| == 16
  {
    DinosaurLabelsDistinct();
    DistinctLabelsDisjoint(Dinosaurs);
  }

  /** The 17 server names are pairwise distinct. */
  lemma ServerLabelsDistinct()
    ensures NoDuplicates(Flatten(EvrimaServers))
  {
  }

  /** The 16 dinosaur names are pairwise distinct. */
  lemma DinosaurLabelsDistinct()
    ensures NoDuplicates(Flatten(Dinosaurs))
  {
  }

  /**
   * MUTATIONS has one list per DINOSAURS category, at the same position, and
   * then the "All" pool; no category list shares a label with the pool.
   */
  lemma MutationCatalogShape()
    ensures NoDuplicates(Keys(Mutations)) && |Mutations| == |Dinosaurs| + 1
    ensures Mutations[|Dinosaurs|].0 == AllPool
    ensures forall i :: 0 <= i < |Dinosaurs| ==> Mutations[i].0 == Dinosaurs[i].0
    ensures forall i :: 0 <= i < |Dinosaurs| ==> NoDuplicates(Mutations[i].1 + Mutations[|Dinosaurs|].1)
    ensures forall i :: 0 <= i < |Mutations| ==> |Mutations[i].1| == 3
  {
  }

  /**
   * The mutation prompt of a catalog dinosaur offers the mutations of the
   * category listing it followed by the "All" pool: six distinct labels.
   */
  lemma {:induction false} MutationCandidatesOfCatalogDinosaur(i: nat, dinosaur: string)
    requires i < |Dinosaurs| && dinosaur in Dinosaurs[i].1
    ensures Lookup(Mutations, Dinosaurs[i].0).Some? && Lookup(Mutations, AllPool).Some?
    ensures MutationCandidates(dinosaur)
         == Some(Lookup(Mutations, Dinosaurs[i].0).value + Lookup(Mutations, AllPool).value)
    ensures NoDuplicates(MutationCandidates(dinosaur).value)
    ensures |MutationCandidates(dinosaur).value| == 6
  {
    DinosaurCatalogShape();
    MutationCatalogShape();
    FirstGroupOfDisjoint(Dinosaurs, i, dinosaur);
    LookupDistinct(Mutations, |Dinosaurs|);
    LookupDistinct(Mutations, i);
    assert DinoCategory(dinosaur) == Some(Dinosaurs[i].0);
  }

  /** A dinosaur has mutation candidates exactly when it is a dinosaur option. */
  lemma {:induction false} MutationCandidatesDefined(dinosaur: string)
    ensures MutationCandidates(dinosaur).Some? <==> dinosaur in Flatten(Dinosaurs)
  {
    FlattenMembership(Dinosaurs, dinosaur);
    if dinosaur in Flatten(Dinosaurs) {
      var i :| 0 <= i < |Dinosaurs| && dinosaur in Dinosaurs[i].1;
      MutationCandidatesOfCatalogDinosaur(i, dinosaur);
    }
  }
}
