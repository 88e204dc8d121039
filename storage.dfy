/**
 * The record store the services work on: three id-keyed tables (the repositories), the id
 * sequences that issue fresh ids, and two ghost fields that witness the structural invariants:
 * `rank` for the acyclic parent relation and `cell` for the descriptor matrix index.
 */
module Storage {
  import opened Wrappers
  import opened Entities
  import Tree
  import Matrix
  import Registry

  class Store {
    var nodes: map<int, Node>
    var languages: map<int, Language>
    var descriptors: map<int, Descriptor>

    // The id sequences: every id in a table is below the next id to issue.
    var nextNodeId: int
    var nextLanguageId: int
    var nextDescriptorId: int

    ghost var rank: map<int, nat>
    ghost var cell: map<(int, int), int>

    /** Every stored id was issued by its sequence. */
    ghost predicate IdsIssued()
      reads this
    {
      && (forall k :: k in nodes ==> k < nextNodeId)
      && (forall k :: k in languages ==> k < nextLanguageId)
      && (forall k :: k in descriptors ==> k < nextDescriptorId)
    }

    /**
     * The invariant every operation keeps: ids issued, the parent relation resolves and is
     * acyclic, every descriptor links a live node and a live language and no two share a pair,
     * and the language flags are consistent.
     */
    ghost predicate Valid()
      reads this
    {
      && IdsIssued()
      && Tree.Ranked(nodes, rank)
      && Matrix.Keyed(nodes.Keys, languages.Keys, descriptors, cell)
      && Registry.Consistent(languages)
    }

    /** Every (node, language) pair of the store has its descriptor. */
    ghost predicate Complete()
      reads this
    {
      Matrix.Covered(nodes.Keys, languages.Keys, descriptors, cell)
    }

    /** An empty store whose sequences start at 1. */
    constructor ()
      ensures Valid() && Complete()
      ensures nodes == map[] && languages == map[] && descriptors == map[]
    {
      nodes, languages, descriptors := map[], map[], map[];
      nextNodeId, nextLanguageId, nextDescriptorId := 1, 1, 1;
      rank, cell := map[], map[];
    }
  }
}
