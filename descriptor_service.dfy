/**
 * The descriptor service: creating an empty descriptor already linked to a language, and the
 * two lookups the rest of the system uses.
 */
module DescriptorService {
  import opened Wrappers
  import opened Entities
  import Matrix
  import Storage
  import LanguageEntity

  /**
   * `createNewDescriptorForLanguage`: saves a new, empty descriptor under a fresh id and links
   * it to language l. The node link is left to the caller.
   */
  method CreateNewDescriptorForLanguage(s: Storage.Store, l: int) returns (d: int)
    requires s.IdsIssued()
    modifies s`descriptors, s`nextDescriptorId
    ensures d !in old(s.descriptors) && d == old(s.nextDescriptorId)
    ensures s.descriptors == old(s.descriptors)[d := NewDescriptor().(language := Some(l))]
    ensures s.nextDescriptorId == d + 1
    ensures s.IdsIssued()
  {
    d := s.nextDescriptorId;
    s.nextDescriptorId := d + 1;
    s.descriptors := s.descriptors[d := NewDescriptor()];
    LanguageEntity.AddDescriptor(s, l, d);
  }

  /** `findDescriptorById`: the stored descriptor, or None for an unknown id. */
  function FindDescriptorById(s: Storage.Store, id: int): (r: Option<Descriptor>)
    reads s
    ensures r.Some? <==> id in s.descriptors
    ensures r.Some? ==> r.value == s.descriptors[id]
  {
    if id in s.descriptors then Some(s.descriptors[id]) else None
  }

  /** `findAllDescriptorsByNodeId`: the descriptors that name node id. */
  function FindAllDescriptorsByNodeId(s: Storage.Store, id: int): (r: map<int, Descriptor>)
    reads s
    ensures forall d :: d in r <==> d in s.descriptors && s.descriptors[d].node == Some(id)
    ensures forall d :: d in r ==> r[d] == s.descriptors[d]
  {
    Matrix.DescriptorsOf(s.descriptors, id)
  }

  /**
   * In a valid, complete store the descriptors of a live node are one per language: they name
   * every language of the store and there are as many of them as languages.
   */
  lemma NodeHasOneDescriptorPerLanguage(s: Storage.Store, n: int)
    requires s.Valid() && s.Complete() && n in s.nodes
    ensures Matrix.LanguagesOf(FindAllDescriptorsByNodeId(s, n)) == s.languages.Keys
    ensures |FindAllDescriptorsByNodeId(s, n)| == |s.languages|
  {
    Matrix.DescriptorsOfNodeMatchLanguages(s.nodes.Keys, s.languages.Keys, s.descriptors, s.cell, n);
  }
}
