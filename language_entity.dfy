/**
 * The link helpers of the Language entity. A descriptor's language reference is the owning side;
 * a language's list of descriptors is derived from it (`Matrix.DescriptorsIn`).
 */
module LanguageEntity {
  import opened Wrappers
  import opened Entities
  import Matrix
  import Storage

  /** `addDescriptor`: descriptor d names language l, so it joins l's descriptors and leaves any other's. */
  method AddDescriptor(s: Storage.Store, l: int, d: int)
    requires d in s.descriptors
    modifies s`descriptors
    ensures s.descriptors == old(s.descriptors)[d := old(s.descriptors)[d].(language := Some(l))]
    ensures Matrix.DescriptorsIn(s.descriptors, l).Keys == Matrix.DescriptorsIn(old(s.descriptors), l).Keys + {d}
    ensures forall m :: m != l ==>
              Matrix.DescriptorsIn(s.descriptors, m).Keys == Matrix.DescriptorsIn(old(s.descriptors), m).Keys - {d}
  {
    s.descriptors := s.descriptors[d := s.descriptors[d].(language := Some(l))];
  }

  /** `removeDescriptor`: descriptor d names no language any more. */
  method RemoveDescriptor(s: Storage.Store, l: int, d: int)
    requires d in s.descriptors
    modifies s`descriptors
    ensures s.descriptors == old(s.descriptors)[d := old(s.descriptors)[d].(language := None)]
    ensures forall m :: Matrix.DescriptorsIn(s.descriptors, m).Keys == Matrix.DescriptorsIn(old(s.descriptors), m).Keys - {d}
  {
    s.descriptors := s.descriptors[d := s.descriptors[d].(language := None)];
  }
}
