/**
 * The link helpers of the Node entity. The parent reference of a node and the node reference of
 * a descriptor are the owning sides of their relations; a node's list of children and list of
 * descriptors are derived from them (`Tree.ChildrenOf`, `Matrix.DescriptorsOf`).
 */
module NodeEntity {
  import opened Wrappers
  import opened Entities
  import Tree
  import Matrix
  import Storage

  /** `addSubNode`: c gets parent p, so c joins p's children and leaves any other node's. */
  method AddSubNode(s: Storage.Store, p: int, c: int)
    requires c in s.nodes
    modifies s`nodes
    ensures s.nodes == Tree.Reparent(old(s.nodes), c, Some(p))
    ensures Tree.ChildrenOf(s.nodes, p) == Tree.ChildrenOf(old(s.nodes), p) + {c}
    ensures forall q :: q != p ==> Tree.ChildrenOf(s.nodes, q) == Tree.ChildrenOf(old(s.nodes), q) - {c}
  {
    s.nodes := s.nodes[c := s.nodes[c].(parent := Some(p))];
  }

  /** `removeSubNode`: c becomes a root, so it is nobody's child any more. */
  method RemoveSubNode(s: Storage.Store, p: int, c: int)
    requires c in s.nodes
    modifies s`nodes
    ensures s.nodes == Tree.Reparent(old(s.nodes), c, None)
    ensures forall q :: Tree.ChildrenOf(s.nodes, q) == Tree.ChildrenOf(old(s.nodes), q) - {c}
  {
    s.nodes := s.nodes[c := s.nodes[c].(parent := None)];
  }

  /** `addDescriptor`: descriptor d names node n, so it joins n's descriptors and leaves any other's. */
  method AddDescriptor(s: Storage.Store, n: int, d: int)
    requires d in s.descriptors
    modifies s`descriptors
    ensures s.descriptors == old(s.descriptors)[d := old(s.descriptors)[d].(node := Some(n))]
    ensures Matrix.DescriptorsOf(s.descriptors, n).Keys == Matrix.DescriptorsOf(old(s.descriptors), n).Keys + {d}
    ensures forall m :: m != n ==>
              Matrix.DescriptorsOf(s.descriptors, m).Keys == Matrix.DescriptorsOf(old(s.descriptors), m).Keys - {d}
  {
    s.descriptors := s.descriptors[d := s.descriptors[d].(node := Some(n))];
  }

  /** `removeDescriptor`: descriptor d names no node any more. */
  method RemoveDescriptor(s: Storage.Store, n: int, d: int)
    requires d in s.descriptors
    modifies s`descriptors
    ensures s.descriptors == old(s.descriptors)[d := old(s.descriptors)[d].(node := None)]
    ensures forall m :: Matrix.DescriptorsOf(s.descriptors, m).Keys == Matrix.DescriptorsOf(old(s.descriptors), m).Keys - {d}
  {
    s.descriptors := s.descriptors[d := s.descriptors[d].(node := None)];
  }
}
