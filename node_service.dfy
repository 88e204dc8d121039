/**
 * The node service: creating a node (and its empty descriptors), the relocation decision and
 * the relocation itself, the batch update of a node and its descriptors, and deletion.
 */
module NodeService {
  import opened Wrappers
  import opened Entities
  import Sets
  import Tree
  import Matrix
  import Storage
  import NodeEntity
  import DescriptorService

  /** The parts of a node request the service reads when it creates a node. */
  datatype NewNodeRequest = NewNodeRequest(parent: Option<int>, note: Text, active: bool)

  /** The descriptor part of a node update request: which descriptor, and its new texts. */
  datatype DescriptorEdit = DescriptorEdit(id: int, title: Text, brief: Text, fullDescr: Text)

  /** The parts of a node request the service reads when it updates a node. */
  datatype NodeUpdate = NodeUpdate(id: int, note: Text, active: bool, descriptors: seq<DescriptorEdit>)

  /** `findNodeById`: the stored node, or None. */
  function FindNodeById(s: Storage.Store, id: int): (r: Option<Node>)
    reads s
    ensures r.Some? <==> id in s.nodes
    ensures r.Some? ==> r.value == s.nodes[id]
  {
    if id in s.nodes then Some(s.nodes[id]) else None
  }

  /**
   * The expansion loop of node creation: node n, which has no descriptor yet, gets one new empty
   * descriptor per language of the store.
   */
  method ExpandDescriptorsForNewNode(s: Storage.Store, n: int)
    requires s.Valid() && n in s.nodes
    requires forall d :: d in s.descriptors ==> s.descriptors[d].node != Some(n)
    modifies s`descriptors, s`nextDescriptorId, s`cell
    ensures s.Valid()
    ensures old(Matrix.Covered(s.nodes.Keys - {n}, s.languages.Keys, s.descriptors, s.cell)) ==> s.Complete()
    ensures Matrix.Covered({n}, s.languages.Keys, s.descriptors, s.cell)
    ensures forall d :: d in old(s.descriptors) ==> d in s.descriptors && s.descriptors[d] == old(s.descriptors)[d]
    ensures forall d :: d in s.descriptors && d !in old(s.descriptors) ==>
              s.descriptors[d].node == Some(n) && IsBlank(s.descriptors[d])
  {
    ghost var wasCovered := Matrix.Covered(s.nodes.Keys - {n}, s.languages.Keys, s.descriptors, s.cell);
    var todo := s.languages.Keys;
    ghost var done: set<int> := {};
    while todo != {}
      invariant todo !! done && todo + done == s.languages.Keys
      invariant s.IdsIssued()
      invariant Matrix.RowFilling(s.nodes.Keys, s.languages.Keys, old(s.descriptors), s.descriptors, s.cell,
                                  n, done, wasCovered)
      decreases todo
    {
      Sets.NonEmptyHasElement(todo);
      var l :| l in todo;
      ghost var descs, cell := s.descriptors, s.cell;
      var d := DescriptorService.CreateNewDescriptorForLanguage(s, l);
      NodeEntity.AddDescriptor(s, n, d);
      s.cell := s.cell[(n, l) := d];
      assert s.descriptors == descs[d := Descriptor(Some(n), Some(l), None, None, None)];
      Matrix.RowFillingStep(s.nodes.Keys, s.languages.Keys, old(s.descriptors), descs, cell, n, done, wasCovered, l, d);
      todo, done := todo - {l}, done + {l};
    }
    Matrix.CoveredJoin(s.nodes.Keys, s.languages.Keys, s.descriptors, s.cell, n, n);
  }

  /**
   * `addNewNodeAndExpandEmptyDescriptors`: a parent id that does not resolve creates nothing.
   * Otherwise a node with the requested note and flag is stored under a fresh id, as a child of
   * the parent (or as a root), and gets exactly one new empty descriptor per language; the
   * message reports the parent and that count.
   */
  method AddNewNodeAndExpandEmptyDescriptors(s: Storage.Store, req: NewNodeRequest) returns (r: Option<Outcome>)
    requires s.Valid()
    modifies s
    ensures s.Valid()
    ensures old(s.Complete()) ==> s.Complete()
    ensures s.languages == old(s.languages)
    ensures req.parent.Some? && req.parent.value !in old(s.nodes) ==>
              r.None? && s.nodes == old(s.nodes) && s.descriptors == old(s.descriptors)
    ensures req.parent.None? || req.parent.value in old(s.nodes) ==>
              && r.Some?
              && r.value.id !in old(s.nodes)
              && s.nodes == old(s.nodes)[r.value.id := Node(req.parent, req.note, req.active)]
              && (req.parent.Some? ==> r.value.id in Tree.ChildrenOf(s.nodes, req.parent.value))
              && r.value.done && r.value.msg == [NodeAdded(req.parent, |s.languages|)]
              && (forall d :: d in old(s.descriptors) ==> d in s.descriptors && s.descriptors[d] == old(s.descriptors)[d])
              && (forall d :: d in s.descriptors && d !in old(s.descriptors) ==>
                    s.descriptors[d].node == Some(r.value.id) && IsBlank(s.descriptors[d]))
              && Matrix.LanguagesOf(Matrix.DescriptorsOf(s.descriptors, r.value.id)) == s.languages.Keys
              && |Matrix.DescriptorsOf(s.descriptors, r.value.id)| == |s.languages|
  {
    if req.parent.Some? && FindNodeById(s, req.parent.value).None? {
      return None;
    }
    ghost var wasComplete := s.Complete();
    var x := s.nextNodeId;
    s.nextNodeId := x + 1;
    s.nodes := s.nodes[x := NewNode().(active := req.active, note := req.note)];
    s.rank := s.rank[x := 0];
    if req.parent.Some? {
      NodeEntity.AddSubNode(s, req.parent.value, x);
      s.rank := s.rank[x := s.rank[req.parent.value] + 1];
    }
    assert s.nodes.Keys - {x} == old(s.nodes).Keys;
    ExpandDescriptorsForNewNode(s, x);
    Matrix.DescriptorsOfNodeMatchLanguages(s.nodes.Keys, s.languages.Keys, s.descriptors, s.cell, x);
    r := Some(Outcome(x, true, [NodeAdded(req.parent, |Matrix.DescriptorsOf(s.descriptors, x)|)]));
  }

  /**
   * `isPossibleToRelocate`: walks the parent chain upwards from the destination. No node id:
   * refused; no destination: allowed; otherwise refused exactly when the node is met on the
   * chain, that is when the destination is the node itself or one of its descendants.
   */
  method IsPossibleToRelocate(s: Storage.Store, nodeId: Option<int>, dest: Option<int>) returns (decision: bool)
    requires s.Valid()
    ensures decision <==> nodeId.Some? && (dest.None? || !Tree.OnChain(s.nodes, s.rank, nodeId.value, dest.value))
  {
    decision := true;
    if nodeId.Some? {
      if dest.Some? {
        var parent := if dest.value in s.nodes then Some(dest.value) else None;
        while parent.Some?
          invariant parent.Some? ==> parent.value in s.nodes
          invariant Tree.OnChain(s.nodes, s.rank, nodeId.value, dest.value) <==>
                      parent.Some? && Tree.OnChain(s.nodes, s.rank, nodeId.value, parent.value)
          invariant decision
          decreases if parent.Some? then s.rank[parent.value] + 1 else 0
        {
          var p := parent.value;
          if p == nodeId.value {
            decision := false;
            break;
          }
          if s.nodes[p].parent.None? {
            break;
          }
          var q := s.nodes[p].parent.value;
          parent := if FindNodeById(s, q).Some? then Some(q) else None;
        }
      }
    } else {
      decision := false;
    }
  }

  /**
   * `getRelocationDecision`: both ids must resolve (second component); then the first component
   * is the relocation decision, otherwise it is absent.
   */
  method GetRelocationDecision(s: Storage.Store, idNode: int, idDest: int) returns (possible: Option<bool>, found: bool)
    requires s.Valid()
    ensures found <==> idNode in s.nodes && idDest in s.nodes
    ensures found ==> possible == Some(!Tree.OnChain(s.nodes, s.rank, idNode, idDest))
    ensures !found ==> possible.None?
  {
    var node, nodeDest := FindNodeById(s, idNode), FindNodeById(s, idDest);
    if node.Some? && nodeDest.Some? {
      var decision := IsPossibleToRelocate(s, Some(idNode), Some(idDest));
      possible, found := Some(decision), true;
    } else {
      possible, found := None, false;
    }
  }

  /**
   * `relocateToAnotherParentNode`: moves a node under a destination (None: makes it a root).
   * An unknown node yields None. A destination that is the node itself or one of its
   * descendants is refused softly: nothing changes and the outcome carries done = false and the
   * reason. A destination id that does not resolve yields None and changes nothing. Otherwise the
   * node's parent becomes the destination, and the parent relation stays acyclic.
   */
  method RelocateToAnotherParentNode(s: Storage.Store, nodeId: int, dest: Option<int>) returns (r: Option<Outcome>)
    requires s.Valid()
    modifies s`nodes, s`rank
    ensures s.Valid() && Tree.NoCycle(s.nodes)
    ensures old(s.Complete()) ==> s.Complete()
    ensures nodeId !in old(s.nodes) ==> r.None? && s.nodes == old(s.nodes)
    ensures nodeId in old(s.nodes) && dest.Some? && Tree.OnChain(old(s.nodes), old(s.rank), nodeId, dest.value) ==>
              r == Some(Outcome(nodeId, false, [RelocationRefused(nodeId, dest)])) && s.nodes == old(s.nodes)
    ensures nodeId in old(s.nodes) && dest.Some? && dest.value !in old(s.nodes) ==>
              r.None? && s.nodes == old(s.nodes)
    ensures nodeId in old(s.nodes) && (dest.None? || (dest.value in old(s.nodes) &&
                                       !Tree.OnChain(old(s.nodes), old(s.rank), nodeId, dest.value))) ==>
              r == Some(Outcome(nodeId, true, [])) && s.nodes == Tree.Reparent(old(s.nodes), nodeId, dest)
  {
    if FindNodeById(s, nodeId).None? {
      Tree.RankedHasNoCycle(s.nodes, s.rank);
      return None;
    }
    var possible := IsPossibleToRelocate(s, Some(nodeId), dest);
    if possible {
      // The source's single-pass do-while: leave early when the destination does not resolve.
      if dest.Some? && FindNodeById(s, dest.value).None? {
        Tree.RankedHasNoCycle(s.nodes, s.rank);
        return None;
      }
      Tree.RelocationKeepsRanking(s.nodes, s.rank, nodeId, dest);
      ghost var lifted := Tree.Lifted(s.nodes, s.rank, nodeId, dest);
      if dest.Some? {
        NodeEntity.AddSubNode(s, dest.value, nodeId);
      }
      s.nodes := s.nodes[nodeId := s.nodes[nodeId].(parent := dest)];
      s.rank := lifted;
      Tree.RankedHasNoCycle(s.nodes, s.rank);
      r := Some(Outcome(nodeId, true, []));
    } else {
      Tree.RankedHasNoCycle(s.nodes, s.rank);
      r := Some(Outcome(nodeId, false, [RelocationRefused(nodeId, dest)]));
    }
  }

  // ---------------------------------------------------------------------------------------
  // Batch update

  /**
   * The descriptors after applying the edits in order: an edit whose id is stored overwrites
   * that descriptor's three texts, whatever node it belongs to; an edit whose id is not stored
   * changes nothing.
   */
  ghost function Edited(descs: Matrix.Descriptors, edits: seq<DescriptorEdit>): (r: Matrix.Descriptors)
    ensures r.Keys == descs.Keys
    ensures forall d :: d in descs ==> r[d].node == descs[d].node && r[d].language == descs[d].language
    decreases |edits|
  {
    if edits == [] then descs
    else
      var prev := Edited(descs, edits[..|edits| - 1]);
      var e := edits[|edits| - 1];
      if e.id in prev then prev[e.id := prev[e.id].(title := e.title, brief := e.brief, fullDescr := e.fullDescr)]
      else prev
  }

  /** The message segments of the edits, in order: one per edit whose id is not stored. */
  ghost function Missing(descs: Matrix.Descriptors, edits: seq<DescriptorEdit>): seq<Reason>
    decreases |edits|
  {
    if edits == [] then []
    else
      var e := edits[|edits| - 1];
      Missing(descs, edits[..|edits| - 1]) + (if e.id in descs then [] else [DescriptorNotFound(e.id)])
  }

  /**
   * The last edit naming a stored descriptor decides its texts; a stored descriptor that no edit
   * names keeps them.
   */
  lemma {:induction false} EditedLastWins(descs: Matrix.Descriptors, edits: seq<DescriptorEdit>)
    ensures forall d :: d in descs && (forall i :: 0 <= i < |edits| ==> edits[i].id != d) ==>
              Edited(descs, edits)[d] == descs[d]
    ensures forall i :: 0 <= i < |edits| && edits[i].id in descs &&
                        (forall j :: i < j < |edits| ==> edits[j].id != edits[i].id) ==>
              var t := Edited(descs, edits)[edits[i].id];
              t.title == edits[i].title && t.brief == edits[i].brief && t.fullDescr == edits[i].fullDescr
    decreases |edits|
  {
    if edits != [] {
      var front := edits[..|edits| - 1];
      EditedLastWins(descs, front);
      forall d | d in descs && (forall i :: 0 <= i < |edits| ==> edits[i].id != d)
        ensures Edited(descs, edits)[d] == descs[d]
      {
        assert forall i :: 0 <= i < |front| ==> front[i] == edits[i];
      }
      forall i | 0 <= i < |edits| && edits[i].id in descs && (forall j :: i < j < |edits| ==> edits[j].id != edits[i].id)
        ensures Edited(descs, edits)[edits[i].id].title == edits[i].title
        ensures Edited(descs, edits)[edits[i].id].brief == edits[i].brief
        ensures Edited(descs, edits)[edits[i].id].fullDescr == edits[i].fullDescr
      {
        if i < |edits| - 1 {
          assert front[i] == edits[i];
          assert forall j :: i < j < |front| ==> front[j] == edits[j];
        }
      }
    }
  }

  /**
   * The message lists exactly the edits whose id is not stored: it is empty if and only if every
   * edit found its descriptor, and each of its segments names an edit that did not.
   */
  lemma {:induction false} MissingReportsEveryUnknownId(descs: Matrix.Descriptors, edits: seq<DescriptorEdit>)
    ensures Missing(descs, edits) == [] <==> forall i :: 0 <= i < |edits| ==> edits[i].id in descs
    ensures forall i :: 0 <= i < |edits| && edits[i].id !in descs ==> DescriptorNotFound(edits[i].id) in Missing(descs, edits)
    ensures forall r :: r in Missing(descs, edits) ==>
              r.DescriptorNotFound? && r.descriptorId !in descs && exists i :: 0 <= i < |edits| && edits[i].id == r.descriptorId
    decreases |edits|
  {
    if edits != [] {
      var front := edits[..|edits| - 1];
      MissingReportsEveryUnknownId(descs, front);
      assert forall i :: 0 <= i < |front| ==> front[i] == edits[i];
      forall r | r in Missing(descs, edits)
        ensures exists i :: 0 <= i < |edits| && edits[i].id == r.descriptorId
      {
        if r in Missing(descs, front) {
          var i :| 0 <= i < |front| && front[i].id == r.descriptorId;
          assert edits[i].id == r.descriptorId;
        } else {
          assert edits[|edits| - 1].id == r.descriptorId;
        }
      }
    }
  }

  /** The message has exactly one segment per edit whose id is not stored. */
  lemma {:induction false} MissingCountsUnknownEdits(descs: Matrix.Descriptors, edits: seq<DescriptorEdit>)
    ensures |Missing(descs, edits)| == |set i | 0 <= i < |edits| && edits[i].id !in descs|
    decreases |edits|
  {
    if edits != [] {
      var front := edits[..|edits| - 1];
      var last := |edits| - 1;
      MissingCountsUnknownEdits(descs, front);
      var unknownBefore := set i | 0 <= i < |front| && front[i].id !in descs;
      var unknown := set i | 0 <= i < |edits| && edits[i].id !in descs;
      assert forall i :: 0 <= i < |front| ==> front[i] == edits[i];
      if edits[last].id in descs {
        assert unknown == unknownBefore;
      } else {
        assert unknown == unknownBefore + {last};
      }
    }
  }

  /** Texts edits leave the descriptor index as it was: the same keys, links and coverage. */
  lemma EditedKeepsIndex(N: set<int>, L: set<int>, descs: Matrix.Descriptors, cell: Matrix.Index,
                         edits: seq<DescriptorEdit>)
    ensures Matrix.Keyed(N, L, descs, cell) ==> Matrix.Keyed(N, L, Edited(descs, edits), cell)
    ensures Matrix.Covered(N, L, descs, cell) ==> Matrix.Covered(N, L, Edited(descs, edits), cell)
  {
  }

  /**
   * The edit loop of the node update: each edit whose descriptor is stored overwrites its three
   * texts; each one that is not adds a message segment and clears `done`.
   */
  method ApplyDescriptorEdits(s: Storage.Store, edits: seq<DescriptorEdit>) returns (done: bool, msg: seq<Reason>)
    modifies s`descriptors
    ensures s.descriptors == Edited(old(s.descriptors), edits)
    ensures msg == Missing(old(s.descriptors), edits)
    ensures done <==> msg == []
  {
    done, msg := true, [];
    for i := 0 to |edits|
      invariant s.descriptors == Edited(old(s.descriptors), edits[..i])
      invariant msg == Missing(old(s.descriptors), edits[..i])
      invariant done <==> msg == []
    {
      var e := edits[i];
      var descriptor := DescriptorService.FindDescriptorById(s, e.id);
      if descriptor.Some? {
        s.descriptors := s.descriptors[e.id := descriptor.value.(title := e.title, brief := e.brief, fullDescr := e.fullDescr)];
      } else {
        done := false;
        msg := msg + [DescriptorNotFound(e.id)];
      }
      assert edits[..i + 1][..i] == edits[..i];
    }
    assert edits[..|edits|] == edits;
  }

  /**
   * `updateNodeByActiveStatusNoteDescriptors`: an unknown node id yields None and changes
   * nothing. Otherwise the node's `active` and `note` are overwritten, the edits are applied in
   * order (`Edited`), and the outcome is done exactly when every edit found its descriptor, with
   * one message segment per edit that did not (`Missing`).
   */
  method UpdateNodeByActiveStatusNoteDescriptors(s: Storage.Store, req: NodeUpdate) returns (r: Option<Outcome>)
    requires s.Valid()
    modifies s`nodes, s`descriptors
    ensures s.Valid()
    ensures old(s.Complete()) ==> s.Complete()
    ensures req.id !in old(s.nodes) ==> r.None? && s.nodes == old(s.nodes) && s.descriptors == old(s.descriptors)
    ensures req.id in old(s.nodes) ==>
              && s.nodes == old(s.nodes)[req.id := old(s.nodes)[req.id].(active := req.active, note := req.note)]
              && s.descriptors == Edited(old(s.descriptors), req.descriptors)
              && var missing := Missing(old(s.descriptors), req.descriptors);
                 r == Some(Outcome(req.id, missing == [], missing))
  {
    var node := FindNodeById(s, req.id);
    if node.None? {
      return None;
    }
    EditedKeepsIndex(s.nodes.Keys, s.languages.Keys, s.descriptors, s.cell, req.descriptors);
    s.nodes := s.nodes[req.id := node.value.(active := req.active, note := req.note)];
    var done, msg := ApplyDescriptorEdits(s, req.descriptors);
    r := Some(Outcome(req.id, done, msg));
  }

  // ---------------------------------------------------------------------------------------
  // Deletion

  /**
   * `deleteNodeById`: removes the node together with every node below it (the nodes whose parent
   * chain reaches it) and every descriptor of a removed node; nothing else changes, and an
   * unknown id removes nothing.
   */
  method DeleteNodeById(s: Storage.Store, id: int)
    requires s.Valid()
    modifies s`nodes, s`descriptors
    ensures s.Valid()
    ensures old(s.Complete()) ==> s.Complete()
    ensures s.nodes.Keys == old(s.nodes).Keys - Tree.Subtree(old(s.nodes), old(s.rank), id)
    ensures forall y :: y in s.nodes ==> s.nodes[y] == old(s.nodes)[y]
    ensures forall y :: y in old(s.nodes) ==>
              (y !in s.nodes <==> Tree.Reaches(old(s.nodes), y, id))
    ensures forall d :: d in s.descriptors <==>
              d in old(s.descriptors) && old(s.descriptors)[d].node.Some? && old(s.descriptors)[d].node.value in s.nodes
    ensures forall d :: d in s.descriptors ==> s.descriptors[d] == old(s.descriptors)[d]
    ensures id !in old(s.nodes) ==> s.nodes == old(s.nodes) && s.descriptors == old(s.descriptors)
  {
    var gone := Tree.Subtree(s.nodes, s.rank, id);
    Tree.RemovingSubtreeKeepsRanking(s.nodes, s.rank, id);
    Tree.SubtreeIsReachability(s.nodes, s.rank, id);
    s.nodes := map y | y in s.nodes && y !in gone :: s.nodes[y];
    Matrix.DeletingNodesKeepsIndex(old(s.nodes).Keys, s.languages.Keys, s.descriptors, s.cell, s.nodes.Keys);
    s.descriptors := Matrix.OnNodes(s.descriptors, s.nodes.Keys);
  }
}
