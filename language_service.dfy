/**
 * The language service: the first-language initialisation, the active/default state machine
 * over the language flags, adding a language (and its empty descriptors), updating its basic
 * data, deleting it, and the finders.
 */
module LanguageService {
  import opened Wrappers
  import opened Entities
  import Sets
  import Matrix
  import Registry
  import Storage
  import NodeEntity
  import DescriptorService

  /** The parts of a language request the service reads. */
  datatype LanguageRequest = LanguageRequest(id: Option<int>, code: Text, name: Text, note: Text, active: bool)

  /** The configured code, name and note of the language created when initialisation gets no request. */
  datatype InitDefaults = InitDefaults(code: Text, name: Text, note: Text)

  // ---------------------------------------------------------------------------------------
  // Finders

  /** `findLanguageById`: the stored language, or None. */
  function FindLanguageById(s: Storage.Store, id: int): (r: Option<Language>)
    reads s
    ensures r.Some? <==> id in s.languages
    ensures r.Some? ==> r.value == s.languages[id]
  {
    if id in s.languages then Some(s.languages[id]) else None
  }

  /**
   * `findDefaultLanguage`: in a valid store, the one language flagged as default, which is
   * active; None when no language is flagged.
   */
  function FindDefaultLanguage(s: Storage.Store): (r: Option<int>)
    requires s.Valid()
    reads s
    ensures r.Some? ==> r.value in s.languages && s.languages[r.value].bydefault && s.languages[r.value].active
    ensures r.Some? ==> forall a :: a in s.languages && s.languages[a].bydefault ==> a == r.value
    ensures r.None? ==> forall a :: a in s.languages ==> !s.languages[a].bydefault
  {
    Registry.DefaultLanguage(s.languages)
  }

  /** `findActiveLanguages`: the ids of the active languages. */
  function FindActiveLanguages(s: Storage.Store): (r: set<int>)
    reads s
    ensures r <= s.languages.Keys
    ensures forall a :: a in s.languages ==> (a in r <==> s.languages[a].active)
  {
    Registry.ActiveIds(s.languages)
  }

  // ---------------------------------------------------------------------------------------
  // Initialisation

  /**
   * `initializationFirstLanguage`, as written. With no language stored it creates one that is
   * initial, default and active, with code, name and note from the request, or from the
   * configured defaults when there is no request. With languages stored it changes nothing and
   * reports the lowest-id language with done = false. It adds no descriptor, so nodes created
   * before it are left without a descriptor for the new language.
   */
  method InitializationFirstLanguage(s: Storage.Store, req: Option<LanguageRequest>, defaults: InitDefaults)
    returns (r: Outcome)
    requires s.Valid()
    modifies s`languages, s`nextLanguageId
    ensures s.Valid()
    ensures |old(s.languages)| == 0 ==>
              && r.id !in old(s.languages) && r.id in s.languages && r.done
              && s.languages == map[r.id := s.languages[r.id]]
              && s.languages[r.id].initial && s.languages[r.id].bydefault && s.languages[r.id].active
              && (req.Some? ==> s.languages[r.id].code == req.value.code && s.languages[r.id].name == req.value.name
                                && s.languages[r.id].note == req.value.note && r.msg == [LanguageCreated])
              && (req.None? ==> s.languages[r.id].code == defaults.code && s.languages[r.id].name == defaults.name
                                && s.languages[r.id].note == defaults.note && r.msg == [LanguageCreatedFromDefaults])
    ensures |old(s.languages)| != 0 ==>
              s.languages == old(s.languages) &&
              r == Outcome(Registry.LowestId(old(s.languages).Keys), false, [AlreadyInitialized])
    ensures old(s.Complete()) && (|old(s.languages)| != 0 || s.nodes == map[]) ==> s.Complete()
    ensures |old(s.languages)| == 0 && s.nodes != map[] ==> !Matrix.Dense(s.nodes.Keys, s.languages.Keys, s.descriptors)
  {
    if |s.languages| == 0 {
      var language := NewLanguage();
      var reason;
      if req.Some? {
        language := language.(code := req.value.code, name := req.value.name, note := req.value.note);
        reason := LanguageCreated;
      } else {
        language := language.(code := defaults.code, name := defaults.name, note := defaults.note);
        reason := LanguageCreatedFromDefaults;
      }
      language := language.(initial := true, bydefault := true);
      var id := s.nextLanguageId;
      s.nextLanguageId := id + 1;
      s.languages := s.languages[id := language];
      assert old(s.languages) == map[];
      r := Outcome(id, true, [reason]);
      if s.nodes != map[] {
        Sets.NonEmptyHasElement(s.nodes.Keys);
        var n :| n in s.nodes.Keys;
        Matrix.NewLanguageWithoutDescriptorsLeavesGap(s.nodes.Keys, {}, s.descriptors, s.cell, n, id);
        assert s.languages.Keys == {} + {id};
      }
    } else {
      assert s.languages.Keys != {};
      r := Outcome(Registry.LowestId(s.languages.Keys), false, [AlreadyInitialized]);
    }
  }

  /**
   * The expansion loop of language creation: language l, which has no descriptor yet, gets one
   * new empty descriptor per node of the store.
   */
  method CloneDescriptorsForNewLanguage(s: Storage.Store, l: int)
    requires s.Valid() && l in s.languages
    requires forall d :: d in s.descriptors ==> s.descriptors[d].language != Some(l)
    modifies s`descriptors, s`nextDescriptorId, s`cell
    ensures s.Valid()
    ensures old(Matrix.Covered(s.nodes.Keys, s.languages.Keys - {l}, s.descriptors, s.cell)) ==> s.Complete()
    ensures Matrix.Covered(s.nodes.Keys, {l}, s.descriptors, s.cell)
    ensures forall d :: d in old(s.descriptors) ==> d in s.descriptors && s.descriptors[d] == old(s.descriptors)[d]
    ensures forall d :: d in s.descriptors && d !in old(s.descriptors) ==>
              s.descriptors[d].language == Some(l) && IsBlank(s.descriptors[d])
  {
    ghost var wasCovered := Matrix.Covered(s.nodes.Keys, s.languages.Keys - {l}, s.descriptors, s.cell);
    var todo := s.nodes.Keys;
    ghost var done: set<int> := {};
    while todo != {}
      invariant todo !! done && todo + done == s.nodes.Keys
      invariant s.IdsIssued()
      invariant Matrix.ColumnFilling(s.nodes.Keys, s.languages.Keys, old(s.descriptors), s.descriptors, s.cell,
                                     l, done, wasCovered)
      decreases todo
    {
      Sets.NonEmptyHasElement(todo);
      var n :| n in todo;
      ghost var descs, cell := s.descriptors, s.cell;
      var d := DescriptorService.CreateNewDescriptorForLanguage(s, l);
      NodeEntity.AddDescriptor(s, n, d);
      s.cell := s.cell[(n, l) := d];
      assert s.descriptors == descs[d := Descriptor(Some(n), Some(l), None, None, None)];
      Matrix.ColumnFillingStep(s.nodes.Keys, s.languages.Keys, old(s.descriptors), descs, cell, l, done, wasCovered, n, d);
      todo, done := todo - {n}, done + {n};
    }
    Matrix.CoveredJoin(s.nodes.Keys, s.languages.Keys, s.descriptors, s.cell, l, l);
  }

  /**
   * Initialisation that also gives the new first language one empty descriptor per existing
   * node, so that every (node, language) pair keeps its descriptor.
   */
  method InitializeFirstLanguageWithDescriptors(s: Storage.Store, req: Option<LanguageRequest>, defaults: InitDefaults)
    returns (r: Outcome)
    requires s.Valid()
    modifies s`languages, s`nextLanguageId, s`descriptors, s`nextDescriptorId, s`cell
    ensures s.Valid()
    ensures old(s.Complete()) ==> s.Complete()
    ensures |old(s.languages)| == 0 ==>
              && r.id !in old(s.languages) && r.id in s.languages && r.done
              && s.languages == map[r.id := s.languages[r.id]]
              && s.languages[r.id].initial && s.languages[r.id].bydefault && s.languages[r.id].active
              && (req.Some? ==> s.languages[r.id].code == req.value.code && s.languages[r.id].name == req.value.name
                                && s.languages[r.id].note == req.value.note && r.msg == [LanguageCreated])
              && (req.None? ==> s.languages[r.id].code == defaults.code && s.languages[r.id].name == defaults.name
                                && s.languages[r.id].note == defaults.note && r.msg == [LanguageCreatedFromDefaults])
              && Matrix.Dense(s.nodes.Keys, s.languages.Keys, s.descriptors)
    ensures |old(s.languages)| != 0 ==>
              s.languages == old(s.languages) && s.descriptors == old(s.descriptors) &&
              r == Outcome(Registry.LowestId(old(s.languages).Keys), false, [AlreadyInitialized])
  {
    ghost var wasEmpty := |s.languages| == 0;
    r := InitializationFirstLanguage(s, req, defaults);
    if r.done {
      assert s.languages.Keys - {r.id} == {};
      CloneDescriptorsForNewLanguage(s, r.id);
      Matrix.CoveredIsDense(s.nodes.Keys, s.languages.Keys, s.descriptors, s.cell);
    }
  }

  // ---------------------------------------------------------------------------------------
  // The flag state machine

  /**
   * `setLanguageActiveStatus`. Unknown id: None. The rules, in this order:
   *  1. the only stored language never changes status;
   *  2. activation always succeeds;
   *  3. the default language cannot be deactivated;
   *  4. deactivation succeeds only while more than one language is active.
   * A refusal changes nothing and reports done = false.
   */
  method SetLanguageActiveStatus(s: Storage.Store, id: int, status: bool) returns (r: Option<Outcome>)
    requires s.Valid()
    modifies s`languages
    ensures s.Valid()
    ensures old(s.Complete()) ==> s.Complete()
    ensures Registry.SomeActive(old(s.languages)) ==> Registry.SomeActive(s.languages)
    ensures id !in old(s.languages) ==> r.None? && s.languages == old(s.languages)
    ensures id in old(s.languages) && |old(s.languages)| == 1 ==>
              r == Some(Outcome(id, false, [LoneLanguage])) && s.languages == old(s.languages)
    ensures id in old(s.languages) && |old(s.languages)| != 1 && status ==>
              r == Some(Outcome(id, true, [Activated])) &&
              s.languages == old(s.languages)[id := old(s.languages)[id].(active := true)]
    ensures id in old(s.languages) && |old(s.languages)| != 1 && !status && old(s.languages)[id].bydefault ==>
              r == Some(Outcome(id, false, [DefaultCannotBeDeactivated])) && s.languages == old(s.languages)
    ensures id in old(s.languages) && |old(s.languages)| != 1 && !status && !old(s.languages)[id].bydefault ==>
              if |Registry.ActiveIds(old(s.languages))| > 1 then
                r == Some(Outcome(id, true, [Deactivated])) &&
                s.languages == old(s.languages)[id := old(s.languages)[id].(active := false)]
              else
                r == Some(Outcome(id, false, [LoneActiveLanguage])) && s.languages == old(s.languages)
  {
    var language := FindLanguageById(s, id);
    if language.None? {
      return None;
    }
    if |s.languages| == 1 {
      r := Some(Outcome(id, false, [LoneLanguage]));
    } else if status {
      s.languages := s.languages[id := language.value.(active := true)];
      assert s.languages[id].active;
      r := Some(Outcome(id, true, [Activated]));
    } else if language.value.bydefault {
      r := Some(Outcome(id, false, [DefaultCannotBeDeactivated]));
    } else if |FindActiveLanguages(s)| > 1 {
      Sets.AnotherElement(FindActiveLanguages(s), id);
      var other :| other in FindActiveLanguages(s) && other != id;
      s.languages := s.languages[id := language.value.(active := false)];
      assert s.languages[other].active;
      r := Some(Outcome(id, true, [Deactivated]));
    } else {
      r := Some(Outcome(id, false, [LoneActiveLanguage]));
    }
  }

  /** `clearBydefaultStatus`: the default language, if there is one, loses the flag. */
  method ClearBydefaultStatus(s: Storage.Store)
    requires s.Valid()
    modifies s`languages
    ensures s.Valid()
    ensures s.languages.Keys == old(s.languages).Keys
    ensures forall a :: a in s.languages ==> s.languages[a] == old(s.languages)[a].(bydefault := false)
  {
    var language := FindDefaultLanguage(s);
    if language.Some? {
      s.languages := s.languages[language.value := s.languages[language.value].(bydefault := false)];
    }
  }

  /**
   * `setDefaultLanguage`. Unknown id: None. An inactive language is refused with nothing
   * changed. Otherwise the previous default loses the flag and this language gets it, so it is
   * then the one and only default, and it is active.
   */
  method SetDefaultLanguage(s: Storage.Store, id: int) returns (r: Option<Outcome>)
    requires s.Valid()
    modifies s`languages
    ensures s.Valid()
    ensures old(s.Complete()) ==> s.Complete()
    ensures Registry.SomeActive(s.languages) == Registry.SomeActive(old(s.languages))
    ensures id !in old(s.languages) ==> r.None? && s.languages == old(s.languages)
    ensures id in old(s.languages) && !old(s.languages)[id].active ==>
              r == Some(Outcome(id, false, [InactiveCannotBeDefault])) && s.languages == old(s.languages)
    ensures id in old(s.languages) && old(s.languages)[id].active ==>
              && r == Some(Outcome(id, true, [SetAsDefault(old(s.languages)[id].code)]))
              && s.languages.Keys == old(s.languages).Keys
              && (forall a :: a in s.languages ==> s.languages[a] == old(s.languages)[a].(bydefault := a == id))
              && FindDefaultLanguage(s) == Some(id)
  {
    var language := FindLanguageById(s, id);
    if language.None? {
      return None;
    }
    if !language.value.active {
      return Some(Outcome(id, false, [InactiveCannotBeDefault]));
    }
    ClearBydefaultStatus(s);
    s.languages := s.languages[id := s.languages[id].(bydefault := true)];
    r := Some(Outcome(id, true, [SetAsDefault(s.languages[id].code)]));
    assert forall a :: a in s.languages ==> s.languages[a].active == old(s.languages)[a].active;
  }

  // ---------------------------------------------------------------------------------------
  // Adding, updating and deleting languages

  /**
   * `addNewLanguage`: stores a language with the requested code, name, note and active flag,
   * neither initial nor default, under a fresh id; gives it one new empty descriptor per node;
   * the message reports the code and the number of nodes.
   */
  method AddNewLanguage(s: Storage.Store, req: LanguageRequest) returns (r: Outcome)
    requires s.Valid()
    modifies s`languages, s`nextLanguageId, s`descriptors, s`nextDescriptorId, s`cell
    ensures s.Valid()
    ensures old(s.Complete()) ==> s.Complete()
    ensures r.id !in old(s.languages)
    ensures s.languages == old(s.languages)[r.id := Language(req.code, req.name, req.note, false, false, req.active)]
    ensures r == Outcome(r.id, true, [LanguageAdded(req.code, |s.nodes|)])
    ensures forall d :: d in old(s.descriptors) ==> d in s.descriptors && s.descriptors[d] == old(s.descriptors)[d]
    ensures forall d :: d in s.descriptors && d !in old(s.descriptors) ==>
              s.descriptors[d].language == Some(r.id) && IsBlank(s.descriptors[d])
    ensures Matrix.NodesOf(Matrix.DescriptorsIn(s.descriptors, r.id)) == s.nodes.Keys
    ensures |Matrix.DescriptorsIn(s.descriptors, r.id)| == |s.nodes|
    ensures Registry.SomeActive(old(s.languages)) && (old(s.languages) != map[] || req.active) ==>
              Registry.SomeActive(s.languages)
    ensures old(s.languages) == map[] && !req.active ==> !Registry.SomeActive(s.languages)
  {
    var language := NewLanguage().(code := req.code, name := req.name, note := req.note, active := req.active);
    var id := s.nextLanguageId;
    s.nextLanguageId := id + 1;
    s.languages := s.languages[id := language];
    assert s.languages.Keys - {id} == old(s.languages).Keys;
    CloneDescriptorsForNewLanguage(s, id);
    Matrix.DescriptorsInLanguageMatchNodes(s.nodes.Keys, s.languages.Keys, s.descriptors, s.cell, id);
    r := Outcome(id, true, [LanguageAdded(req.code, |s.nodes|)]);
    if old(s.languages) != map[] && Registry.SomeActive(old(s.languages)) {
      var a :| a in old(s.languages) && old(s.languages)[a].active;
      assert s.languages[a].active;
    }
    if req.active {
      assert s.languages[id].active;
    }
  }

  /**
   * `updateLanguageBasicData`: overwrites code, name and note of a stored language and nothing
   * else; an unknown id yields None and changes nothing.
   */
  method UpdateLanguageBasicData(s: Storage.Store, req: LanguageRequest) returns (r: Option<Outcome>)
    requires s.Valid() && req.id.Some?
    modifies s`languages
    ensures s.Valid()
    ensures old(s.Complete()) ==> s.Complete()
    ensures req.id.value !in old(s.languages) ==> r.None? && s.languages == old(s.languages)
    ensures req.id.value in old(s.languages) ==>
              && r == Some(Outcome(req.id.value, true, [LanguageUpdated(req.code)]))
              && s.languages == old(s.languages)[req.id.value :=
                   old(s.languages)[req.id.value].(code := req.code, name := req.name, note := req.note)]
  {
    var id := req.id.value;
    var language := FindLanguageById(s, id);
    if language.None? {
      return None;
    }
    s.languages := s.languages[id := language.value.(code := req.code, name := req.name, note := req.note)];
    r := Some(Outcome(id, true, [LanguageUpdated(req.code)]));
  }

  /**
   * `deleteLanguageById`: removes the language and every descriptor that names it; an unknown
   * id removes nothing.
   */
  method DeleteLanguageById(s: Storage.Store, id: int)
    requires s.Valid()
    modifies s`languages, s`descriptors
    ensures s.Valid()
    ensures old(s.Complete()) ==> s.Complete()
    ensures s.languages == old(s.languages) - {id}
    ensures s.descriptors == Matrix.OffLanguage(old(s.descriptors), id)
    ensures forall d :: d in s.descriptors <==> d in old(s.descriptors) && old(s.descriptors)[d].language != Some(id)
    ensures forall d :: d in s.descriptors ==> s.descriptors[d] == old(s.descriptors)[d]
    ensures id !in old(s.languages) ==> s.descriptors == old(s.descriptors)
  {
    Matrix.DeletingLanguageKeepsIndex(s.nodes.Keys, s.languages.Keys, s.descriptors, s.cell, id);
    s.languages := s.languages - {id};
    s.descriptors := Matrix.OffLanguage(s.descriptors, id);
  }
}
