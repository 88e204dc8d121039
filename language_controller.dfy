/**
 * The request guards of the language endpoints: which requests are turned away before the
 * service is called, and the guard on deleting a language. Only the verdict of each endpoint is
 * kept; the response bodies are the services' outcomes.
 */
module LanguageController {
  import opened Wrappers
  import opened Entities
  import Sets
  import Matrix
  import Registry
  import Storage
  import LanguageService

  /** The response status an endpoint answers with. */
  datatype Verdict = Ok | NoContent | BadRequest | NotFound

  /**
   * `createNewLanguage` (the init endpoint), as written: a request that has a body but no code is
   * refused and nothing is created; otherwise the first-language initialisation runs, and a
   * language is created exactly when none was stored. No descriptor is created, so nodes that
   * already exist are left without one for the new language.
   */
  method CreateNewLanguage(s: Storage.Store, req: Option<LanguageService.LanguageRequest>,
                           defaults: LanguageService.InitDefaults) returns (v: Verdict, r: Option<Outcome>)
    requires s.Valid()
    modifies s`languages, s`nextLanguageId
    ensures s.Valid()
    ensures old(s.Complete()) && (|old(s.languages)| != 0 || s.nodes == map[]) ==> s.Complete()
    ensures req.Some? && req.value.code.None? ==> v == BadRequest && r.None? && s.languages == old(s.languages)
    ensures req.None? || req.value.code.Some? ==>
              && v == Ok && r.Some?
              && (r.value.done <==> |old(s.languages)| == 0)
              && s.languages != map[]
              && (|old(s.languages)| == 0 ==> Registry.SomeActive(s.languages))
              && (|old(s.languages)| == 0 ==>
                    && r.value.id in s.languages && s.languages == map[r.value.id := s.languages[r.value.id]]
                    && s.languages[r.value.id].initial && s.languages[r.value.id].bydefault
                    && s.languages[r.value.id].active)
              && (|old(s.languages)| != 0 ==>
                    s.languages == old(s.languages) && r.value.id == Registry.LowestId(old(s.languages).Keys))
              && (|old(s.languages)| == 0 && s.nodes != map[] ==> !Matrix.Dense(s.nodes.Keys, s.languages.Keys, s.descriptors))
  {
    if req.Some? && req.value.code.None? {
      return BadRequest, None;
    }
    var outcome := LanguageService.InitializationFirstLanguage(s, req, defaults);
    if |old(s.languages)| == 0 {
      assert s.languages[outcome.id].active;
    } else {
      Registry.HasLeast(old(s.languages).Keys);
    }
    v, r := Ok, Some(outcome);
  }

  /**
   * The init endpoint over the corrected initialisation: as above, except that the first language
   * also gets a descriptor for every existing node, so a complete store stays complete.
   */
  method CreateNewLanguageWithDescriptors(s: Storage.Store, req: Option<LanguageService.LanguageRequest>,
                                          defaults: LanguageService.InitDefaults) returns (v: Verdict, r: Option<Outcome>)
    requires s.Valid()
    modifies s`languages, s`nextLanguageId, s`descriptors, s`nextDescriptorId, s`cell
    ensures s.Valid()
    ensures old(s.Complete()) ==> s.Complete()
    ensures req.Some? && req.value.code.None? ==>
              v == BadRequest && r.None? && s.languages == old(s.languages) && s.descriptors == old(s.descriptors)
    ensures req.None? || req.value.code.Some? ==>
              && v == Ok && r.Some?
              && (r.value.done <==> |old(s.languages)| == 0)
              && s.languages != map[]
              && (|old(s.languages)| == 0 ==> Registry.SomeActive(s.languages))
              && (|old(s.languages)| == 0 ==>
                    && r.value.id in s.languages && s.languages == map[r.value.id := s.languages[r.value.id]]
                    && s.languages[r.value.id].initial && s.languages[r.value.id].bydefault
                    && s.languages[r.value.id].active
                    && Matrix.Dense(s.nodes.Keys, s.languages.Keys, s.descriptors))
              && (|old(s.languages)| != 0 ==>
                    && s.languages == old(s.languages) && s.descriptors == old(s.descriptors)
                    && r.value.id == Registry.LowestId(old(s.languages).Keys))
  {
    if req.Some? && req.value.code.None? {
      return BadRequest, None;
    }
    var outcome := LanguageService.InitializeFirstLanguageWithDescriptors(s, req, defaults);
    if |old(s.languages)| == 0 {
      assert s.languages[outcome.id].active;
    } else {
      Registry.HasLeast(old(s.languages).Keys);
    }
    v, r := Ok, Some(outcome);
  }

  /** `addNewLanguage`: a request without a code is refused before the service is called. */
  method AddNewLanguage(s: Storage.Store, req: LanguageService.LanguageRequest) returns (v: Verdict, r: Option<Outcome>)
    requires s.Valid()
    modifies s`languages, s`nextLanguageId, s`descriptors, s`nextDescriptorId, s`cell
    ensures s.Valid()
    ensures old(s.Complete()) ==> s.Complete()
    ensures req.code.None? ==>
              v == BadRequest && r.None? && s.languages == old(s.languages) && s.descriptors == old(s.descriptors)
    ensures req.code.Some? ==>
              && v == Ok && r.Some? && r.value.id !in old(s.languages)
              && s.languages == old(s.languages)[r.value.id := Language(req.code, req.name, req.note, false, false, req.active)]
              && Matrix.NodesOf(Matrix.DescriptorsIn(s.descriptors, r.value.id)) == s.nodes.Keys
  {
    if req.code.None? {
      return BadRequest, None;
    }
    var outcome := LanguageService.AddNewLanguage(s, req);
    v, r := Ok, Some(outcome);
  }

  /**
   * `updateLanguageBasicData`: a request without an id or without a code is refused before the
   * service is called; an unknown id answers NoContent.
   */
  method UpdateLanguageBasicData(s: Storage.Store, req: LanguageService.LanguageRequest) returns (v: Verdict, r: Option<Outcome>)
    requires s.Valid()
    modifies s`languages
    ensures s.Valid()
    ensures old(s.Complete()) ==> s.Complete()
    ensures req.id.None? || req.code.None? ==> v == BadRequest && r.None? && s.languages == old(s.languages)
    ensures req.id.Some? && req.code.Some? && req.id.value !in old(s.languages) ==>
              v == NoContent && r.None? && s.languages == old(s.languages)
    ensures req.id.Some? && req.code.Some? && req.id.value in old(s.languages) ==>
              && v == Ok && r == Some(Outcome(req.id.value, true, [LanguageUpdated(req.code)]))
              && s.languages == old(s.languages)[req.id.value :=
                   old(s.languages)[req.id.value].(code := req.code, name := req.name, note := req.note)]
  {
    if req.id.None? || req.code.None? {
      return BadRequest, None;
    }
    r := LanguageService.UpdateLanguageBasicData(s, req);
    v := if r.Some? then Ok else NoContent;
  }

  // ---------------------------------------------------------------------------------------
  // Deleting a language

  /** The delete guard as written: the language must exist and must not be the initial one. */
  predicate DeleteAllowed(langs: Registry.Languages, id: int)
  {
    id in langs && !langs[id].initial
  }

  /**
   * `deleteLanguageById`, as written: unknown id NotFound, the initial language BadRequest,
   * any other language is deleted with its descriptors.
   */
  method DeleteLanguageById(s: Storage.Store, id: int) returns (v: Verdict)
    requires s.Valid()
    modifies s`languages, s`descriptors
    ensures s.Valid()
    ensures old(s.Complete()) ==> s.Complete()
    ensures id !in old(s.languages) ==>
              v == NotFound && s.languages == old(s.languages) && s.descriptors == old(s.descriptors)
    ensures id in old(s.languages) && old(s.languages)[id].initial ==>
              v == BadRequest && s.languages == old(s.languages) && s.descriptors == old(s.descriptors)
    ensures DeleteAllowed(old(s.languages), id) ==>
              v == Ok && s.languages == old(s.languages) - {id} &&
              s.descriptors == Matrix.OffLanguage(old(s.descriptors), id)
  {
    var language := LanguageService.FindLanguageById(s, id);
    if language.None? {
      return NotFound;
    }
    if language.value.initial {
      return BadRequest;
    }
    LanguageService.DeleteLanguageById(s, id);
    v := Ok;
  }

  /**
   * The guard above lets the last active language go: with the initial language inactive and a
   * second language active (and default), deleting the second one is allowed, and what remains
   * is a single language that is neither active nor default. While it stays the only language its
   * status cannot change, so the registry has no active language until another one is added.
   */
  lemma DeleteAllowedCanRemoveLastActive()
    ensures var langs := map[1 := Language(Some("ENG"), None, None, true, false, false),
                             2 := Language(Some("POL"), None, None, false, true, true)];
            && Registry.Consistent(langs) && Registry.SomeActive(langs)
            && DeleteAllowed(langs, 2)
            && |langs - {2}| == 1 && !Registry.SomeActive(langs - {2})
            && Registry.DefaultLanguage(langs - {2}).None?
  {
    var langs := map[1 := Language(Some("ENG"), None, None, true, false, false),
                     2 := Language(Some("POL"), None, None, false, true, true)];
    assert 2 in langs && langs[2].active;
    assert langs - {2} == map[1 := langs[1]];
  }

  /** The corrected guard: besides the initial language, the last active language is kept. */
  predicate DeleteAllowedKeepingActive(langs: Registry.Languages, id: int)
  {
    DeleteAllowed(langs, id) && !(langs[id].active && Registry.ActiveIds(langs) == {id})
  }

  /** Under the corrected guard a registry that has an active language keeps one. */
  lemma DeleteAllowedKeepingActiveKeepsSomeActive(langs: Registry.Languages, id: int)
    requires Registry.SomeActive(langs) && DeleteAllowedKeepingActive(langs, id)
    ensures Registry.SomeActive(langs - {id})
  {
    var a :| a in langs && langs[a].active;
    if a == id {
      var active := Registry.ActiveIds(langs);
      assert id in active && active != {id};
      assert active == (active - {id}) + {id};
      Sets.NonEmptyHasElement(active - {id});
      var b :| b in active - {id};
      assert b in langs - {id};
    } else {
      assert a in langs - {id};
    }
  }

  /**
   * `deleteLanguageById` with the corrected guard: as written, and in addition the last active
   * language answers BadRequest and survives, so a registry that has an active language keeps one.
   */
  method DeleteLanguageByIdKeepingActive(s: Storage.Store, id: int) returns (v: Verdict)
    requires s.Valid()
    modifies s`languages, s`descriptors
    ensures s.Valid()
    ensures old(s.Complete()) ==> s.Complete()
    ensures Registry.SomeActive(old(s.languages)) ==> Registry.SomeActive(s.languages)
    ensures id !in old(s.languages) ==>
              v == NotFound && s.languages == old(s.languages) && s.descriptors == old(s.descriptors)
    ensures id in old(s.languages) && !DeleteAllowedKeepingActive(old(s.languages), id) ==>
              v == BadRequest && s.languages == old(s.languages) && s.descriptors == old(s.descriptors)
    ensures DeleteAllowedKeepingActive(old(s.languages), id) ==>
              v == Ok && s.languages == old(s.languages) - {id} &&
              s.descriptors == Matrix.OffLanguage(old(s.descriptors), id)
  {
    var language := LanguageService.FindLanguageById(s, id);
    if language.None? {
      return NotFound;
    }
    if language.value.initial || (language.value.active && LanguageService.FindActiveLanguages(s) == {id}) {
      return BadRequest;
    }
    if Registry.SomeActive(s.languages) {
      DeleteAllowedKeepingActiveKeepsSomeActive(s.languages, id);
    }
    LanguageService.DeleteLanguageById(s, id);
    v := Ok;
  }
}
