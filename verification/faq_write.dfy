/** The write handlers `createFaq` and `updateFaq` over the FAQ store. */
module FaqWrite {
  import opened Wrappers
  import opened Http
  import opened FaqTypes
  import opened Translations

  /** The body of a create request. `targetLanguages` may be missing. */
  datatype CreateBody = CreateBody(
    question: string,
    answer: string,
    category: Option<string>,
    targetLanguages: Option<seq<string>>,
    originalLanguage: string)

  /** The body of an update request; every field may be missing. */
  datatype UpdateBody = UpdateBody(
    question: Option<string>,
    answer: Option<string>,
    category: Option<string>,
    targetLanguages: Option<seq<string>>,
    originalLanguage: Option<string>)

  /** A handler's reply: status, message and the record sent back, if any. */
  datatype FaqReply = FaqReply(status: int, message: string, faq: Option<FaqRecord>)

  /** The reply and the store after a write. */
  datatype Written = Written(reply: FaqReply, store: FaqStore)

  const Created: string := "FAQ created successfully"
  const Updated: string := "FAQ updated successfully"

  /** The reply of the shared catch block. */
  function Fail(e: Thrown): (r: FaqReply)
    ensures r.faq.None?
  {
    var c := Catch(e);
    FaqReply(c.status, c.message, None)
  }

  /** The schema's `required` string fields reject empty strings: every
      translation needs a non-empty question and answer. (The record's own
      `originalLanguage` is required too; each handler checks it where it
      validates.) */
  predicate Storable(m: TranslationMap)
  {
    forall l :: l in m ==> m[l].question != "" && m[l].answer != ""
  }

  /** A published record keeps its source text under its original
      language, so a listing in that language can always show it. */
  predicate SourceKept(r: FaqRecord)
  {
    r.status == Published ==> r.translations.Some? && r.originalLanguage in r.translations.value
  }

  /** Ids are unique and every record keeps its source text. */
  predicate GoodStore(store: FaqStore)
  {
    && (forall i, j :: 0 <= i < j < |store| ==> store[i].id != store[j].id)
    && (forall i :: 0 <= i < |store| ==> SourceKept(store[i]))
  }

  // ---------------------------------------------------------------------
  // createFaq

  /** `createFaq`: translate, then store a published record created by the
      calling admin. `newId` is the fresh id the store assigns. */
  function CreateFaq(store: FaqStore, body: CreateBody, admin: string, newId: string,
                     p: Provider): (w: Written)
    requires newId !in Ids(store)
    ensures w.reply.status == 201 || w.reply.status == 500
    ensures w.reply.status != 201 ==> w.store == store && w.reply.faq.None?
    ensures body.targetLanguages.None? ==> w.reply == FaqReply(500, InternalServerError, None)
    ensures body.targetLanguages.Some? &&
            GetTranslations(body.question, body.answer, body.targetLanguages.value,
                            body.originalLanguage, p).Failure? ==>
              w.reply == FaqReply(500, "Translation failed", None)
    ensures w.reply.status == 201 ==>
              && w.reply.message == Created
              && |w.store| == |store| + 1 && w.store[..|store|] == store
              && w.reply.faq == Some(w.store[|store|])
              && var r := w.store[|store|];
              && r.id == newId && r.status == Published && r.createdBy == Some(admin)
              && r.category == body.category && r.originalLanguage == body.originalLanguage
              && body.targetLanguages == Some(r.targetLanguages)
              && r.translations.Some? && Storable(r.translations.value)
              && SourceKept(r)
    ensures body.targetLanguages.Some? &&
            GetTranslations(body.question, body.answer, body.targetLanguages.value,
                            body.originalLanguage, p).Success? ==>
              var m := GetTranslations(body.question, body.answer, body.targetLanguages.value,
                                       body.originalLanguage, p).value;
              && (w.reply.status == 201 <==> body.originalLanguage != "" && Storable(m))
              && (w.reply.status == 201 ==> w.store[|store|].translations == Some(m))
              && (w.reply.status != 201 ==> w.reply == FaqReply(500, InternalServerError, None))
  {
    if body.targetLanguages.None? then
      // the loop iterates `undefined`: a TypeError
      Written(Fail(Untyped), store)
    else
      match GetTranslations(body.question, body.answer, body.targetLanguages.value,
                            body.originalLanguage, p)
      case Failure(e) => Written(Fail(Api(e)), store)
      case Success(m) =>
        if body.originalLanguage == "" || !Storable(m) then
          // schema validation rejects the document
          Written(Fail(Untyped), store)
        else
          var r := FaqRecord(newId, body.originalLanguage, Published, Some(m), body.category,
                             body.targetLanguages.value, Some(admin));
          Written(FaqReply(201, Created, Some(r)), store + [r])
  }

  /** Creation keeps ids unique and every record's source text present. */
  lemma CreateKeepsStoreGood(store: FaqStore, body: CreateBody, admin: string, newId: string,
                             p: Provider)
    requires newId !in Ids(store)
    requires GoodStore(store)
    ensures GoodStore(CreateFaq(store, body, admin, newId, p).store)
  {
  }

  // ---------------------------------------------------------------------
  // updateFaq, as written

  /** The position of the first record with `id`. */
  function Find(store: FaqStore, id: string): (r: Option<nat>)
    ensures r.Some? ==> r.value < |store| && store[r.value].id == id &&
                        forall j :: 0 <= j < r.value ==> store[j].id != id
    ensures r.None? ==> id !in Ids(store)
    decreases |store|
  {
    if |store| == 0 then None
    else if store[0].id == id then Some(0)
    else
      match Find(store[1..], id)
      case None =>
        assert forall j :: 1 <= j < |store| ==> store[j] == store[1..][j - 1];
        None
      case Some(k) => Some(k + 1)
  }

  /** The record `findByIdAndUpdate` returns: the first with `id`, as it was
      before the update. */
  function Lookup(store: FaqStore, id: string): (r: Option<FaqRecord>)
    ensures r.Some? <==> id in Ids(store)
    ensures r.Some? ==> r.value.id == id && r.value in store
  {
    match Find(store, id)
    case Some(i) => Some(store[i])
    case None => None
  }

  /** The store's own update: the fields the schema knows and the body
      carries overwrite the record; `question` and `answer` are not schema
      fields. */
  function ApplyFields(r: FaqRecord, body: UpdateBody): (u: FaqRecord)
    ensures u.id == r.id && u.status == r.status && u.createdBy == r.createdBy
    ensures u.translations == r.translations
    ensures u.category == (if body.category.Some? then body.category else r.category)
    ensures body.targetLanguages.Some? ==> u.targetLanguages == body.targetLanguages.value
    ensures body.targetLanguages.None? ==> u.targetLanguages == r.targetLanguages
    ensures body.originalLanguage.Some? ==> u.originalLanguage == body.originalLanguage.value
    ensures body.originalLanguage.None? ==> u.originalLanguage == r.originalLanguage
  {
    r.(category := if body.category.Some? then body.category else r.category,
       targetLanguages := if body.targetLanguages.Some? then body.targetLanguages.value
                          else r.targetLanguages,
       originalLanguage := if body.originalLanguage.Some? then body.originalLanguage.value
                           else r.originalLanguage)
  }

  /** The re-translation gate exactly as the handler evaluates it. The
      question and answer are compared with properties of the translations
      Map object, which are always undefined, so any supplied text opens
      it. The target lists are compared by reference: a record's list (a
      schema array, present even when empty) is never the body's freshly
      parsed one, so only a missing record and a missing list compare
      equal. The original language is compared by value. */
  function Gate(body: UpdateBody, rec: Option<FaqRecord>): (open: bool)
    ensures rec.Some? ==> open
    ensures rec.None? ==>
              (open <==> body.question.Some? || body.answer.Some? ||
                         body.targetLanguages.Some? || body.originalLanguage.Some?)
  {
    || body.question.Some?
    || body.answer.Some?
    || body.targetLanguages.Some? || rec.Some?
    || body.originalLanguage != StoredLanguage(rec)
  }

  /** `faq?.originalLanguage`: undefined when there is no record. */
  function StoredLanguage(rec: Option<FaqRecord>): Option<string>
  {
    if rec.Some? then Some(rec.value.originalLanguage) else None
  }

  /** The base language of the rebuild: the stored original language, or
      English when there is no record (or its language is empty). */
  function RebuildLanguage(rec: Option<FaqRecord>): (l: string)
    ensures l != ""
    ensures rec.Some? && rec.value.originalLanguage != "" ==> l == rec.value.originalLanguage
    ensures rec.None? || rec.value.originalLanguage == "" ==> l == FallbackLanguage
  {
    if rec.Some? && rec.value.originalLanguage != "" then rec.value.originalLanguage else "en"
  }

  /** `updateFaq` as written. The store update is committed first; then, if
      the gate is open, the translations are rebuilt from the request text
      and saved over the record's map wholesale. The reply carries the
      record as it was before the update, with the new map. */
  function UpdateFaq(store: FaqStore, id: string, body: UpdateBody, p: Provider): (w: Written)
    ensures id == "" ==> w == Written(FaqReply(400, "Id is required", None), store)
    ensures id != "" && id !in Ids(store) ==> w.store == store
    ensures |w.store| == |store|
    ensures forall j :: 0 <= j < |store| && (id == "" || Find(store, id) != Some(j)) ==>
              w.store[j] == store[j]
    ensures id != "" && Find(store, id).Some? ==>
              var i := Find(store, id).value;
              && w.store[i].(translations := store[i].translations) == ApplyFields(store[i], body)
              && (w.store[i].translations == store[i].translations ||
                  (&& w.reply == FaqReply(200, Updated, Some(store[i].(translations := w.store[i].translations)))
                   && body.question.Some? && body.answer.Some? && body.targetLanguages.Some?
                   && w.store[i].translations.Some?
                   && GetTranslations(body.question.value, body.answer.value,
                                      body.targetLanguages.value, RebuildLanguage(Some(store[i])), p)
                      == Success(w.store[i].translations.value)))
    // the gate is open for a found record: a missing text or target list
    // makes the rebuild throw after the field update was committed
    ensures id != "" && Find(store, id).Some? &&
            (body.question.None? || body.answer.None? || body.targetLanguages.None?) ==>
              var i := Find(store, id).value;
              w == Written(FaqReply(500, InternalServerError, None),
                           store[i := ApplyFields(store[i], body)])
    // otherwise the map is rebuilt from the request text in the stored
    // language and replaces the record's map wholesale
    ensures id != "" && Find(store, id).Some? &&
            body.question.Some? && body.answer.Some? && body.targetLanguages.Some? ==>
              var i := Find(store, id).value;
              var committed := store[i := ApplyFields(store[i], body)];
              match GetTranslations(body.question.value, body.answer.value,
                                    body.targetLanguages.value, RebuildLanguage(Some(store[i])), p)
              case Failure(_) =>
                w == Written(FaqReply(500, "Translation failed", None), committed)
              case Success(m) =>
                // `save()` validates the loaded (pre-update) document
                if Storable(m) && store[i].originalLanguage != "" then
                  && w.reply == FaqReply(200, Updated, Some(store[i].(translations := Some(m))))
                  && w.store == store[i := ApplyFields(store[i], body).(translations := Some(m))]
                else w == Written(FaqReply(500, InternalServerError, None), committed)
    // without a record nothing is stored and no record is sent back
    ensures id != "" && id !in Ids(store) ==>
              && w.reply.faq.None? && (w.reply.status == 200 || w.reply.status == 500)
              && (!Gate(body, None) ==> w.reply == FaqReply(200, Updated, None))
  {
    if id == "" then Written(Fail(Api(ApiError("Id is required", 400))), store)
    else
      var found := Find(store, id);
      var rec := Lookup(store, id);
      var store1 := if found.Some? then store[found.value := ApplyFields(store[found.value], body)]
                    else store;
      if !Gate(body, rec) then Written(FaqReply(200, Updated, rec), store1)
      else if body.targetLanguages.None? || body.question.None? || body.answer.None? then
        Written(Fail(Untyped), store1)
      else
        match GetTranslations(body.question.value, body.answer.value, body.targetLanguages.value,
                              RebuildLanguage(rec), p)
        case Failure(e) => Written(Fail(Api(e)), store1)
        case Success(m) =>
          if found.None? then Written(FaqReply(200, Updated, None), store1)
          else if !Storable(m) || rec.value.originalLanguage == "" then
            // `save()` re-validates the loaded document and throws
            Written(Fail(Untyped), store1)
          else
            var i := found.value;
            Written(FaqReply(200, Updated, Some(rec.value.(translations := Some(m)))),
                    store1[i := store1[i].(translations := Some(m))])
  }

  /** An update that only changes the category of an existing record still
      opens the gate, iterates the missing target list and fails with a
      500; the category change is already stored and the translations are
      untouched. */
  lemma CategoryOnlyUpdateFails(store: FaqStore, id: string, category: string, p: Provider)
    requires id != "" && id in Ids(store)
    ensures var w := UpdateFaq(store, id, UpdateBody(None, None, Some(category), None, None), p);
      var i := Find(store, id).value;
      && w.reply == FaqReply(500, InternalServerError, None)
      && w.store == store[i := store[i].(category := Some(category))]
  {
  }

  /** A record whose stored original language is empty (an earlier update
      committed it without validation): the rebuild runs under English,
      but saving the loaded record fails its required language, so the
      update answers 500 with only the field update stored. */
  lemma EmptyStoredLanguageFails(p: Provider)
    ensures var r := FaqRecord("1", "", Published, Some(map["" := Translation("q", "a")]),
                               None, [], None);
      var w := UpdateFaq([r], "1", UpdateBody(Some("Q"), Some("A"), None, Some([]), None), p);
      w == Written(FaqReply(500, InternalServerError, None), [r])
  {
    var r := FaqRecord("1", "", Published, Some(map["" := Translation("q", "a")]), None, [], None);
    assert Find([r], "1") == Some(0);
    assert ApplyFields(r, UpdateBody(Some("Q"), Some("A"), None, Some([]), None)) == r;
  }

  /** A record in English updated to French: the record now says French,
      but its map was rebuilt from English and holds no French text, so a
      published record loses its source entry. */
  lemma LanguageChangeDropsSource(p: Provider)
    ensures var r := FaqRecord("1", "en", Published, Some(map["en" := Translation("Q", "A")]),
                               None, ["en"], None);
      var w := UpdateFaq([r], "1", UpdateBody(Some("Q2"), Some("A2"), None, Some([]), Some("fr")), p);
      && w.reply.status == 200
      && w.store[0].originalLanguage == "fr"
      && w.store[0].translations == Some(map["en" := Translation("Q2", "A2")])
      && GoodStore([r]) && !GoodStore(w.store)
  {
  }

  // ---------------------------------------------------------------------
  // updateFaq, corrected

  /** The stored source text: the entry under the record's original
      language. */
  function StoredText(rec: FaqRecord): Option<Translation>
  {
    if rec.translations.Some? && rec.originalLanguage in rec.translations.value
    then Some(rec.translations.value[rec.originalLanguage])
    else None
  }

  /** The text to rebuild from: the supplied question and answer, each
      defaulting to the stored one; none when a part is missing and there
      is no stored text to take it from. */
  function RebuildText(body: UpdateBody, rec: FaqRecord): (t: Option<Translation>)
    ensures t.None? <==> (body.question.None? || body.answer.None?) && StoredText(rec).None?
    ensures t.Some? && body.question.Some? ==> t.value.question == body.question.value
    ensures t.Some? && body.answer.Some? ==> t.value.answer == body.answer.value
    ensures t.Some? && body.question.None? ==> t.value.question == StoredText(rec).value.question
    ensures t.Some? && body.answer.None? ==> t.value.answer == StoredText(rec).value.answer
  {
    var text := StoredText(rec);
    if (body.question.None? || body.answer.None?) && text.None? then None
    else
      Some(Translation(if body.question.Some? then body.question.value else text.value.question,
                       if body.answer.Some? then body.answer.value else text.value.answer))
  }

  /** The gate the handler's comment describes: re-translate only when a
      supplied question, answer, target list or original language differs
      in value from the record's. */
  predicate GateByValue(body: UpdateBody, rec: FaqRecord)
  {
    var text := StoredText(rec);
    || (body.question.Some? && (text.None? || body.question.value != text.value.question))
    || (body.answer.Some? && (text.None? || body.answer.value != text.value.answer))
    || (body.targetLanguages.Some? && body.targetLanguages.value != rec.targetLanguages)
    || (body.originalLanguage.Some? && body.originalLanguage.value != rec.originalLanguage)
  }

  /** `updateFaq` with the value gate, rebuilding from the updated record's
      text, targets and original language, and writing nothing unless the
      whole update succeeds. */
  function UpdateFaqByValue(store: FaqStore, id: string, body: UpdateBody, p: Provider): (w: Written)
    ensures id == "" ==> w == Written(FaqReply(400, "Id is required", None), store)
    ensures |w.store| == |store|
    ensures w.reply.status != 200 ==> w.store == store
    ensures forall j :: 0 <= j < |store| && (id == "" || Find(store, id) != Some(j)) ==>
              w.store[j] == store[j]
    ensures id != "" && Find(store, id).Some? && w.reply.status == 200 ==>
              var i := Find(store, id).value;
              && w.store[i].(translations := store[i].translations) == ApplyFields(store[i], body)
              && w.reply.faq == Some(w.store[i])
              && (!GateByValue(body, store[i]) ==> w.store[i].translations == store[i].translations)
    // an open gate rebuilds from the updated record's targets and language
    // and saves the fields and the map together, or saves nothing
    ensures id != "" && Find(store, id).Some? ==>
              var i := Find(store, id).value;
              var u := ApplyFields(store[i], body);
              var t := RebuildText(body, store[i]);
              && (GateByValue(body, store[i]) && t.None? ==>
                    w == Written(FaqReply(200, Updated, Some(u)), store[i := u]))
              && (GateByValue(body, store[i]) && t.Some? ==>
                match GetTranslations(t.value.question, t.value.answer, u.targetLanguages,
                                      u.originalLanguage, p)
                case Failure(_) => w == Written(FaqReply(500, "Translation failed", None), store)
                case Success(m) =>
                  if Storable(m) && u.originalLanguage != "" then
                    w == Written(FaqReply(200, Updated, Some(u.(translations := Some(m)))),
                                 store[i := u.(translations := Some(m))])
                  else w == Written(FaqReply(500, InternalServerError, None), store))
  {
    if id == "" then Written(Fail(Api(ApiError("Id is required", 400))), store)
    else
      match Find(store, id)
      case None => Written(FaqReply(200, Updated, None), store)
      case Some(i) =>
        var rec := store[i];
        var updated := ApplyFields(rec, body);
        var text := RebuildText(body, rec);
        if !GateByValue(body, rec) then
          Written(FaqReply(200, Updated, Some(updated)), store[i := updated])
        else if text.None? then
          Written(FaqReply(200, Updated, Some(updated)), store[i := updated])
        else
          var q := text.value.question;
          var a := text.value.answer;
          match GetTranslations(q, a, updated.targetLanguages, updated.originalLanguage, p)
          case Failure(e) => Written(Fail(Api(e)), store)
          case Success(m) =>
            if !Storable(m) || updated.originalLanguage == "" then Written(Fail(Untyped), store)
            else
              var saved := updated.(translations := Some(m));
              Written(FaqReply(200, Updated, Some(saved)), store[i := saved])
  }

  /** With the value gate, a category-only update succeeds, changes the
      category and nothing else, and asks the provider for nothing. */
  lemma CategoryOnlyUpdateKeepsTranslations(store: FaqStore, id: string, category: string,
                                            p: Provider)
    requires id != "" && id in Ids(store)
    ensures var w := UpdateFaqByValue(store, id, UpdateBody(None, None, Some(category), None, None), p);
      var i := Find(store, id).value;
      && w.reply.status == 200
      && w.store == store[i := store[i].(category := Some(category))]
  {
  }

  /** The corrected update keeps ids unique and every published record's
      source text present. */
  lemma UpdateByValueKeepsStoreGood(store: FaqStore, id: string, body: UpdateBody, p: Provider)
    requires GoodStore(store)
    ensures GoodStore(UpdateFaqByValue(store, id, body, p).store)
  {
  }
}
