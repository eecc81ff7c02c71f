/** The FAQ record as the schema and the type declarations define it. */
module FaqTypes {
  import opened Wrappers

  /** One language's text of an FAQ. */
  datatype Translation = Translation(question: string, answer: string)

  /** Language code to text. */
  type TranslationMap = map<string, Translation>

  /** Publication status; only `Published` records are listed publicly. */
  datatype Status = Draft | Published | Archived

  /** A stored FAQ. `translations` is `None` when the field is unset or is
      not a Map; `targetLanguages` is a schema array and so is always
      present (empty by default); `createdBy` holds an admin id.
      Timestamps are not modelled. */
  datatype FaqRecord = FaqRecord(
    id: string,
    originalLanguage: string,
    status: Status,
    translations: Option<TranslationMap>,
    category: Option<string>,
    targetLanguages: seq<string>,
    createdBy: Option<string>)

  /** The FAQ collection, in its natural (insertion) order. */
  type FaqStore = seq<FaqRecord>

  /** The ids present in a store. */
  function Ids(store: FaqStore): set<string>
  {
    set i | 0 <= i < |store| :: store[i].id
  }
}
