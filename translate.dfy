/**
 * Automatic translation of tour and announcement texts (lib/translate.js). The HTTP
 * translator is a parameter: for a text and a language pair it answers with a thrown
 * error, a non-ok response, or a body whose JSON parse may fail.
 */
module Translate {
  import opened Wrappers
  import opened Js

  /** What `fetch(url)` followed by `response.json()` yields. */
  datatype Reply =
    | Threw                      // `fetch` rejected
    | NotOk                      // `response.ok` is false
    | Body(data: Option<Value>)  // `None`: `response.json()` rejected

  /** The translator: a reply for (text, target language, source language). */
  type Translator = (Value, string, string) -> Reply

  /** `data[0][0][0]` when `data && data[0] && data[0][0] && data[0][0][0]` holds. */
  function Translated(data: Value): (r: Option<Value>)
    ensures r.Some? ==> Truthy(r.value)
  {
    if Truthy(data) && Truthy(First(data)) && Truthy(First(First(data))) && Truthy(First(First(First(data)))) then
      Some(First(First(First(data))))
    else None
  }

  /** The translation the translator's reply carries, if any. */
  function Answer(reply: Reply): (r: Option<Value>)
    ensures r.Some? ==> reply.Body? && reply.data.Some? && r == Translated(reply.data.value)
  {
    match reply
    case Body(Some(data)) => Translated(data)
    case _ => None
  }

  /** `translateText(text, targetLang, sourceLang)`; it never throws. */
  function TranslateText(text: Value, target: string, source: string, translate: Translator): (r: Value)
    ensures !Truthy(text) || source == target ==> r == text
    ensures Truthy(text) && source != target ==>
      r == (if Answer(translate(text, target, source)).Some? then Answer(translate(text, target, source)).value else text)
    ensures Truthy(r) <==> Truthy(text)
  {
    if !Truthy(text) || source == target then text
    else
      match Answer(translate(text, target, source))
      case Some(t) => t
      case None => text
  }

  /** A thrown error, a non-ok response, an unreadable body or an unexpected shape: the text comes back as it was. */
  lemma FailureKeepsText(text: Value, target: string, source: string, translate: Translator)
    requires Answer(translate(text, target, source)).None?
    ensures TranslateText(text, target, source, translate) == text
  {
  }

  /** The shape `[[[translated, original, ...]]]` yields its innermost first string. */
  lemma WellShapedReply(text: Value, target: string, source: string, translate: Translator, translated: string, rest: seq<Value>)
    requires Truthy(text) && source != target && translated != []
    requires translate(text, target, source) == Body(Some(Arr([Arr([Arr([Str(translated)] + rest)])])))
    ensures TranslateText(text, target, source, translate) == Str(translated)
  {
    var inner := Arr([Str(translated)] + rest);
    assert First(Arr([Arr([inner])])) == Arr([inner]);
    assert First(Arr([inner])) == inner;
    assert First(inner) == Str(translated);
  }

  /** A translator that never delivers a translation. */
  ghost predicate NeverTranslates(translate: Translator) {
    forall text, target, source :: Answer(translate(text, target, source)).None?
  }

  /** The nine per-language tour fields. */
  const TourFieldNames: set<string> := {
    "title_en", "description_en", "location_en",
    "title_th", "description_th", "location_th",
    "title_zh", "description_zh", "location_zh"
  }

  /** The record of the nine per-language fields, from one text per field and language. */
  function TourFields(title: Value, description: Value, location: Value,
                      titleTh: Value, descriptionTh: Value, locationTh: Value,
                      titleZh: Value, descriptionZh: Value, locationZh: Value): (r: Record)
    ensures r.Keys == TourFieldNames
    ensures r["title_en"] == title && r["description_en"] == description && r["location_en"] == location
    ensures r["title_th"] == titleTh && r["description_th"] == descriptionTh && r["location_th"] == locationTh
    ensures r["title_zh"] == titleZh && r["description_zh"] == descriptionZh && r["location_zh"] == locationZh
  {
    map["title_en" := title, "description_en" := description, "location_en" := location,
        "title_th" := titleTh, "description_th" := descriptionTh, "location_th" := locationTh,
        "title_zh" := titleZh, "description_zh" := descriptionZh, "location_zh" := locationZh]
  }

  /**
   * `translateTourFields(tourData)`: the input with the nine per-language fields set, English
   * copied from the base fields and Thai and Chinese translated from English. Its catch branch
   * cannot be taken, because `translateText` never throws.
   */
  function TranslateTourFields(tourData: Record, translate: Translator): (r: Record)
    ensures r.Keys == tourData.Keys + TourFieldNames
    ensures forall k | k in tourData && k !in TourFieldNames :: r[k] == tourData[k]
    ensures r["title_en"] == Field(tourData, "title")
    ensures r["description_en"] == Field(tourData, "description")
    ensures r["location_en"] == Field(tourData, "location")
    ensures r["title_th"] == TranslateText(Field(tourData, "title"), "th", "en", translate)
    ensures r["description_th"] == TranslateText(Field(tourData, "description"), "th", "en", translate)
    ensures r["location_th"] == TranslateText(Field(tourData, "location"), "th", "en", translate)
    ensures r["title_zh"] == TranslateText(Field(tourData, "title"), "zh", "en", translate)
    ensures r["description_zh"] == TranslateText(Field(tourData, "description"), "zh", "en", translate)
    ensures r["location_zh"] == TranslateText(Field(tourData, "location"), "zh", "en", translate)
  {
    var title, description, location := Field(tourData, "title"), Field(tourData, "description"), Field(tourData, "location");
    var fields := TourFields(
      title, description, location,
      TranslateText(title, "th", "en", translate), TranslateText(description, "th", "en", translate),
      TranslateText(location, "th", "en", translate),
      TranslateText(title, "zh", "en", translate), TranslateText(description, "zh", "en", translate),
      TranslateText(location, "zh", "en", translate));
    tourData + fields
  }

  /** The base field a per-language field is copied or translated from. */
  function BaseField(k: string): string {
    if k in {"title_en", "title_th", "title_zh"} then "title"
    else if k in {"description_en", "description_th", "description_zh"} then "description"
    else "location"
  }

  /** The record the catch branch of `translateTourFields` would return: every variant is the original. */
  function UntranslatedTourFields(tourData: Record): (r: Record)
    ensures r.Keys == tourData.Keys + TourFieldNames
    ensures forall k | k in TourFieldNames :: r[k] == Field(tourData, BaseField(k))
  {
    var title, description, location := Field(tourData, "title"), Field(tourData, "description"), Field(tourData, "location");
    tourData + TourFields(title, description, location, title, description, location, title, description, location)
  }

  /** When no translation comes back, the result is exactly what the catch branch would have built. */
  lemma FailedTranslationMatchesFallback(tourData: Record, translate: Translator)
    requires NeverTranslates(translate)
    ensures TranslateTourFields(tourData, translate) == UntranslatedTourFields(tourData)
  {
    var title, description, location := Field(tourData, "title"), Field(tourData, "description"), Field(tourData, "location");
    FailureKeepsText(title, "th", "en", translate);
    FailureKeepsText(description, "th", "en", translate);
    FailureKeepsText(location, "th", "en", translate);
    FailureKeepsText(title, "zh", "en", translate);
    FailureKeepsText(description, "zh", "en", translate);
    FailureKeepsText(location, "zh", "en", translate);
  }

  /** `translateAnnouncementMessage(message)`; its catch branch cannot be taken either. */
  function TranslateAnnouncementMessage(message: Value, translate: Translator): (r: Record)
    ensures r.Keys == {"message_en", "message_th", "message_zh"}
    ensures r["message_en"] == message
    ensures r["message_th"] == TranslateText(message, "th", "en", translate)
    ensures r["message_zh"] == TranslateText(message, "zh", "en", translate)
  {
    map["message_en" := message,
        "message_th" := TranslateText(message, "th", "en", translate),
        "message_zh" := TranslateText(message, "zh", "en", translate)]
  }

  /** Without a translation every variant is the message, as the catch branch would return. */
  lemma FailedMessageTranslation(message: Value, translate: Translator)
    requires NeverTranslates(translate)
    ensures TranslateAnnouncementMessage(message, translate) ==
      map["message_en" := message, "message_th" := message, "message_zh" := message]
  {
    FailureKeepsText(message, "th", "en", translate);
    FailureKeepsText(message, "zh", "en", translate);
  }

  /** A message that is present stays present in every language. */
  lemma MessageStaysPresent(message: Value, translate: Translator)
    ensures var r := TranslateAnnouncementMessage(message, translate);
      forall k | k in r :: Truthy(r[k]) <==> Truthy(message)
  {
  }
}
