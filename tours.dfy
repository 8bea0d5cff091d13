/** The tours table and the fields the admin tour routes write. */
module Tours {
  import opened Js
  import opened Sql

  /** The base columns the create and update routes write. */
  const BaseColumns: seq<string> :=
    ["title", "description", "price", "duration", "dates", "location", "banner_image", "image_urls"]

  /** The fields a create or update request must carry, each truthy. */
  const RequiredFields: seq<string> := ["title", "description", "price", "duration", "dates", "location"]

  /** The per-language columns the multilingual migration adds. */
  const LocalizedColumns: seq<string> :=
    ["title_en", "title_th", "title_zh", "description_en", "description_th", "description_zh",
     "location_en", "location_th", "location_zh"]

  predicate Schema(t: TableState) {
    && WellFormed(t)
    && (forall c | c in BaseColumns :: c in t.columns)
    && "updated_at" in t.columns
  }

  /** `!title || !description || !price || !duration || !dates || !location` is false. */
  predicate HasRequired(body: Record) {
    forall f | f in RequiredFields :: Truthy(Field(body, f))
  }

  /** The values bound to the base columns: missing images become `null` and `'[]'`. */
  function TourValues(body: Record): (r: Row)
    ensures r.Keys == set c | c in BaseColumns
  {
    map c | c in BaseColumns ::
      if c == "banner_image" then Or(Field(body, c), Null)
      else if c == "image_urls" then Or(Field(body, c), Str("[]"))
      else Field(body, c)
  }

  /** The required fields are bound as given; missing images become `null` and `'[]'`. */
  lemma TourValuesBind(body: Record)
    ensures var r := TourValues(body);
      && (forall f | f in RequiredFields :: r[f] == Field(body, f))
      && r["banner_image"] == (if Truthy(Field(body, "banner_image")) then Field(body, "banner_image") else Null)
      && r["image_urls"] == (if Truthy(Field(body, "image_urls")) then Field(body, "image_urls") else Str("[]"))
  {
    RequiredBound(body);
  }

  lemma RequiredBound(body: Record)
    ensures forall f | f in RequiredFields :: TourValues(body)[f] == Field(body, f)
  {
    assert forall f | f in RequiredFields :: f in BaseColumns && f != "banner_image" && f != "image_urls";
  }

  /** A table with the schema has every column the routes bind, and they never bind `id`. */
  lemma ValuesFitSchema(t: TableState, body: Record)
    requires Schema(t)
    ensures HasColumns(t, TourValues(body).Keys) && "id" !in TourValues(body)
  {
    var v := TourValues(body);
    forall c | c in v ensures c in t.columns {
      assert c in BaseColumns;
    }
  }

  /** The routes' base columns and the per-language columns are disjoint. */
  lemma LocalizedAreNotBase()
    ensures forall c | c in LocalizedColumns :: c !in BaseColumns && c != "updated_at"
  {
  }
}
