/** The text a tour card shows and sends (components/TourCard.js). */
module TourCard {
  import opened Wrappers
  import opened Strings

  /** `maxLength`'s default */
  const DescriptionLength := 120

  /** `truncateDescription(text, maxLength)` */
  function Truncate(text: string, maxLength: nat): (r: string)
    ensures |text| <= maxLength ==> r == text
    ensures |text| > maxLength ==> r == text[..maxLength] + "..."
    ensures |r| <= maxLength + 3
    ensures StartsWith(text, r) || StartsWith(r, text[..maxLength])
  {
    if |text| <= maxLength then text else text[..maxLength] + "..."
  }

  /** Truncating a shown description again shows the same text. */
  lemma TruncateIdempotent(text: string, maxLength: nat)
    ensures Truncate(Truncate(text, maxLength), maxLength) == Truncate(text, maxLength)
  {
    if |text| > maxLength {
      var r := Truncate(text, maxLength);
      assert r[..maxLength] == text[..maxLength];
    }
  }

  /** The number the WhatsApp link opens: `NEXT_PUBLIC_WHATSAPP_NUMBER`, else the built-in one. */
  function WhatsappNumber(env: Option<string>): (r: string)
    ensures env.Some? && env.value != "" ==> r == env.value
    ensures env.None? || env.value == "" ==> r == "919800000000"
    ensures r != ""
  {
    if env.Some? && env.value != "" then env.value else "919800000000"
  }

  const MessageStart := "Hi! I'm interested in the tour: \""

  /** The WhatsApp message for a tour, from the text of its title, location and price. */
  function Message(title: string, location: string, price: string): string {
    MessageStart + title + "\" (" + location + ") - $" + price + ". Can you share more details?"
  }

  /** The message names the tour's title, location and price, at known places. */
  lemma MessageEmbedsTour(title: string, location: string, price: string)
    ensures var m := Message(title, location, price);
      && StartsWith(m, MessageStart + title + "\" (")
      && m[|MessageStart|..|MessageStart| + |title|] == title
      && Contains(m, title) && Contains(m, location) && Contains(m, price)
  {
    var m := Message(title, location, price);
    var withTitle := MessageStart + title;
    var beforeLocation := withTitle + "\" (";
    var withLocation := beforeLocation + location;
    var beforePrice := withLocation + ") - $";
    PrefixOfConcat(beforePrice + price, ". Can you share more details?");
    PieceAfter(m, beforePrice, price);
    PrefixOfPrefix(m, beforePrice, price);
    PrefixOfPrefix(m, withLocation, ") - $");
    PieceAfter(m, beforeLocation, location);
    PrefixOfPrefix(m, beforeLocation, location);
    PrefixOfPrefix(m, withTitle, "\" (");
    PieceAfter(m, MessageStart, title);
  }
}
