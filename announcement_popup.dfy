/**
 * The announcement popup (components/AnnouncementPopup.js): shown unless this announcement
 * was dismissed less than 24 hours ago, as recorded in the browser's local storage.
 */
module AnnouncementPopup {
  import opened Wrappers
  import opened Strings

  const IdKey := "dismissedAnnouncementId"
  const AtKey := "dismissedAnnouncementAt"

  /** 24 hours in milliseconds */
  const DismissalPeriod := 24 * 60 * 60 * 1000

  /** `localStorage`: string values by key. */
  type Storage = map<string, string>

  /** `localStorage.getItem(key)`, `None` for `null`. */
  function Item(storage: Storage, key: string): Option<string> {
    if key in storage then Some(storage[key]) else None
  }

  /** A stored string is truthy when it is present and non-empty. */
  predicate Present(v: Option<string>) {
    v.Some? && v.value != ""
  }

  /**
   * `shouldShow` for announcement `id` at time `now`: never dismissed, another announcement
   * dismissed, or this one dismissed more than 24 hours ago (`NaN` from `parseInt` compares false).
   */
  predicate ShouldShow(storage: Storage, id: int, now: int)
    ensures !ShouldShow(storage, id, now) ==> IdKey in storage && storage[IdKey] == IntToString(id)
  {
    var dismissedId := Item(storage, IdKey);
    var dismissedAt := Item(storage, AtKey);
    || !Present(dismissedId)
    || dismissedId.value != IntToString(id)
    || (Present(dismissedAt) && ParseInt(dismissedAt.value).Some? && now - ParseInt(dismissedAt.value).value > DismissalPeriod)
  }

  /** The popup's decision, case by case. */
  lemma ShowRule(storage: Storage, id: int, now: int)
    ensures IdKey !in storage ==> ShouldShow(storage, id, now)
    ensures IdKey in storage && storage[IdKey] != IntToString(id) ==> ShouldShow(storage, id, now)
    ensures IdKey in storage && storage[IdKey] == IntToString(id) && AtKey !in storage ==> !ShouldShow(storage, id, now)
    ensures IdKey in storage && storage[IdKey] == IntToString(id) && AtKey in storage && ParseInt(storage[AtKey]).Some? ==>
      (ShouldShow(storage, id, now) <==> now - ParseInt(storage[AtKey]).value > DismissalPeriod)
  {
    if IdKey in storage && storage[IdKey] == IntToString(id) && AtKey in storage && ParseInt(storage[AtKey]).Some? {
      if storage[AtKey] == "" {
        assert TrimStart("") == "";
      }
    }
  }

  /** The popup of one announcement. */
  class Popup {
    const id: int
    var storage: Storage
    var isVisible: bool
    var isAnimating: bool

    constructor (id: int, storage: Storage)
      ensures this.id == id && this.storage == storage && !isVisible && !isAnimating
    {
      this.id := id;
      this.storage := storage;
      isVisible, isAnimating := false, false;
    }

    /** The mount effect, with its 500 ms delay elapsed. */
    method Mount(now: int)
      modifies this
      ensures storage == old(storage)
      ensures ShouldShow(storage, id, now) ==> isVisible && isAnimating
      ensures !ShouldShow(storage, id, now) ==> isVisible == old(isVisible) && isAnimating == old(isAnimating)
    {
      if ShouldShow(storage, id, now) {
        isVisible := true;
        isAnimating := true;
      }
    }

    /** `handleDismiss()` at time `now`, with its 300 ms delay elapsed. */
    method Dismiss(now: nat)
      modifies this
      ensures storage == old(storage)[IdKey := IntToString(id)][AtKey := IntToString(now)]
      ensures !isVisible && !isAnimating
    {
      isAnimating := false;
      storage := storage[IdKey := IntToString(id)];
      storage := storage[AtKey := IntToString(now)];
      isVisible := false;
    }
  }

  /** After a dismissal the popup stays hidden for exactly 24 hours and shows again after that. */
  lemma DismissalLastsADay(storage: Storage, id: int, dismissedAt: nat, now: int)
    ensures var s := storage[IdKey := IntToString(id)][AtKey := IntToString(dismissedAt)];
      ShouldShow(s, id, now) <==> now - dismissedAt > DismissalPeriod
  {
    ParseIntNatToString(dismissedAt);
  }

  /** Dismissing one announcement does not hide another. */
  lemma OtherAnnouncementStillShows(storage: Storage, id: int, other: int, dismissedAt: nat, now: int)
    requires other != id
    ensures ShouldShow(storage[IdKey := IntToString(id)][AtKey := IntToString(dismissedAt)], other, now)
  {
    if IntToString(id) == IntToString(other) {
      IntToStringInjective(id, other);
    }
  }
}
