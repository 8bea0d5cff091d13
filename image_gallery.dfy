/**
 * The lightbox of a tour's photo gallery (components/ImageGallery.js): a selected index that
 * is opened, closed and stepped cyclically, from buttons or the keyboard.
 */
module ImageGallery {
  import opened Wrappers

  /** `prev > 0 ? prev - 1 : images.length - 1` */
  function Previous(i: int, n: int): (r: int)
    ensures i > 0 ==> r == i - 1
    ensures i <= 0 ==> r == n - 1
    ensures n >= 1 && 0 <= i < n ==> 0 <= r < n
  {
    if i > 0 then i - 1 else n - 1
  }

  /** `prev < images.length - 1 ? prev + 1 : 0` */
  function Next(i: int, n: int): (r: int)
    ensures i < n - 1 ==> r == i + 1
    ensures i >= n - 1 ==> r == 0
    ensures n >= 1 && 0 <= i < n ==> 0 <= r < n
  {
    if i < n - 1 then i + 1 else 0
  }

  /** The two moves undo each other on a valid index. */
  lemma StepsAreInverse(i: int, n: int)
    requires 0 <= i < n
    ensures Next(Previous(i, n), n) == i
    ensures Previous(Next(i, n), n) == i
  {
  }

  /** `k` moves forward. */
  function NextTimes(i: int, n: int, k: nat): int
  {
    if k == 0 then i else Next(NextTimes(i, n, k - 1), n)
  }

  /** Moving `a` and then `b` times forward is moving `a + b` times. */
  lemma {:induction false} NextTimesAdd(i: int, n: int, a: nat, b: nat)
    ensures NextTimes(i, n, a + b) == NextTimes(NextTimes(i, n, a), n, b)
  {
    if b > 0 {
      NextTimesAdd(i, n, a, b - 1);
    }
  }

  /** Before the last image, each move forward goes one image further. */
  lemma {:induction false} NextTimesClimbs(i: int, n: int, k: nat)
    requires 0 <= i && i + k < n
    ensures NextTimes(i, n, k) == i + k
  {
    if k > 0 {
      NextTimesClimbs(i, n, k - 1);
    }
  }

  /** Moving forward once per image comes back to the starting image. */
  lemma FullCycle(i: int, n: int)
    requires 0 <= i < n
    ensures NextTimes(i, n, n) == i
  {
    NextTimesAdd(i, n, n - 1 - i, 1 + i);
    NextTimesClimbs(i, n, n - 1 - i);
    NextTimesAdd(n - 1, n, 1, i);
    assert NextTimes(n - 1, n, 1) == 0;
    NextTimesClimbs(0, n, i);
  }

  /** The keys the lightbox listens to. */
  datatype Key = Escape | ArrowLeft | ArrowRight | Other

  /** `null` in `prev > 0` and `prev + 1` behaves as 0. */
  function Coerced(selected: Option<int>): int {
    if selected.Some? then selected.value else 0
  }

  /** The selection after one key press; no listener is attached while nothing is selected. */
  function AfterKey(selected: Option<int>, key: Key, n: int): (r: Option<int>)
    ensures selected.None? ==> r == None
    ensures selected.Some? && key == Escape ==> r == None
    ensures selected.Some? && key == ArrowLeft ==> r == Some(Previous(selected.value, n))
    ensures selected.Some? && key == ArrowRight ==> r == Some(Next(selected.value, n))
    ensures key == Other ==> r == selected
  {
    if selected.None? then None
    else match key
      case Escape => None
      case ArrowLeft => Some(Previous(selected.value, n))
      case ArrowRight => Some(Next(selected.value, n))
      case Other => selected
  }

  /** While the lightbox shows a valid image, every key leaves it closed or on a valid image. */
  lemma KeysKeepIndexValid(selected: Option<int>, key: Key, n: int)
    requires selected.Some? ==> 0 <= selected.value < n
    ensures var r := AfterKey(selected, key, n); r.Some? ==> 0 <= r.value < n
  {
  }

  /** The gallery's state: `images.length` and `selectedIndex`. */
  class Gallery {
    const count: nat
    var selected: Option<int>

    /** The selection is closed or on one of the images. */
    ghost predicate Valid()
      reads this
    {
      selected.Some? ==> 0 <= selected.value < count
    }

    constructor (count: nat)
      ensures this.count == count && selected == None && Valid()
    {
      this.count := count;
      selected := None;
    }

    /** `openLightbox(index)` */
    method Open(index: int)
      modifies this
      ensures selected == Some(index)
    {
      selected := Some(index);
    }

    /** `closeLightbox()` */
    method Close()
      modifies this
      ensures selected == None && Valid()
    {
      selected := None;
    }

    /** `goToPrevious()` */
    method GoToPrevious()
      modifies this
      ensures selected == Some(Previous(Coerced(old(selected)), count))
      ensures count >= 1 && old(Valid()) ==> Valid()
    {
      selected := Some(Previous(Coerced(selected), count));
    }

    /** `goToNext()` */
    method GoToNext()
      modifies this
      ensures selected == Some(Next(Coerced(old(selected)), count))
      ensures count >= 1 && old(Valid()) ==> Valid()
    {
      selected := Some(Next(Coerced(selected), count));
    }

    /** `handleKeyDown(e)`, while it is attached. */
    method KeyDown(key: Key)
      modifies this
      ensures selected == AfterKey(old(selected), key, count)
      ensures old(Valid()) ==> Valid()
    {
      if selected == None {
        return;
      }
      if key == Escape {
        Close();
      }
      if key == ArrowLeft {
        GoToPrevious();
      }
      if key == ArrowRight {
        GoToNext();
      }
    }
  }
}
