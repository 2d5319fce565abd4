// Slide-index arithmetic and per-slide 'active' flag lists, shared by the
// per-gallery rotator (Slideshows) and the modal lightbox (PhotoModal).
module Slides {

  datatype Option<T> = None | Some(value: T)

  /** How an event handler ended: normally, or by raising a TypeError midway. */
  datatype Outcome = Done | Threw

  /** One '.slideshow-image' as read from the markup. */
  datatype Slide = Slide(src: string, alt: string)

  /**
   * The boundary handling of showSlide and showModalImage over n images:
   * a negative index becomes the last one, an index past the end becomes the
   * first one, anything else is kept. It is one step, not a modulo.
   * showSlide writes it as an if/else-if and showModalImage as two plain ifs;
   * the two agree for every n because n - 1 >= n never holds.
   */
  function Wrap(index: int, n: nat): (r: int)
    ensures n >= 1 ==> 0 <= r < n
    ensures 0 <= index < n ==> r == index
    ensures n == 0 ==> (r < 0 <==> index < 0)
  {
    if index < 0 then n - 1
    else if index >= n then 0
    else index
  }

  /** One step past either end is exactly arithmetic modulo n. */
  lemma WrapOneStepIsModulo(index: int, n: nat)
    requires n >= 1 && -1 <= index <= n
    ensures Wrap(index, n) == index % n
  {
    if index == -1 {
      assert (n - 1) % n == n - 1;
      ModAddPeriod(-1, n);
    } else if index == n {
      ModAddPeriod(0, n);
    }
  }

  /** Two steps past the end is not: Wrap(n + 1, n) is 0 while (n + 1) % n is 1. */
  lemma WrapIsNotModulo(n: nat)
    requires n >= 2
    ensures Wrap(n + 1, n) == 0 && (n + 1) % n == 1
  {
    ModAddPeriod(1, n);
  }

  lemma ModAddPeriod(x: int, n: nat)
    requires n >= 1
    ensures (x + n) % n == x % n
  {
    var a, b := (x + n) / n, (x + n) % n;
    var c, d := x / n, x % n;
    var k := a - c - 1;
    assert k * n == d - b by {
      assert a * n + b == c * n + d + n;
      assert k * n == a * n - c * n - n;
    }
    MulMonotone(k, n);
    MulMonotone(-k, n);
  }

  lemma MulMonotone(k: int, n: int)
    ensures k >= 1 && n >= 1 ==> k * n >= n
    decreases if k > 0 then k else 0
  {
    if k > 1 && n >= 1 {
      MulMonotone(k - 1, n);
      assert k * n == (k - 1) * n + n;
    }
  }

  /**
   * Where the rotator stands after k interval callbacks starting at index i:
   * each callback runs showSlide(currentIndex + 1).
   */
  function Advance(i: int, n: nat, k: nat): (r: int)
    requires n >= 1
    ensures k > 0 ==> 0 <= r < n
    ensures k == 0 ==> r == i
    decreases k
  {
    if k == 0 then i else Advance(Wrap(i + 1, n), n, k - 1)
  }

  /** From an index in range, k callbacks land at (i + k) mod n. */
  lemma {:induction false} AdvanceIsModulo(i: int, n: nat, k: nat)
    requires 0 <= i < n
    ensures Advance(i, n, k) == (i + k) % n
    decreases k
  {
    if k > 0 {
      var j := Wrap(i + 1, n);
      AdvanceIsModulo(j, n, k - 1);
      assert Advance(i, n, k) == (j + (k - 1)) % n;
      if i + 1 < n {
        assert j + (k - 1) == i + k;
      } else {
        assert j == 0;
        ModAddPeriod(k - 1, n);
        assert (k - 1) + n == i + k;
      }
    }
  }

  /** a callbacks followed by b callbacks are a + b callbacks. */
  lemma {:induction false} AdvanceCompose(i: int, n: nat, a: nat, b: nat)
    requires n >= 1
    ensures Advance(Advance(i, n, a), n, b) == Advance(i, n, a + b)
    decreases a
  {
    if a > 0 {
      AdvanceCompose(Wrap(i + 1, n), n, a - 1, b);
    }
  }

  /**
   * Array.prototype.findIndex over the 'active' flags: the position of the
   * first active image, or -1 when none is active.
   */
  function FindActive(flags: seq<bool>): (r: int)
    ensures -1 <= r < |flags|
    ensures r == -1 <==> forall j :: 0 <= j < |flags| ==> !flags[j]
    ensures r >= 0 ==> flags[r] && forall j :: 0 <= j < r ==> !flags[j]
  {
    if |flags| == 0 then -1
    else if flags[0] then 0
    else
      var r := FindActive(flags[1..]);
      if r == -1 then -1 else r + 1
  }

  /** Number of elements carrying the 'active' flag. */
  function CountActive(flags: seq<bool>): (c: nat)
    ensures c <= |flags|
  {
    if |flags| == 0 then 0
    else CountActive(flags[..|flags| - 1]) + (if flags[|flags| - 1] then 1 else 0)
  }

  /** Position k, and no other, carries the flag (k may lie outside the list). */
  ghost predicate OnlyActive(flags: seq<bool>, k: int)
  {
    forall j :: 0 <= j < |flags| ==> flags[j] == (j == k)
  }

  /** Flags set only at k hold exactly one active element when k is in range, none otherwise. */
  lemma {:induction false} OnlyActiveCount(flags: seq<bool>, k: int)
    requires OnlyActive(flags, k)
    ensures CountActive(flags) == if 0 <= k < |flags| then 1 else 0
    decreases |flags|
  {
    if |flags| > 0 {
      var init := flags[..|flags| - 1];
      assert OnlyActive(init, k) by {
        forall j | 0 <= j < |init| ensures init[j] == (j == k) {
          assert init[j] == flags[j];
        }
      }
      OnlyActiveCount(init, k);
    }
  }

  /** When position k alone is active, findIndex finds k. */
  lemma FindActiveOnly(flags: seq<bool>, k: int)
    requires 0 <= k < |flags| && OnlyActive(flags, k)
    ensures FindActive(flags) == k
  {
    assert flags[k];
  }
}
