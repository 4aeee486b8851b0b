/** Item sizes per slab class: mc_generate_profile in mc.c and _slab_id in
    mc_slabs.c. */
module Profile {
  import opened Basics

  const SLABCLASS_MIN_ID := 1
  const SLABCLASS_MAX_ID := 254
  const SLABCLASS_INVALID_ID := 255

  /** sizeof(unsigned long) */
  const MC_ALIGNMENT := 8

  /** MC_ALIGN */
  function Align(n: nat): (r: nat)
    ensures n <= r < n + MC_ALIGNMENT && r % MC_ALIGNMENT == 0
  {
    (n + MC_ALIGNMENT - 1) / MC_ALIGNMENT * MC_ALIGNMENT
  }

  /** The size after sz: grown by the factor, by at least one byte, and aligned. */
  function NextSize(sz: nat, factor: real): (r: nat)
    requires factor > 1.0
    ensures r > sz && r % MC_ALIGNMENT == 0
    ensures sz as real * factor - 1.0 < r as real <= sz as real * factor + MC_ALIGNMENT as real
  {
    var grown := Grown(sz, factor);
    Align(if grown == sz then grown + 1 else grown)
  }

  /** The conversion to size_t drops the fraction. */
  function Grown(sz: nat, factor: real): (r: nat)
    requires factor > 1.0
    ensures sz <= r && r as real <= sz as real * factor < r as real + 1.0
  {
    Grows(sz as real, factor);
    FloorAtLeast(sz as real * factor, sz);
    (sz as real * factor).Floor
  }

  lemma FloorAtLeast(x: real, n: int)
    requires x >= n as real
    ensures x.Floor >= n
  {
  }

  lemma Grows(sz: real, factor: real)
    requires factor > 1.0 && sz >= 0.0
    ensures sz * factor >= sz
  {
    assert sz * factor - sz == sz * (factor - 1.0);
  }

  /** No smaller size would do: it is the least multiple of the alignment that is larger
      and short of the growth factor by less than one byte. */
  lemma NextSizeIsLeast(sz: nat, factor: real, m: nat)
    requires factor > 1.0 && m > sz && m % MC_ALIGNMENT == 0 && m as real > sz as real * factor - 1.0
    ensures NextSize(sz, factor) <= m
  {
    var grown := Grown(sz, factor);
    assert m >= grown;
    AlignIsLeast(if grown == sz then grown + 1 else grown, m);
  }

  lemma AlignIsLeast(n: nat, m: nat)
    requires m >= n && m % MC_ALIGNMENT == 0
    ensures Align(n) <= m
  {
  }

  /** Class sizes go up strictly from the first id to the last. */
  ghost predicate Ascending(profile: seq<nat>, last: nat) {
    && SLABCLASS_MIN_ID <= last < |profile|
    && forall i, j :: SLABCLASS_MIN_ID <= i < j <= last ==> profile[i] < profile[j]
  }

  /** Class i has the size after that of the class before it. */
  ghost predicate Follows(profile: seq<nat>, i: nat, next: nat -> nat)
    requires 0 < i < |profile|
  {
    profile[i] == next(profile[i-1])
  }

  lemma FollowsPrefix(was: seq<nat>, profile: seq<nat>, end: nat, next: nat -> nat)
    requires end <= |profile| == |was| && forall i :: 0 <= i < end ==> profile[i] == was[i]
    requires forall i :: SLABCLASS_MIN_ID < i < end ==> Follows(was, i, next)
    ensures forall i :: SLABCLASS_MIN_ID < i < end ==> Follows(profile, i, next)
  {
    forall i | SLABCLASS_MIN_ID < i < end ensures Follows(profile, i, next) {
      assert Follows(was, i, next);
    }
  }

  /** Ascending sizes from the chunk size to the slab size, each the next after the
      one before, unless the ids run out. */
  ghost predicate Generated(profile: seq<nat>, last: nat, chunk: nat, max: nat, next: nat -> nat) {
    && last <= SLABCLASS_MAX_ID && Ascending(profile, last)
    && profile[last] == max && (last > SLABCLASS_MIN_ID ==> profile[SLABCLASS_MIN_ID] == chunk)
    && (forall i :: SLABCLASS_MIN_ID < i < last ==> Follows(profile, i, next))
    && (SLABCLASS_MIN_ID < last < SLABCLASS_MAX_ID ==> next(profile[last-1]) >= max)
    && (last == SLABCLASS_MIN_ID ==> chunk >= max)
  }

  /** The ids suffice: the last class, too, is no larger than the next size. */
  predicate Gapless(profile: seq<nat>, last: nat, max: nat, next: nat -> nat)
    requires last < |profile|
  {
    last <= SLABCLASS_MIN_ID || next(profile[last-1]) >= max
  }

  /** The n-th size after sz. */
  function Iter(next: nat -> nat, sz: nat, n: nat): nat {
    if n == 0 then sz else next(Iter(next, sz, n - 1))
  }

  lemma {:induction false} IterGrows(next: nat -> nat, sz: nat, n: nat, m: nat)
    requires n <= m && forall x :: next(x) > x
    ensures Iter(next, sz, n) <= Iter(next, sz, m)
    decreases m
  {
    if n < m {
      IterGrows(next, sz, n, m - 1);
    }
  }

  lemma {:induction false} SizesAreIterates(profile: seq<nat>, last: nat, chunk: nat, max: nat, next: nat -> nat, i: nat)
    requires Generated(profile, last, chunk, max, next) && SLABCLASS_MIN_ID <= i < last
    ensures profile[i] == Iter(next, chunk, i - 1)
    decreases i
  {
    if i > SLABCLASS_MIN_ID {
      SizesAreIterates(profile, last, chunk, max, next, i - 1);
      assert Follows(profile, i, next);
    }
  }

  /** The ids suffice exactly when as many steps as there are ids, less one, take the chunk
      size to the slab size. */
  lemma IdsSuffice(profile: seq<nat>, last: nat, chunk: nat, max: nat, next: nat -> nat)
    requires Generated(profile, last, chunk, max, next) && forall x :: next(x) > x
    ensures Gapless(profile, last, max, next) <==> Iter(next, chunk, SLABCLASS_MAX_ID - SLABCLASS_MIN_ID) >= max
  {
    IterGrows(next, chunk, last - 1, SLABCLASS_MAX_ID - SLABCLASS_MIN_ID);
    if last == SLABCLASS_MIN_ID {
      assert Iter(next, chunk, last - 1) == chunk;
    } else {
      SizesAreIterates(profile, last, chunk, max, next, last - 1);
      assert Iter(next, chunk, last - 1) == next(profile[last-1]);
    }
  }

  function Pow(x: real, n: nat): real {
    if n == 0 then 1.0 else x * Pow(x, n - 1)
  }

  /** Where powers of the factor lead from d above a. */
  function Curve(factor: real, a: real, d: real, n: nat): real {
    Pow(factor, n) * d + a
  }

  predicate ShortByLessThanOne(x: nat, y: nat, factor: real) {
    y as real > x as real * factor - 1.0
  }

  lemma CurveStep(x: nat, y: nat, factor: real, a: real, d: real, n: nat)
    requires factor > 1.0 && a * (factor - 1.0) == 1.0 && n > 0
    requires x as real >= Curve(factor, a, d, n - 1) && ShortByLessThanOne(x, y, factor)
    ensures y as real >= Curve(factor, a, d, n)
  {
    GrowthStep(x as real, y as real, factor, a, Pow(factor, n - 1), d);
  }

  lemma GrowthStep(x: real, y: real, factor: real, a: real, p: real, d: real)
    requires factor > 1.0 && a * (factor - 1.0) == 1.0 && x >= p * d + a && y > x * factor - 1.0
    ensures y >= (factor * p) * d + a
  {
    Scaled(p * d + a, x, factor);
    assert (p * d + a) * factor == (factor * p) * d + a * factor;
    assert a * factor == a + 1.0;
  }

  lemma {:induction false} AboveCurve(next: nat -> nat, sz: nat, factor: real, a: real, d: real, n: nat)
    requires factor > 1.0 && a * (factor - 1.0) == 1.0 && sz as real >= Curve(factor, a, d, 0)
    requires forall x: nat :: ShortByLessThanOne(x, next(x), factor)
    ensures Iter(next, sz, n) as real >= Curve(factor, a, d, n)
    decreases n
  {
    if n > 0 {
      AboveCurve(next, sz, factor, a, d, n - 1);
      CurveStep(Iter(next, sz, n - 1), Iter(next, sz, n), factor, a, d, n);
    }
  }

  /** With a = 1 / (factor - 1), the sizes lie on or above a + factor^n (chunk - a); so the
      ids suffice when that reaches the slab size. */
  lemma GrowsGeometrically(profile: seq<nat>, last: nat, chunk: nat, max: nat, factor: real, a: real)
    requires factor > 1.0 && a * (factor - 1.0) == 1.0 && Generated(profile, last, chunk, max, NextBy(factor))
    requires Curve(factor, a, chunk as real - a, SLABCLASS_MAX_ID - SLABCLASS_MIN_ID) >= max as real
    ensures Gapless(profile, last, max, NextBy(factor))
  {
    forall x: nat ensures ShortByLessThanOne(x, NextBy(factor)(x), factor) {
      var y := NextBound(x, factor);
    }
    assert Pow(factor, 0) == 1.0;
    AboveCurve(NextBy(factor), chunk, factor, a, chunk as real - a, SLABCLASS_MAX_ID - SLABCLASS_MIN_ID);
    IdsSuffice(profile, last, chunk, max, NextBy(factor));
  }

  /** The loop of mc_generate_profile for a given way of stepping to the next size. */
  method Fill(profile: array<nat>, chunk: nat, max: nat, next: nat -> nat) returns (last: nat)
    requires profile.Length == SLABCLASS_MAX_ID + 1 && chunk <= max
    requires forall n :: next(n) > n
    modifies profile
    ensures Generated(profile[..], last, chunk, max, next)
  {
    var id, itemSz := SLABCLASS_MIN_ID, chunk;
    while id < SLABCLASS_MAX_ID && itemSz < max
      invariant SLABCLASS_MIN_ID <= id <= SLABCLASS_MAX_ID
      invariant forall i, j :: SLABCLASS_MIN_ID <= i < j < id ==> profile[i] < profile[j]
      invariant forall i :: SLABCLASS_MIN_ID <= i < id ==> profile[i] < itemSz && profile[i] < max
      invariant if id == SLABCLASS_MIN_ID then itemSz == chunk
                else profile[SLABCLASS_MIN_ID] == chunk && itemSz == next(profile[id-1])
      invariant forall i :: SLABCLASS_MIN_ID < i < id ==> Follows(profile[..], i, next)
      decreases SLABCLASS_MAX_ID - id
    {
      ghost var was := profile[..];
      profile[id] := itemSz;
      FollowsPrefix(was, profile[..], id, next);
      id := id + 1;
      itemSz := next(itemSz);
    }
    ghost var was := profile[..];
    profile[id] := max;
    FollowsPrefix(was, profile[..], id, next);
    last := id;
  }

  function NextBy(factor: real): (next: nat -> nat)
    requires factor > 1.0
    ensures forall n :: next(n) > n
  {
    (n: nat) => NextSize(n, factor)
  }

  /** mc_generate_profile; returns profile_last_id. */
  method Generate(profile: array<nat>, chunk: nat, max: nat, factor: real) returns (last: nat)
    requires profile.Length == SLABCLASS_MAX_ID + 1
    requires chunk % MC_ALIGNMENT == 0 && chunk <= max && factor > 1.0
    modifies profile
    ensures Generated(profile[..], last, chunk, max, NextBy(factor))
  {
    last := Fill(profile, chunk, max, NextBy(factor));
  }

  /** The class an item of a given size goes to: the smallest that is large enough. */
  ghost predicate Fits(profile: seq<nat>, last: nat, size: nat, id: nat)
    requires Ascending(profile, last)
  {
    if id == SLABCLASS_INVALID_ID then forall i :: SLABCLASS_MIN_ID <= i <= last ==> profile[i] < size
    else
      && SLABCLASS_MIN_ID <= id <= last && size <= profile[id]
      && forall i :: SLABCLASS_MIN_ID <= i < id ==> profile[i] < size
  }

  /** From class to class, the last one apart, sizes grow by the factor, short of it by less
      than one byte and beyond it by no more than an alignment step. */
  lemma ClassesGrow(profile: seq<nat>, last: nat, chunk: nat, max: nat, factor: real, i: nat)
    requires factor > 1.0 && Generated(profile, last, chunk, max, NextBy(factor)) && SLABCLASS_MIN_ID < i < last
    ensures profile[i] % MC_ALIGNMENT == 0
    ensures profile[i-1] as real * factor - 1.0 < profile[i] as real
    ensures profile[i] as real <= profile[i-1] as real * factor + MC_ALIGNMENT as real
  {
    assert Follows(profile, i, NextBy(factor));
    var next := NextBound(profile[i-1], factor);
  }

  /** Between the smallest class and the largest, an item's slot exceeds the item by
      no more than the growth factor and one alignment step. */
  lemma WasteIsBounded(profile: seq<nat>, last: nat, chunk: nat, max: nat, factor: real, size: nat, id: nat)
    requires factor > 1.0 && Generated(profile, last, chunk, max, NextBy(factor))
    requires Gapless(profile, last, max, NextBy(factor))
    requires chunk < size <= max && Fits(profile, last, size, id)
    ensures SLABCLASS_MIN_ID < id <= last
    ensures size <= profile[id] && profile[id] as real <= size as real * factor + MC_ALIGNMENT as real
  {
    assert id != SLABCLASS_INVALID_ID;
    AtMostNext(profile, last, chunk, max, NextBy(factor), id);
    StepFrom(profile[id-1], profile[id], size, factor);
  }

  lemma AtMostNext(profile: seq<nat>, last: nat, chunk: nat, max: nat, next: nat -> nat, id: nat)
    requires Generated(profile, last, chunk, max, next) && Gapless(profile, last, max, next)
    requires SLABCLASS_MIN_ID < id <= last
    ensures profile[id] <= next(profile[id-1])
  {
    assert id < last ==> Follows(profile, id, next);
  }

  lemma StepFrom(sz: nat, next: nat, size: nat, factor: real)
    requires sz <= size && factor > 1.0 && next <= NextBy(factor)(sz)
    ensures next as real <= size as real * factor + MC_ALIGNMENT as real
  {
    var most := NextBound(sz, factor);
    StepIsBounded(sz as real, next as real, size as real, factor);
  }

  lemma NextBound(sz: nat, factor: real) returns (most: nat)
    requires factor > 1.0
    ensures most == NextBy(factor)(sz) && most % MC_ALIGNMENT == 0
    ensures sz as real * factor - 1.0 < most as real <= sz as real * factor + MC_ALIGNMENT as real
  {
    most := NextSize(sz, factor);
  }

  lemma StepIsBounded(sz: real, next: real, size: real, factor: real)
    requires sz <= size && factor > 1.0 && next <= sz * factor + MC_ALIGNMENT as real
    ensures next <= size * factor + MC_ALIGNMENT as real
  {
    Scaled(sz, size, factor);
  }

  /** _slab_id */
  method SlabId(profile: seq<nat>, last: nat, size: nat) returns (id: nat)
    requires Ascending(profile, last) && last <= SLABCLASS_MAX_ID
    ensures Fits(profile, last, size, id)
    ensures id == SLABCLASS_INVALID_ID <==> size > profile[last]
  {
    var imin, imax := SLABCLASS_MIN_ID, last;
    id := SLABCLASS_INVALID_ID;
    while imax >= imin
      invariant SLABCLASS_MIN_ID <= imin <= last + 1 && SLABCLASS_MIN_ID <= imax <= last
      invariant forall i :: SLABCLASS_MIN_ID <= i < imin ==> profile[i] < size
      invariant imax < last ==> size <= profile[imax]
      decreases imax - imin
    {
      id := (imin + imax) / 2;
      if size > profile[id] {
        imin := id + 1;
      } else if id > SLABCLASS_MIN_ID && size <= profile[id-1] {
        imax := id - 1;
      } else {
        break;
      }
    }
    if imin > imax {
      return SLABCLASS_INVALID_ID;
    }
  }
}
